/**
 * The fixed-capacity LRU cache: a dictionary from each key to its node in a
 * doubly linked recency list (head = least recently used), and a separately
 * kept count. The list is the sequence of its nodes; a node is an object
 * whose entry Update overwrites in place.
 */
module CacheLRU {
  import opened Seqs
  import opened LruSpec

  /** A node of the recency list, holding one key-value pair. */
  class Node<K, V> {
    var item: KeyValuePair<K, V>

    constructor (item: KeyValuePair<K, V>)
      ensures this.item == item
    {
      this.item := item;
    }
  }

  /** The list and the index agree: the i-th node of the list is the index's node for the i-th key. */
  ghost predicate Linked<K, V>(lru: seq<Node<K, V>>, dict: map<K, Node<K, V>>, order: seq<K>)
  {
    && |lru| == |order|
    && forall i :: 0 <= i < |order| ==> order[i] in dict && lru[i] == dict[order[i]]
  }

  /** Each indexed node is one of `repr` and holds its own key, with that key's value. */
  ghost predicate Holds<K, V>(dict: map<K, Node<K, V>>, vals: map<K, V>, repr: set<Node<K, V>>)
    reads repr
  {
    && dict.Keys == vals.Keys
    && forall k :: k in dict ==> dict[k] in repr && dict[k].item == KeyValuePair(k, vals[k])
  }

  /** RemoveFirst on the list and Remove of the head key on the index keep them in agreement. */
  lemma LinkedTail<K, V>(lru: seq<Node<K, V>>, dict: map<K, Node<K, V>>, order: seq<K>)
    requires Linked(lru, dict, order) && NoDup(order) && order != []
    ensures Linked(lru[1..], dict - {order[0]}, order[1..])
  {
  }

  /** AddLast on the list and Add on the index, for a key not yet present. */
  lemma LinkedSnoc<K, V>(lru: seq<Node<K, V>>, dict: map<K, Node<K, V>>, order: seq<K>, k: K, n: Node<K, V>)
    requires Linked(lru, dict, order) && k !in order
    ensures Linked(lru + [n], dict[k := n], order + [k])
  {
  }

  /** Unlinking the i-th node from the list and its key from the index. */
  lemma LinkedRemoveAt<K, V>(lru: seq<Node<K, V>>, dict: map<K, Node<K, V>>, order: seq<K>, i: nat)
    requires Linked(lru, dict, order) && NoDup(order) && i < |order|
    ensures Linked(lru[..i] + lru[i + 1..], dict - {order[i]}, order[..i] + order[i + 1..])
  {
  }

  lemma HoldsRemove<K, V>(dict: map<K, Node<K, V>>, vals: map<K, V>, repr: set<Node<K, V>>, k: K)
    requires Holds(dict, vals, repr)
    ensures Holds(dict - {k}, vals - {k}, repr)
  {
  }

  /** Unlinking a node: no other key shares it, so it can leave the footprint. */
  lemma HoldsUnlink<K, V>(dict: map<K, Node<K, V>>, vals: map<K, V>, repr: set<Node<K, V>>, k: K)
    requires Holds(dict, vals, repr) && k in dict
    ensures Holds(dict - {k}, vals - {k}, repr - {dict[k]})
    ensures dict[k] !in (dict - {k}).Values
  {
  }

  lemma HoldsAdd<K, V>(dict: map<K, Node<K, V>>, vals: map<K, V>, repr: set<Node<K, V>>, k: K, n: Node<K, V>)
    requires Holds(dict, vals, repr) && n.item.key == k
    ensures Holds(dict[k := n], vals[k := n.item.value], repr + {n})
  {
  }

  /**
   * The concrete fields `count`, `lru` (the list) and `dict` (the index), with
   * the nodes in `repr`, represent the abstract state `st`.
   */
  ghost predicate Represents<K, V>(st: State<K, V>, count: int, lru: seq<Node<K, V>>,
                                   dict: map<K, Node<K, V>>, repr: set<Node<K, V>>)
    reads repr
  {
    && Invariant(st)
    && count == |lru|
    && Linked(lru, dict, st.order)
    && Holds(dict, st.vals, repr)
  }

  /** Every indexed node is linked into the list. */
  lemma IndexedIsListed<K, V>(st: State<K, V>, count: int, lru: seq<Node<K, V>>,
                              dict: map<K, Node<K, V>>, repr: set<Node<K, V>>, k: K)
    requires Represents(st, count, lru, dict, repr) && k in dict
    ensures dict[k] in lru
  {
  }

  /** RemoveFirst on the list with Remove of its key on the index is Evict. */
  lemma RepresentsEvict<K, V>(st: State<K, V>, count: int, lru: seq<Node<K, V>>,
                              dict: map<K, Node<K, V>>, repr: set<Node<K, V>>)
    requires Represents(st, count, lru, dict, repr) && count != 0
    ensures lru[0].item.key == st.order[0]
    ensures Represents(Evict(st), count - 1, lru[1..], dict - {lru[0].item.key}, repr)
  {
  }

  /** AddLast on the list with Add on the index, when there is room, is Append. */
  lemma RepresentsAppend<K, V>(st: State<K, V>, count: int, lru: seq<Node<K, V>>,
                               dict: map<K, Node<K, V>>, repr: set<Node<K, V>>, n: Node<K, V>)
    requires Represents(st, count, lru, dict, repr) && |st.order| < st.capacity && n.item.key !in st.vals
    ensures Append(st, n.item.key, n.item.value) == State(st.capacity, st.order + [n.item.key], st.vals[n.item.key := n.item.value])
    ensures Represents(Append(st, n.item.key, n.item.value), count + 1, lru + [n], dict[n.item.key := n], repr + {n})
  {
  }

  /** Unlinking the i-th node of the list, the index's node for `k`, is Delete. */
  lemma RepresentsDelete<K, V>(st: State<K, V>, count: int, lru: seq<Node<K, V>>,
                               dict: map<K, Node<K, V>>, repr: set<Node<K, V>>, k: K, i: nat)
    requires Represents(st, count, lru, dict, repr) && k in dict && i < |lru| && lru[i] == dict[k]
    ensures Delete(st, k) == State(st.capacity, st.order[..i] + st.order[i + 1..], st.vals - {k})
    ensures Represents(Delete(st, k), count - 1, lru[..i] + lru[i + 1..], dict - {k}, repr - {dict[k]})
  {
    assert st.order[i] == k by {
      assert dict[st.order[i]].item.key == st.order[i];
    }
    WithoutAt(st.order, i);
    DeleteInvariant(st, k);
    LinkedRemoveAt(lru, dict, st.order, i);
    HoldsUnlink(dict, st.vals, repr, k);
  }

  /** `s[at .. at + |done|)` holds, slot by slot, the pair of each key of `done` with its value. */
  ghost predicate CopiedAt<K, V>(s: seq<KeyValuePair<K, V>>, at: int, done: seq<K>, vals: map<K, V>)
  {
    && 0 <= at && at + |done| <= |s|
    && forall j :: 0 <= j < |done| ==> done[j] in vals && s[at + j] == KeyValuePair(done[j], vals[done[j]])
  }

  /** Writing the next key's pair into the next slot extends the copied run. */
  lemma CopiedSnoc<K, V>(s: seq<KeyValuePair<K, V>>, at: int, done: seq<K>, vals: map<K, V>, k: K)
    requires CopiedAt(s, at, done, vals) && k in vals && at + |done| < |s|
    ensures CopiedAt(s[at + |done| := KeyValuePair(k, vals[k])], at, done + [k], vals)
  {
  }

  /** The keys `done` already copied, without repeats, and the keys still to copy together make up `all`. */
  ghost predicate Split<K>(done: seq<K>, keys: set<K>, all: set<K>)
  {
    && keys <= all
    && NoDup(done)
    && (forall j :: 0 <= j < |done| ==> done[j] in all && done[j] !in keys)
    && (forall k :: k in all && k !in keys ==> k in done)
    && |done| + |keys| == |all|
  }

  lemma SplitStep<K>(done: seq<K>, keys: set<K>, all: set<K>, k: K)
    requires Split(done, keys, all) && k in keys
    ensures Split(done + [k], keys - {k}, all)
  {
  }

  /** A copied run of distinct keys covering all of `vals` is one slot per resident pair. */
  lemma CopiedAll<K, V>(s: seq<KeyValuePair<K, V>>, at: int, done: seq<K>, vals: map<K, V>)
    requires CopiedAt(s, at, done, vals) && NoDup(done)
    requires forall k :: k in vals ==> k in done
    ensures forall j :: at <= j < at + |done| ==> s[j].key in vals && s[j].value == vals[s[j].key]
    ensures forall j, j' :: at <= j < j' < at + |done| ==> s[j].key != s[j'].key
    ensures forall k :: k in vals ==> exists j :: at <= j < at + |done| && s[j].key == k
  {
    forall j | at <= j < at + |done| ensures s[j].key in vals && s[j].value == vals[s[j].key] {
      assert s[at + (j - at)] == KeyValuePair(done[j - at], vals[done[j - at]]);
    }
    forall j, j' | at <= j < j' < at + |done| ensures s[j].key != s[j'].key {
      assert s[at + (j - at)].key == done[j - at];
      assert s[at + (j' - at)].key == done[j' - at];
    }
    forall k | k in vals ensures exists j :: at <= j < at + |done| && s[j].key == k {
      var n :| 0 <= n < |done| && done[n] == k;
      assert s[at + n].key == k;
    }
  }

  /**
   * The loop of CopyTo: for each key of the index, in the index's order,
   * the key with its node's value goes into the next slot from `arrayIndex`.
   */
  method CopyPairs<K, V>(dict: map<K, Node<K, V>>, ghost vals: map<K, V>,
                         a: array<KeyValuePair<K, V>>, arrayIndex: int)
      returns (ghost done: seq<K>)
    requires dict.Keys == vals.Keys
    requires forall k :: k in dict ==> dict[k].item.value == vals[k]
    requires 0 <= arrayIndex && arrayIndex + |vals| <= a.Length
    modifies a
    ensures Split(done, {}, vals.Keys) && CopiedAt(a[..], arrayIndex, done, vals)
    ensures forall j :: 0 <= j < a.Length && !(arrayIndex <= j < arrayIndex + |vals|) ==> a[j] == old(a[j])
  {
    var keys := dict.Keys;
    var i := 0;
    done := [];
    while keys != {}
      invariant |done| == i && Split(done, keys, vals.Keys)
      invariant CopiedAt(a[..], arrayIndex, done, vals)
      invariant forall j :: 0 <= j < a.Length && !(arrayIndex <= j < arrayIndex + i) ==> a[j] == old(a[j])
      decreases |keys|
    {
      var key :| key in keys;
      ghost var before := a[..];
      a[i + arrayIndex] := KeyValuePair(key, dict[key].item.value);
      assert a[..] == before[arrayIndex + |done| := KeyValuePair(key, vals[key])];
      CopiedSnoc(before, arrayIndex, done, vals, key);
      SplitStep(done, keys, vals.Keys, key);
      i := i + 1;
      keys := keys - {key};
      done := done + [key];
    }
  }

  class CacheLRU<K(==), V(==, 0)> {
    const capacity: int
    var count: int
    var lruOrder: seq<Node<K, V>>
    var dict: map<K, Node<K, V>>

    // abstract view: the keys from least to most recently used, and their values
    ghost var order: seq<K>
    ghost var vals: map<K, V>
    // the nodes the cache may read and, in Update, write
    ghost var Repr: set<Node<K, V>>

    /**
     * The index and the list are in bijection: the i-th node of the list is
     * the index's node for the i-th key, and each indexed node holds its own
     * key with that key's value; count is the length of the list.
     */
    ghost predicate Valid()
      reads this, Repr
    {
      Represents(Abstract(), count, lruOrder, dict, Repr)
    }

    ghost function Abstract(): State<K, V>
      reads this
    {
      State(capacity, order, vals)
    }

    constructor (capacity: int)
      requires 0 < capacity
      ensures Valid() && Abstract() == Empty(capacity)
      ensures fresh(Repr)
    {
      this.capacity := capacity;
      count := 0;
      lruOrder := [];
      dict := map[];
      order := [];
      vals := map[];
      Repr := {};
    }

    /** Construction, with the exception for a capacity below one as an error value. */
    static method New(capacity: int) returns (r: Result<CacheLRU<K, V>>)
      ensures r.Failure? <==> capacity <= 0
      ensures r.Failure? ==> r.error == CapacityOutOfRange
      ensures r.Success? ==> fresh(r.value) && r.value.Valid() && r.value.Abstract() == Empty(capacity)
      ensures r.Success? ==> fresh(r.value.Repr)
    {
      if capacity <= 0 {
        return Failure(CapacityOutOfRange);
      }
      var c := new CacheLRU(capacity);
      return Success(c);
    }

    function Count(): (n: int)
      reads this, Repr
      requires Valid()
      ensures n == |order| && n == |vals| && n <= capacity
    {
      InvariantSize(Abstract());
      count
    }

    /** The indexer's getter; a missing key is the caller's error. */
    function Get(key: K): (v: V)
      reads this, Repr
      requires Valid() && key in vals
      ensures v == vals[key]
    {
      dict[key].item.value
    }

    function ContainsKey(key: K): (b: bool)
      reads this, Repr
      requires Valid()
      ensures b <==> key in vals
      ensures b <==> key in order
    {
      key in dict
    }

    /** Both the key and its current value must match. */
    function Contains(item: KeyValuePair<K, V>): (b: bool)
      reads this, Repr
      requires Valid()
      ensures b <==> item.key in vals && vals[item.key] == item.value
    {
      item.key in dict && dict[item.key].item.value == item.value
    }

    function Keys(): (ks: set<K>)
      reads this, Repr
      requires Valid()
      ensures ks == vals.Keys
      ensures forall i :: 0 <= i < |order| ==> order[i] in ks
      ensures forall k :: k in ks ==> k in order
    {
      dict.Keys
    }

    /** What enumeration yields, without its (dictionary) order: every resident pair. */
    function Items(): (s: set<KeyValuePair<K, V>>)
      reads this, Repr
      requires Valid()
      ensures s == set k | k in vals :: KeyValuePair(k, vals[k])
    {
      set k | k in dict :: dict[k].item
    }

    method TryGetValue(key: K) returns (found: bool, value: V)
      requires Valid()
      ensures found <==> key in vals
      ensures found ==> value == vals[key]
    {
      if key in dict {
        return true, dict[key].item.value;
      }
      found, value := false, *;
    }

    /** RemoveLRU: drop the head of the list and its index entry, if any. */
    method RemoveLRU()
      requires Valid()
      modifies this
      ensures Valid()
      ensures Repr == old(Repr)
      ensures Abstract() == Evict(old(Abstract()))
    {
      if count == 0 {
        return;
      }
      var first := lruOrder[0];
      dict := dict - {first.item.key};
      lruOrder := lruOrder[1..];
      count := count - 1;
      vals := vals - {first.item.key};
      order := order[1..];
      RepresentsEvict(old(Abstract()), old(count), old(lruOrder), old(dict), Repr);
    }

    /** The private Add(node): evict once if full, then index the node and link it at the tail. */
    method AddNode(node: Node<K, V>)
      requires Valid() && node.item.key !in vals
      modifies this
      ensures Valid()
      ensures Repr == old(Repr) + {node}
      ensures node.item.key in dict && dict[node.item.key] == node
      ensures 0 < |lruOrder| && lruOrder[|lruOrder| - 1] == node
      ensures Abstract() == Append(old(Abstract()), node.item.key, node.item.value)
    {
      if count == capacity {
        RemoveLRU();
      }
      var key := node.item.key;
      ghost var st, count0, lru0, dict0, repr0 := Abstract(), count, lruOrder, dict, Repr;
      dict := dict[key := node];
      lruOrder := lruOrder + [node];
      count := count + 1;
      order := order + [key];
      vals := vals[key := node.item.value];
      Repr := Repr + {node};
      RepresentsAppend(st, count0, lru0, dict0, repr0, node);
    }

    /**
     * The private Remove(key, out node): take the key out of the index and
     * its node out of the list. On a miss the node is null (C#'s default).
     */
    method Unlink(key: K) returns (removed: bool, node: Node?<K, V>)
      requires Valid()
      modifies this
      ensures Valid()
      ensures Repr <= old(Repr)
      ensures removed ==> Repr == old(Repr) - {node}
      ensures !removed ==> Repr == old(Repr)
      ensures removed <==> key in old(vals)
      ensures removed ==> node != null && node == old(dict[key]) && node in old(Repr) && node !in Repr
      ensures removed ==> node.item == KeyValuePair(key, old(vals[key]))
      ensures !removed ==> node == null
      ensures Abstract() == Delete(old(Abstract()), key)
    {
      removed, node := false, null;
      if key in dict {
        node := dict[key];
        IndexedIsListed(Abstract(), count, lruOrder, dict, Repr, key);
        var i := IndexOf(lruOrder, node);
        dict := dict - {key};
        lruOrder := lruOrder[..i] + lruOrder[i + 1..];
        count := count - 1;
        removed := true;
        order := order[..i] + order[i + 1..];
        vals := vals - {key};
        Repr := Repr - {node};
        RepresentsDelete(old(Abstract()), old(count), old(lruOrder), old(dict), old(Repr), key, i);
      }
    }

    /** Update (also the indexer's setter): re-link the key at the tail with the new value. */
    method Update(key: K, value: V)
      requires Valid()
      modifies this, Repr
      ensures Valid()
      ensures key in old(vals) ==> Repr == old(Repr) && key in dict && dict[key] == old(dict[key])
      ensures key !in old(vals) ==> key in dict && fresh(dict[key]) && Repr == old(Repr) + {dict[key]}
      ensures Abstract() == Put(old(Abstract()), key, value)
    {
      var kv := KeyValuePair(key, value);
      var removed, node := Unlink(key);
      if removed {
        node.item := kv;
      } else {
        node := new Node(kv);
      }
      assert removed ==> node == old(dict[key]) && Repr + {node} == old(Repr);
      assert !removed ==> fresh(node) && Repr == old(Repr);
      AddNode(node);
    }

    /** The strict Add(key, value): a present key is an error and changes nothing. */
    method Add(key: K, value: V) returns (r: Outcome)
      requires Valid()
      modifies this
      ensures Valid()
      ensures fresh(Repr - old(Repr))
      ensures key in old(vals) ==> r == Fail(ElementAlreadyInCache) && Abstract() == old(Abstract())
      ensures key !in old(vals) ==> r == Pass && Abstract() == Append(old(Abstract()), key, value)
    {
      if key in dict {
        return Fail(ElementAlreadyInCache);
      }
      var node := new Node(KeyValuePair(key, value));
      AddNode(node);
      r := Pass;
    }

    /** Add(KeyValuePair): an error only when that exact pair is present; otherwise an Update. */
    method AddPair(item: KeyValuePair<K, V>) returns (r: Outcome)
      requires Valid()
      modifies this, Repr
      ensures Valid()
      ensures fresh(Repr - old(Repr))
      ensures item.key in old(vals) && old(vals[item.key]) == item.value ==>
        r == Fail(ElementAlreadyInCache) && Abstract() == old(Abstract())
      ensures !(item.key in old(vals) && old(vals[item.key]) == item.value) ==>
        r == Pass && Abstract() == Put(old(Abstract()), item.key, item.value)
    {
      if Contains(item) {
        return Fail(ElementAlreadyInCache);
      }
      Update(item.key, item.value);
      r := Pass;
    }

    method Clear()
      requires Valid()
      modifies this
      ensures Valid() && Abstract() == Empty(capacity)
      ensures Repr == {}
    {
      count := 0;
      lruOrder := [];
      dict := map[];
      order := [];
      vals := map[];
      Repr := {};
    }

    method Remove(key: K) returns (b: bool)
      requires Valid()
      modifies this
      ensures Valid()
      ensures Repr <= old(Repr)
      ensures b <==> key in old(vals)
      ensures Abstract() == Delete(old(Abstract()), key)
    {
      var node;
      b, node := Unlink(key);
    }

    /** Remove(key, out value): the removed value on a hit; on a miss V's default. */
    method RemoveAndGet(key: K) returns (b: bool, value: V)
      requires Valid()
      modifies this
      ensures Valid()
      ensures Repr <= old(Repr)
      ensures b <==> key in old(vals)
      ensures b ==> value == old(vals[key])
      ensures Abstract() == Delete(old(Abstract()), key)
    {
      var node;
      b, node := Unlink(key);
      if b {
        value := node.item.value;
      } else {
        value := *;
      }
    }

    /** Remove(KeyValuePair): removes only when the stored value is the given one. */
    method RemovePair(item: KeyValuePair<K, V>) returns (b: bool)
      requires Valid()
      modifies this
      ensures Valid()
      ensures Repr <= old(Repr)
      ensures b <==> item.key in old(vals) && old(vals[item.key]) == item.value
      ensures b ==> Abstract() == Delete(old(Abstract()), item.key)
      ensures !b ==> Abstract() == old(Abstract())
    {
      if Contains(item) {
        b := Remove(item.key);
      } else {
        b := false;
      }
    }

    /**
     * CopyTo: one pair per resident key, with its current value, into
     * a[arrayIndex .. arrayIndex + count), in the index's (unspecified) order.
     */
    method CopyTo(a: array<KeyValuePair<K, V>>, arrayIndex: int)
      requires Valid()
      requires 0 <= arrayIndex && arrayIndex + count <= a.Length
      modifies a
      ensures forall j :: 0 <= j < a.Length && !(arrayIndex <= j < arrayIndex + count) ==> a[j] == old(a[j])
      ensures forall j :: arrayIndex <= j < arrayIndex + count ==> a[j].key in vals && a[j].value == vals[a[j].key]
      ensures forall j, j' :: arrayIndex <= j < j' < arrayIndex + count ==> a[j].key != a[j'].key
      ensures forall k :: k in vals ==> exists j :: arrayIndex <= j < arrayIndex + count && a[j].key == k
    {
      InvariantSize(Abstract());
      ghost var done := CopyPairs(dict, vals, a, arrayIndex);
      CopiedAll(a[..], arrayIndex, done, vals);
    }
  }
}
