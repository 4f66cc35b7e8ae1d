/**
 * The abstract state of the LRU cache: its capacity, the resident keys from
 * least to most recently used, and the value of each resident key. The
 * operations below are what the cache's private building blocks do to that
 * state; the class in module CacheLRU is proved to follow them.
 */
module LruSpec {
  import opened Seqs

  datatype KeyValuePair<K, V> = KeyValuePair(key: K, value: V)

  /** The two exceptions the cache throws, as values. */
  datatype Error = CapacityOutOfRange | ElementAlreadyInCache

  datatype Outcome = Pass | Fail(error: Error)

  datatype Result<T> = Success(value: T) | Failure(error: Error)

  datatype State<K, V> = State(capacity: int, order: seq<K>, vals: map<K, V>)

  /**
   * What holds between two public calls: a positive capacity that is never
   * exceeded, each key at most once in the recency order, and the keys of
   * the order exactly those of the index.
   */
  ghost predicate Invariant<K, V>(st: State<K, V>)
  {
    && 0 < st.capacity
    && |st.order| <= st.capacity
    && NoDup(st.order)
    && (forall k :: k in st.vals ==> k in st.order)
    && (forall i :: 0 <= i < |st.order| ==> st.order[i] in st.vals)
  }

  /** The freshly constructed, or cleared, cache. */
  function Empty<K, V>(capacity: int): (r: State<K, V>)
    ensures r.capacity == capacity && |r.order| == 0 && |r.vals| == 0
    ensures 0 < capacity ==> Invariant(r)
  {
    State(capacity, [], map[])
  }

  /** RemoveLRU: drop the head of the order and its index entry; nothing when empty. */
  function Evict<K, V>(st: State<K, V>): (r: State<K, V>)
    ensures r.capacity == st.capacity
    ensures |r.order| == if |st.order| == 0 then 0 else |st.order| - 1
    ensures |st.order| > 0 ==> st.order[0] !in r.vals
  {
    if |st.order| == 0 then st
    else State(st.capacity, st.order[1..], st.vals - {st.order[0]})
  }

  /** The private Add(node): evict once if full, then put the key at the tail. */
  function Append<K, V>(st: State<K, V>, k: K, v: V): (r: State<K, V>)
    requires k !in st.vals
    ensures r.capacity == st.capacity
    ensures 0 < |r.order| && r.order[|r.order| - 1] == k
    ensures k in r.vals && r.vals[k] == v
    ensures 0 < st.capacity && |st.order| <= st.capacity ==> |r.order| <= st.capacity
  {
    var s := if |st.order| == st.capacity then Evict(st) else st;
    State(s.capacity, s.order + [k], s.vals[k := v])
  }

  /** The private Remove(key, out node): unlink the key from index and order if present. */
  function Delete<K, V>(st: State<K, V>, k: K): (r: State<K, V>)
    ensures r.capacity == st.capacity
    ensures k !in r.vals
    ensures k !in st.vals ==> r == st
  {
    if k in st.vals then State(st.capacity, Without(st.order, k), st.vals - {k})
    else st
  }

  /** Update: unlink the key if present, then add it again at the tail. */
  function Put<K, V>(st: State<K, V>, k: K, v: V): (r: State<K, V>)
    ensures r.capacity == st.capacity
    ensures 0 < |r.order| && r.order[|r.order| - 1] == k
    ensures k in r.vals && r.vals[k] == v
  {
    Append(Delete(st, k), k, v)
  }

  /** The count kept by the cache agrees with both the index and the order. */
  lemma InvariantSize<K, V>(st: State<K, V>)
    requires Invariant(st)
    ensures |st.vals| == |st.order|
  {
    NoDupCard(st.order, st.vals.Keys);
  }

  lemma EmptyInvariant<K, V>(capacity: int)
    requires 0 < capacity
    ensures Invariant(Empty<K, V>(capacity))
    ensures |Empty<K, V>(capacity).vals| == 0
  {
  }

  lemma EvictInvariant<K, V>(st: State<K, V>)
    requires Invariant(st)
    ensures Invariant(Evict(st))
  {
  }

  lemma AppendInvariant<K, V>(st: State<K, V>, k: K, v: V)
    requires Invariant(st) && k !in st.vals
    ensures Invariant(Append(st, k, v))
  {
  }

  lemma DeleteInvariant<K, V>(st: State<K, V>, k: K)
    requires Invariant(st)
    ensures Invariant(Delete(st, k))
  {
    if k in st.vals {
      NoDupWithout(st.order, k);
      WithoutMembers(st.order, k);
      var r := Delete(st, k);
      forall x | x in r.vals ensures x in r.order {
        var j :| 0 <= j < |st.order| && st.order[j] == x;
      }
    }
  }

  /**
   * Eviction removes exactly the head key, from both order and index; the
   * survivors keep their values and their relative order.
   */
  lemma EvictTakesHead<K, V>(st: State<K, V>)
    requires Invariant(st)
    ensures Invariant(Evict(st))
    ensures |st.order| == 0 ==> Evict(st) == st
    ensures |st.order| > 0 ==>
      && Evict(st).order == st.order[1..]
      && st.order[0] !in Evict(st).vals
      && |Evict(st).vals| == |st.vals| - 1
      && forall k :: k in st.vals && k != st.order[0] ==> k in Evict(st).vals && Evict(st).vals[k] == st.vals[k]
  {
  }

  /**
   * Adding an absent key: it lands at the tail (most recently used) with its
   * value. If the cache was not full nothing else changes; if it was full,
   * exactly the head is evicted, once, and the count stays at capacity.
   */
  lemma AppendEvictsAtMostHead<K, V>(st: State<K, V>, k: K, v: V)
    requires Invariant(st) && k !in st.vals
    ensures Invariant(Append(st, k, v))
    ensures Append(st, k, v).vals[k] == v
    ensures |st.order| < st.capacity ==>
      && Append(st, k, v).order == st.order + [k]
      && Append(st, k, v).vals == st.vals[k := v]
    ensures |st.order| == st.capacity ==>
      && Append(st, k, v).order == st.order[1..] + [k]
      && Append(st, k, v).vals == (st.vals - {st.order[0]})[k := v]
      && |Append(st, k, v).order| == st.capacity
  {
  }

  /**
   * Removing a present key takes it out of index and order, lowers the count
   * by one, and leaves every other key, its value and its place in the order
   * as they were; removing an absent key changes nothing.
   */
  lemma DeleteKeepsOthers<K, V>(st: State<K, V>, k: K)
    requires Invariant(st)
    ensures Invariant(Delete(st, k))
    ensures k !in Delete(st, k).vals
    ensures k !in st.vals ==> Delete(st, k) == st
    ensures k in st.vals ==>
      && |Delete(st, k).order| == |st.order| - 1
      && Delete(st, k).vals == st.vals - {k}
      && exists i :: 0 <= i < |st.order| && st.order[i] == k &&
           Delete(st, k).order == st.order[..i] + st.order[i + 1..]
  {
    DeleteInvariant(st, k);
    if k in st.vals {
      var i := IndexOf(st.order, k);
      WithoutAt(st.order, i);
    }
  }

  /**
   * Update on a present key replaces its value and moves it to the tail;
   * the count does not change, nothing is evicted and the other keys keep
   * their relative order.
   */
  lemma PutPresentMovesToTail<K, V>(st: State<K, V>, k: K, v: V)
    requires Invariant(st) && k in st.vals
    ensures Invariant(Put(st, k, v))
    ensures Put(st, k, v).order == Without(st.order, k) + [k]
    ensures |Put(st, k, v).order| == |st.order|
    ensures Put(st, k, v).vals == st.vals[k := v]
  {
    DeleteKeepsOthers(st, k);
    var d := Delete(st, k);
    assert |d.order| < d.capacity;
    AppendEvictsAtMostHead(d, k, v);
    assert d.vals[k := v] == st.vals[k := v];
  }

  /** Update on an absent key is an insertion, eviction when full included. */
  lemma PutAbsentInserts<K, V>(st: State<K, V>, k: K, v: V)
    requires Invariant(st) && k !in st.vals
    ensures Put(st, k, v) == Append(st, k, v)
    ensures Invariant(Put(st, k, v))
    ensures |st.order| == st.capacity ==> Put(st, k, v).order == st.order[1..] + [k]
  {
  }

  /** Every Update keeps the invariant and leaves the key, with its value, at the tail. */
  lemma PutInvariant<K, V>(st: State<K, V>, k: K, v: V)
    requires Invariant(st)
    ensures Invariant(Put(st, k, v))
    ensures Put(st, k, v).vals[k] == v
    ensures Put(st, k, v).order[|Put(st, k, v).order| - 1] == k
  {
    if k in st.vals {
      PutPresentMovesToTail(st, k, v);
    } else {
      AppendEvictsAtMostHead(st, k, v);
    }
  }

  /** Taking an entry out of a map and putting it back gives the same map. */
  lemma RestoreEntry<K, V>(m: map<K, V>, k: K)
    requires k in m
    ensures (m - {k})[k := m[k]] == m
  {
  }

  /** Updating a key twice with the same value is the same as updating it once. */
  lemma PutTwice<K, V>(st: State<K, V>, k: K, v: V)
    requires Invariant(st)
    ensures Put(Put(st, k, v), k, v) == Put(st, k, v)
  {
    var p := Put(st, k, v);
    var n := |p.order|;
    assert NoDup(p.order) && n <= p.capacity && k in p.vals && p.vals[k] == v && 0 < n && p.order[n - 1] == k by {
      PutInvariant(st, k, v);
    }
    var w := p.order[..n - 1];
    assert k !in w by {
      forall j | 0 <= j < n - 1 ensures w[j] != k {
        assert w[j] == p.order[j];
      }
    }
    assert Without(p.order, k) == w by {
      assert p.order == w + [k];
      WithoutSnoc(w, k);
    }
    var d := Delete(p, k);
    assert d == State(p.capacity, w, p.vals - {k});
    assert Append(d, k, v) == p by {
      assert |w| < p.capacity;
      RestoreEntry(p.vals, k);
      assert p.order == w + [k];
    }
  }

  /** Touching the least recently used key makes it the most recently used one. */
  lemma TouchHead<K, V>(st: State<K, V>, v: V)
    requires Invariant(st) && |st.order| > 0
    ensures Invariant(Put(st, st.order[0], v))
    ensures Put(st, st.order[0], v).order == st.order[1..] + [st.order[0]]
    ensures Put(st, st.order[0], v).vals == st.vals[st.order[0] := v]
  {
    assert Without(st.order, st.order[0]) == st.order[1..] by {
      WithoutAt(st.order, 0);
      assert st.order[..0] + st.order[1..] == st.order[1..];
    }
    PutPresentMovesToTail(st, st.order[0], v);
  }

  /**
   * Recency decides the victim: in a full cache, touching the least recently
   * used key by an Update makes the next key the one a new insertion evicts.
   */
  lemma TouchSavesFromEviction<K, V>(st: State<K, V>, v: V, x: K, w: V)
    requires Invariant(st) && |st.order| == st.capacity && 2 <= st.capacity
    requires x !in st.vals
    ensures x !in Put(st, st.order[0], v).vals
    ensures Append(Put(st, st.order[0], v), x, w).order == st.order[2..] + [st.order[0], x]
    ensures st.order[0] in Append(Put(st, st.order[0], v), x, w).vals
    ensures st.order[1] !in Append(Put(st, st.order[0], v), x, w).vals
  {
    var k0, k1 := st.order[0], st.order[1];
    var t := Put(st, k0, v);
    TouchHead(st, v);
    assert k0 != k1 by {
      assert NoDup(st.order);
    }
    assert x !in t.vals;
    assert |t.order| == t.capacity && t.order[0] == k1;
    assert t.order[1..] == st.order[2..] + [k0];
    AppendEvictsAtMostHead(t, x, w);
  }
}
