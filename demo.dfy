/**
 * The console demo as a client of the cache: fill a cache of capacity 10
 * with the squares of 0..9, insert 11, then remove 3 twice. Scenario returns
 * the demo's first three printed values and the outcome of both removals; the
 * fourth printed value, left by the failed second removal, it drops. A second
 * client exercises Update.
 */
module Demo {
  import opened LruSpec
  import opened CacheLRU

  /** After i rounds of the demo's first loop: keys 0..i-1 in insertion order, each mapped to its square. */
  ghost predicate Filled(st: State<int, int>, i: int)
  {
    && st.capacity == 10
    && |st.order| == i
    && (forall j :: 0 <= j < i ==> st.order[j] == j)
    && (forall k :: k in st.vals <==> 0 <= k < i)
    && (forall k :: k in st.vals ==> st.vals[k] == k * k)
  }

  /** One round of the demo's first loop: a cache that is not yet full takes the next square without evicting. */
  lemma FillStep(st: State<int, int>, i: int)
    requires Invariant(st) && Filled(st, i) && 0 <= i < 10
    ensures i !in st.vals && Filled(Append(st, i, i * i), i + 1)
  {
    AppendEvictsAtMostHead(st, i, i * i);
    var a := Append(st, i, i * i);
    assert a.vals == st.vals[i := i * i];
    assert forall k :: k in a.vals <==> k in st.vals || k == i;
  }

  /** The demo's first loop: a cache of capacity 10 holding 0..9 with their squares. */
  method FillSquares() returns (cache: CacheLRU<int, int>)
    ensures fresh(cache) && fresh(cache.Repr) && cache.Valid() && cache.capacity == 10
    ensures |cache.order| == 10 && forall j :: 0 <= j < 10 ==> cache.order[j] == j
    ensures forall k :: k in cache.vals <==> 0 <= k < 10
    ensures forall k :: k in cache.vals ==> cache.vals[k] == k * k
  {
    cache := new CacheLRU<int, int>(10);
    var i := 0;
    while i < 10
      invariant 0 <= i <= 10
      invariant fresh(cache.Repr) && cache.Valid() && Filled(cache.Abstract(), i)
    {
      FillStep(cache.Abstract(), i);
      var r := cache.Add(i, i * i);
      i := i + 1;
    }
  }

  method Scenario() returns (zeroBefore: bool, zeroAfter: bool, removed: bool, res: int, removedAgain: bool)
    ensures zeroBefore && !zeroAfter
    ensures removed && res == 9
    ensures !removedAgain
  {
    var cache := FillSquares();
    zeroBefore := cache.ContainsKey(0);

    // the cache is full: inserting 11 evicts 0, the least recently used key
    ghost var full := cache.Abstract();
    AppendEvictsAtMostHead(full, 11, 121);
    var r := cache.Add(11, 121);
    ghost var kept := cache.vals;
    assert kept == (full.vals - {0})[11 := 121];
    assert 0 !in kept && 3 in kept && kept[3] == 9;
    zeroAfter := cache.ContainsKey(0);

    removed, res := cache.RemoveAndGet(3);
    assert cache.vals == kept - {3};
    var again;
    removedAgain, again := cache.RemoveAndGet(3);
  }

  /** A full cache of capacity 2 holding 1 and then 2, each mapped to itself. */
  method FillTwo() returns (cache: CacheLRU<int, int>)
    ensures fresh(cache) && fresh(cache.Repr) && cache.Valid()
    ensures cache.capacity == 2 && cache.order == [1, 2] && cache.vals == map[1 := 1, 2 := 2]
  {
    cache := new CacheLRU<int, int>(2);
    ghost var empty := cache.Abstract();
    AppendEvictsAtMostHead(empty, 1, 1);
    var r := cache.Add(1, 1);
    ghost var one := cache.Abstract();
    AppendEvictsAtMostHead(one, 2, 2);
    r := cache.Add(2, 2);
  }

  /**
   * A client of Update: in a full cache of capacity 2, updating the older key
   * makes the other one the victim of the next insertion.
   */
  method TouchThenInsert() returns (oneKept: bool, one: int, twoKept: bool, count: int)
    ensures oneKept && one == 10 && !twoKept && count == 2
  {
    var cache := FillTwo();
    ghost var full := cache.Abstract();
    TouchHead(full, 10);
    cache.Update(1, 10);
    ghost var touched := cache.Abstract();
    assert touched.order == full.order[1..] + [full.order[0]] == [2, 1];
    assert touched.vals == full.vals[1 := 10];
    AppendEvictsAtMostHead(touched, 3, 3);
    var r := cache.Add(3, 3);
    assert cache.vals == (touched.vals - {2})[3 := 3];
    oneKept := cache.ContainsKey(1);
    twoKept := cache.ContainsKey(2);
    one := cache.Get(1);
    count := cache.Count();
  }
}
