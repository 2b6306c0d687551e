/**
 * The two unit tests of `page/pagecache.rs`, run on the `LruMap` and `PageCache` objects
 * with the loops the tests have.
 */
module UnitTests {
  import opened Ints
  import opened Wrappers
  import opened LruOrder
  import opened LruMapImpl
  import opened CacheSlots
  import opened PageCacheImpl
  import opened CacheRef
  import opened CacheScenario

  /** The test's loop `for i in 0..n { insert(i, i) }` on an empty map. */
  method InsertAscending(lruMap: LruMap, n: nat)
    requires lruMap.Valid() && lruMap.Abs() == Empty && n <= U32_LIMIT
    modifies lruMap
    ensures lruMap.Valid() && lruMap.Abs() == InsertRange(Empty, lruMap.cap, 0, n)
  {
    for i := 0 to n
      invariant lruMap.Valid() && lruMap.Abs() == InsertRange(Empty, lruMap.cap, 0, i)
    {
      var _ := lruMap.Insert(i as u32, i as u32);
    }
  }

  /**
   * The test's loop `for i in lo..hi { find(i) }`: each `find` returns the value stored
   * under `i`, or `None`, and no stored value changes.
   */
  method FindEach(lruMap: LruMap, lo: nat, hi: nat) returns (rs: seq<Option<u32>>)
    requires lruMap.Valid() && lo <= hi <= U32_LIMIT
    modifies lruMap
    ensures lruMap.Valid() && lruMap.vals == old(lruMap.vals)
    ensures |rs| == hi - lo && forall i :: 0 <= i < hi - lo ==> rs[i] == Lookup(lruMap.vals, (lo + i) as u32)
  {
    rs := [];
    for i := lo to hi
      invariant lruMap.Valid() && lruMap.vals == old(lruMap.vals)
      invariant |rs| == i - lo && forall j :: 0 <= j < i - lo ==> rs[j] == Lookup(lruMap.vals, (lo + j) as u32)
    {
      FindValue(lruMap.Abs(), i as u32);
      var r := lruMap.Find(i as u32);
      rs := rs + [r];
    }
  }

  /**
   * A new map of capacity `cap` fed the ids 0 to `n - 1` holds the last `cap` of them,
   * each under its own value.
   */
  method NewFilled(cap: nat, n: nat) returns (lruMap: LruMap)
    requires 1 <= cap <= n <= U32_LIMIT
    ensures fresh(lruMap) && lruMap.Valid() && lruMap.cap == cap
    ensures |lruMap.order| == cap && ValuesAreKeys(lruMap.Abs())
    ensures forall x: u32 :: x in lruMap.vals <==> n - cap <= x as int < n
  {
    lruMap := new LruMap(cap);
    InsertAscending(lruMap, n);
    AscendingContents(cap, n);
  }

  /**
   * The test `lru_map`, which runs with `cap` 10 and `n` 100: a map of capacity `cap` fed
   * the ids 0 to `n - 1` holds `cap` entries; `find` gives `None` for each of the first
   * `n - cap` ids and then finds each of the last `cap` under its own value.
   */
  method RunLruMapTest(cap: nat, n: nat) returns (len: nat, missed: seq<Option<u32>>, found: seq<Option<u32>>)
    requires 1 <= cap <= n <= U32_LIMIT
    ensures len == cap
    ensures |missed| == n - cap && forall i :: 0 <= i < n - cap ==> missed[i] == None
    ensures |found| == cap && forall i :: 0 <= i < cap ==> found[i] == Some((n - cap + i) as u32)
  {
    var lruMap := NewFilled(cap, n);
    len := lruMap.Len();
    missed := FindEach(lruMap, 0, n - cap);
    found := FindEach(lruMap, n - cap, n);
  }

  /** One call on a page cache: `insert_to_cache` or `get_from_cache`, as `Serve` says. */
  method Perform(cache: PageCache, call: Call) returns (reply: Reply)
    requires cache.Valid()
    requires call.PutPage? ==> |call.page.data| == cache.pageSize as nat
    modifies cache.lruMap, cache.data
    ensures cache.Valid()
    ensures cache.State() == Serve(old(cache.State()), cache.pageCount, cache.pageSize as nat, call).0
    ensures reply == Serve(old(cache.State()), cache.pageCount, cache.pageSize as nat, call).1
  {
    match call
    case PutPage(page) =>
      var outcome := cache.InsertToCache(page);
      reply := Stored(outcome);
    case GetPage(id) =>
      var r := cache.GetFromCache(id);
      reply := Got(r);
  }

  /** The calls in turn on a page cache: what `Run` does on the reference. */
  method Replay(cache: PageCache, calls: seq<Call>) returns (replies: seq<Reply>)
    requires cache.Valid() && Sized(calls, cache.pageSize as nat)
    modifies cache.lruMap, cache.data
    ensures cache.Valid()
    ensures Abs(cache.State(), cache.pageSize as nat) ==
      Run(Abs(old(cache.State()), cache.pageSize as nat), cache.pageCount, calls).0
    ensures replies == Run(Abs(old(cache.State()), cache.pageSize as nat), cache.pageCount, calls).1
  {
    ghost var e := Abs(cache.State(), cache.pageSize as nat);
    replies := [];
    for i := 0 to |calls|
      invariant cache.Valid()
      invariant Abs(cache.State(), cache.pageSize as nat) == Run(e, cache.pageCount, calls[..i]).0
      invariant replies == Run(e, cache.pageCount, calls[..i]).1
    {
      ghost var m := Abs(cache.State(), cache.pageSize as nat);
      var reply := Perform(cache, calls[i]);
      RunAppend(e, cache.pageCount, calls[..i], [calls[i]]);
      RunOne(m, cache.pageCount, calls[i]);
      assert calls[..i + 1] == calls[..i] + [calls[i]];
      replies := replies + [reply];
    }
    assert calls[..|calls|] == calls;
  }

  /**
   * The test `page_cache`, on a new cache of three pages of 4096 bytes: every call of
   * its five loops returns what the test asserts.
   */
  method RunPageCacheTest(p: seq<seq<u8>>) returns (replies: seq<Reply>)
    requires |p| == 6 && forall i :: 0 <= i < 6 ==> |p[i]| == PAGE_SIZE
    ensures replies == Expected(p)
  {
    var cache := new PageCache(3, PAGE_SIZE as u32);
    ViewKeys(cache.State(), PAGE_SIZE);
    assert Abs(cache.State(), PAGE_SIZE) == LruPages([], map[]);
    TestCallsSized(p);
    replies := Replay(cache, TestCalls(p));
    PageCacheTrace(p);
  }
}
