/**
 * `PageCache` of `page/pagecache.rs` refines the reference of module `CacheRef`: storing
 * and reading pages through the slot map and the arena does to the cached ids, their
 * order and their bytes what `Put` and `Get` say.
 */
module CacheScenario {
  import opened Ints
  import opened Wrappers
  import opened LruOrder
  import opened CacheSlots
  import opened CacheRef

  /** The page size the `page_cache` test uses. */
  const PAGE_SIZE: nat := 4096

  /** The cached ids in order and the bytes of each, forgetting slots and arena. */
  ghost function Abs(c: Cache, pageSize: nat): LruPages
    requires Fits(c.lru.vals, pageSize, |c.bytes|)
  {
    LruPages(c.lru.order, View(c, pageSize))
  }

  /** A page cache's state seen through `Abs` is a well-formed reference state. */
  lemma AbsOk(c: Cache, pageCount: nat, pageSize: nat)
    requires CacheOk(c, pageCount, pageSize)
    ensures RefOk(Abs(c, pageSize), pageCount)
  {
    ViewKeys(c, pageSize);
    WfLen(c.lru);
  }

  /** `insert_to_cache` does what `Put` says, and keeps the invariant. */
  lemma StoreRefines(c: Cache, pageCount: nat, pageSize: nat, id: u32, page: seq<u8>)
    requires CacheOk(c, pageCount, pageSize) && |page| == pageSize
    ensures var r := Store(c, pageCount, pageSize, id, page);
      var m := Put(Abs(c, pageSize), pageCount, id, page);
      && CacheOk(r.0, pageCount, pageSize)
      && Abs(r.0, pageSize) == m.0
      && r.1 == m.1
  {
    if id in c.lru.vals {
      HitRefines(c, pageCount, pageSize, id, page);
    } else if |c.lru.order| < pageCount || 2 <= pageCount {
      NewRefines(c, pageCount, pageSize, id, page);
    } else {
      FailRefines(c, pageCount, pageSize, id, page);
    }
  }

  /** A cached page is overwritten in place and promoted as `Put` promotes it. */
  lemma HitRefines(c: Cache, pageCount: nat, pageSize: nat, id: u32, page: seq<u8>)
    requires CacheOk(c, pageCount, pageSize) && |page| == pageSize && id in c.lru.vals
    ensures var r := Store(c, pageCount, pageSize, id, page);
      var m := Put(Abs(c, pageSize), pageCount, id, page);
      && CacheOk(r.0, pageCount, pageSize)
      && Abs(r.0, pageSize) == m.0
      && r.1 == m.1
  {
    ViewKeys(c, pageSize);
    StoreHit(c, pageCount, pageSize, id, page);
    FindFacts(c.lru, id);
    if |c.lru.order| >= 3 {
      FindPromotes(c.lru, id);
    }
  }

  /** A new page goes in front, evicting the least recent page when the cache is full. */
  lemma NewRefines(c: Cache, pageCount: nat, pageSize: nat, id: u32, page: seq<u8>)
    requires CacheOk(c, pageCount, pageSize) && |page| == pageSize && id !in c.lru.vals
    requires |c.lru.order| < pageCount || 2 <= pageCount
    ensures var r := Store(c, pageCount, pageSize, id, page);
      var m := Put(Abs(c, pageSize), pageCount, id, page);
      && CacheOk(r.0, pageCount, pageSize)
      && Abs(r.0, pageSize) == m.0
      && r.1 == m.1
  {
    ViewKeys(c, pageSize);
    WfLen(c.lru);
    StoreNew(c, pageCount, pageSize, id, page);
  }

  /** A new page in a full cache of at most one page empties it and fails. */
  lemma FailRefines(c: Cache, pageCount: nat, pageSize: nat, id: u32, page: seq<u8>)
    requires CacheOk(c, pageCount, pageSize) && |page| == pageSize && id !in c.lru.vals
    requires pageCount <= |c.lru.order| && pageCount <= 1
    ensures var r := Store(c, pageCount, pageSize, id, page);
      var m := Put(Abs(c, pageSize), pageCount, id, page);
      && CacheOk(r.0, pageCount, pageSize)
      && Abs(r.0, pageSize) == m.0
      && r.1 == m.1
  {
    ViewKeys(c, pageSize);
    WfLen(c.lru);
    StoreFail(c, pageCount, pageSize, id, page);
    EmptyOk(pageCount, pageSize, c.bytes);
  }

  /** `get_from_cache` does what `Get` says, and keeps the invariant. */
  lemma FetchRefines(c: Cache, pageCount: nat, pageSize: nat, id: u32)
    requires CacheOk(c, pageCount, pageSize)
    ensures var r := Fetch(c, pageSize, id);
      var m := Get(Abs(c, pageSize), id);
      && CacheOk(r.0, pageCount, pageSize)
      && Abs(r.0, pageSize) == m.0
      && r.1 == m.1
  {
    ViewKeys(c, pageSize);
    FetchView(c, pageCount, pageSize, id);
  }

  /** Every page a run of calls stores has `pageSize` bytes. */
  ghost predicate Sized(calls: seq<Call>, pageSize: nat) {
    forall i :: 0 <= i < |calls| && calls[i].PutPage? ==> |calls[i].page.data| == pageSize
  }

  /**
   * The page cache answering one call, `insert_to_cache` or `get_from_cache`: it does what
   * `Step` does on the reference and keeps the invariant.
   */
  function Serve(c: Cache, pageCount: nat, pageSize: nat, call: Call): (r: (Cache, Reply))
    requires CacheOk(c, pageCount, pageSize)
    requires call.PutPage? ==> |call.page.data| == pageSize
    ensures CacheOk(r.0, pageCount, pageSize)
    ensures Abs(r.0, pageSize) == Step(Abs(c, pageSize), pageCount, call).0
    ensures r.1 == Step(Abs(c, pageSize), pageCount, call).1
  {
    match call
    case PutPage(page) =>
      StoreRefines(c, pageCount, pageSize, page.pageId, page.data);
      var (c1, outcome) := Store(c, pageCount, pageSize, page.pageId, page.data);
      (c1, Stored(outcome))
    case GetPage(id) =>
      FetchRefines(c, pageCount, pageSize, id);
      var (c1, found) := Fetch(c, pageSize, id);
      (c1, Got(found))
  }

  /** The pages the test stores are its pages of 4096 bytes. */
  lemma TestCallsSized(p: seq<seq<u8>>)
    requires |p| == 6 && forall i :: 0 <= i < 6 ==> |p[i]| == PAGE_SIZE
    ensures Sized(TestCalls(p), PAGE_SIZE)
  {
    var calls := TestCalls(p);
    forall i | 0 <= i < |calls| && calls[i].PutPage? ensures |calls[i].page.data| == PAGE_SIZE {
      assert i < 3 || 6 <= i < 9;
    }
  }
}
