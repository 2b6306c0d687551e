/**
 * `PageCache` of `page/pagecache.rs`: an arena of `page_count * page_size` bytes split
 * into `page_count` slots, and an `LruMap` of capacity `page_count` from page id to slot.
 * Each method is proved to act on the arena and the recency state as the matching
 * function of module `CacheSlots` does.
 */
module PageCacheImpl {
  import opened Ints
  import opened Wrappers
  import opened LruOrder
  import opened LruMapImpl
  import opened CacheSlots

  /** The page count `new_default` uses. */
  const DEFAULT_PAGE_COUNT: nat := 1024

  class PageCache {
    const pageCount: nat
    const pageSize: u32
    /** The `malloc`ed arena. */
    const data: array<u8>
    const lruMap: LruMap

    ghost function State(): Cache
      reads this, lruMap, data
    {
      Cache(lruMap.Abs(), data[..])
    }

    ghost predicate Valid()
      reads this, lruMap, data
    {
      && lruMap.Valid()
      && lruMap.cap == pageCount
      && CacheOk(State(), pageCount, pageSize as nat)
    }

    /** The bytes of every cached page, by page id. */
    ghost function Pages(): map<u32, seq<u8>>
      requires Valid()
      reads this, lruMap, data
    {
      View(State(), pageSize as nat)
    }

    /** `PageCache::new`: an arena of `page_count * page_size` bytes and an empty map. */
    constructor (pageCount: nat, pageSize: u32)
      ensures Valid()
      ensures this.pageCount == pageCount && this.pageSize == pageSize
      ensures data.Length == pageCount * pageSize as nat
      ensures lruMap.Abs() == Empty && Pages() == map[]
      ensures fresh(lruMap) && fresh(data)
    {
      this.pageCount := pageCount;
      this.pageSize := pageSize;
      data := new u8[pageCount * pageSize as nat];
      lruMap := new LruMap(pageCount);
      new;
      assert Slots(map[]) == {};
    }

    /** `PageCache::new_default`: a cache of 1024 pages. */
    constructor NewDefault(pageSize: u32)
      ensures Valid()
      ensures pageCount == DEFAULT_PAGE_COUNT && this.pageSize == pageSize
      ensures data.Length == DEFAULT_PAGE_COUNT * pageSize as nat
      ensures lruMap.Abs() == Empty && Pages() == map[]
      ensures fresh(lruMap) && fresh(data)
    {
      pageCount := DEFAULT_PAGE_COUNT;
      this.pageSize := pageSize;
      data := new u8[DEFAULT_PAGE_COUNT * pageSize as nat];
      lruMap := new LruMap(DEFAULT_PAGE_COUNT);
      new;
      assert Slots(map[]) == {};
    }

    /**
     * `get_from_cache`: a cached page's bytes are copied out of its slot (and the page is
     * promoted as `find` promotes); an id that is not cached gives `None`.
     */
    method GetFromCache(pageId: u32) returns (r: Option<RawPage>)
      requires Valid()
      modifies lruMap
      ensures Valid()
      ensures (State(), r) == Fetch(old(State()), pageSize as nat, pageId)
    {
      ghost var c0 := State();
      FindKeepsOk(c0, pageCount, pageSize as nat, pageId);
      var found := lruMap.Find(pageId);
      assert data[..] == c0.bytes;
      FetchAfterFind(c0, pageCount, pageSize as nat, pageId, lruMap.Abs(), found);
      if found.None? {
        return None;
      }
      var page := ReadSlot(pageId, found.value);
      r := Some(page);
    }

    /** The copy `get_from_cache` makes of a cached page: the bytes of its slot. */
    method ReadSlot(pageId: u32, index: u32) returns (page: RawPage)
      requires Valid() && Lookup(lruMap.vals, pageId) == Some(index)
      ensures page == RawPage(pageId, SlotBytes(data[..], index as nat, pageSize as nat))
    {
      var bytes := CopyFromArena(Offset(index as nat, pageSize as nat), pageSize as nat);
      page := RawPage(pageId, bytes);
    }

    /**
     * `distribute_new_index`: the slot for a page that is not cached.  Below capacity it is
     * `len() as u32`; at capacity the tail is evicted and its slot returned, and a failing
     * eviction is the `expect("data error")`.
     */
    method DistributeNewIndex() returns (r: Result<u32, CacheError>)
      requires Valid()
      modifies lruMap
      ensures lruMap.Valid()
      ensures (lruMap.Abs(), r) == Distribute(old(lruMap.Abs()), pageCount)
    {
      var len := lruMap.Len();
      if len < pageCount {  // is not full
        return Success((len % U32_LIMIT) as u32);
      }
      var tail := lruMap.RemoveTail();
      if tail.None? {
        return Failure(DataError);
      }
      return Success(tail.value.1);
    }

    /**
     * `insert_to_cache`: a cached page is overwritten in its own slot; a new page is
     * written into the slot `distribute_new_index` gives and then inserted into the map.
     */
    method InsertToCache(page: RawPage) returns (r: Outcome<CacheError>)
      requires Valid() && |page.data| == pageSize as nat
      modifies lruMap, data
      ensures Valid()
      ensures (State(), r) == Store(old(State()), pageCount, pageSize as nat, page.pageId, page.data)
    {
      ghost var c0 := State();
      var found := lruMap.Find(page.pageId);
      FindFacts(c0.lru, page.pageId);
      match found {
        case Some(index) =>  // override
          OverwriteCached(c0, page, index);
          return Pass;
        case None =>
          r := InsertNew(c0, page);
      }
    }

    /** The override arm of `insert_to_cache`, after `find` has promoted the page. */
    method OverwriteCached(ghost c0: Cache, page: RawPage, index: u32)
      requires CacheOk(c0, pageCount, pageSize as nat) && |page.data| == pageSize as nat
      requires lruMap.Valid() && lruMap.cap == pageCount && data[..] == c0.bytes
      requires lruMap.Abs() == Find(c0.lru, page.pageId).0
      requires Lookup(c0.lru.vals, page.pageId) == Some(index)
      modifies data
      ensures Valid()
      ensures State() == Store(c0, pageCount, pageSize as nat, page.pageId, page.data).0
      ensures Store(c0, pageCount, pageSize as nat, page.pageId, page.data).1 == Pass
    {
      StoreFacts(c0, pageCount, pageSize as nat, page.pageId, page.data);
      PlaceFacts(c0.lru, pageCount, page.pageId);
      SlotBelow(c0.lru, pageCount, page.pageId);
      SlotFits(index as nat, pageCount, pageSize as nat);
      CopyToArena(Offset(index as nat, pageSize as nat), page.data);
    }

    /** The arm of `insert_to_cache` for a page that is not cached. */
    method InsertNew(ghost c0: Cache, page: RawPage) returns (r: Outcome<CacheError>)
      requires CacheOk(c0, pageCount, pageSize as nat) && |page.data| == pageSize as nat
      requires lruMap.Valid() && lruMap.cap == pageCount && data[..] == c0.bytes
      requires lruMap.Abs() == c0.lru && page.pageId !in c0.lru.vals
      modifies lruMap, data
      ensures Valid()
      ensures State() == Store(c0, pageCount, pageSize as nat, page.pageId, page.data).0
      ensures r == Store(c0, pageCount, pageSize as nat, page.pageId, page.data).1
    {
      StoreMiss(c0, pageCount, pageSize as nat, page.pageId, page.data);
      var slot := DistributeNewIndex();
      if slot.Failure? {
        return Fail(slot.error);
      }
      var index := slot.value;
      CopyToArena(Offset(index as nat, pageSize as nat), page.data);
      var _ := lruMap.Insert(page.pageId, index);
      return Pass;
    }

    /** `RawPage::copy_from_ptr`: the `len` bytes of the arena from `offset` on. */
    method CopyFromArena(offset: nat, len: nat) returns (bytes: seq<u8>)
      requires offset + len <= data.Length
      ensures bytes == data[..][offset .. offset + len]
    {
      bytes := data[offset .. offset + len];
    }

    /** `RawPage::copy_to_ptr`: the page's bytes go to the arena from `offset` on. */
    method CopyToArena(offset: nat, bytes: seq<u8>)
      requires offset + |bytes| <= data.Length
      modifies data
      ensures data[..] == Overwrite(old(data[..]), offset, bytes)
    {
      for j := 0 to |bytes|
        invariant forall i :: 0 <= i < data.Length ==>
          data[i] == (if offset <= i < offset + j then bytes[i - offset] else old(data[i]))
      {
        data[offset + j] := bytes[j];
      }
      assert data[..] == Overwrite(old(data[..]), offset, bytes) by {
        forall i | 0 <= i < data.Length
          ensures data[..][i] == Overwrite(old(data[..]), offset, bytes)[i]
        {
          if i < offset {
          } else if i < offset + |bytes| {
            assert Overwrite(old(data[..]), offset, bytes)[i] == (old(data[..])[..offset] + bytes)[i];
          } else {
          }
        }
      }
    }
  }
}
