/**
 * The value-level model of `PageCache` in `page/pagecache.rs`: which slot of the byte
 * arena each cached page occupies, and what `insert_to_cache` and `get_from_cache` do to
 * the recency state and to the arena.  Slot `i` is the `page_size` bytes starting at
 * `i * page_size`; the `LruMap` stores the slot index of every cached page id.
 */
module CacheSlots {
  import opened Ints
  import opened Wrappers
  import opened LruOrder

  /** `expect("data error")` in `distribute_new_index`: a full cache had no tail to evict. */
  datatype CacheError = DataError

  /** `RawPage` of `crate::page`: a page id and its bytes. */
  datatype RawPage = RawPage(pageId: u32, data: seq<u8>)

  /** The arena of `page_count * page_size` bytes together with the recency state. */
  datatype Cache = Cache(lru: Lru, bytes: seq<u8>)

  /** The slot indices in use. */
  ghost function Slots(vals: map<u32, u32>): set<int> {
    set k | k in vals :: vals[k] as int
  }

  /** No two cached pages share a slot. */
  ghost predicate Injective(vals: map<u32, u32>) {
    forall a, b :: a in vals && b in vals && a != b ==> vals[a] != vals[b]
  }

  /**
   * The slots of a cache holding `n` pages are exactly `0 .. n - 1`, one per page, and
   * there are never more pages than `page_count`.
   */
  ghost predicate SlotsOk(s: Lru, pageCount: nat) {
    && Wf(s)
    && |s.vals| <= pageCount
    && Injective(s.vals)
    && Slots(s.vals) == Range(|s.vals|)
  }

  /** The slot indices `0 .. n - 1`. */
  function Range(n: nat): (r: set<int>)
    ensures forall i :: i in r <==> 0 <= i < n
  {
    if n == 0 then {} else Range(n - 1) + {n - 1}
  }

  /** Every stored slot lies inside an arena of `n` bytes. */
  ghost predicate Fits(vals: map<u32, u32>, pageSize: nat, n: nat) {
    forall k :: k in vals ==> Offset(vals[k] as nat, pageSize) + pageSize <= n
  }

  /** The invariant of a `PageCache`'s state. */
  ghost predicate CacheOk(c: Cache, pageCount: nat, pageSize: nat) {
    && SlotsOk(c.lru, pageCount)
    && |c.bytes| == pageCount * pageSize
    && Fits(c.lru.vals, pageSize, |c.bytes|)
  }

  /** The byte offset of slot `slot`: `index as usize * page_size as usize`. */
  function Offset(slot: nat, pageSize: nat): nat {
    slot * pageSize
  }

  /** Slot `i` of an arena of `n` slots lies wholly inside it. */
  lemma SlotFits(i: nat, n: nat, pageSize: nat)
    requires i < n
    ensures Offset(i, pageSize) + pageSize <= n * pageSize
  {
    var d := n - i - 1;
    assert n * pageSize == (i + 1 + d) * pageSize;
    assert (i + 1 + d) * pageSize == i * pageSize + pageSize + d * pageSize;
  }

  /** A state satisfying `SlotsOk` fits in an arena of `page_count * page_size` bytes. */
  lemma SlotsFit(s: Lru, pageCount: nat, pageSize: nat)
    requires SlotsOk(s, pageCount)
    ensures Fits(s.vals, pageSize, pageCount * pageSize)
  {
    forall k | k in s.vals ensures Offset(s.vals[k] as nat, pageSize) + pageSize <= pageCount * pageSize {
      assert s.vals[k] as int in Slots(s.vals);
      SlotFits(s.vals[k] as nat, pageCount, pageSize);
    }
  }

  /** A cached page's slot lies below the number of cached pages, hence below `page_count`. */
  lemma SlotBelow(s: Lru, pageCount: nat, k: u32)
    requires SlotsOk(s, pageCount) && k in s.vals
    ensures s.vals[k] as int < |s.vals| <= pageCount
  {
    assert s.vals[k] as int in Slots(s.vals);
  }

  /** The bytes of slot `slot`: what `copy_from_ptr` reads at offset `slot * page_size`. */
  function SlotBytes(bytes: seq<u8>, slot: nat, pageSize: nat): (r: seq<u8>)
    requires Offset(slot, pageSize) + pageSize <= |bytes|
    ensures |r| == pageSize
  {
    bytes[Offset(slot, pageSize) .. Offset(slot, pageSize) + pageSize]
  }

  /** The arena after `copy_to_ptr` has written `page` at offset `off`. */
  function Overwrite(bytes: seq<u8>, off: nat, page: seq<u8>): (r: seq<u8>)
    requires off + |page| <= |bytes|
    ensures |r| == |bytes|
  {
    bytes[..off] + page + bytes[off + |page|..]
  }

  /** The written range reads back as `page`, and every byte outside it is unchanged. */
  lemma OverwriteFacts(bytes: seq<u8>, off: nat, page: seq<u8>)
    requires off + |page| <= |bytes|
    ensures Overwrite(bytes, off, page)[off .. off + |page|] == page
    ensures forall i :: 0 <= i < |bytes| && !(off <= i < off + |page|) ==>
      Overwrite(bytes, off, page)[i] == bytes[i]
  {
    var r := Overwrite(bytes, off, page);
    assert r[off .. off + |page|] == page by {
      forall i | 0 <= i < |page| ensures r[off + i] == page[i] {
        assert r[off + i] == (bytes[..off] + page)[off + i];
      }
    }
  }

  /** Writing one slot leaves every other slot's bytes as they were. */
  lemma OverwriteOtherSlot(bytes: seq<u8>, slot: nat, other: nat, pageSize: nat, page: seq<u8>)
    requires |page| == pageSize && slot != other
    requires Offset(slot, pageSize) + pageSize <= |bytes| && Offset(other, pageSize) + pageSize <= |bytes|
    ensures SlotBytes(Overwrite(bytes, Offset(slot, pageSize), page), other, pageSize) == SlotBytes(bytes, other, pageSize)
  {
    OverwriteFacts(bytes, Offset(slot, pageSize), page);
    if slot < other { SlotFits(slot, other, pageSize); } else { SlotFits(other, slot, pageSize); }
    var r := Overwrite(bytes, Offset(slot, pageSize), page);
    forall i | 0 <= i < pageSize
      ensures SlotBytes(r, other, pageSize)[i] == SlotBytes(bytes, other, pageSize)[i]
    {
      assert SlotBytes(r, other, pageSize)[i] == r[Offset(other, pageSize) + i];
    }
  }

  /** The bytes of every cached page, by page id. */
  ghost function View(c: Cache, pageSize: nat): map<u32, seq<u8>>
    requires Fits(c.lru.vals, pageSize, |c.bytes|)
  {
    map k | k in c.lru.vals :: SlotBytes(c.bytes, c.lru.vals[k] as nat, pageSize)
  }

  /**
   * `distribute_new_index`: below capacity the next slot is `len() as u32`; at capacity
   * the tail is evicted and its slot reused, and an eviction that reports nothing is the
   * `expect("data error")` failure.
   */
  function Distribute(s: Lru, pageCount: nat): (r: (Lru, Result<u32, CacheError>))
    requires Wf(s)
    ensures Wf(r.0)
  {
    if |s.order| < pageCount then (s, Success((|s.order| % U32_LIMIT) as u32))
    else
      var (s1, tail) := RemoveTail(s);
      (s1, if tail.None? then Failure(DataError) else Success(tail.value.1))
  }

  /**
   * What `distribute_new_index` promises when it is asked for a slot for a page id that
   * is not cached: it fails exactly when the cache is full and holds at most one page,
   * leaving it empty; below capacity it returns `len()` (the cast to `u32` never
   * truncates, since the stored ids are distinct `u32`s other than the new one) and
   * changes nothing; at capacity it evicts the tail and returns the tail's slot.
   */
  lemma DistributeFacts(s: Lru, pageCount: nat, k: u32)
    requires SlotsOk(s, pageCount) && k !in s.vals
    ensures var r := Distribute(s, pageCount);
      && (r.1.Failure? <==> |s.order| == pageCount <= 1)
      && (r.1.Failure? ==> r.0 == Empty)
      && (|s.order| < pageCount ==> r.0 == s && r.1.Success? && r.1.value as int == |s.order|)
      && (2 <= |s.order| == pageCount ==>
            r.0 == RemoveTail(s).0 && r.1 == Success(s.vals[Last(s.order)]))
  {
    WfLen(s);
    if |s.order| < pageCount {
      DistributeBelow(s, pageCount, k);
    } else if 2 <= |s.order| {
      DistributeEvicts(s, pageCount);
    } else {
      RemoveTailFacts(s);
    }
  }

  /**
   * A slot `distribute_new_index` returns lies below `page_count`, and the map it leaves
   * has room for the new page, which it still does not hold.
   */
  lemma DistributeRoom(s: Lru, pageCount: nat, k: u32)
    requires SlotsOk(s, pageCount) && k !in s.vals
    ensures var r := Distribute(s, pageCount);
      r.1.Success? ==>
        && r.1.value as int < pageCount
        && |r.0.vals| < pageCount
        && k !in r.0.vals
        && Injective(r.0.vals)
  {
    WfLen(s);
    if |s.order| < pageCount {
      DistributeBelow(s, pageCount, k);
    } else if 2 <= |s.order| {
      DistributeEvicts(s, pageCount);
    } else {
      RemoveTailFacts(s);
    }
  }

  /**
   * A slot `distribute_new_index` returns is free, and together with the remaining slots
   * makes up `0 .. len()` again once the page is added.
   */
  lemma DistributeFree(s: Lru, pageCount: nat, k: u32)
    requires SlotsOk(s, pageCount) && k !in s.vals
    ensures var r := Distribute(s, pageCount);
      r.1.Success? ==>
        && r.1.value as int !in Slots(r.0.vals)
        && Slots(r.0.vals) + {r.1.value as int} == Range(|r.0.vals| + 1)
  {
    WfLen(s);
    if |s.order| < pageCount {
      DistributeBelow(s, pageCount, k);
    } else if 2 <= |s.order| {
      DistributeEvicts(s, pageCount);
    } else {
      RemoveTailFacts(s);
    }
  }

  /** Below capacity the slot is `len()`, which the cast to `u32` keeps. */
  lemma DistributeBelow(s: Lru, pageCount: nat, k: u32)
    requires SlotsOk(s, pageCount) && k !in s.vals && |s.order| < pageCount
    ensures |s.order| < U32_LIMIT
    ensures Distribute(s, pageCount) == (s, Success(|s.order| as u32))
    ensures Slots(s.vals) + {|s.vals|} == Range(|s.vals| + 1)
  {
    WfLen(s);
    FreshIdBound(s.order, k);
    NoWrap(|s.order|);
  }

  lemma NoWrap(n: nat)
    requires n < U32_LIMIT
    ensures n % U32_LIMIT == n
  {
  }

  /** At capacity with two pages or more the tail leaves and hands over its slot. */
  lemma DistributeEvicts(s: Lru, pageCount: nat)
    requires SlotsOk(s, pageCount) && 2 <= |s.order| && pageCount <= |s.order|
    ensures var t := Last(s.order);
      var r := Distribute(s, pageCount);
      && t in s.vals
      && r.0 == RemoveTail(s).0 && r.1 == Success(s.vals[t])
      && s.vals[t] as int < |s.vals|
      && r.0.vals == s.vals - {t}
      && |r.0.vals| == |s.vals| - 1
      && Slots(r.0.vals) == Slots(s.vals) - {s.vals[t] as int}
  {
    WfLen(s);
    RemoveTailFacts(s);
    var t := Last(s.order);
    var v := s.vals[t];
    RemoveFacts(s, t);
    assert t in s.vals by { assert s.order[|s.order| - 1] == t; }
    var s1 := Distribute(s, pageCount).0;
    assert s1.vals == s.vals - {t};
    assert v as int in Slots(s.vals);
    SlotsWithout(s.vals, t);
  }

  /** Dropping one page frees exactly its slot. */
  lemma SlotsWithout(vals: map<u32, u32>, t: u32)
    requires t in vals && Injective(vals)
    ensures Slots(vals - {t}) == Slots(vals) - {vals[t] as int}
  {
    forall x | x in Slots(vals) - {vals[t] as int} ensures x in Slots(vals - {t}) {
      var y :| y in vals && vals[y] as int == x;
      assert y != t;
      assert y in vals - {t} && (vals - {t})[y] == vals[y];
    }
  }

  /**
   * The slot `insert_to_cache` writes page `id` into, and the recency state after it: a
   * cached page keeps its slot (and is promoted by `find`); a new page gets a slot from
   * `Distribute` and is then inserted into the `LruMap` under that slot.
   */
  function Place(s: Lru, pageCount: nat, id: u32): (r: (Lru, Result<u32, CacheError>))
    requires Wf(s)
    ensures Wf(r.0)
  {
    var (s1, hit) := Find(s, id);
    if hit.Some? then (s1, Success(hit.value))
    else
      var (s2, slot) := Distribute(s1, pageCount);
      if slot.Failure? then (s2, slot)
      else (Insert(s2, pageCount, id, slot.value).0, slot)
  }

  /**
   * What `insert_to_cache` does to the slot map: it fails exactly for a new page in a
   * full cache of at most one page; a cached page keeps its slot and every other page
   * too; a new page below capacity takes slot `len()`; a new page at capacity takes the
   * slot of the evicted tail, which is the only page that leaves.  On success the slots
   * are again exactly `0 .. len() - 1`, one per page, below `page_count`.
   */
  lemma PlaceFacts(s: Lru, pageCount: nat, id: u32)
    requires SlotsOk(s, pageCount)
    ensures var r := Place(s, pageCount, id);
      && (r.1.Failure? <==> id !in s.vals && |s.vals| == pageCount <= 1)
      && (r.1.Failure? ==> r.0 == Empty)
      && (r.1.Success? ==>
            && SlotsOk(r.0, pageCount)
            && id in r.0.vals && r.0.vals[id] == r.1.value
            && r.1.value as int < |r.0.vals|
            && forall k :: k in r.0.vals && k != id ==> k in s.vals && r.0.vals[k] == s.vals[k])
      && (id in s.vals ==> r.0.vals == s.vals && r.1 == Success(s.vals[id]))
      && (id !in s.vals && |s.vals| < pageCount ==>
            r.1.Success? && r.1.value as int == |s.vals| && r.0.vals == s.vals[id := r.1.value])
      && (id !in s.vals && 2 <= |s.vals| == pageCount ==>
            var t := Last(s.order);
            r.1 == Success(s.vals[t]) && r.0.vals == (s.vals - {t})[id := s.vals[t]])
  {
    WfLen(s);
    if id in s.vals {
      PlaceHit(s, pageCount, id);
    } else {
      DistributeFacts(s, pageCount, id);
      DistributeRoom(s, pageCount, id);
      DistributeFree(s, pageCount, id);
      PlaceNew(s, pageCount, id);
      var d := Distribute(s, pageCount);
      if d.1.Success? {
        WfLen(d.0);
        InsertFacts(d.0, pageCount, id, d.1.value);
        SlotsAdd(d.0.vals, id, d.1.value);
        var r := Place(s, pageCount, id);
        assert r.1.value as int in Slots(r.0.vals) by { assert r.0.vals[id] == r.1.value; }
        if 2 <= |s.vals| == pageCount {
          DistributeEvicts(s, pageCount);
        }
      }
    }
  }

  /** A cached page keeps its slot and nothing else changes but the order. */
  lemma PlaceHit(s: Lru, pageCount: nat, id: u32)
    requires SlotsOk(s, pageCount) && id in s.vals
    ensures Place(s, pageCount, id).0.vals == s.vals
    ensures Place(s, pageCount, id).1 == Success(s.vals[id])
    ensures s.vals[id] as int < |s.vals|
  {
    FindFacts(s, id);
    SlotBelow(s, pageCount, id);
  }

  /** A new page is inserted under the slot `Distribute` picks, unless that failed. */
  lemma PlaceNew(s: Lru, pageCount: nat, id: u32)
    requires Wf(s) && id !in s.vals
    ensures var d := Distribute(s, pageCount);
      var r := Place(s, pageCount, id);
      && (d.1.Failure? ==> r == d)
      && (d.1.Success? ==> r == (Insert(d.0, pageCount, id, d.1.value).0, d.1))
  {
    FindFacts(s, id);
  }

  /** A page added under a free slot `v` keeps the slots one per page and `0 .. len() - 1`. */
  lemma SlotsAdd(vals: map<u32, u32>, id: u32, v: u32)
    requires id !in vals && Injective(vals) && v as int !in Slots(vals)
    requires Slots(vals) + {v as int} == Range(|vals| + 1)
    ensures Injective(vals[id := v])
    ensures |vals[id := v]| == |vals| + 1
    ensures Slots(vals[id := v]) == Range(|vals[id := v]|)
  {
    var m := vals[id := v];
    assert Slots(m) == Slots(vals) + {v as int} by {
      forall x | x in Slots(m) ensures x in Slots(vals) + {v as int} {
        var y :| y in m && m[y] as int == x;
        if y != id { assert vals[y] == m[y]; }
      }
      forall x | x in Slots(vals) ensures x in Slots(m) {
        var y :| y in vals && vals[y] as int == x;
        assert m[y] == vals[y];
      }
      assert m[id] == v;
    }
  }

  /** `get_from_cache`: look the page up (which may promote it) and copy its slot out. */
  function Fetch(c: Cache, pageSize: nat, id: u32): (r: (Cache, Option<RawPage>))
    requires Wf(c.lru) && Fits(c.lru.vals, pageSize, |c.bytes|)
  {
    var (s, found) := Find(c.lru, id);
    FindFacts(c.lru, id);
    (Cache(s, c.bytes), if found.None? then None else Some(RawPage(id, SlotBytes(c.bytes, found.value as nat, pageSize))))
  }

  /** `insert_to_cache`: pick the slot with `Place`, then copy the page into it. */
  function Store(c: Cache, pageCount: nat, pageSize: nat, id: u32, page: seq<u8>): (r: (Cache, Outcome<CacheError>))
    requires CacheOk(c, pageCount, pageSize) && |page| == pageSize
  {
    var (s, slot) := Place(c.lru, pageCount, id);
    if slot.Failure? then (Cache(s, c.bytes), Fail(slot.error))
    else
      var v := slot.value as nat;
      PlaceFacts(c.lru, pageCount, id);
      assert v < pageCount;
      SlotFits(v, pageCount, pageSize);
      (Cache(s, Overwrite(c.bytes, Offset(v, pageSize), page)), Pass)
  }

  /**
   * `get_from_cache` returns the bytes of a cached page and `None` for any other id, and
   * leaves the arena, the set of cached pages and their slots as they were.
   */
  lemma FetchFacts(c: Cache, pageCount: nat, pageSize: nat, id: u32)
    requires CacheOk(c, pageCount, pageSize)
    ensures var r := Fetch(c, pageSize, id);
      && CacheOk(r.0, pageCount, pageSize)
      && r.0.bytes == c.bytes && r.0.lru.vals == c.lru.vals
      && View(r.0, pageSize) == View(c, pageSize)
      && r.1 == (if id in c.lru.vals then Some(RawPage(id, SlotBytes(c.bytes, c.lru.vals[id] as nat, pageSize))) else None)
      && (r.1.Some? <==> id in View(c, pageSize))
      && (r.1.Some? ==> r.1.value.data == View(c, pageSize)[id])
  {
    FindFacts(c.lru, id);
  }

  /**
   * The same, in the terms `get_from_cache` computes with: given the state and the slot
   * `find` returns, a hit copies the `page_size` bytes at the slot's byte offset.
   */
  lemma FetchAfterFind(c: Cache, pageCount: nat, pageSize: nat, id: u32, s: Lru, found: Option<u32>)
    requires CacheOk(c, pageCount, pageSize) && (s, found) == Find(c.lru, id)
    ensures found == Lookup(c.lru.vals, id)
    ensures Fetch(c, pageSize, id) ==
      (Cache(s, c.bytes),
       if found.None? then None else Some(RawPage(id, SlotBytes(c.bytes, found.value as nat, pageSize))))
  {
    FindValue(c.lru, id);
  }

  /** `find` keeps the cache invariant: it only reorders. */
  lemma FindKeepsOk(c: Cache, pageCount: nat, pageSize: nat, id: u32)
    requires CacheOk(c, pageCount, pageSize)
    ensures CacheOk(Cache(Find(c.lru, id).0, c.bytes), pageCount, pageSize)
  {
    FindValue(c.lru, id);
  }

  /**
   * The round trip of `insert_to_cache` and `get_from_cache`: after a successful store of
   * `page` under `id`, the page is cached with exactly those bytes, every other page still
   * cached was cached before with the same bytes, and the invariant still holds.  The
   * store fails only for a new page in a full cache of at most one page, and then the
   * arena is left as it was.
   */
  /**
   * `insert_to_cache` keeps the cache invariant; it fails exactly for a new page in a
   * full cache of at most one page, and then leaves the arena alone; otherwise the page
   * can be read back with its bytes and every other cached page keeps its bytes.
   */
  lemma StoreFacts(c: Cache, pageCount: nat, pageSize: nat, id: u32, page: seq<u8>)
    requires CacheOk(c, pageCount, pageSize) && |page| == pageSize
    ensures var r := Store(c, pageCount, pageSize, id, page);
      && CacheOk(r.0, pageCount, pageSize)
      && (r.1.Fail? <==> id !in c.lru.vals && |c.lru.vals| == pageCount <= 1)
      && (r.1.Fail? ==> r.0.bytes == c.bytes)
      && (r.1.Pass? ==>
            && id in View(r.0, pageSize) && View(r.0, pageSize)[id] == page
            && forall k :: k in View(r.0, pageSize) && k != id ==>
                 k in View(c, pageSize) && View(r.0, pageSize)[k] == View(c, pageSize)[k])
  {
    PlaceFacts(c.lru, pageCount, id);
    var (s, slot) := Place(c.lru, pageCount, id);
    var r := Store(c, pageCount, pageSize, id, page);
    SlotsFit(s, pageCount, pageSize);
    if slot.Success? {
      var v := slot.value as nat;
      SlotFits(v, pageCount, pageSize);
      OverwriteFacts(c.bytes, Offset(v, pageSize), page);
      forall k | k in s.vals && k != id
        ensures SlotBytes(r.0.bytes, s.vals[k] as nat, pageSize) == SlotBytes(c.bytes, c.lru.vals[k] as nat, pageSize)
      {
        OverwriteOtherSlot(c.bytes, v, s.vals[k] as nat, pageSize, page);
      }
    }
  }

  /**
   * `insert_to_cache` of a page that is not cached: the slot comes from `Distribute`;
   * if that fails nothing is written, and otherwise the page is copied into the slot and
   * inserted into the map under it.
   */
  lemma StoreMiss(c: Cache, pageCount: nat, pageSize: nat, id: u32, page: seq<u8>)
    requires CacheOk(c, pageCount, pageSize) && |page| == pageSize && id !in c.lru.vals
    ensures CacheOk(Store(c, pageCount, pageSize, id, page).0, pageCount, pageSize)
    ensures var d := Distribute(c.lru, pageCount);
      var r := Store(c, pageCount, pageSize, id, page);
      && (d.1.Failure? ==> r.0 == Cache(d.0, c.bytes) && r.1 == Fail(d.1.error))
      && (d.1.Success? ==>
            && d.1.value as nat < pageCount
            && r.0.lru == Insert(d.0, pageCount, id, d.1.value).0
            && Offset(d.1.value as nat, pageSize) + pageSize <= |c.bytes|
            && r.0.bytes == Overwrite(c.bytes, Offset(d.1.value as nat, pageSize), page)
            && r.1 == Pass)
  {
    StoreFacts(c, pageCount, pageSize, id, page);
    PlaceFacts(c.lru, pageCount, id);
    PlaceNew(c.lru, pageCount, id);
    var d := Distribute(c.lru, pageCount);
    if d.1.Success? {
      SlotFits(d.1.value as nat, pageCount, pageSize);
    }
  }

  /**
   * A page that is not cached, when a slot can be found for it, goes to the head of the
   * recency order; at capacity the least recent page leaves it.
   */
  lemma PlaceNewOrder(s: Lru, pageCount: nat, id: u32)
    requires SlotsOk(s, pageCount) && id !in s.vals && (|s.order| < pageCount || 2 <= pageCount)
    ensures Place(s, pageCount, id).1.Success?
    ensures Place(s, pageCount, id).0.order ==
      [id] + (if |s.order| < pageCount then s.order else s.order[..|s.order| - 1])
  {
    WfLen(s);
    DistributeFacts(s, pageCount, id);
    DistributeRoom(s, pageCount, id);
    PlaceNew(s, pageCount, id);
    var d := Distribute(s, pageCount);
    if |s.order| >= pageCount {
      RemoveTailFacts(s);
    }
    WfLen(d.0);
    InsertFacts(d.0, pageCount, id, d.1.value);
  }

  /** The same for `insert_to_cache`, which then succeeds. */
  lemma StoreNewOrder(c: Cache, pageCount: nat, pageSize: nat, id: u32, page: seq<u8>)
    requires CacheOk(c, pageCount, pageSize) && |page| == pageSize
    requires id !in c.lru.vals && (|c.lru.order| < pageCount || 2 <= pageCount)
    ensures var r := Store(c, pageCount, pageSize, id, page);
      var o := c.lru.order;
      && r.1 == Pass
      && r.0.lru.order == [id] + (if |o| < pageCount then o else o[..|o| - 1])
  {
    PlaceNewOrder(c.lru, pageCount, id);
  }

  /** The cached ids after a new page gets a slot: it joins them, and at capacity the least recent leaves. */
  lemma PlaceNewKeys(s: Lru, pageCount: nat, id: u32)
    requires SlotsOk(s, pageCount) && id !in s.vals && (|s.order| < pageCount || 2 <= pageCount)
    ensures Place(s, pageCount, id).0.vals.Keys ==
      (if |s.order| >= pageCount then s.vals.Keys - {Last(s.order)} else s.vals.Keys) + {id}
  {
    WfLen(s);
    PlaceFacts(s, pageCount, id);
  }

  /** The pages in the view are the cached ids. */
  lemma ViewKeys(c: Cache, pageSize: nat)
    requires Fits(c.lru.vals, pageSize, |c.bytes|)
    ensures View(c, pageSize).Keys == c.lru.vals.Keys
  {
  }

  /**
   * A map that gained `id` with `page`, lost `t` when `full`, and kept every other value.
   */
  lemma MapUpdate(v: map<u32, seq<u8>>, v0: map<u32, seq<u8>>, full: bool, t: u32, id: u32, page: seq<u8>)
    requires v.Keys == (if full then v0.Keys - {t} else v0.Keys) + {id}
    requires id in v && v[id] == page
    requires forall k :: k in v && k != id ==> k in v0 && v[k] == v0[k]
    ensures v == (if full then v0 - {t} else v0)[id := page]
  {
  }

  /**
   * `insert_to_cache` of a page that is not cached, when a slot can be found: its bytes
   * join the view; below capacity nothing else changes, and at capacity the least recent
   * page leaves it.
   */
  lemma StoreNewView(c: Cache, pageCount: nat, pageSize: nat, id: u32, page: seq<u8>)
    requires CacheOk(c, pageCount, pageSize) && |page| == pageSize
    requires id !in c.lru.vals && (|c.lru.order| < pageCount || 2 <= pageCount)
    ensures var r := Store(c, pageCount, pageSize, id, page);
      var o := c.lru.order;
      && CacheOk(r.0, pageCount, pageSize)
      && View(r.0, pageSize) ==
           (if |o| >= pageCount then View(c, pageSize) - {Last(o)} else View(c, pageSize))[id := page]
  {
    WfLen(c.lru);
    PlaceNewKeys(c.lru, pageCount, id);
    ViewKeys(c, pageSize);
    StoreFacts(c, pageCount, pageSize, id, page);
    var r := Store(c, pageCount, pageSize, id, page);
    ViewKeys(r.0, pageSize);
    var o := c.lru.order;
    MapUpdate(View(r.0, pageSize), View(c, pageSize), |o| >= pageCount, if |o| > 0 then Last(o) else 0, id, page);
  }

  /**
   * `get_from_cache` in terms of the view: the cached pages and their bytes stay as they
   * were, a cached page comes back with its bytes and any other id with `None`, and a hit
   * in a cache of three pages or more moves the page to the head.
   */
  lemma FetchView(c: Cache, pageCount: nat, pageSize: nat, id: u32)
    requires CacheOk(c, pageCount, pageSize)
    ensures var r := Fetch(c, pageSize, id);
      && CacheOk(r.0, pageCount, pageSize)
      && View(r.0, pageSize) == View(c, pageSize)
      && r.1 == (if id in View(c, pageSize) then Some(RawPage(id, View(c, pageSize)[id])) else None)
      && r.0.lru.order ==
           (if id in c.lru.vals && |c.lru.order| >= 3 then [id] + Without(c.lru.order, id) else c.lru.order)
  {
    FetchFacts(c, pageCount, pageSize, id);
    FindFacts(c.lru, id);
    if id in c.lru.vals && |c.lru.order| >= 3 {
      FindPromotes(c.lru, id);
    }
  }

  /**
   * `insert_to_cache` of a page that is not cached, below capacity or in a cache that can
   * evict: the store succeeds, the page goes to the head of the order and its bytes join the view, and at
   * capacity the least recent page leaves both.
   */
  lemma StoreNew(c: Cache, pageCount: nat, pageSize: nat, id: u32, page: seq<u8>)
    requires CacheOk(c, pageCount, pageSize) && |page| == pageSize
    requires id !in c.lru.vals && (|c.lru.order| < pageCount || 2 <= pageCount)
    ensures var r := Store(c, pageCount, pageSize, id, page);
      var o := c.lru.order;
      && r.1 == Pass
      && CacheOk(r.0, pageCount, pageSize)
      && r.0.lru.order == [id] + (if |o| < pageCount then o else o[..|o| - 1])
      && View(r.0, pageSize) ==
           (if |o| >= pageCount then View(c, pageSize) - {Last(o)} else View(c, pageSize))[id := page]
  {
    StoreNewOrder(c, pageCount, pageSize, id, page);
    StoreNewView(c, pageCount, pageSize, id, page);
  }

  /** A fresh arena with an empty map, as `PageCache::new` makes it, caches nothing. */
  lemma EmptyOk(pageCount: nat, pageSize: nat, bytes: seq<u8>)
    requires |bytes| == pageCount * pageSize
    ensures CacheOk(Cache(Empty, bytes), pageCount, pageSize)
    ensures View(Cache(Empty, bytes), pageSize) == map[]
  {
    assert Slots(map[]) == {};
  }

  /**
   * `insert_to_cache` of a cached page: the store succeeds, the order is the one `find`
   * leaves, and only that page's bytes change in the view.
   */
  lemma StoreHit(c: Cache, pageCount: nat, pageSize: nat, id: u32, page: seq<u8>)
    requires CacheOk(c, pageCount, pageSize) && |page| == pageSize && id in c.lru.vals
    ensures var r := Store(c, pageCount, pageSize, id, page);
      && r.1 == Pass
      && CacheOk(r.0, pageCount, pageSize)
      && r.0.lru.order == Find(c.lru, id).0.order
      && View(r.0, pageSize) == View(c, pageSize)[id := page]
  {
    PlaceHit(c.lru, pageCount, id);
    ViewKeys(c, pageSize);
    StoreFacts(c, pageCount, pageSize, id, page);
    var r := Store(c, pageCount, pageSize, id, page);
    ViewKeys(r.0, pageSize);
    MapSet(View(r.0, pageSize), View(c, pageSize), id, page);
  }

  /** A map with the same keys that holds `page` at `id` and agrees everywhere else. */
  lemma MapSet(v: map<u32, seq<u8>>, v0: map<u32, seq<u8>>, id: u32, page: seq<u8>)
    requires v.Keys == v0.Keys && id in v && v[id] == page
    requires forall k :: k in v && k != id ==> v[k] == v0[k]
    ensures v == v0[id := page]
  {
  }

  /**
   * `insert_to_cache` of a new page into a full cache of at most one page: the eviction
   * has emptied the map, nothing is written, and the call ends in `DataError`.
   */
  lemma StoreFail(c: Cache, pageCount: nat, pageSize: nat, id: u32, page: seq<u8>)
    requires CacheOk(c, pageCount, pageSize) && |page| == pageSize
    requires id !in c.lru.vals && pageCount <= |c.lru.order| && pageCount <= 1
    ensures Store(c, pageCount, pageSize, id, page) == (Cache(Empty, c.bytes), Fail(DataError))
  {
    WfLen(c.lru);
    PlaceFacts(c.lru, pageCount, id);
  }
}
