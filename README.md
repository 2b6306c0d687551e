# PoloDB page cache, meta-entry flags and transaction state, in Dafny

This project models three pieces of PoloDB's storage core:

- the page cache of `page/pagecache.rs`;
- the key-type flags of `MetaDocEntry` in `meta_doc_helper.rs`;
- the transaction record of `journal/transaction.rs`.

The page cache is a fixed arena of `page_count * page_size` bytes split into slots. An
`LruMap` records which page id lives in which slot and in what order the pages were used.

- **LruMap.** `LruOrder` states the map's abstract state and what `find`, `insert`,
  `remove` and `remove_tail` do to it. `LruMapImpl.LruMap` is a class over a node arena
  keyed by page id. Its methods follow the source's link updates branch by branch, and each
  is proved to act as the matching `LruOrder` function.
- **PageCache.** `CacheSlots` is the value model of the arena and the slot map.
  `PageCacheImpl.PageCache` keeps the arena as an `array<u8>`. Its methods are proved to
  act as `CacheSlots.Store` and `CacheSlots.Fetch`. `CacheSlots` also proves the slot
  invariant: the slots are exactly `0 .. len - 1`, one per page, all below `page_count`.
- **Reference cache.** `CacheRef` describes the cache without slots: an ordered list of
  ids with their bytes. `CacheScenario` proves that what the page cache stores and reads,
  seen through the slots, is what this reference does.
- **Unit tests.** `UnitTests` replays the source's two unit tests, loop by loop, as
  verified methods on the `LruMap` and `PageCache` objects, and proves every assertion
  they make.
- **Flags.** `MetaDoc` models the flag logic of `MetaDocEntry`.
- **Transaction.** `Transaction` models the transaction record.

Modules and files:

- `Ints` (`ints.dfy`) and `Wrappers` (`wrappers.dfy`) hold the shared integer types and
  option and result types.
- `LruOrder` (`lru_order.dfy`);
- `LruMapImpl` (`lru_map.dfy`);
- `CacheSlots` (`cache_slots.dfy`);
- `PageCacheImpl` (`page_cache.dfy`);
- `CacheRef` (`cache_ref.dfy`);
- `CacheScenario` (`cache_scenario.dfy`);
- `UnitTests` (`unit_tests.dfy`);
- `MetaDoc` (`meta_doc.dfy`);
- `Transaction` (`transaction.dfy`).

Edge cases of the code that the model reproduces as written:

- **`find` does not promote in small maps.** `find` takes the node out of the hash map
  first and only then reads `len()` (`page/pagecache.rs:55-63`). So it moves a hit to the
  head only when the map holds three or more entries. In a map of two entries, a hit of
  the tail leaves the order unchanged.
- **`remove_tail` with one entry.** On a map of at most one entry `remove_tail` clears the
  map and returns `None` (`page/pagecache.rs:136-143`). As a result, `insert` of a new key
  into a full map of capacity 1 drops the old entry but returns `None`.
- **A page cache of at most one page fails when full.** A new page then makes
  `distribute_new_index` call `remove_tail`, which returns `None`, so its
  `expect("data error")` fires (`page/pagecache.rs:253-260`). The cached page has already
  been dropped by then. The model gives `Fail(DataError)` with an empty map.
- **A capacity-0 map is not empty.** `insert_node` evicts through `remove_tail` and then
  links the new node in (`page/pagecache.rs:107-131`), so the map holds one entry after an
  insert.
- **`frame_count` is kept as passed.** `TransactionState::new` stores the `frame_count` it
  is given (`journal/transaction.rs:18-25`).

## Model

| member | source | states |
|---|---|---|
| LruOrder.WfLen | src/polodb_core/page/pagecache.rs:43-46 | `len()` counts the stored keys and the recency list alike: both numbers are equal. |
| LruOrder.FreshIdBound | src/polodb_core/page/pagecache.rs:254-255 | A map that does not yet hold some `u32` key has fewer than 2^32 entries, so `len() as u32` never truncates. |
| LruOrder.Find | src/polodb_core/page/pagecache.rs:54-92 | `find` keeps every key exactly once in the recency order. |
| LruOrder.FindFacts | src/polodb_core/page/pagecache.rs:54-92 | On a hit `find` returns the stored value; on a miss it returns `None` and changes nothing. It never changes a stored value or the number of entries. The other keys keep their relative order. A hit moves to the head only when the map holds at least 3 entries; otherwise the state is left exactly as it was. |
| LruOrder.FindPromotes | src/polodb_core/page/pagecache.rs:63-84 | In a map of three or more entries, a hit becomes the head and the others follow in their old order. |
| LruOrder.FindValue | src/polodb_core/page/pagecache.rs:54-61 | `find` returns the value stored under the key, or `None`, and keeps all stored values. |
| LruOrder.Remove | src/polodb_core/page/pagecache.rs:156-193 | `remove` keeps every key exactly once in the recency order. |
| LruOrder.RemoveFacts | src/polodb_core/page/pagecache.rs:156-193 | `remove` returns the key's value and deletes exactly that key; the other keys keep their values and relative order. An absent key gives `None` and no change. |
| LruOrder.RemoveTail | src/polodb_core/page/pagecache.rs:136-154 | `remove_tail` keeps every key exactly once in the recency order. |
| LruOrder.RemoveTailFacts | src/polodb_core/page/pagecache.rs:136-154 | On at most one entry the map is emptied and `None` returned. Otherwise the least recent `(key, value)` is returned and removed as `remove` would remove it, and its predecessor becomes the tail. |
| LruOrder.Insert | src/polodb_core/page/pagecache.rs:94-134 | `insert` keeps every key exactly once in the recency order. |
| LruOrder.InsertFacts | src/polodb_core/page/pagecache.rs:94-134 | The key ends at the head with the new value, and no other value changes. Overwriting returns the old value and keeps the length. A new key below capacity is simply added. At capacity with at least two entries, exactly the tail is evicted, its value returned, and the others keep their order. At capacity with at most one entry, the result is `[key]` and `None`. |
| LruOrder.InsertWithinCap | src/polodb_core/page/pagecache.rs:107-113 | An insert into a map of at most `max(cap, 1)` entries leaves it within that bound (one entry when `cap` is 0). |
| LruOrder.InsertEach | src/polodb_core/page/pagecache.rs:94-134 | Any sequence of inserts keeps the map within `max(cap, 1)` entries. |
| LruOrder.RecentFirstFacts | src/polodb_core/page/pagecache.rs:316-318 | The expected recency order after ascending inserts of `0 .. hi-1` holds each of the last `m` ids once. |
| LruOrder.InsertNextAscending | src/polodb_core/page/pagecache.rs:316-318 | One more ascending insert extends the expected recency order, below capacity and at capacity. |
| LruOrder.InsertAscending | src/polodb_core/page/pagecache.rs:316-318 | Inserting `i -> i` for `i` in `0..n` leaves the ids `n-1, n-2, …` in recency order, `min(n, cap)` of them, each stored under itself. |
| LruOrder.AscendingContents | src/polodb_core/page/pagecache.rs:313-320 | After those inserts, with `cap <= n`, the map holds exactly the `cap` ids `n-cap .. n-1`, each under itself. |
| LruMapImpl.FindKept | src/polodb_core/page/pagecache.rs:63-68 | A hit that is the head, or one in a map of at most two entries, leaves the abstract state as it was. |
| LruMapImpl.FindMovesToFront | src/polodb_core/page/pagecache.rs:63-84 | A hit in a map of three or more entries becomes the head of the abstract order. |
| LruMapImpl.TailUnlinked | src/polodb_core/page/pagecache.rs:145-153 | Unlinking the `end` node gives a linked list of exactly the abstract order with its tail removed. |
| LruMapImpl.KeyUnlinked | src/polodb_core/page/pagecache.rs:174-190 | Unlinking a node at the head, the tail or the middle gives a linked list of exactly the abstract order without that key. |
| LruMapImpl.OnlyRemoved | src/polodb_core/page/pagecache.rs:162-171 | `remove` of the only entry returns the value read through `start` and empties the map. |
| LruMapImpl.InsertSplit | src/polodb_core/page/pagecache.rs:102-113 | `remove` reports a value exactly when the key is present. A missing key is absent after `remove` and after `remove_tail`. |
| LruMapImpl.LruMap.constructor | src/polodb_core/page/pagecache.rs:34-41 | `new` gives an empty, well-linked map of the given capacity. |
| LruMapImpl.LruMap.Len | src/polodb_core/page/pagecache.rs:43-46 | `len()` is the number of entries of the recency order and of the stored values. |
| LruMapImpl.LruMap.Tail | src/polodb_core/page/pagecache.rs:195-207 | `tail()` is `None` for an empty map; otherwise it is the least recent key and its value. |
| LruMapImpl.LruMap.Find | src/polodb_core/page/pagecache.rs:54-92 | The links stay valid, and the abstract state and result are those of `LruOrder.Find`. |
| LruMapImpl.LruMap.MoveToFront | src/polodb_core/page/pagecache.rs:69-84 | Relinking a non-head node to the front gives the order `[key] + (old order without key)` with the same values. |
| LruMapImpl.LruMap.Insert | src/polodb_core/page/pagecache.rs:94-97 | The new state and result are those of `LruOrder.Insert`. |
| LruMapImpl.LruMap.InsertNode | src/polodb_core/page/pagecache.rs:99-134 | Remove-or-evict, then link in front: the new state and result are those of `LruOrder.Insert`. |
| LruMapImpl.LruMap.LinkFront | src/polodb_core/page/pagecache.rs:116-131 | The node becomes the head, and also the tail when the list was empty. The key is added with its value. |
| LruMapImpl.LruMap.RemoveTail | src/polodb_core/page/pagecache.rs:136-154 | The new state and result are those of `LruOrder.RemoveTail`. The `expect("remove nothing")` cannot fail. |
| LruMapImpl.LruMap.Remove | src/polodb_core/page/pagecache.rs:156-193 | The new state and result are those of `LruOrder.Remove`, for the head, the tail, the middle and the only entry. |
| CacheSlots.SlotFits | src/polodb_core/page/pagecache.rs:244 | A slot below `page_count` lies inside the arena: `slot * page_size + page_size <= page_count * page_size`. |
| CacheSlots.SlotBelow | src/polodb_core/page/pagecache.rs:253-260 | Every stored slot is below the number of entries, hence below `page_count`. |
| CacheSlots.SlotBytes | src/polodb_core/page/pagecache.rs:244-248 | A copied slot has exactly `page_size` bytes. |
| CacheSlots.OverwriteFacts | src/polodb_core/page/pagecache.rs:265-268 | After a page is written at an offset, those bytes are the page's and every other byte is unchanged. |
| CacheSlots.OverwriteOtherSlot | src/polodb_core/page/pagecache.rs:262-280 | Writing one slot leaves the bytes of every other slot unchanged. |
| CacheSlots.Distribute | src/polodb_core/page/pagecache.rs:253-260 | `distribute_new_index` keeps every key exactly once in the recency order. |
| CacheSlots.DistributeFacts | src/polodb_core/page/pagecache.rs:253-260 | For an uncached page it fails exactly when the cache is full and `page_count <= 1`, leaving the map empty. Below capacity it returns `len()` and changes nothing. At capacity it evicts the tail and returns the tail's slot. |
| CacheSlots.DistributeRoom | src/polodb_core/page/pagecache.rs:253-260 | A slot it returns is below `page_count`, and the map then has room for one more page under distinct slots. |
| CacheSlots.DistributeFree | src/polodb_core/page/pagecache.rs:253-260 | A slot it returns is unused, and with it the slots used are exactly `0 .. len`. |
| CacheSlots.DistributeBelow | src/polodb_core/page/pagecache.rs:254-255 | Below capacity it returns `len() as u32` without truncation, and the slots become exactly `0 .. len`. |
| CacheSlots.DistributeEvicts | src/polodb_core/page/pagecache.rs:256-258 | At capacity with at least two pages, the tail leaves the map and exactly its slot is freed and returned. |
| CacheSlots.Place | src/polodb_core/page/pagecache.rs:262-280 | Choosing the slot in `insert_to_cache` keeps every key exactly once in the recency order. |
| CacheSlots.PlaceFacts | src/polodb_core/page/pagecache.rs:262-280 | It fails exactly for a new page in a full cache of at most one page. A cached page keeps its slot. A new page takes slot `len()` below capacity, or the evicted tail's slot at capacity. No other page's slot changes, and the slot invariant is kept. |
| CacheSlots.PlaceHit | src/polodb_core/page/pagecache.rs:263-269 | A cached page keeps its slot and the slot map is unchanged. |
| CacheSlots.PlaceNew | src/polodb_core/page/pagecache.rs:271-278 | A new page is inserted under the slot `distribute_new_index` gives, unless that failed. |
| CacheSlots.PlaceNewOrder | src/polodb_core/page/pagecache.rs:271-278 | A new page that gets a slot becomes the most recent. At capacity the least recent page leaves the order. |
| CacheSlots.PlaceNewKeys | src/polodb_core/page/pagecache.rs:271-278 | The cached ids become the old ones plus the new id, minus the evicted tail at capacity. |
| CacheSlots.FetchFacts | src/polodb_core/page/pagecache.rs:239-250 | `get_from_cache` returns the bytes of a cached page's slot, or `None`. It keeps the arena, the slot map, every cached page's bytes and the invariant. |
| CacheSlots.FetchAfterFind | src/polodb_core/page/pagecache.rs:239-250 | `get_from_cache` is `find` followed by copying the found slot out. |
| CacheSlots.FindKeepsOk | src/polodb_core/page/pagecache.rs:240 | The promotion in `find` keeps the cache invariant. |
| CacheSlots.FetchView | src/polodb_core/page/pagecache.rs:239-250 | A read returns `Some` with the page's bytes exactly when the page is cached; it keeps every page's bytes and promotes as `find` does. |
| CacheSlots.StoreFacts | src/polodb_core/page/pagecache.rs:262-280 | `insert_to_cache` keeps the invariant. It fails exactly for a new page in a full cache of at most one page, leaving the arena alone. Otherwise the page reads back with its bytes and every other cached page keeps its bytes. |
| CacheSlots.StoreMiss | src/polodb_core/page/pagecache.rs:271-278 | For an uncached page: the slot comes from `distribute_new_index`. On failure nothing is written. Otherwise the page is copied into the slot and inserted into the map under it. |
| CacheSlots.StoreNewOrder | src/polodb_core/page/pagecache.rs:271-278 | A new page that gets a slot is stored and becomes the most recent; at capacity the least recent page leaves. |
| CacheSlots.StoreNewView | src/polodb_core/page/pagecache.rs:271-278 | After a new page is stored, the cached bytes are the old ones plus this page, minus the evicted tail at capacity. |
| CacheSlots.StoreNew | src/polodb_core/page/pagecache.rs:271-278 | Storing a new page that gets a slot succeeds and keeps the invariant. It fixes the new order and the new bytes of every cached page. |
| CacheSlots.StoreHit | src/polodb_core/page/pagecache.rs:263-269 | Overwriting a cached page succeeds, gives it the new bytes, leaves every other page's bytes, and promotes it as `find` does. |
| CacheSlots.StoreFail | src/polodb_core/page/pagecache.rs:253-260 | A new page in a full cache of at most one page gives `Fail(DataError)`, and the map is empty. |
| CacheSlots.EmptyOk | src/polodb_core/page/pagecache.rs:224-237 | A new cache with an empty map satisfies the invariant and holds no pages. |
| CacheRef.RunOne | src/polodb_core/page/pagecache.rs:334-373 | Running one call is one `Step`. |
| CacheRef.RunAppend | src/polodb_core/page/pagecache.rs:334-373 | Running `a + b` is running `a`, then `b` from the state `a` left; the replies concatenate. |
| CacheRef.PutOk | src/polodb_core/page/pagecache.rs:262-280 | Storing in the reference keeps each cached id once in the order and at most `page_count` of them. |
| CacheRef.EvictOk | src/polodb_core/page/pagecache.rs:271-278 | Evicting the least recent id and adding a new one keeps each id once in the order. |
| CacheRef.GetOk | src/polodb_core/page/pagecache.rs:239-250 | Reading from the reference keeps it well formed and every page's bytes. It returns the page's bytes exactly when it is cached. |
| CacheRef.RunThree | src/polodb_core/page/pagecache.rs:343-345 | Three calls in a row are three `Step`s. |
| CacheRef.WithoutOfThree | src/polodb_core/page/pagecache.rs:63-84 | Taking any one id out of a three-id order keeps the other two in order. |
| CacheRef.PutFirstThree | src/polodb_core/page/pagecache.rs:343-345 | Storing pages 0, 1, 2 in an empty 3-page cache succeeds each time, leaving the order 2, 1, 0 with their bytes. |
| CacheRef.GetFirstThree | src/polodb_core/page/pagecache.rs:347-353 | Reading 0, 1, 2 then returns each page's bytes and leaves the order 2, 1, 0. |
| CacheRef.PutEvictsOfThree | src/polodb_core/page/pagecache.rs:356-358 | A new page in a full 3-page cache evicts the least recent page and becomes the head. |
| CacheRef.EvictedPages | src/polodb_core/page/pagecache.rs:356-358 | The page maps after each store of pages 3, 4 and 5. |
| CacheRef.PutNextThree | src/polodb_core/page/pagecache.rs:356-358 | Storing 3, 4, 5 succeeds each time, evicts 0, 1, 2 in that order, and leaves order 5, 4, 3. |
| CacheRef.GetEvicted | src/polodb_core/page/pagecache.rs:360-364 | Reading 0, 1, 2 then gives `None` each time and changes nothing. |
| CacheRef.GetNextThree | src/polodb_core/page/pagecache.rs:366-372 | Reading 3, 4, 5 then returns each page's bytes. |
| CacheRef.PageCacheTrace | src/polodb_core/page/pagecache.rs:334-373 | On the reference, the test's calls return exactly what it asserts. |
| CacheScenario.AbsOk | src/polodb_core/page/pagecache.rs:211-237 | A page cache's state, without its slots, is a well-formed reference state within `page_count`. |
| CacheScenario.StoreRefines | src/polodb_core/page/pagecache.rs:262-280 | `insert_to_cache` keeps the invariant and does to the cached ids, their order and their bytes what the reference `Put` does, with the same outcome. |
| CacheScenario.HitRefines | src/polodb_core/page/pagecache.rs:263-269 | The same for a cached page. |
| CacheScenario.NewRefines | src/polodb_core/page/pagecache.rs:271-278 | The same for a new page that gets a slot. |
| CacheScenario.FailRefines | src/polodb_core/page/pagecache.rs:257 | The same for the `expect("data error")` case. |
| CacheScenario.FetchRefines | src/polodb_core/page/pagecache.rs:239-250 | `get_from_cache` keeps the invariant and does what the reference `Get` does, with the same result. |
| CacheScenario.Serve | src/polodb_core/page/pagecache.rs:239-280 | One call keeps the invariant, agrees with the reference `Step` on the state seen without slots, and gives the same reply. |
| CacheScenario.TestCallsSized | src/polodb_core/page/pagecache.rs:300-310 | Every page the test stores has 4096 bytes. |
| PageCacheImpl.PageCache.constructor | src/polodb_core/page/pagecache.rs:224-237 | `new` gives a valid cache with an arena of `page_count * page_size` bytes and an empty map of capacity `page_count`. |
| PageCacheImpl.PageCache.NewDefault | src/polodb_core/page/pagecache.rs:220-222 | `new_default` is `new` with 1024 pages. |
| PageCacheImpl.PageCache.GetFromCache | src/polodb_core/page/pagecache.rs:239-250 | The new state and result are those of `CacheSlots.Fetch`, and the cache stays valid. |
| PageCacheImpl.PageCache.ReadSlot | src/polodb_core/page/pagecache.rs:244-248 | The copy of a cached page holds exactly the bytes of its slot. |
| PageCacheImpl.PageCache.DistributeNewIndex | src/polodb_core/page/pagecache.rs:253-260 | The new map and result are those of `CacheSlots.Distribute`, with the `u32` cast written out. |
| PageCacheImpl.PageCache.InsertToCache | src/polodb_core/page/pagecache.rs:262-280 | The new state and outcome are those of `CacheSlots.Store`, and the cache stays valid. |
| PageCacheImpl.PageCache.OverwriteCached | src/polodb_core/page/pagecache.rs:264-269 | The override arm gives the state of `CacheSlots.Store` for a cached page, and succeeds. |
| PageCacheImpl.PageCache.InsertNew | src/polodb_core/page/pagecache.rs:271-278 | The new-page arm gives the state and outcome of `CacheSlots.Store`. |
| PageCacheImpl.PageCache.CopyFromArena | src/polodb_core/page/pagecache.rs:247 | `copy_from_ptr` returns the `page_size` arena bytes from the offset on. |
| PageCacheImpl.PageCache.CopyToArena | src/polodb_core/page/pagecache.rs:267 | `copy_to_ptr` writes the page over the arena from the offset on and leaves every other byte. |
| UnitTests.InsertAscending | src/polodb_core/page/pagecache.rs:316-318 | The loop `insert(i, i)` for `i` in `0..n` leaves the map in the state of the ascending inserts. |
| UnitTests.FindEach | src/polodb_core/page/pagecache.rs:322-328 | A loop of `find` calls returns the stored value or `None` for each id, and keeps all values. |
| UnitTests.NewFilled | src/polodb_core/page/pagecache.rs:314-318 | A new map of capacity `cap` fed `0 .. n-1` holds exactly the last `cap` ids, each under itself. |
| UnitTests.RunLruMapTest | src/polodb_core/page/pagecache.rs:313-329 | The `lru_map` test: `len()` is `cap`; `find` gives `None` for each of the first `n - cap` ids and finds each of the last `cap` under its own value. |
| UnitTests.Perform | src/polodb_core/page/pagecache.rs:239-280 | One call on the `PageCache` object gives the state and reply of `CacheScenario.Serve`. |
| UnitTests.Replay | src/polodb_core/page/pagecache.rs:343-372 | A run of calls on the object agrees with the reference `Run`, reply by reply. |
| UnitTests.RunPageCacheTest | src/polodb_core/page/pagecache.rs:334-373 | The `page_cache` test on a new 3-page cache: every store succeeds; pages 0 to 2 read back with their bytes; after 3 to 5 are stored, 0 to 2 give `None` and 3 to 5 read back. |
| MetaDoc.KeyTy | src/polodb_core/meta_doc_helper.rs:60-63 | `key_ty` is the low byte of `flags`, masked with `KEY_TY_FLAG = 0xFF`. |
| MetaDoc.Check | src/polodb_core/meta_doc_helper.rs:65-80 | Key type 0 passes and sets `skipped`. Otherwise `skipped` is untouched, and the check passes exactly when the types agree. A failure is `UnexpectedIdType(expected, actual)`. |
| MetaDoc.Merge | src/polodb_core/meta_doc_helper.rs:82-86 | Merging only adds bits to `flags` and leaves every bit above the low byte unchanged. |
| MetaDoc.MergeKeyTy | src/polodb_core/meta_doc_helper.rs:84 | Merging ORs the type into the key-type byte. |
| MetaDoc.MergeTwice | src/polodb_core/meta_doc_helper.rs:84 | Merging the same type twice gives the flags of merging it once. |
| MetaDoc.MergeFresh | src/polodb_core/meta_doc_helper.rs:41-47 | Merging a type into fresh flags makes it the key type. |
| MetaDoc.FreshMergeCheck | src/polodb_core/meta_doc_helper.rs:65-86 | After a non-zero type is merged into fresh flags, the check passes exactly for documents whose key has that type. It reports both types otherwise and leaves `skipped` alone. |
| MetaDoc.MetaDocEntry.constructor | src/polodb_core/meta_doc_helper.rs:41-47 | `new` stores the id and root page with flags 0, so no key type is fixed. |
| MetaDoc.MetaDocEntry.CheckPkeyTy | src/polodb_core/meta_doc_helper.rs:65-80 | The result and the new `skipped` are those of `Check` on the entry's key type. |
| MetaDoc.MetaDocEntry.MergePkeyTyToMeta | src/polodb_core/meta_doc_helper.rs:82-86 | `flags` becomes `Merge(old flags, ty)`, and the meta document gets the new flags as an integer under `"flags"`. |
| MetaDoc.MergeThenCheck | src/polodb_core/meta_doc_helper.rs:41-86 | A new entry that merged type `t != 0` accepts a document exactly when its key has type `t`. It reports `UnexpectedIdType(t, actual)` otherwise and never skips. |
| Transaction.New | src/polodb_core/journal/transaction.rs:18-25 | `new` keeps `ty`, `frame_count` and `db_file_size` as given, and starts with an empty offset map. |

## Left out

- `malloc`/`free`, raw pointers, `Box::into_raw`/`from_raw` and `Drop` are not modelled. The
  linked list is a map of nodes keyed by page id, with neighbours named by key, and the
  arena is a Dafny array. Aliasing between nodes is therefore not modelled.
- The arena is allocated without initial values, so its bytes start arbitrary, as they do
  after `malloc`. No contract depends on bytes that were never written.
- `RawPage` (`crate::page`) is not part of this model. A page is its id and its bytes, and
  `copy_from_ptr`/`copy_to_ptr` are slice copies of `page_size` bytes.
- PageCacheImpl.PageCache.InsertToCache: requires the page to have `page_size` bytes. A
  `RawPage` is always made with the cache's page size; the source does not check the
  length.
- The product `page_count * page_size` cannot overflow `usize` in the model, because it
  is a mathematical integer. The `len() as u32` cast is written out and proved never to
  truncate.
- `LruMap::cap()` (an unused accessor) is not modelled.
- `make_raw_page` fills pages from `libc::rand`. The test's pages are parameters of
  arbitrary bytes instead. The test builds ten pages but uses only the first six, so the
  model takes six.
- `MetaDocEntry::from_doc` and the `meta_doc_key` string constants are not modelled, except
  `"flags"`. Neither is the `Document`/`Value` API. A document is a map from keys to
  integer or string values.
- The primary-key type tag is a parameter. The `pkey_id().unwrap()` panic for a document
  without a primary key is not modelled.
- MetaDoc.KeyTy: the result is stated as the bit-vector mask `flags & 0xFF`. The integer
  form `flags % 256` is not restated.
- The journal operations that change `offset_map` and `frame_count` are not part of this
  model, since `journal/transaction.rs` holds only the constructor. The `BTreeMap`
  ordering is not modelled either; the map is a Dafny `map`.
- Concurrency and locking are not modelled; the source has none.
