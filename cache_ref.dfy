/**
 * A reference for what `PageCache` in `page/pagecache.rs` does, written without slots or
 * an arena: the ids of the cached pages from the most recently used on, and the bytes
 * of each.  It follows the quirks of the implementation: `find` only promotes in a map
 * of three or more entries, and a new page in a full cache of at most one page clears
 * the cache and fails.
 */
module CacheRef {
  import opened Ints
  import opened Wrappers
  import opened LruOrder
  import opened CacheSlots

  /** The cached pages: ids from the most recent on, and the bytes of each id. */
  datatype LruPages = LruPages(order: seq<u32>, pages: map<u32, seq<u8>>)

  /** What a hit in `find` does to the order. */
  function Promote(order: seq<u32>, id: u32): seq<u32> {
    if |order| >= 3 then [id] + Without(order, id) else order
  }

  /** Storing `page` under `id` in a cache of `pageCount` pages. */
  function Put(m: LruPages, pageCount: nat, id: u32, page: seq<u8>): (LruPages, Outcome<CacheError>) {
    if id in m.pages then (LruPages(Promote(m.order, id), m.pages[id := page]), Pass)
    else if |m.order| < pageCount then (LruPages([id] + m.order, m.pages[id := page]), Pass)
    else if |m.order| >= 2 then
      (LruPages([id] + m.order[..|m.order| - 1], (m.pages - {Last(m.order)})[id := page]), Pass)
    else (LruPages([], map[]), Fail(DataError))
  }

  /** Reading page `id`. */
  function Get(m: LruPages, id: u32): (LruPages, Option<RawPage>) {
    if id in m.pages then (LruPages(Promote(m.order, id), m.pages), Some(RawPage(id, m.pages[id])))
    else (m, None)
  }

  /** A call the `page_cache` test makes: `insert_to_cache` of a page or `get_from_cache` of an id. */
  datatype Call = PutPage(page: RawPage) | GetPage(id: u32)

  /** What a call returns. */
  datatype Reply = Stored(outcome: Outcome<CacheError>) | Got(found: Option<RawPage>)

  /** One call on the reference. */
  function Step(m: LruPages, pageCount: nat, call: Call): (LruPages, Reply) {
    match call
    case PutPage(page) =>
      var (m1, outcome) := Put(m, pageCount, page.pageId, page.data);
      (m1, Stored(outcome))
    case GetPage(id) =>
      var (m1, found) := Get(m, id);
      (m1, Got(found))
  }

  /** The calls in turn, with the reply to each. */
  function Run(m: LruPages, pageCount: nat, calls: seq<Call>): (LruPages, seq<Reply>)
    decreases |calls|
  {
    if calls == [] then (m, [])
    else
      var (m1, reply) := Step(m, pageCount, calls[0]);
      var (m2, replies) := Run(m1, pageCount, calls[1..]);
      (m2, [reply] + replies)
  }

  /** A single call. */
  lemma RunOne(m: LruPages, pageCount: nat, call: Call)
    ensures Run(m, pageCount, [call]).0 == Step(m, pageCount, call).0
    ensures Run(m, pageCount, [call]).1 == [Step(m, pageCount, call).1]
  {
    assert [call][1..] == [];
    assert Run(Step(m, pageCount, call).0, pageCount, []).0 == Step(m, pageCount, call).0;
  }

  /** Running `a + b` is running `a` and then `b` from where `a` left the cache. */
  lemma {:induction false} RunAppend(m: LruPages, pageCount: nat, a: seq<Call>, b: seq<Call>)
    ensures var ra := Run(m, pageCount, a);
      && Run(m, pageCount, a + b).0 == Run(ra.0, pageCount, b).0
      && Run(m, pageCount, a + b).1 == ra.1 + Run(ra.0, pageCount, b).1
    decreases |a|
  {
    if a == [] {
      assert a + b == b;
    } else {
      assert (a + b)[0] == a[0];
      assert (a + b)[1..] == a[1..] + b;
      var m1 := Step(m, pageCount, a[0]).0;
      RunAppend(m1, pageCount, a[1..], b);
      var r := Step(m, pageCount, a[0]).1;
      var ra1 := Run(m1, pageCount, a[1..]).1;
      assert [r] + (ra1 + Run(Run(m1, pageCount, a[1..]).0, pageCount, b).1)
        == ([r] + ra1) + Run(Run(m1, pageCount, a[1..]).0, pageCount, b).1;
    }
  }

  /** The state of a reference cache: each cached id once in the order, and at most `pageCount` of them. */
  ghost predicate RefOk(m: LruPages, pageCount: nat) {
    && NoDup(m.order)
    && (forall k :: k in m.pages <==> k in m.order)
    && |m.order| <= pageCount
  }

  /** `Put` keeps the reference state well formed. */
  lemma PutOk(m: LruPages, pageCount: nat, id: u32, page: seq<u8>)
    requires RefOk(m, pageCount)
    ensures RefOk(Put(m, pageCount, id, page).0, pageCount)
  {
    var o := m.order;
    if id in m.pages {
      WithoutFacts(o, id);
      NoDupCons(id, Without(o, id));
    } else if |o| < pageCount {
      NoDupCons(id, o);
    } else if |o| >= 2 {
      EvictOk(m, id, page);
    }
  }

  /** Evicting the least recent id and adding a new one keeps each cached id once in the order. */
  lemma EvictOk(m: LruPages, id: u32, page: seq<u8>)
    requires RefOk(m, |m.order|) && id !in m.pages && |m.order| >= 2
    ensures RefOk(LruPages([id] + m.order[..|m.order| - 1], (m.pages - {Last(m.order)})[id := page]), |m.order|)
  {
    var o := m.order;
    var t := o[..|o| - 1];
    assert o == t + [Last(o)];
    assert NoDup(t);
    NoDupCons(id, t);
    forall k ensures k in (m.pages - {Last(o)})[id := page] <==> k in [id] + t {
      if k in t {
        var i :| 0 <= i < |t| && t[i] == k;
        assert o[i] == k && o[|o| - 1] == Last(o);
      }
    }
  }

  /** `Get` keeps the reference state well formed, and answers from the cached bytes. */
  lemma GetOk(m: LruPages, pageCount: nat, id: u32)
    requires RefOk(m, pageCount)
    ensures RefOk(Get(m, id).0, pageCount)
    ensures Get(m, id).0.pages == m.pages
    ensures Get(m, id).1 == if id in m.pages then Some(RawPage(id, m.pages[id])) else None
  {
    if id in m.pages {
      WithoutFacts(m.order, id);
      NoDupCons(id, Without(m.order, id));
    }
  }

  /** Three calls in a row. */
  lemma RunThree(m: LruPages, pageCount: nat, x: Call, y: Call, z: Call)
    ensures
      var (m1, r1) := Step(m, pageCount, x);
      var (m2, r2) := Step(m1, pageCount, y);
      var (m3, r3) := Step(m2, pageCount, z);
      Run(m, pageCount, [x, y, z]).0 == m3 && Run(m, pageCount, [x, y, z]).1 == [r1, r2, r3]
  {
    var (m1, r1) := Step(m, pageCount, x);
    var (m2, r2) := Step(m1, pageCount, y);
    var (m3, r3) := Step(m2, pageCount, z);
    assert [x, y, z][1..] == [y, z];
    assert [y, z][1..] == [z];
    assert [z][1..] == [];
    assert Run(m3, pageCount, []).0 == m3;
    assert Run(m2, pageCount, [z]).0 == m3 && Run(m2, pageCount, [z]).1 == [r3];
    assert Run(m1, pageCount, [y, z]).0 == m3 && Run(m1, pageCount, [y, z]).1 == [r2, r3];
  }

  /** Taking one id out of a three-id order. */
  lemma WithoutOfThree(a: u32, b: u32, c: u32)
    requires a != b && b != c && a != c
    ensures Without([a, b, c], a) == [b, c]
    ensures Without([a, b, c], b) == [a, c]
    ensures Without([a, b, c], c) == [a, b]
  {
    assert [a, b, c][1..] == [b, c] && [b, c][1..] == [c] && [c][1..] == [];
    assert Without([c], a) == [c] && Without([c], b) == [c] && Without([c], c) == [];
    assert Without([b, c], a) == [b, c] && Without([b, c], c) == [b];
    assert Without([b, c], b) == [c];
  }

  /** The test's `insert_to_cache` of `ten_pages[lo]` to `ten_pages[lo + 2]`. */
  function PutThree(p: seq<seq<u8>>, lo: nat): seq<Call>
    requires lo + 3 <= |p| && lo + 3 <= U32_LIMIT
  {
    [PutPage(RawPage(lo as u32, p[lo])), PutPage(RawPage((lo + 1) as u32, p[lo + 1])),
     PutPage(RawPage((lo + 2) as u32, p[lo + 2]))]
  }

  /** The test's `get_from_cache` of `lo` to `lo + 2`. */
  function GetThree(lo: nat): seq<Call>
    requires lo + 3 <= U32_LIMIT
  {
    [GetPage(lo as u32), GetPage((lo + 1) as u32), GetPage((lo + 2) as u32)]
  }

  /** The replies when each of three reads finds `ten_pages[lo]` to `ten_pages[lo + 2]`. */
  function FoundThree(p: seq<seq<u8>>, lo: nat): seq<Reply>
    requires lo + 3 <= |p| && lo + 3 <= U32_LIMIT
  {
    [Got(Some(RawPage(lo as u32, p[lo]))), Got(Some(RawPage((lo + 1) as u32, p[lo + 1]))),
     Got(Some(RawPage((lo + 2) as u32, p[lo + 2])))]
  }

  /**
   * The calls of the `page_cache` test, loop by loop: store pages 0 to 2, read 0 to 2,
   * store 3 to 5, read 0 to 2, read 3 to 5.
   */
  function TestCalls(p: seq<seq<u8>>): seq<Call>
    requires |p| == 6
  {
    PutThree(p, 0) + GetThree(0) + PutThree(p, 3) + GetThree(0) + GetThree(3)
  }

  /**
   * What the test asserts the calls return: every store succeeds, pages 0 to 2 are read
   * back, after pages 3 to 5 are stored they are gone, and 3 to 5 are read back.
   */
  function Expected(p: seq<seq<u8>>): seq<Reply>
    requires |p| == 6
  {
    var stored := [Stored(Pass), Stored(Pass), Stored(Pass)];
    stored + FoundThree(p, 0) + stored + [Got(None), Got(None), Got(None)] + FoundThree(p, 3)
  }

  /** The pages 0, 1 and 2 of the test, as the reference holds them. */
  function FirstPages(p: seq<seq<u8>>): map<u32, seq<u8>>
    requires |p| == 6
  {
    map[0 := p[0], 1 := p[1], 2 := p[2]]
  }

  /** The pages 3, 4 and 5 of the test, as the reference holds them. */
  function NextPages(p: seq<seq<u8>>): map<u32, seq<u8>>
    requires |p| == 6
  {
    map[3 := p[3], 4 := p[4], 5 := p[5]]
  }

  /** The test's first loop: pages 0, 1 and 2 go into an empty cache of three pages. */
  lemma PutFirstThree(p: seq<seq<u8>>)
    requires |p| == 6
    ensures Run(LruPages([], map[]), 3, PutThree(p, 0)).0 == LruPages([2, 1, 0], FirstPages(p))
    ensures Run(LruPages([], map[]), 3, PutThree(p, 0)).1 == [Stored(Pass), Stored(Pass), Stored(Pass)]
  {
    var e := LruPages([], map[]);
    RunThree(e, 3, PutPage(RawPage(0, p[0])), PutPage(RawPage(1, p[1])), PutPage(RawPage(2, p[2])));
    assert Put(e, 3, 0, p[0]).0 == LruPages([0], map[0 := p[0]]);
    assert Put(LruPages([0], map[0 := p[0]]), 3, 1, p[1]).0 == LruPages([1, 0], map[0 := p[0], 1 := p[1]]);
  }

  /** The second loop: reading 0, 1 and 2 back finds each, and leaves the order as it was. */
  lemma GetFirstThree(p: seq<seq<u8>>)
    requires |p| == 6
    ensures var m := LruPages([2, 1, 0], FirstPages(p));
      && Run(m, 3, GetThree(0)).0 == m
      && Run(m, 3, GetThree(0)).1 == FoundThree(p, 0)
  {
    var v := FirstPages(p);
    WithoutOfThree(2, 1, 0);
    WithoutOfThree(0, 2, 1);
    WithoutOfThree(1, 0, 2);
    RunThree(LruPages([2, 1, 0], v), 3, GetPage(0), GetPage(1), GetPage(2));
    assert Get(LruPages([2, 1, 0], v), 0).0 == LruPages([0, 2, 1], v);
    assert Get(LruPages([0, 2, 1], v), 1).0 == LruPages([1, 0, 2], v);
  }

  /** A new page in a full reference cache of three pages evicts the least recent one. */
  lemma PutEvictsOfThree(a: u32, b: u32, c: u32, v: map<u32, seq<u8>>, id: u32, page: seq<u8>)
    requires id !in v && id != a && id != b && id != c
    ensures Put(LruPages([a, b, c], v), 3, id, page).0 == LruPages([id, a, b], (v - {c})[id := page])
    ensures Put(LruPages([a, b, c], v), 3, id, page).1 == Pass
  {
    assert [a, b, c][..2] == [a, b];
  }

  /** The pages held after each store of the third loop. */
  lemma EvictedPages(p: seq<seq<u8>>)
    requires |p| == 6
    ensures (FirstPages(p) - {0})[3 := p[3]] == map[1 := p[1], 2 := p[2], 3 := p[3]]
    ensures (map[1 := p[1], 2 := p[2], 3 := p[3]] - {1})[4 := p[4]] == map[2 := p[2], 3 := p[3], 4 := p[4]]
    ensures (map[2 := p[2], 3 := p[3], 4 := p[4]] - {2})[5 := p[5]] == NextPages(p)
  {
  }

  /** The third loop: pages 3, 4 and 5 evict 0, 1 and 2 in that order. */
  lemma PutNextThree(p: seq<seq<u8>>)
    requires |p| == 6
    ensures var m := LruPages([2, 1, 0], FirstPages(p));
      && Run(m, 3, PutThree(p, 3)).0 == LruPages([5, 4, 3], NextPages(p))
      && Run(m, 3, PutThree(p, 3)).1 == [Stored(Pass), Stored(Pass), Stored(Pass)]
  {
    var v31 := map[1 := p[1], 2 := p[2], 3 := p[3]];
    var v32 := map[2 := p[2], 3 := p[3], 4 := p[4]];
    RunThree(LruPages([2, 1, 0], FirstPages(p)), 3, PutPage(RawPage(3, p[3])), PutPage(RawPage(4, p[4])), PutPage(RawPage(5, p[5])));
    EvictedPages(p);
    PutEvictsOfThree(2, 1, 0, FirstPages(p), 3, p[3]);
    PutEvictsOfThree(3, 2, 1, v31, 4, p[4]);
    PutEvictsOfThree(4, 3, 2, v32, 5, p[5]);
  }

  /** The fourth loop: 0, 1 and 2 are gone, and reading them changes nothing. */
  lemma GetEvicted(p: seq<seq<u8>>)
    requires |p| == 6
    ensures var m := LruPages([5, 4, 3], NextPages(p));
      && Run(m, 3, GetThree(0)).0 == m
      && Run(m, 3, GetThree(0)).1 == [Got(None), Got(None), Got(None)]
  {
    RunThree(LruPages([5, 4, 3], NextPages(p)), 3, GetPage(0), GetPage(1), GetPage(2));
  }

  /** The last loop: 3, 4 and 5 come back with their bytes. */
  lemma GetNextThree(p: seq<seq<u8>>)
    requires |p| == 6
    ensures Run(LruPages([5, 4, 3], NextPages(p)), 3, GetThree(3)).1 == FoundThree(p, 3)
  {
    var v := NextPages(p);
    RunThree(LruPages([5, 4, 3], v), 3, GetPage(3), GetPage(4), GetPage(5));
    WithoutOfThree(5, 4, 3);
    WithoutOfThree(3, 5, 4);
  }

  /**
   * The `page_cache` test on the reference, from an empty cache of three pages: every
   * call returns what the test asserts.
   */
  lemma PageCacheTrace(p: seq<seq<u8>>)
    requires |p| == 6
    ensures Run(LruPages([], map[]), 3, TestCalls(p)).1 == Expected(p)
  {
    var e := LruPages([], map[]);
    var a := PutThree(p, 0);
    var b := GetThree(0);
    var c := PutThree(p, 3);
    var m1 := LruPages([2, 1, 0], FirstPages(p));
    var m3 := LruPages([5, 4, 3], NextPages(p));
    PutFirstThree(p);
    GetFirstThree(p);
    PutNextThree(p);
    GetEvicted(p);
    GetNextThree(p);
    RunAppend(e, 3, a, b);
    RunAppend(e, 3, a + b, c);
    RunAppend(e, 3, a + b + c, b);
    RunAppend(e, 3, a + b + c + b, GetThree(3));
  }
}
