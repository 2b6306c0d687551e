/**
 * `LruMap` of `page/pagecache.rs`: a capacity-bounded map from page id to slot index.
 * The source keeps its entries as boxed nodes in a `HashMap` and threads them on a raw
 * doubly linked list (`start` is the most recent entry, `end` the least recent).  Here
 * the nodes stay in a map keyed by page id, and a node's `prev`/`next` name its
 * neighbours by key instead of by address; every method performs the source's link
 * updates one by one.  The ghost fields `order` and `vals` are the abstract state of
 * module `LruOrder`, and each method is proved to act on them as the matching function
 * there does.
 */
module LruMapImpl {
  import opened Ints
  import opened Wrappers
  import opened LruOrder

  /** `LruNode`: one entry, with the keys of its neighbours in recency order. */
  datatype LruNode = LruNode(prev: Option<u32>, next: Option<u32>, key: u32, value: u32)

  function HeadOf(o: seq<u32>): Option<u32> {
    if o == [] then None else Some(o[0])
  }

  function TailOf(o: seq<u32>): Option<u32> {
    if o == [] then None else Some(Last(o))
  }

  function PrevOf(o: seq<u32>, i: nat): Option<u32>
    requires i < |o|
  {
    if i == 0 then None else Some(o[i - 1])
  }

  function NextOf(o: seq<u32>, i: nat): Option<u32>
    requires i < |o|
  {
    if i + 1 == |o| then None else Some(o[i + 1])
  }

  /** The node of the `i`-th most recent key links to its neighbours in `o` and holds its value. */
  ghost predicate NodeAt(data: map<u32, LruNode>, vals: map<u32, u32>, o: seq<u32>, i: nat)
    requires i < |o|
  {
    o[i] in data && o[i] in vals &&
    data[o[i]] == LruNode(PrevOf(o, i), NextOf(o, i), o[i], vals[o[i]])
  }

  /**
   * The node map, the two end pointers and the links spell out the recency order `o`
   * over the values `vals`.
   */
  ghost predicate Linked(data: map<u32, LruNode>, start: Option<u32>, end: Option<u32>,
                         o: seq<u32>, vals: map<u32, u32>)
  {
    && Wf(Lru(o, vals))
    && (forall k :: k in data <==> k in o)
    && start == HeadOf(o)
    && end == TailOf(o)
    && forall i :: 0 <= i < |o| ==> NodeAt(data, vals, o, i)
  }

  lemma LinkedLen(data: map<u32, LruNode>, start: Option<u32>, end: Option<u32>,
                  o: seq<u32>, vals: map<u32, u32>)
    requires Linked(data, start, end, o, vals)
    ensures |data| == |o|
  {
    NoDupCard(o);
    assert data.Keys == set x | x in o;
  }

  lemma MapMinusCard(m: map<u32, LruNode>, k: u32)
    requires k in m
    ensures |m - {k}| == |m| - 1
  {
    assert (m - {k}).Keys == m.Keys - {k};
  }

  /** Removing position `i` from a duplicate-free order keeps it well formed without that key. */
  lemma DropAtWf(o: seq<u32>, vals: map<u32, u32>, i: nat)
    requires Wf(Lru(o, vals)) && i < |o|
    ensures Wf(Lru(o[..i] + o[i + 1..], vals - {o[i]}))
    ensures forall x :: x in o[..i] + o[i + 1..] <==> x in o && x != o[i]
  {
    WithoutAt(o, i);
    WithoutFacts(o, o[i]);
    assert NoDup(o[..i] + o[i + 1..]);
  }

  /** Dropping the head of an order with at least two entries. */
  lemma DropHeadWf(o: seq<u32>, vals: map<u32, u32>)
    requires Wf(Lru(o, vals)) && 2 <= |o|
    ensures Wf(Lru(o[1..], vals - {o[0]}))
    ensures forall x :: x in o[1..] <==> x in o && x != o[0]
    ensures TailOf(o[1..]) == TailOf(o)
  {
    DropAtWf(o, vals, 0);
    assert o[..0] + o[1..] == o[1..];
  }

  /** The first and last entries after removing position `i`. */
  lemma DropAtEnds(o: seq<u32>, i: nat)
    requires i < |o|
    ensures 0 < i ==> HeadOf(o[..i] + o[i + 1..]) == HeadOf(o)
    ensures i + 1 < |o| ==> TailOf(o[..i] + o[i + 1..]) == TailOf(o)
    ensures 0 < i && i + 1 == |o| ==> TailOf(o[..i] + o[i + 1..]) == Some(o[i - 1])
  {
    var o2 := o[..i] + o[i + 1..];
    assert |o2| == |o| - 1;
    if 0 < i {
      assert o2[0] == o[0];
    }
    if 0 < |o2| {
      assert o2[|o2| - 1] == if i + 1 < |o| then o[|o| - 1] else o[i - 1];
    }
  }

  /** One node after unlinking the entry at position `i > 0` (see `UnlinkLinked`). */
  lemma UnlinkNodeAt(d: map<u32, LruNode>, o: seq<u32>, vals: map<u32, u32>, i: nat,
                     d2: map<u32, LruNode>, j: nat)
    requires NoDup(o) && 0 < i < |o| && j < |o| - 1
    requires NodeAt(d, vals, o, if j < i then j else j + 1)
    requires forall k :: k in d2 <==> k in d && k != o[i]
    requires o[i - 1] in d2 && d2[o[i - 1]] == d[o[i - 1]].(next := NextOf(o, i))
    requires i + 1 < |o| ==> o[i + 1] in d2 && d2[o[i + 1]] == d[o[i + 1]].(prev := Some(o[i - 1]))
    requires forall k :: k in d2 && k != o[i - 1] && (i + 1 < |o| ==> k != o[i + 1]) ==> d2[k] == d[k]
    ensures NodeAt(d2, vals - {o[i]}, o[..i] + o[i + 1..], j)
  {
    var o2 := o[..i] + o[i + 1..];
    assert |o2| == |o| - 1;
    if j < i - 1 {
      assert o2[j] == o[j] && o2[j + 1] == o[j + 1];
      assert j > 0 ==> o2[j - 1] == o[j - 1];
      assert o[j] != o[i - 1] && o[j] != o[i];
      assert i + 1 < |o| ==> o[j] != o[i + 1];
    } else if j == i - 1 {
      assert o2[j] == o[i - 1];
      assert j > 0 ==> o2[j - 1] == o[j - 1];
      assert j + 1 < |o2| ==> o2[j + 1] == o[i + 1];
      assert o[j] != o[i];
    } else if j == i {
      assert o2[j] == o[i + 1] && o2[j - 1] == o[i - 1];
      assert j + 1 < |o2| ==> o2[j + 1] == o[i + 2];
      assert o[i + 1] != o[i];
    } else {
      assert o2[j] == o[j + 1] && o2[j - 1] == o[j];
      assert j + 1 < |o2| ==> o2[j + 1] == o[j + 2];
      assert o[j + 1] != o[i - 1] && o[j + 1] != o[i + 1] && o[j + 1] != o[i];
    }
  }

  /**
   * Unlinking the entry at position `i > 0`: its predecessor takes over its `next`, its
   * successor (if any) takes over its `prev`, and when it was the tail its predecessor
   * becomes the tail.  The result spells out the order without that entry.
   */
  lemma UnlinkLinked(d: map<u32, LruNode>, start: Option<u32>, end: Option<u32>,
                     o: seq<u32>, vals: map<u32, u32>, i: nat,
                     d2: map<u32, LruNode>, end2: Option<u32>)
    requires Linked(d, start, end, o, vals) && 0 < i < |o|
    requires forall k :: k in d2 <==> k in d && k != o[i]
    requires o[i - 1] in d2 && d2[o[i - 1]] == d[o[i - 1]].(next := NextOf(o, i))
    requires i + 1 < |o| ==> o[i + 1] in d2 && d2[o[i + 1]] == d[o[i + 1]].(prev := Some(o[i - 1]))
    requires forall k :: k in d2 && k != o[i - 1] && (i + 1 < |o| ==> k != o[i + 1]) ==> d2[k] == d[k]
    requires end2 == if i + 1 < |o| then end else Some(o[i - 1])
    ensures Linked(d2, start, end2, o[..i] + o[i + 1..], vals - {o[i]})
  {
    var o2 := o[..i] + o[i + 1..];
    DropAtWf(o, vals, i);
    DropAtEnds(o, i);
    forall j | 0 <= j < |o2| ensures NodeAt(d2, vals - {o[i]}, o2, j) {
      assert NodeAt(d, vals, o, if j < i then j else j + 1);
      UnlinkNodeAt(d, o, vals, i, d2, j);
    }
  }

  /** One node after unlinking the head (see `UnlinkHeadLinked`). */
  lemma UnlinkHeadNodeAt(d: map<u32, LruNode>, o: seq<u32>, vals: map<u32, u32>,
                         d2: map<u32, LruNode>, j: nat)
    requires NoDup(o) && j < |o| - 1
    requires NodeAt(d, vals, o, j + 1)
    requires forall k :: k in d2 <==> k in d && k != o[0]
    requires o[1] in d2 && d2[o[1]] == d[o[1]].(prev := None)
    requires forall k :: k in d2 && k != o[1] ==> d2[k] == d[k]
    ensures NodeAt(d2, vals - {o[0]}, o[1..], j)
  {
    var o2 := o[1..];
    assert o2[j] == o[j + 1];
    assert j > 0 ==> o2[j - 1] == o[j];
    assert j + 1 < |o2| ==> o2[j + 1] == o[j + 2];
    assert o[j + 1] != o[0];
    assert j > 0 ==> o[j + 1] != o[1];
  }

  /**
   * Unlinking the head of an order with at least two entries: the second entry loses its
   * `prev` and becomes the head.
   */
  lemma UnlinkHeadLinked(d: map<u32, LruNode>, start: Option<u32>, end: Option<u32>,
                         o: seq<u32>, vals: map<u32, u32>, d2: map<u32, LruNode>)
    requires Linked(d, start, end, o, vals) && 2 <= |o|
    requires forall k :: k in d2 <==> k in d && k != o[0]
    requires o[1] in d2 && d2[o[1]] == d[o[1]].(prev := None)
    requires forall k :: k in d2 && k != o[1] ==> d2[k] == d[k]
    ensures Linked(d2, Some(o[1]), end, o[1..], vals - {o[0]})
  {
    var o2 := o[1..];
    DropHeadWf(o, vals);
    forall j | 0 <= j < |o2| ensures NodeAt(d2, vals - {o[0]}, o2, j) {
      assert NodeAt(d, vals, o, j + 1);
      UnlinkHeadNodeAt(d, o, vals, d2, j);
    }
  }

  /** One node after linking a new key in front (see `PushFrontLinked`). */
  lemma PushFrontNodeAt(d: map<u32, LruNode>, start: Option<u32>, o: seq<u32>,
                        vals: map<u32, u32>, k: u32, v: u32, d2: map<u32, LruNode>, j: nat)
    requires NoDup(o) && k !in o && j <= |o|
    requires start == HeadOf(o)
    requires j > 0 ==> NodeAt(d, vals, o, j - 1)
    requires forall x :: x in d2 <==> x in d || x == k
    requires d2[k] == LruNode(None, start, k, v)
    requires o != [] ==> o[0] in d && d2[o[0]] == d[o[0]].(prev := Some(k))
    requires forall x :: x in d && (o != [] ==> x != o[0]) ==> d2[x] == d[x]
    ensures NodeAt(d2, vals[k := v], [k] + o, j)
  {
    var o2 := [k] + o;
    if j == 0 {
      assert j + 1 < |o2| ==> o2[j + 1] == o[0];
    } else {
      assert o2[j] == o[j - 1];
      assert o2[j - 1] == if j == 1 then k else o[j - 2];
      assert j + 1 < |o2| ==> o2[j + 1] == o[j];
      assert o[j - 1] != k;
      assert j > 1 ==> o[j - 1] != o[0];
    }
  }

  /**
   * Linking a new key in front of the head: the old head points back to it, it points
   * forward to the old head, and on an empty list it becomes both head and tail.
   */
  lemma PushFrontLinked(d: map<u32, LruNode>, start: Option<u32>, end: Option<u32>,
                        o: seq<u32>, vals: map<u32, u32>, k: u32, v: u32,
                        d2: map<u32, LruNode>)
    requires Linked(d, start, end, o, vals) && k !in vals
    requires forall x :: x in d2 <==> x in d || x == k
    requires d2[k] == LruNode(None, start, k, v)
    requires o != [] ==> o[0] in d && d2[o[0]] == d[o[0]].(prev := Some(k))
    requires forall x :: x in d && (o != [] ==> x != o[0]) ==> d2[x] == d[x]
    ensures Linked(d2, Some(k), if o == [] then Some(k) else end, [k] + o, vals[k := v])
  {
    var o2 := [k] + o;
    var vals2 := vals[k := v];
    PushWf(o, vals, k, v);
    forall j | 0 <= j < |o2| ensures NodeAt(d2, vals2, o2, j) {
      if j > 0 {
        assert NodeAt(d, vals, o, j - 1);
      }
      PushFrontNodeAt(d, start, o, vals, k, v, d2, j);
    }
  }

  /** Putting a new key in front keeps the order well formed. */
  lemma PushWf(o: seq<u32>, vals: map<u32, u32>, k: u32, v: u32)
    requires Wf(Lru(o, vals)) && k !in vals
    ensures Wf(Lru([k] + o, vals[k := v]))
    ensures HeadOf([k] + o) == Some(k)
    ensures TailOf([k] + o) == if o == [] then Some(k) else TailOf(o)
  {
    NoDupCons(k, o);
    if o != [] {
      assert ([k] + o)[|o|] == o[|o| - 1];
    }
  }

  /** `(*k).next = n` on the node of key `k`. */
  function SetNext(d: map<u32, LruNode>, k: u32, n: Option<u32>): map<u32, LruNode>
    requires k in d
  {
    d[k := d[k].(next := n)]
  }

  /** `(*k).prev = p` on the node of key `k`. */
  function SetPrev(d: map<u32, LruNode>, k: u32, p: Option<u32>): map<u32, LruNode>
    requires k in d
  {
    d[k := d[k].(prev := p)]
  }

  /**
   * The link updates that take `node` out of the list: its predecessor (if any) takes
   * over its `next`, its successor (if any) takes over its `prev`.
   */
  ghost function Unlinked(d: map<u32, LruNode>, node: LruNode): (r: map<u32, LruNode>)
    ensures r.Keys == d.Keys
  {
    var d1 := if node.prev.Some? && node.prev.value in d then SetNext(d, node.prev.value, node.next) else d;
    if node.next.Some? && node.next.value in d1 then SetPrev(d1, node.next.value, node.prev) else d1
  }

  /** The link updates that put a new node for `k` in front of the head `st`. */
  ghost function Front(d: map<u32, LruNode>, st: Option<u32>, k: u32, v: u32): (r: map<u32, LruNode>)
    ensures r.Keys == d.Keys + {k}
  {
    var d1 := if st.Some? && st.value in d then SetPrev(d, st.value, Some(k)) else d;
    d1[k := LruNode(None, st, k, v)]
  }

  /** The order with position `i` taken out. */
  ghost function DropAt(o: seq<u32>, i: nat): (r: seq<u32>)
    requires i < |o|
    ensures |r| == |o| - 1
  {
    o[..i] + o[i + 1..]
  }

  /** A key of the order sits at some position. */
  lemma KeyIndex(o: seq<u32>, key: u32) returns (i: nat)
    requires key in o
    ensures i < |o| && o[i] == key
  {
    i :| 0 <= i < |o| && o[i] == key;
  }

  /** What the methods read off the node at position `i` and off the two end pointers. */
  lemma NodeFacts(d: map<u32, LruNode>, st: Option<u32>, en: Option<u32>,
                  o: seq<u32>, vs: map<u32, u32>, i: nat)
    requires Linked(d, st, en, o, vs) && i < |o|
    ensures NodeAt(d, vs, o, i)
    ensures |d| == |o| && |d - {o[i]}| == |o| - 1
    ensures d[o[i]].prev.None? <==> i == 0
    ensures d[o[i]].next.None? <==> i + 1 == |o|
    ensures d[o[i]].prev.Some? ==> d[o[i]].prev.value in d && d[o[i]].prev.value != o[i]
    ensures d[o[i]].next.Some? ==> d[o[i]].next.value in d && d[o[i]].next.value != o[i]
    ensures st == Some(o[0]) && o[0] in d && (0 < i ==> o[0] != o[i])
    ensures en == Some(o[|o| - 1]) && (i + 1 < |o| ==> o[|o| - 1] != o[i])
  {
    assert NodeAt(d, vs, o, i);
    assert NodeAt(d, vs, o, 0);
    if 0 < i {
      assert NodeAt(d, vs, o, i - 1);
    }
    if i + 1 < |o| {
      assert NodeAt(d, vs, o, i + 1);
    }
    LinkedLen(d, st, en, o, vs);
    MapMinusCard(d, o[i]);
  }

  /** Unlinking the head of a list of at least two entries. */
  lemma UnlinkHeadAt(d: map<u32, LruNode>, st: Option<u32>, en: Option<u32>,
                     o: seq<u32>, vs: map<u32, u32>)
    requires Linked(d, st, en, o, vs) && 2 <= |o|
    ensures Linked(Unlinked(d, d[o[0]]) - {o[0]}, Some(o[1]), en, DropAt(o, 0), vs - {o[0]})
  {
    assert NodeAt(d, vs, o, 0);
    assert NodeAt(d, vs, o, 1);
    var d2 := Unlinked(d, d[o[0]]) - {o[0]};
    forall k | k in d2 && k != o[1] ensures d2[k] == d[k] {
    }
    UnlinkHeadLinked(d, st, en, o, vs, d2);
    assert DropAt(o, 0) == o[1..];
  }

  /** Unlinking an entry behind the head. */
  lemma UnlinkInnerAt(d: map<u32, LruNode>, st: Option<u32>, en: Option<u32>,
                      o: seq<u32>, vs: map<u32, u32>, i: nat)
    requires Linked(d, st, en, o, vs) && 0 < i < |o|
    ensures Linked(Unlinked(d, d[o[i]]) - {o[i]}, st,
                   if i + 1 == |o| then Some(o[i - 1]) else en, DropAt(o, i), vs - {o[i]})
  {
    assert NodeAt(d, vs, o, i);
    assert NodeAt(d, vs, o, i - 1);
    if i + 1 < |o| {
      assert NodeAt(d, vs, o, i + 1);
    }
    var d2 := Unlinked(d, d[o[i]]) - {o[i]};
    UnlinkLinked(d, st, en, o, vs, i, d2, if i + 1 == |o| then Some(o[i - 1]) else en);
  }

  /** `find` drops the node from the map before relinking; the result is the same. */
  lemma UnlinkedDrop(d: map<u32, LruNode>, node: LruNode, k: u32)
    requires node.prev.Some? ==> node.prev.value != k
    requires node.next.Some? ==> node.next.value != k
    ensures Unlinked(d - {k}, node) == Unlinked(d, node) - {k}
  {
  }

  /** Linking a fresh key in front, as `insert_node` and `find` do. */
  lemma FrontAt(d: map<u32, LruNode>, st: Option<u32>, en: Option<u32>,
                o: seq<u32>, vs: map<u32, u32>, k: u32, v: u32)
    requires Linked(d, st, en, o, vs) && k !in vs
    ensures Linked(Front(d, st, k, v), Some(k), if st.None? then Some(k) else en, [k] + o, vs[k := v])
  {
    if o != [] {
      assert NodeAt(d, vs, o, 0);
    }
    var d2 := Front(d, st, k, v);
    forall x | x in d && (o != [] ==> x != o[0]) ensures d2[x] == d[x] {
    }
    PushFrontLinked(d, st, en, o, vs, k, v, d2);
  }

  lemma MapRestore<V>(m: map<u32, V>, k: u32)
    requires k in m
    ensures (m - {k})[k := m[k]] == m
  {
    var m2 := (m - {k})[k := m[k]];
    assert m2.Keys == m.Keys;
    assert forall x :: x in m ==> m2[x] == m[x];
  }

  /** `Unlinked` on the head of a list of two or more: only the successor changes. */
  lemma UnlinkedHead(d: map<u32, LruNode>, node: LruNode)
    requires node.prev.None? && node.next.Some? && node.next.value in d
    ensures Unlinked(d, node) == SetPrev(d, node.next.value, None)
  {
  }

  /** `Unlinked` on the tail of a list of two or more: only the predecessor changes. */
  lemma UnlinkedTail(d: map<u32, LruNode>, node: LruNode)
    requires node.prev.Some? && node.prev.value in d && node.next.None?
    ensures Unlinked(d, node) == SetNext(d, node.prev.value, None)
  {
  }

  /** `Unlinked` on an inner node: predecessor first, then successor. */
  lemma UnlinkedMiddle(d: map<u32, LruNode>, node: LruNode)
    requires node.prev.Some? && node.prev.value in d && node.next.Some? && node.next.value in d
    ensures Unlinked(d, node) == SetPrev(SetNext(d, node.prev.value, node.next), node.next.value, node.prev)
  {
  }

  /** `Linked` only depends on the values of its arguments. */
  lemma LinkedSame(d: map<u32, LruNode>, d2: map<u32, LruNode>, st: Option<u32>, st2: Option<u32>,
                   en: Option<u32>, en2: Option<u32>, o: seq<u32>, o2: seq<u32>,
                   vs: map<u32, u32>, vs2: map<u32, u32>)
    requires Linked(d, st, en, o, vs) && d == d2 && st == st2 && en == en2 && o == o2 && vs == vs2
    ensures Linked(d2, st2, en2, o2, vs2)
  {
  }

  /** The list after `remove_tail`'s relinking, in terms of positions. */
  lemma TailLinkedAt(d0: map<u32, LruNode>, st0: Option<u32>, en0: Option<u32>,
                     o: seq<u32>, vs: map<u32, u32>)
    requires Linked(d0, st0, en0, o, vs) && 2 <= |o|
    ensures o[|o| - 2] in d0
    ensures Linked(SetNext(d0, o[|o| - 2], None) - {o[|o| - 1]}, st0, Some(o[|o| - 2]),
                   DropAt(o, |o| - 1), vs - {o[|o| - 1]})
  {
    var i := |o| - 1;
    NodeFacts(d0, st0, en0, o, vs, i);
    UnlinkInnerAt(d0, st0, en0, o, vs, i);
    UnlinkedTail(d0, d0[o[i]]);
    LinkedSame(Unlinked(d0, d0[o[i]]) - {o[i]}, SetNext(d0, o[i - 1], None) - {o[i]}, st0, st0, Some(o[i - 1]), Some(o[i - 1]), DropAt(o, i), DropAt(o, i), vs - {o[i]}, vs - {o[i]});
  }

  /**
   * `remove_tail` on two or more entries: clearing the tail's predecessor's `next` and
   * dropping the tail node leaves the list of the order without its last key.
   */
  lemma TailUnlinked(d0: map<u32, LruNode>, st0: Option<u32>, en0: Option<u32>,
                     o: seq<u32>, vs: map<u32, u32>) returns (o2: seq<u32>)
    requires Linked(d0, st0, en0, o, vs) && 2 <= |o|
    ensures en0.Some? && en0.value in d0
    ensures var node := d0[en0.value];
      && node.key == en0.value && node.prev.Some? && node.prev.value in d0 && node.prev.value != node.key
      && Linked(SetNext(d0, node.prev.value, None) - {node.key}, st0, node.prev, o2, vs - {node.key})
      && LruOrder.RemoveTail(Lru(o, vs)) == (Lru(o2, vs - {node.key}), Some((node.key, node.value)))
  {
    var i := |o| - 1;
    NodeFacts(d0, st0, en0, o, vs, i);
    TailLinkedAt(d0, st0, en0, o, vs);
    RemovesTail(o, vs);
    o2 := DropAt(o, i);
  }

  /** `remove` on the only entry: the value read through `start` is the one stored under `key`. */
  lemma OnlyRemoved(d0: map<u32, LruNode>, st0: Option<u32>, en0: Option<u32>,
                    o: seq<u32>, vs: map<u32, u32>, key: u32)
    requires Linked(d0, st0, en0, o, vs) && key in d0 && |d0| <= 1
    ensures st0.Some? && st0.value in d0
    ensures LruOrder.Remove(Lru(o, vs), key) == (Empty, Some(d0[st0.value].value))
  {
    var i := KeyIndex(o, key);
    NodeFacts(d0, st0, en0, o, vs, i);
    RemovesAt(o, vs, i);
    assert DropAt(o, i) == [];
    assert vs - {key} == map[];
  }

  /**
   * `remove` on two or more entries: whichever of the three relinkings applies (head, tail,
   * middle), dropping the node afterwards leaves the list of the order without `key`.
   */
  lemma KeyUnlinked(d0: map<u32, LruNode>, st0: Option<u32>, en0: Option<u32>,
                    o: seq<u32>, vs: map<u32, u32>, key: u32) returns (o2: seq<u32>)
    requires Linked(d0, st0, en0, o, vs) && key in d0 && 2 <= |d0|
    ensures var node := d0[key];
      && LruOrder.Remove(Lru(o, vs), key) == (Lru(o2, vs - {key}), Some(node.value))
      && (node.prev.Some? ==> node.prev.value in d0)
      && (node.next.Some? ==> node.next.value in d0)
      && (node.prev.None? ==>
            && node.next.Some?
            && Linked(SetPrev(d0, node.next.value, None) - {key}, node.next, en0, o2, vs - {key}))
      && (node.prev.Some? && node.next.None? ==>
            Linked(SetNext(d0, node.prev.value, None) - {key}, st0, node.prev, o2, vs - {key}))
      && (node.prev.Some? && node.next.Some? ==>
            Linked(SetPrev(SetNext(d0, node.prev.value, node.next), node.next.value, node.prev) - {key},
                   st0, en0, o2, vs - {key}))
  {
    var i := KeyIndex(o, key);
    NodeFacts(d0, st0, en0, o, vs, i);
    RemovesAt(o, vs, i);
    var node := d0[key];
    var d1 := Unlinked(d0, node);
    var vs2 := vs - {key};
    if i == 0 {
      UnlinkHeadAt(d0, st0, en0, o, vs);
      UnlinkedHead(d0, node);
      LinkedSame(d1 - {key}, SetPrev(d0, node.next.value, None) - {key}, Some(o[1]), node.next, en0, en0, DropAt(o, i), DropAt(o, i), vs2, vs2);
    } else {
      UnlinkInnerAt(d0, st0, en0, o, vs, i);
      var en1 := if i + 1 == |o| then Some(o[i - 1]) else en0;
      if i + 1 == |o| {
        UnlinkedTail(d0, node);
        LinkedSame(d1 - {key}, SetNext(d0, node.prev.value, None) - {key}, st0, st0, en1, node.prev, DropAt(o, i), DropAt(o, i), vs2, vs2);
      } else {
        UnlinkedMiddle(d0, node);
        LinkedSame(d1 - {key}, SetPrev(SetNext(d0, node.prev.value, node.next), node.next.value, node.prev) - {key}, st0, st0, en1, en0, DropAt(o, i), DropAt(o, i), vs2, vs2);
      }
    }
    o2 := DropAt(o, i);
  }

  /** `find` without promotion: the key is absent, at the head, or the map is small. */
  lemma FindKept(d0: map<u32, LruNode>, st0: Option<u32>, en0: Option<u32>,
                 o: seq<u32>, vs: map<u32, u32>, key: u32)
    requires Linked(d0, st0, en0, o, vs) && key in d0
    requires |d0 - {key}| <= 1 || d0[key].prev.None?
    ensures LruOrder.Find(Lru(o, vs), key) == (Lru(o, vs), Some(d0[key].value))
  {
    var i := KeyIndex(o, key);
    NodeFacts(d0, st0, en0, o, vs, i);
    FindStays(o, vs, key);
  }

  /** What `find` reads off the node of the key at position `i` before relinking. */
  lemma KeyNode(d0: map<u32, LruNode>, st0: Option<u32>, en0: Option<u32>,
                o: seq<u32>, vs: map<u32, u32>, i: nat)
    requires Linked(d0, st0, en0, o, vs) && i < |o|
    ensures o[i] in d0 && o[i] in vs && |d0 - {o[i]}| == |o| - 1
    ensures var node := d0[o[i]];
      && node.key == o[i] && node.value == vs[o[i]]
      && (node.prev.None? <==> i == 0)
      && (node.prev.Some? ==> node.prev.value in d0 - {o[i]})
      && (node.next.Some? ==> node.next.value in d0 - {o[i]})
  {
    NodeFacts(d0, st0, en0, o, vs, i);
  }

  /**
   * `find` on an entry behind the head: once the node has left the hash map, relinking
   * its neighbours (`d`, with end pointer `e`) leaves the list of the order without it.
   */
  lemma KeyDetached(d0: map<u32, LruNode>, st0: Option<u32>, en0: Option<u32>,
                    o: seq<u32>, vs: map<u32, u32>, i: nat,
                    d: map<u32, LruNode>, e: Option<u32>) returns (o2: seq<u32>)
    requires Linked(d0, st0, en0, o, vs) && 0 < i < |o| && o[i] in d0
    requires var node := d0[o[i]];
      && node.prev.Some? && node.prev.value in d0 - {o[i]}
      && (node.next.Some? ==> node.next.value in d0 - {o[i]})
      && d == (if node.next.Some?
               then SetPrev(SetNext(d0 - {o[i]}, node.prev.value, node.next), node.next.value, node.prev)
               else SetNext(d0 - {o[i]}, node.prev.value, node.next))
      && e == (if node.next.Some? then en0 else node.prev)
    ensures Linked(d, st0, e, o2, vs - {o[i]}) && o2 == DropAt(o, i)
  {
    NodeFacts(d0, st0, en0, o, vs, i);
    var key := o[i];
    var node := d0[key];
    var dk := d0 - {key};
    UnlinkInnerAt(d0, st0, en0, o, vs, i);
    UnlinkedDrop(d0, node, key);
    var en1 := if i + 1 == |o| then Some(o[i - 1]) else en0;
    if node.next.Some? {
      UnlinkedMiddle(dk, node);
    } else {
      UnlinkedTail(dk, node);
    }
    LinkedSame(Unlinked(d0, node) - {key}, d, st0, st0, en1, e, DropAt(o, i), DropAt(o, i), vs - {key}, vs - {key});
    o2 := DropAt(o, i);
  }

  /** `insert_node` linking a node for a key not in the list in front of the head. */
  lemma NodeFronted(d1: map<u32, LruNode>, st1: Option<u32>, en1: Option<u32>,
                    o1: seq<u32>, vs1: map<u32, u32>, node: LruNode)
    requires Linked(d1, st1, en1, o1, vs1) && node.key !in vs1 && node.prev.None?
    requires st1.None? ==> node.next.None?
    ensures st1.Some? ==> st1.value in d1
    ensures st1.None? ==> Linked(d1[node.key := node], Some(node.key), Some(node.key),
                                 [node.key] + o1, vs1[node.key := node.value])
    ensures st1.Some? ==> Linked(SetPrev(d1, st1.value, Some(node.key))[node.key := node.(next := st1)],
                                 Some(node.key), en1, [node.key] + o1, vs1[node.key := node.value])
  {
    if o1 != [] {
      assert NodeAt(d1, vs1, o1, 0);
    }
    FrontAt(d1, st1, en1, o1, vs1, node.key, node.value);
  }

  /** `LruOrder.Find` on a map of three or more entries moves the key to the front. */
  lemma FindMovesToFront(d0: map<u32, LruNode>, st0: Option<u32>, en0: Option<u32>,
                         o: seq<u32>, vs: map<u32, u32>, key: u32)
    requires Linked(d0, st0, en0, o, vs) && key in d0 && 2 <= |d0 - {key}|
    ensures key in vs && d0[key].value == vs[key]
    ensures LruOrder.Find(Lru(o, vs), key) == (Lru([key] + Without(o, key), vs), Some(vs[key]))
  {
    var i := KeyIndex(o, key);
    NodeFacts(d0, st0, en0, o, vs, i);
  }

  /** `LruOrder.Find` leaves the state alone when the key is absent, at the head, or the map is small. */
  lemma FindStays(o: seq<u32>, vs: map<u32, u32>, k: u32)
    requires Wf(Lru(o, vs))
    requires k !in vs || |o| < 3 || o[0] == k
    ensures LruOrder.Find(Lru(o, vs), k) == (Lru(o, vs), Lookup(vs, k))
  {
    if k in vs && 3 <= |o| {
      WithoutAt(o, 0);
      assert o[..0] + o[1..] == o[1..];
      assert [o[0]] + o[1..] == o;
    }
  }

  /** `LruOrder.Remove` of the entry at position `i`. */
  lemma RemovesAt(o: seq<u32>, vs: map<u32, u32>, i: nat)
    requires Wf(Lru(o, vs)) && i < |o|
    ensures LruOrder.Remove(Lru(o, vs), o[i]) == (Lru(DropAt(o, i), vs - {o[i]}), Some(vs[o[i]]))
  {
    WithoutAt(o, i);
  }

  /** `LruOrder.RemoveTail` of at least two entries takes out the last position. */
  lemma RemovesTail(o: seq<u32>, vs: map<u32, u32>)
    requires Wf(Lru(o, vs)) && 2 <= |o|
    ensures LruOrder.RemoveTail(Lru(o, vs)) ==
      (Lru(DropAt(o, |o| - 1), vs - {o[|o| - 1]}), Some((o[|o| - 1], vs[o[|o| - 1]])))
  {
    assert DropAt(o, |o| - 1) == o[..|o| - 1];
  }

  /** How `LruOrder.Insert` chooses between overwriting, evicting and simply adding. */
  lemma InsertSplit(s: Lru, k: u32)
    requires Wf(s)
    ensures Remove(s, k).1.Some? <==> k in s.vals
    ensures k !in s.vals ==> Remove(s, k).0 == s && k !in RemoveTail(s).0.vals
    ensures k !in Remove(s, k).0.vals
  {
    RemoveFacts(s, k);
    WithoutFacts(s.order, k);
    if k !in s.vals && 2 <= |s.order| {
      RemoveTailFacts(s);
    }
  }

  class LruMap {
    const cap: nat
    var data: map<u32, LruNode>
    var start: Option<u32>
    var end: Option<u32>
    /** The keys from most to least recent. */
    ghost var order: seq<u32>
    /** The value (slot index) stored under each key. */
    ghost var vals: map<u32, u32>

    ghost predicate Valid()
      reads this
    {
      Linked(data, start, end, order, vals)
    }

    ghost function Abs(): Lru
      reads this
    {
      Lru(order, vals)
    }

    /** `LruMap::new`: an empty map of the given capacity. */
    constructor (cap: nat)
      ensures Valid() && this.cap == cap && Abs() == Empty
    {
      this.cap := cap;
      data := map[];
      start := None;
      end := None;
      order := [];
      vals := map[];
    }

    /** `LruMap::len`: the number of entries in the hash map, which is the length of the order. */
    function Len(): (n: nat)
      reads this
      requires Valid()
      ensures n == |order| == |vals|
    {
      LinkedLen(data, start, end, order, vals);
      WfLen(Abs());
      |data|
    }

    /** `LruMap::tail`: the least recent entry, read through the `end` pointer. */
    function Tail(): (r: Option<(u32, u32)>)
      reads this
      requires Valid()
      ensures order == [] ==> r == None
      ensures order != [] ==> r == Some((Last(order), vals[Last(order)]))
    {
      if end.None? then None
      else
        assert NodeAt(data, vals, order, |order| - 1);
        Some((data[end.value].key, data[end.value].value))
    }

    /** `LruMap::find`: looks `key` up and, in a map of three or more entries, moves it to the front. */
    method Find(key: u32) returns (r: Option<u32>)
      requires Valid()
      modifies this
      ensures Valid()
      ensures (Abs(), r) == LruOrder.Find(old(Abs()), key)
    {
      if key !in data {
        FindStays(order, vals, key);
        return None;
      }
      var node := data[key];
      var d := data - {key};  // the node leaves the hash map
      var result := node.value;
      if |d| > 1 {
        if node.prev.None? {  // already the head
          FindKept(data, start, end, order, vals, key);
          MapRestore(data, key);
          LinkedSame(data, d[key := node], start, start, end, end, order, order, vals, vals);
          data := d[key := node];
          return Some(result);
        }
        FindMovesToFront(data, start, end, order, vals, key);
        MoveToFront(key, node, d);
        return Some(result);
      }
      FindKept(data, start, end, order, vals, key);
      MapRestore(data, key);
      LinkedSame(data, d[key := node], start, start, end, end, order, order, vals, vals);
      data := d[key := node];
      return Some(result);
    }

    /**
     * The relinking `find` performs on an entry behind the head once its node `node` has
     * left the hash map (`d`) and at least two entries remain: the neighbours are linked
     * to each other (or the predecessor becomes the tail), then the node is linked in
     * front and goes back into the map.
     */
    method MoveToFront(key: u32, node: LruNode, d: map<u32, LruNode>)
      requires Valid() && key in data && node == data[key] && d == data - {key}
      requires 2 <= |d| && node.prev.Some?
      modifies this
      ensures Valid()
      ensures Abs() == Lru([key] + Without(old(order), key), old(vals))
    {
      ghost var st0, o, vs := start, order, vals;
      ghost var i := KeyIndex(order, key);
      KeyNode(data, start, end, order, vals, i);
      var d1 := SetNext(d, node.prev.value, node.next);
      var e := end;
      if node.next.Some? {  // not the tail
        d1 := SetPrev(d1, node.next.value, node.prev);
      } else {
        e := node.prev;
      }
      ghost var o2 := KeyDetached(data, start, end, order, vals, i, d1, e);
      data, end, order, vals := d1, e, o2, vals - {key};
      LinkedSame(d1, data, st0, start, e, end, o2, order, vs - {o[i]}, vals);
      LinkFront(node.(prev := None));
      MapRestore(vs, key);
      WithoutAt(o, i);
    }

    /** `LruMap::insert`: `insert_node` on a fresh, unlinked node. */
    method Insert(key: u32, value: u32) returns (r: Option<u32>)
      requires Valid()
      modifies this
      ensures Valid()
      ensures (Abs(), r) == LruOrder.Insert(old(Abs()), cap, key, value)
    {
      r := InsertNode(LruNode(None, None, key, value));
    }

    /**
     * `LruMap::insert_node`: removes an old entry for the key, or else evicts the tail when
     * the map is at capacity, then links the node in front.
     */
    method InsertNode(node: LruNode) returns (r: Option<u32>)
      requires Valid() && node.prev.None? && node.next.None?
      modifies this
      ensures Valid()
      ensures (Abs(), r) == LruOrder.Insert(old(Abs()), cap, node.key, node.value)
    {
      ghost var s0 := Abs();
      InsertSplit(s0, node.key);
      var result: Option<u32> := None;
      var removed := Remove(node.key);
      match removed {
        case Some(value) =>
          result := Some(value);
        case None =>
          if Len() >= cap {
            var evicted := RemoveTail();
            if evicted.Some? {
              result := Some(evicted.value.1);
            }
          }
      }
      LinkFront(node);
      return result;
    }

    /**
     * The front-linking that ends both `insert_node` and the promoting path of `find`: the
     * node becomes the new head (and also the tail of an empty list) and goes back into
     * the hash map.
     */
    method LinkFront(node: LruNode)
      requires Valid() && node.key !in vals && node.prev.None? && (start.None? ==> node.next.None?)
      modifies this
      ensures Valid()
      ensures order == [node.key] + old(order) && vals == old(vals)[node.key := node.value]
    {
      NodeFronted(data, start, end, order, vals, node);
      var k := node.key;
      var n := node;
      if start.None? {  // empty list
        start := Some(k);
        end := Some(k);
      } else {
        data := SetPrev(data, start.value, Some(k));
        n := n.(next := start);
        start := Some(k);
      }
      data := data[k := n];
      order := [k] + order;
      vals := vals[k := node.value];
    }

    /** `LruMap::remove_tail`: with two or more entries unlinks the tail; otherwise clears the map. */
    method RemoveTail() returns (r: Option<(u32, u32)>)
      requires Valid()
      modifies this
      ensures Valid()
      ensures (Abs(), r) == LruOrder.RemoveTail(old(Abs()))
    {
      var len := Len();
      if len <= 1 {
        start := None;
        end := None;
        data := map[];
        order := [];
        vals := map[];
        return None;
      }
      var tail := end.value;
      var tailNode := data[tail];
      ghost var o2 := TailUnlinked(data, start, end, order, vals);
      data := SetNext(data, tailNode.prev.value, None);
      end := tailNode.prev;
      var key, value := tailNode.key, tailNode.value;
      assert key in data;  // `expect("remove nothing")` cannot fail
      data := data - {key};
      order := o2;
      vals := vals - {key};
      return Some((key, value));
    }

    /** `LruMap::remove`: unlinks `key` from the head, the tail or the middle of the list. */
    method Remove(key: u32) returns (r: Option<u32>)
      requires Valid()
      modifies this
      ensures Valid()
      ensures (Abs(), r) == LruOrder.Remove(old(Abs()), key)
    {
      if key !in data {
        return None;
      }
      var len := |data|;
      if len <= 1 {
        OnlyRemoved(data, start, end, order, vals, key);
        var value := data[start.value].value;
        start := None;
        end := None;
        data := map[];
        order := [];
        vals := map[];
        return Some(value);
      }
      var node := data[key];
      ghost var o2 := KeyUnlinked(data, start, end, order, vals, key);
      var result := node.value;
      if node.prev.None? {  // head
        data := SetPrev(data, node.next.value, None);
        start := node.next;
      } else if node.next.None? {  // tail
        data := SetNext(data, node.prev.value, None);
        end := node.prev;
      } else {  // middle
        data := SetNext(data, node.prev.value, node.next);
        data := SetPrev(data, node.next.value, node.prev);
      }
      data := data - {key};
      order := o2;
      vals := vals - {key};
      return Some(result);
    }
  }
}
