/**
 * The abstract state of the page cache's LRU map and what each of its operations does
 * to it.  An `Lru` is the recency order of the cached page ids (most recent first, least
 * recent last) together with the slot index stored under each id.  The class
 * `LruMapImpl.LruMap` keeps this state in a linked node arena and is proved to follow these
 * functions step for step.
 */
module LruOrder {
  import opened Ints
  import opened Wrappers

  /** No page id occurs twice. */
  predicate NoDup(s: seq<u32>) {
    forall i, j :: 0 <= i < j < |s| ==> s[i] != s[j]
  }

  function Last(s: seq<u32>): u32
    requires s != []
  {
    s[|s| - 1]
  }

  /** `s` with `k` taken out and every other id left in its relative order. */
  function Without(s: seq<u32>, k: u32): (r: seq<u32>)
    ensures |r| <= |s|
    decreases |s|
  {
    if s == [] then []
    else if s[0] == k then Without(s[1..], k)
    else [s[0]] + Without(s[1..], k)
  }

  /** `Without` keeps exactly the other ids, keeps a duplicate-free sequence so, and is the identity when `k` is absent. */
  lemma {:induction false} WithoutFacts(s: seq<u32>, k: u32)
    ensures forall x :: x in Without(s, k) <==> x in s && x != k
    ensures k !in s ==> Without(s, k) == s
    ensures NoDup(s) ==> NoDup(Without(s, k))
    ensures NoDup(s) && k in s ==> |Without(s, k)| == |s| - 1
    decreases |s|
  {
    if s != [] {
      var t := s[1..];
      assert s == [s[0]] + t;
      WithoutFacts(t, k);
      NoDupCons(s[0], t);
      if s[0] != k {
        NoDupCons(s[0], Without(t, k));
      }
    }
  }

  lemma NoDupCons(a: u32, t: seq<u32>)
    ensures NoDup([a] + t) <==> a !in t && NoDup(t)
  {
    var s := [a] + t;
    if a !in t && NoDup(t) {
      forall i, j | 0 <= i < j < |s| ensures s[i] != s[j] {
        if i > 0 { assert s[i] == t[i - 1] && s[j] == t[j - 1]; }
        else { assert s[j] == t[j - 1]; }
      }
    }
    if NoDup(s) {
      forall i, j | 0 <= i < j < |t| ensures t[i] != t[j] {
        assert t[i] == s[i + 1] && t[j] == s[j + 1];
      }
      forall j | 0 <= j < |t| ensures t[j] != a {
        assert t[j] == s[j + 1] && s[0] == a;
      }
    }
  }

  /** Taking out the id at position `i` of a duplicate-free order closes the gap. */
  lemma {:induction false} WithoutAt(s: seq<u32>, i: nat)
    requires NoDup(s) && i < |s|
    ensures Without(s, s[i]) == s[..i] + s[i + 1..]
    decreases i
  {
    var t := s[1..];
    assert s == [s[0]] + t;
    NoDupCons(s[0], t);
    if i == 0 {
      WithoutFacts(t, s[0]);
      assert Without(s, s[0]) == Without(t, s[0]) == t;
      assert s[..0] + s[1..] == t;
    } else {
      assert t[i - 1] == s[i] && s[0] != s[i];
      WithoutAt(t, i - 1);
      assert Without(s, s[i]) == [s[0]] + Without(t, s[i]);
      assert s[..i] == [s[0]] + t[..i - 1];
      assert s[i + 1..] == t[i..];
      assert [s[0]] + (t[..i - 1] + t[i..]) == ([s[0]] + t[..i - 1]) + t[i..];
    }
  }

  /** The elements of a duplicate-free sequence are as many as its positions. */
  lemma {:induction false} NoDupCard(s: seq<u32>)
    requires NoDup(s)
    ensures |set x | x in s| == |s|
    decreases |s|
  {
    if s != [] {
      var t := s[1..];
      assert NoDup(t);
      NoDupCard(t);
      assert (set x | x in s) == (set x | x in t) + {s[0]};
      assert s[0] !in (set x | x in t);
    }
  }

  /** A set of ids all below `n` has at most `n` members. */
  lemma {:induction false} SetBelowCard(xs: set<u32>, n: nat)
    requires n <= U32_LIMIT
    requires forall x :: x in xs ==> (x as int) < n
    ensures |xs| <= n
    decreases n
  {
    if n > 0 {
      var top := (n - 1) as u32;
      SetBelowCard(xs - {top}, n - 1);
    } else {
      assert xs == {};
    }
  }

  /**
   * Pigeonhole: if some 32-bit id is missing from a duplicate-free order, the order has
   * fewer than 2^32 entries, so its length fits a `u32`.
   */
  lemma FreshIdBound(s: seq<u32>, k: u32)
    requires NoDup(s) && k !in s
    ensures |s| < U32_LIMIT
  {
    NoDupCard(s);
    var xs := (set x | x in s) + {k};
    assert |xs| == |s| + 1;
    SetBelowCard(xs, U32_LIMIT);
  }

  /** The state of an LRU map: recency order (head = most recent) and stored values. */
  datatype Lru = Lru(order: seq<u32>, vals: map<u32, u32>)

  /** Each stored key occurs exactly once in the recency order, and nothing else does. */
  ghost predicate Wf(s: Lru) {
    NoDup(s.order) && forall k :: k in s.vals <==> k in s.order
  }

  const Empty: Lru := Lru([], map[])

  function Lookup(vals: map<u32, u32>, k: u32): Option<u32> {
    if k in vals then Some(vals[k]) else None
  }

  /** `len()`: the number of entries, counted either way. */
  lemma WfLen(s: Lru)
    requires Wf(s)
    ensures |s.vals| == |s.order|
  {
    NoDupCard(s.order);
    assert s.vals.Keys == set x | x in s.order;
  }

  /**
   * `LruMap::find`.  A hit returns the stored value and moves the key to the head, but the
   * length is tested after the entry has been taken out of the hash map, so a map of one
   * or two entries is left exactly as it was.
   */
  function Find(s: Lru, k: u32): (r: (Lru, Option<u32>))
    requires Wf(s)
    ensures Wf(r.0)
  {
    if k !in s.vals then (s, None)
    else
      var remaining := |s.order| - 1;
      if remaining > 1 then
        var rest := Without(s.order, k);
        WithoutFacts(s.order, k);
        NoDupCons(k, rest);
        (Lru([k] + rest, s.vals), Some(s.vals[k]))
      else (s, Some(s.vals[k]))
  }

  /**
   * What `find` promises: the stored values and the number of entries do not change, the
   * result is the stored value, the other keys keep their relative order, and in a map
   * of three or more entries a hit ends up at the head.
   */
  lemma FindFacts(s: Lru, k: u32)
    requires Wf(s)
    ensures var r := Find(s, k);
      && r.0.vals == s.vals
      && r.1 == Lookup(s.vals, k)
      && |r.0.order| == |s.order|
      && Without(r.0.order, k) == Without(s.order, k)
      && (k in s.vals && |s.order| >= 3 ==> r.0.order[0] == k)
      && (k !in s.vals || |s.order| < 3 ==> r.0 == s)
  {
    if k in s.vals && |s.order| >= 3 {
      var rest := Without(s.order, k);
      WithoutFacts(s.order, k);
      WithoutFacts(rest, k);
      assert ([k] + rest)[1..] == rest;
      assert Without([k] + rest, k) == Without(rest, k);
    }
  }

  /** In a map of three or more entries a hit moves to the head; the others keep their order. */
  lemma FindPromotes(s: Lru, k: u32)
    requires Wf(s) && k in s.vals && |s.order| >= 3
    ensures Find(s, k).0.order == [k] + Without(s.order, k)
  {
  }

  /** The part of `FindFacts` about values: `find` returns the stored value and keeps the values. */
  lemma FindValue(s: Lru, k: u32)
    requires Wf(s)
    ensures Find(s, k).0.vals == s.vals && Find(s, k).1 == Lookup(s.vals, k)
  {
    FindFacts(s, k);
  }

  /** `LruMap::remove`: deletes `k` wherever it stands; the others keep their order. */
  function Remove(s: Lru, k: u32): (r: (Lru, Option<u32>))
    requires Wf(s)
    ensures Wf(r.0)
  {
    WithoutFacts(s.order, k);
    if k !in s.vals then (s, None)
    else (Lru(Without(s.order, k), s.vals - {k}), Some(s.vals[k]))
  }

  /**
   * What `remove` promises: it returns the stored value, takes `k` out of the order and
   * out of the stored values, keeps every other value, and changes nothing when `k` is
   * absent.
   */
  lemma RemoveFacts(s: Lru, k: u32)
    requires Wf(s)
    ensures var r := Remove(s, k);
      && r.1 == Lookup(s.vals, k)
      && r.0.order == Without(s.order, k)
      && r.0.vals.Keys == s.vals.Keys - {k}
      && (forall x :: x in r.0.vals ==> r.0.vals[x] == s.vals[x])
      && |r.0.order| == |s.order| - (if k in s.vals then 1 else 0)
      && (k !in s.vals ==> r.0 == s)
  {
    WithoutFacts(s.order, k);
  }

  /**
   * `LruMap::remove_tail`.  With two or more entries it deletes the least recent one and
   * reports it; with one entry or none it empties the map and reports nothing.
   */
  function RemoveTail(s: Lru): (r: (Lru, Option<(u32, u32)>))
    requires Wf(s)
    ensures Wf(r.0)
  {
    if |s.order| <= 1 then (Empty, None)
    else
      var n := |s.order|;
      var t := Last(s.order);
      WithoutFacts(s.order, t);
      WithoutAt(s.order, n - 1);
      assert t in s.order;
      (Lru(s.order[..n - 1], s.vals - {t}), Some((t, s.vals[t])))
  }

  /**
   * What `remove_tail` promises: a map of one entry or none is emptied and nothing is
   * reported; otherwise the least recent entry is reported and removed exactly as
   * `remove` would remove it, and the one before it becomes the least recent.
   */
  lemma RemoveTailFacts(s: Lru)
    requires Wf(s)
    ensures |s.order| <= 1 ==> RemoveTail(s) == (Empty, None)
    ensures |s.order| >= 2 ==>
      var r := RemoveTail(s);
      && r.1 == Some((Last(s.order), s.vals[Last(s.order)]))
      && r.0 == Remove(s, Last(s.order)).0
      && r.0.order == s.order[..|s.order| - 1]
      && Last(r.0.order) == s.order[|s.order| - 2]
  {
    if |s.order| >= 2 {
      WithoutAt(s.order, |s.order| - 1);
    }
  }

  /**
   * `LruMap::insert`.  An existing key is overwritten and its old value returned.  A new
   * key evicts the tail first when the map holds `cap` entries or more; that tail value
   * is returned only when the map held at least two entries, since `remove_tail` reports
   * nothing for a single entry.  Either way the key ends up at the head.
   */
  function Insert(s: Lru, cap: nat, k: u32, v: u32): (r: (Lru, Option<u32>))
    requires Wf(s)
    ensures Wf(r.0)
  {
    var (s1, evicted) :=
      if k in s.vals then Remove(s, k)
      else if |s.order| >= cap then
        var (s2, tail) := RemoveTail(s);
        (s2, if tail.Some? then Some(tail.value.1) else None)
      else (s, None);
    RemoveFacts(s, k);
    RemoveTailFacts(s);
    NoDupCons(k, s1.order);
    (Lru([k] + s1.order, s1.vals[k := v]), evicted)
  }

  /**
   * What `insert` promises: the key ends up at the head holding the new value, no other
   * value changes and no new key appears; an overwrite returns the old value and keeps the
   * length; a new key below capacity is simply added; at capacity the tail is evicted
   * first and its value returned, except that a map of one entry (or none) is emptied and
   * reports nothing.
   */
  lemma InsertFacts(s: Lru, cap: nat, k: u32, v: u32)
    requires Wf(s)
    ensures var r := Insert(s, cap, k, v);
      && r.0.order != [] && r.0.order[0] == k
      && k in r.0.vals && r.0.vals[k] == v
      && (forall x :: x in r.0.vals && x != k ==> x in s.vals && r.0.vals[x] == s.vals[x])
      && (k in s.vals ==>
            r.1 == Some(s.vals[k]) && |r.0.order| == |s.order| &&
            r.0.order[1..] == Without(s.order, k))
      && (k !in s.vals && |s.order| < cap ==>
            r.1 == None && r.0.order == [k] + s.order && r.0.vals == s.vals[k := v])
      && (k !in s.vals && cap <= |s.order| && 2 <= |s.order| ==>
            r.1 == Some(s.vals[Last(s.order)]) && r.0.order == [k] + s.order[..|s.order| - 1])
      && (k !in s.vals && cap <= |s.order| <= 1 ==>
            r.1 == None && r.0.order == [k])
  {
    var r := Insert(s, cap, k, v);
    if k in s.vals {
      RemoveFacts(s, k);
      assert r.0.order[1..] == Remove(s, k).0.order;
    } else if |s.order| >= cap {
      RemoveTailFacts(s);
      assert r.0.order[1..] == RemoveTail(s).0.order;
    } else {
      assert r.0.order[1..] == s.order;
    }
  }

  function Max(a: nat, b: nat): nat { if a < b then b else a }
  function Min(a: nat, b: nat): nat { if a < b then a else b }

  /** A single insert never takes the map above `cap` entries (above one when `cap` is 0). */
  lemma InsertWithinCap(s: Lru, cap: nat, k: u32, v: u32)
    requires Wf(s)
    ensures |s.order| <= Max(cap, 1) ==> |Insert(s, cap, k, v).0.order| <= Max(cap, 1)
  {
    InsertFacts(s, cap, k, v);
    if k in s.vals {
    } else if |s.order| < cap {
    } else if |s.order| >= 2 {
    }
  }

  /** Any run of inserts, applied in order. */
  function InsertEach(s: Lru, cap: nat, entries: seq<(u32, u32)>): (r: Lru)
    requires Wf(s)
    ensures Wf(r)
    ensures |s.order| <= Max(cap, 1) ==> |r.order| <= Max(cap, 1)
    decreases |entries|
  {
    if entries == [] then s
    else
      var (k, v) := entries[0];
      InsertWithinCap(s, cap, k, v);
      InsertEach(Insert(s, cap, k, v).0, cap, entries[1..])
  }

  /** The unit test's loop `for i in lo..hi { insert(i, i) }`. */
  function InsertRange(s: Lru, cap: nat, lo: nat, hi: nat): (r: Lru)
    requires Wf(s) && lo <= hi <= U32_LIMIT
    ensures Wf(r)
    decreases hi - lo
  {
    if lo == hi then s
    else
      var before := InsertRange(s, cap, lo, hi - 1);
      Insert(before, cap, (hi - 1) as u32, (hi - 1) as u32).0
  }

  /** The ids `hi - 1, hi - 2, ..., hi - m`: the `m` most recent of an ascending run. */
  function RecentFirst(hi: nat, m: nat): (r: seq<u32>)
    requires m <= hi <= U32_LIMIT
    ensures |r| == m
    ensures forall i :: 0 <= i < m ==> r[i] as int == hi - 1 - i
    decreases m
  {
    if m == 0 then [] else [(hi - 1) as u32] + RecentFirst(hi - 1, m - 1)
  }

  lemma RecentFirstFacts(hi: nat, m: nat)
    requires m <= hi <= U32_LIMIT
    ensures NoDup(RecentFirst(hi, m))
    ensures forall x :: x in RecentFirst(hi, m) <==> hi - m <= x as int < hi
  {
    var r := RecentFirst(hi, m);
    forall x | hi - m <= x as int < hi ensures x in r {
      assert r[hi - 1 - x as int] == x;
    }
  }

  /** The identity valuation the unit test builds (it inserts every id with itself as value). */
  ghost predicate ValuesAreKeys(s: Lru) {
    forall x :: x in s.vals ==> s.vals[x] == x
  }

  /** One step of `InsertAscending`: the next id goes in front, the oldest drops out at capacity. */
  lemma InsertKeepsValuesAreKeys(s: Lru, cap: nat, k: u32)
    requires Wf(s) && ValuesAreKeys(s)
    ensures ValuesAreKeys(Insert(s, cap, k, k).0)
  {
  }

  lemma RecentFirstPrefix(hi: nat, m: nat)
    requires 1 <= m <= hi <= U32_LIMIT
    ensures RecentFirst(hi, m)[..m - 1] == RecentFirst(hi, m - 1)
  {
  }

  /** One step of `InsertAscending`: the next id goes in front, the oldest drops out at capacity. */
  lemma InsertNextAscending(before: Lru, cap: nat, n: nat)
    requires 1 <= cap && 1 <= n <= U32_LIMIT
    requires Wf(before)
    requires before.order == RecentFirst(n - 1, Min(n - 1, cap))
    ensures Insert(before, cap, (n - 1) as u32, (n - 1) as u32).0.order == RecentFirst(n, Min(n, cap))
  {
    var k := (n - 1) as u32;
    var m := Min(n - 1, cap);
    assert k !in before.vals by {
      RecentFirstFacts(n - 1, m);
    }
    if m < cap {
      InsertNextBelowCap(before, cap, n);
    } else if 2 <= m {
      InsertNextAtCap(before, cap, n);
    } else {
      assert Insert(before, cap, k, k).0.order == [k];
    }
  }

  lemma InsertNextBelowCap(before: Lru, cap: nat, n: nat)
    requires 1 <= cap && 1 <= n <= U32_LIMIT && n - 1 < cap
    requires Wf(before) && (n - 1) as u32 !in before.vals
    requires before.order == RecentFirst(n - 1, n - 1)
    ensures Insert(before, cap, (n - 1) as u32, (n - 1) as u32).0.order == RecentFirst(n, n)
  {
  }

  lemma InsertNextAtCap(before: Lru, cap: nat, n: nat)
    requires 2 <= cap && 1 <= n <= U32_LIMIT && cap <= n - 1
    requires Wf(before) && (n - 1) as u32 !in before.vals
    requires before.order == RecentFirst(n - 1, cap)
    ensures Insert(before, cap, (n - 1) as u32, (n - 1) as u32).0.order == RecentFirst(n, cap)
  {
    var k := (n - 1) as u32;
    var o := before.order;
    assert |o| == cap;
    calc {
      Insert(before, cap, k, k).0.order;
      [k] + o[..|o| - 1];
      { RecentFirstPrefix(n - 1, cap); }
      [k] + RecentFirst(n - 1, cap - 1);
      RecentFirst(n, cap);
    }
  }

  /**
   * After inserting the ids `0 .. n - 1` in ascending order into an empty map of
   * capacity `cap >= 1`, the map holds exactly the last `min(n, cap)` of them, most recent
   * first, each under its own value.
   */
  lemma {:induction false} InsertAscending(cap: nat, n: nat)
    requires 1 <= cap && n <= U32_LIMIT
    ensures InsertRange(Empty, cap, 0, n).order == RecentFirst(n, Min(n, cap))
    ensures ValuesAreKeys(InsertRange(Empty, cap, 0, n))
    decreases n
  {
    if n > 0 {
      var before := InsertRange(Empty, cap, 0, n - 1);
      var k := (n - 1) as u32;
      assert InsertRange(Empty, cap, 0, n) == Insert(before, cap, k, k).0;
      InsertAscending(cap, n - 1);
      InsertNextAscending(before, cap, n);
      InsertKeepsValuesAreKeys(before, cap, k);
    }
  }

  /** What an ascending fill leaves: ids `n - cap .. n - 1`, each under itself. */
  lemma AscendingContents(cap: nat, n: nat)
    requires 1 <= cap <= n <= U32_LIMIT
    ensures var s := InsertRange(Empty, cap, 0, n);
            |s.order| == cap &&
            (forall x: u32 :: x in s.vals <==> n - cap <= x as int < n) &&
            ValuesAreKeys(s)
  {
    InsertAscending(cap, n);
    RecentFirstFacts(n, cap);
    assert Min(n, cap) == cap;
  }
}
