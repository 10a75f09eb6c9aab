/**
  The operations of the skiplist (datastruct/sortedset/skiplist.go) on the
  state of module Skiplist: insert and removeNode with their span
  bookkeeping, remove, the rank and score lookups, and the range removals.
 */
module SkiplistOps {
  import opened Base
  import opened ZOrder
  import opened Border
  import opened Skiplist

  // ---------------------------------------------------------------------
  // Heights after inserting or deleting a node
  // ---------------------------------------------------------------------

  /** Renumbering of a forward link when a node is inserted at or before it. */
  function Shift(f: int): int { if f == 0 then 0 else f + 1 }

  /** Renumbering of a forward link when a node before it is deleted. */
  function Unshift(f: int): int { if f == 0 then 0 else f - 1 }

  function InsertAt<T>(s: seq<T>, k: int, x: T): (r: seq<T>)
    requires 0 <= k <= |s|
    ensures |r| == |s| + 1
    ensures forall j :: 0 <= j < k ==> r[j] == s[j]
    ensures r[k] == x
    ensures forall j :: k < j < |r| ==> r[j] == s[j - 1]
  {
    s[..k] + [x] + s[k..]
  }

  function DeleteAt<T>(s: seq<T>, k: int): (r: seq<T>)
    requires 0 <= k < |s|
    ensures |r| == |s| - 1
    ensures forall j :: 0 <= j < k ==> r[j] == s[j]
    ensures forall j :: k <= j < |r| ==> r[j] == s[j + 1]
  {
    s[..k] + s[k + 1..]
  }

  /** Beyond the inserted node, forwards are the old ones renumbered. */
  lemma NextAtInsertAfter(hs: seq<int>, k: int, h: int, q: int, i: int)
    requires 0 <= k <= |hs| && k + 2 <= q <= |hs| + 2
    ensures NextAt(InsertAt(hs, k, h), q, i) == Shift(NextAt(hs, q - 1, i))
  {
    var hs' := InsertAt(hs, k, h);
    var f := NextAt(hs, q - 1, i);
    assert IsNextAt(hs', q, i, Shift(f));
    NextAtUnique(hs', q, i, Shift(f));
  }

  /** Up to the inserted node, forwards stay, stop at the new node if it is tall enough, or are renumbered. */
  lemma NextAtInsertBefore(hs: seq<int>, k: int, h: int, q: int, i: int)
    requires 0 <= k <= |hs| && 1 <= q <= k + 1
    ensures var f := NextAt(hs, q, i);
            NextAt(InsertAt(hs, k, h), q, i) ==
              if f != 0 && f <= k then f else if h > i then k + 1 else Shift(f)
  {
    var hs' := InsertAt(hs, k, h);
    var f := NextAt(hs, q, i);
    var g := if f != 0 && f <= k then f else if h > i then k + 1 else Shift(f);
    assert IsNextAt(hs', q, i, g);
    NextAtUnique(hs', q, i, g);
  }

  /** Beyond a deleted node, forwards are the old ones renumbered. */
  lemma NextAtDeleteAfter(hs: seq<int>, t: int, q: int, i: int)
    requires 1 <= t <= |hs| && t <= q <= |hs|
    ensures NextAt(DeleteAt(hs, t - 1), q, i) == Unshift(NextAt(hs, q + 1, i))
  {
    var hs' := DeleteAt(hs, t - 1);
    var f := NextAt(hs, q + 1, i);
    assert IsNextAt(hs', q, i, Unshift(f));
    NextAtUnique(hs', q, i, Unshift(f));
  }

  /** Before a deleted node, forwards stay, or skip it to its own forward, renumbered. */
  lemma NextAtDeleteBefore(hs: seq<int>, t: int, q: int, i: int)
    requires 1 <= t <= |hs| && 1 <= q <= t
    ensures var f := NextAt(hs, q, i);
            NextAt(DeleteAt(hs, t - 1), q, i) ==
              if f != 0 && f < t then f else if f == t then Unshift(NextAt(hs, t + 1, i)) else Unshift(f)
  {
    var hs' := DeleteAt(hs, t - 1);
    var f := NextAt(hs, q, i);
    var g := if f != 0 && f < t then f else if f == t then Unshift(NextAt(hs, t + 1, i)) else Unshift(f);
    if f == t {
      var f2 := NextAt(hs, t + 1, i);
      assert IsNextAt(hs', q, i, g);
    } else {
      assert IsNextAt(hs', q, i, g);
    }
    NextAtUnique(hs', q, i, g);
  }

  // ---------------------------------------------------------------------
  // insert
  // ---------------------------------------------------------------------

  /** update[i]: where level i of the search stopped, the header on levels the list does not have yet. */
  function Upd(sl: Skiplist, d: seq<Stop>, i: int): int
    requires |d| == sl.level
  {
    if 0 <= i < sl.level then d[i].node else 0
  }

  /** rank[i]: the base-level rank of update[i]. */
  function Rk(sl: Skiplist, d: seq<Stop>, i: int): int
    requires |d| == sl.level
  {
    if 0 <= i < sl.level then d[i].rank else 0
  }

  /** The stops of a search lie on the list, each on a node reaching its level. */
  predicate StopsOnList(sl: Skiplist, d: seq<Stop>)
    requires WellFormed(sl)
  {
    |d| == sl.level &&
    forall j :: 0 <= j < sl.level ==> 0 <= d[j].node <= Size(sl) && j < Height(sl, d[j].node)
  }

  /** update[i].level[i].span before the new node is linked in (the list's length on new levels). */
  function SpanBefore(sl: Skiplist, d: seq<Stop>, i: int): int
    requires WellFormed(sl) && StopsOnList(sl, d)
  {
    if 0 <= i < sl.level then
      RowLength(sl, d[i].node);
      sl.spans[d[i].node][i]
    else Size(sl)
  }

  /** A span of an existing node after insert: the update nodes' spans are rewritten. */
  function InsertOldSpan(sl: Skiplist, d: seq<Stop>, lvl: int, p: int, i: int): int
    requires WellFormed(sl) && |d| == sl.level && 0 <= p <= Size(sl) && 0 <= i < |sl.spans[p]|
  {
    var k := Rk(sl, d, 0);
    if i < lvl && p == Upd(sl, d, i) then k - Rk(sl, d, i) + 1
    else if lvl <= i < sl.level && p == Upd(sl, d, i) then sl.spans[p][i] + 1
    else sl.spans[p][i]
  }

  function InsertOldRow(sl: Skiplist, d: seq<Stop>, lvl: int, p: int): (row: seq<int>)
    requires WellFormed(sl) && |d| == sl.level && 0 <= p <= Size(sl)
    ensures |row| == |sl.spans[p]|
    ensures forall i :: 0 <= i < |row| ==> row[i] == InsertOldSpan(sl, d, lvl, p, i)
  {
    seq(|sl.spans[p]|, i requires 0 <= i < |sl.spans[p]| => InsertOldSpan(sl, d, lvl, p, i))
  }

  /** The span of the new node at level i: what remains of update[i]'s span beyond it. */
  function InsertNodeSpan(sl: Skiplist, d: seq<Stop>, i: int): int
    requires WellFormed(sl) && StopsOnList(sl, d)
  {
    SpanBefore(sl, d, i) - (Rk(sl, d, 0) - Rk(sl, d, i))
  }

  function InsertNodeRow(sl: Skiplist, d: seq<Stop>, lvl: int): (row: seq<int>)
    requires WellFormed(sl) && StopsOnList(sl, d) && 1 <= lvl
    ensures |row| == lvl
    ensures forall i :: 0 <= i < lvl ==> row[i] == InsertNodeSpan(sl, d, i)
  {
    seq(lvl, i requires 0 <= i < lvl => InsertNodeSpan(sl, d, i))
  }

  /** All rows after insert: old rows up to update[0], the new node's, then the old rows shifted. */
  function InsertSpans(sl: Skiplist, d: seq<Stop>, lvl: int, k: int): (sp: seq<seq<int>>)
    requires WellFormed(sl) && StopsOnList(sl, d) && 1 <= lvl && 0 <= k <= Size(sl)
    ensures |sp| == Size(sl) + 2
    ensures forall p :: 0 <= p <= k ==> sp[p] == InsertOldRow(sl, d, lvl, p)
    ensures sp[k + 1] == InsertNodeRow(sl, d, lvl)
    ensures forall p :: k + 1 < p < Size(sl) + 2 ==> sp[p] == InsertOldRow(sl, d, lvl, p - 1)
  {
    seq(Size(sl) + 2, p requires 0 <= p < Size(sl) + 2 =>
      if p <= k then InsertOldRow(sl, d, lvl, p)
      else if p == k + 1 then InsertNodeRow(sl, d, lvl)
      else InsertOldRow(sl, d, lvl, p - 1))
  }

  /**
    insert with the random level given as `lvl`: search for the
    predecessors of (score, member) on every level, raise `level` if
    needed, link the new node in after update[0] and rewrite the spans.
   */
  function Insert(sl: Skiplist, e: Element, lvl: int): (r: Skiplist)
    requires Valid(sl) && e !in sl.elems && 1 <= lvl <= MaxLevel
    ensures Valid(r)
    ensures Size(r) == Size(sl) + 1
    ensures multiset(r.elems) == multiset(sl.elems) + multiset{e}
    ensures exists k :: 0 <= k <= Size(sl) && r.elems == InsertAt(sl.elems, k, e)
    ensures r.level == Max(sl.level, lvl)
  {
    LevelBound(sl);
    var d := Search(sl, LessThan(e));
    SearchBase(sl, LessThan(e));
    var k := Rk(sl, d, 0);
    assert k == Threshold(sl, LessThan(e));
    var r := Skiplist(InsertAt(sl.elems, k, e), InsertAt(sl.heights, k, lvl),
                      InsertSpans(sl, d, lvl, k), if lvl > sl.level then lvl else sl.level);
    InsertValid(sl, e, lvl, d, k, r);
    assert r.elems == InsertAt(sl.elems, k, e);
    r
  }

  /** The search stopped, on every level, at the last node up to position a reaching it. */
  predicate SearchedTo(sl: Skiplist, d: seq<Stop>, a: int)
    requires WellFormed(sl) && 0 <= a <= Size(sl)
  {
    |d| == sl.level &&
    forall j :: 0 <= j < sl.level ==> d[j] == Stop(LastAtLevel(sl, a, j), LastAtLevel(sl, a, j))
  }

  lemma InsertValid(sl: Skiplist, e: Element, lvl: int, d: seq<Stop>, a: int, r: Skiplist)
    requires Valid(sl) && e !in sl.elems && 1 <= lvl <= MaxLevel && sl.level <= MaxLevel
    requires 0 <= a <= Size(sl) && PrefixClosed(sl, LessThan(e), a) && SearchedTo(sl, d, a)
    requires r.elems == InsertAt(sl.elems, a, e) && r.heights == InsertAt(sl.heights, a, lvl)
    requires r.spans == InsertSpans(sl, d, lvl, a) && r.level == Max(sl.level, lvl)
    ensures Valid(r)
    ensures multiset(r.elems) == multiset(sl.elems) + multiset{e}
  {
    InsertSorted(sl, e, a);
    InsertMultiset(sl.elems, a, e);
    InsertWellFormed(sl, lvl, d, a, r);
    InsertLevel(sl.heights, a, lvl, r.heights);
    InsertSpansOk(sl, lvl, d, a, r);
  }

  lemma InsertMultiset<T>(s: seq<T>, a: int, x: T)
    requires 0 <= a <= |s|
    ensures multiset(InsertAt(s, a, x)) == multiset(s) + multiset{x}
  {
    assert s == s[..a] + s[a..];
  }

  /** Inserting a node of height h raises the level to h if it is taller. */
  lemma InsertLevel(hs: seq<int>, a: int, h: int, hs': seq<int>)
    requires 0 <= a <= |hs| && h >= 1 && hs' == InsertAt(hs, a, h)
    ensures LevelOf(hs') == Max(LevelOf(hs), h)
  {
    var l := Max(LevelOf(hs), h);
    InsertAtBelow(hs, a, h, hs', l);
    if h >= LevelOf(hs) {
      LevelOfWitness(hs', l, a);
    } else {
      var k := LevelOfTallest(hs);
      LevelOfWitness(hs', l, if k < a then k else k + 1);
    }
  }

  /** Inserting a height no taller than l among heights no taller than l. */
  lemma InsertAtBelow(hs: seq<int>, a: int, h: int, hs': seq<int>, l: int)
    requires 0 <= a <= |hs| && hs' == InsertAt(hs, a, h) && h <= l
    requires forall k :: 0 <= k < |hs| ==> hs[k] <= l
    ensures forall k :: 0 <= k < |hs'| ==> hs'[k] <= l
  {
    forall k | 0 <= k < |hs'| ensures hs'[k] <= l {
      if k < a { assert hs'[k] == hs[k]; } else if k > a { assert hs'[k] == hs[k - 1]; }
    }
  }

  lemma InsertSpansOk(sl: Skiplist, lvl: int, d: seq<Stop>, a: int, r: Skiplist)
    requires Valid(sl) && 1 <= lvl <= MaxLevel && sl.level <= MaxLevel
    requires 0 <= a <= Size(sl) && SearchedTo(sl, d, a)
    requires WellFormed(r) && r.heights == InsertAt(sl.heights, a, lvl) && |r.elems| == Size(sl) + 1
    requires r.spans == InsertSpans(sl, d, lvl, a) && r.level == Max(sl.level, lvl)
    ensures SpansOk(r)
  {
    forall p, i | 0 <= p <= Size(r) && 0 <= i < |r.spans[p]| && i < r.level
      ensures r.spans[p][i] == Target(r, p, i) - p
    {
      InsertSpanAt(sl, lvl, d, a, r, p, i);
    }
  }

  /** One span of the new skiplist: before the new node, on it, or after it. */
  lemma InsertSpanAt(sl: Skiplist, lvl: int, d: seq<Stop>, a: int, r: Skiplist, p: int, i: int)
    requires Valid(sl) && 1 <= lvl <= MaxLevel && sl.level <= MaxLevel
    requires 0 <= a <= Size(sl) && SearchedTo(sl, d, a)
    requires WellFormed(r) && r.heights == InsertAt(sl.heights, a, lvl) && |r.elems| == Size(sl) + 1
    requires r.spans == InsertSpans(sl, d, lvl, a) && r.level == Max(sl.level, lvl)
    requires 0 <= p <= Size(r) && 0 <= i < |r.spans[p]| && i < r.level
    ensures r.spans[p][i] == Target(r, p, i) - p
  {
    if p <= a {
      InsertSpanAtBefore(sl, lvl, d, a, r, p, i);
    } else if p == a + 1 {
      InsertSpanAtNode(sl, lvl, d, a, r, p, i);
    } else {
      InsertSpanAtAfter(sl, lvl, d, a, r, p, i);
    }
  }

  lemma InsertSpanAtBefore(sl: Skiplist, lvl: int, d: seq<Stop>, a: int, r: Skiplist, p: int, i: int)
    requires Valid(sl) && 1 <= lvl <= MaxLevel && sl.level <= MaxLevel
    requires 0 <= a <= Size(sl) && SearchedTo(sl, d, a)
    requires WellFormed(r) && r.heights == InsertAt(sl.heights, a, lvl) && |r.elems| == Size(sl) + 1
    requires r.spans == InsertSpans(sl, d, lvl, a) && r.level == Max(sl.level, lvl)
    requires 0 <= p <= Size(r) && 0 <= i < |r.spans[p]| && i < r.level
    requires p <= a
    ensures r.spans[p][i] == Target(r, p, i) - p
  {
    InsertSpanBefore(sl, lvl, d, a, p, i);
  }

  lemma InsertSpanAtNode(sl: Skiplist, lvl: int, d: seq<Stop>, a: int, r: Skiplist, p: int, i: int)
    requires Valid(sl) && 1 <= lvl <= MaxLevel && sl.level <= MaxLevel
    requires 0 <= a <= Size(sl) && SearchedTo(sl, d, a)
    requires WellFormed(r) && r.heights == InsertAt(sl.heights, a, lvl) && |r.elems| == Size(sl) + 1
    requires r.spans == InsertSpans(sl, d, lvl, a) && r.level == Max(sl.level, lvl)
    requires 0 <= p <= Size(r) && 0 <= i < |r.spans[p]| && i < r.level
    requires p == a + 1
    ensures r.spans[p][i] == Target(r, p, i) - p
  {
    InsertSpanNode(sl, lvl, d, a, i);
  }

  lemma InsertSpanAtAfter(sl: Skiplist, lvl: int, d: seq<Stop>, a: int, r: Skiplist, p: int, i: int)
    requires Valid(sl) && 1 <= lvl <= MaxLevel && sl.level <= MaxLevel
    requires 0 <= a <= Size(sl) && SearchedTo(sl, d, a)
    requires WellFormed(r) && r.heights == InsertAt(sl.heights, a, lvl) && |r.elems| == Size(sl) + 1
    requires r.spans == InsertSpans(sl, d, lvl, a) && r.level == Max(sl.level, lvl)
    requires 0 <= p <= Size(r) && 0 <= i < |r.spans[p]| && i < r.level
    requires a + 1 < p
    ensures r.spans[p][i] == Target(r, p, i) - p
  {
    InsertSpanAfter(sl, lvl, d, a, p - 1, i);
  }

  lemma InsertWellFormed(sl: Skiplist, lvl: int, d: seq<Stop>, a: int, r: Skiplist)
    requires Valid(sl) && 1 <= lvl <= MaxLevel && 0 <= a <= Size(sl) && SearchedTo(sl, d, a)
    requires r.heights == InsertAt(sl.heights, a, lvl) && |r.elems| == Size(sl) + 1
    requires r.spans == InsertSpans(sl, d, lvl, a)
    ensures WellFormed(r)
  {
    forall p | 1 <= p < |r.spans| ensures |r.spans[p]| == r.heights[p - 1] {
      if p < a + 1 {
        RowLength(sl, p);
      } else if p > a + 1 {
        RowLength(sl, p - 1);
      }
    }
  }

  lemma InsertSorted(sl: Skiplist, e: Element, a: int)
    requires Valid(sl) && e !in sl.elems && 0 <= a <= Size(sl)
    requires PrefixClosed(sl, LessThan(e), a)
    ensures Sorted(InsertAt(sl.elems, a, e))
  {
    var s := InsertAt(sl.elems, a, e);
    forall j | 0 <= j < |s| - 1 ensures ElemLess(s[j], s[j + 1]) {
      if j + 1 == a {
        assert Holds(sl, LessThan(e), a, a);
      } else if j == a {
        assert !Holds(sl, LessThan(e), a + 1, a + 1);
        ElemLessOrder(e, s[j + 1], e);
      }
    }
    SortedFromAdjacent(s);
  }

  /** On levels the list does not have, the last node up to any position is the header. */
  lemma LastAboveLevel(sl: Skiplist, a: int, i: int)
    requires Valid(sl) && 0 <= a <= Size(sl) && i >= sl.level
    ensures LastAtLevel(sl, a, i) == 0
  {
  }

  /** The next node from position q on level i, where nothing in (u, a] reaches level i. */
  lemma NextFromGap(sl: Skiplist, a: int, i: int, q: int)
    requires WellFormed(sl) && 0 <= a <= Size(sl)
    requires LastAtLevel(sl, a, i) < q <= a + 1
    ensures NextAt(sl.heights, q, i) == NextAt(sl.heights, a + 1, i)
  {
    var f := NextAt(sl.heights, a + 1, i);
    forall j | 0 <= j < |sl.heights| && q <= j + 1 && j + 1 <= a ensures sl.heights[j] <= i {
      assert Height(sl, j + 1) <= i;
    }
    assert IsNextAt(sl.heights, q, i, f);
    NextAtUnique(sl.heights, q, i, f);
  }

  lemma InsertSpanBefore(sl: Skiplist, lvl: int, d: seq<Stop>, a: int, p: int, i: int)
    requires Valid(sl) && 1 <= lvl <= MaxLevel && sl.level <= MaxLevel
    requires 0 <= a <= Size(sl) && SearchedTo(sl, d, a)
    requires 0 <= p <= a && 0 <= i < |sl.spans[p]| && i < Max(sl.level, lvl)
    ensures var g := NextAt(InsertAt(sl.heights, a, lvl), p + 1, i);
            InsertOldSpan(sl, d, lvl, p, i) == (if g == 0 then Size(sl) + 1 else g) - p
  {
    var u := LastAtLevel(sl, a, i);
    var k := Rk(sl, d, 0);
    assert k == a by { BaseLevel(sl, a); }
    assert Upd(sl, d, i) == u == Rk(sl, d, i) by {
      if i >= sl.level { LastAboveLevel(sl, a, i); }
    }
    var f := NextAt(sl.heights, p + 1, i);
    NextAtInsertBefore(sl.heights, a, lvl, p + 1, i);
    RowLength(sl, p);
    if p == u {
      NextFromGap(sl, a, i, p + 1);
      if i >= lvl {
        assert i < sl.level;
        assert sl.spans[p][i] == Target(sl, p, i) - p;
      }
    } else {
      assert p < u;
      assert i < sl.level;
      assert sl.spans[p][i] == Target(sl, p, i) - p;
      assert f != 0 && f <= u by {
        assert Height(sl, u) > i;
      }
    }
  }

  lemma InsertSpanNode(sl: Skiplist, lvl: int, d: seq<Stop>, a: int, i: int)
    requires Valid(sl) && 1 <= lvl <= MaxLevel && sl.level <= MaxLevel
    requires 0 <= a <= Size(sl) && SearchedTo(sl, d, a)
    requires 0 <= i < lvl
    ensures var g := NextAt(InsertAt(sl.heights, a, lvl), a + 2, i);
            InsertNodeSpan(sl, d, i) == (if g == 0 then Size(sl) + 1 else g) - (a + 1)
  {
    var u := LastAtLevel(sl, a, i);
    assert Rk(sl, d, 0) == a by { BaseLevel(sl, a); }
    NextAtInsertAfter(sl.heights, a, lvl, a + 2, i);
    NextFromGap(sl, a, i, u + 1);
    if i < sl.level {
      RowLength(sl, u);
      assert SpanBefore(sl, d, i) == sl.spans[u][i] == Target(sl, u, i) - u;
    } else {
      LastAboveLevel(sl, a, i);
      LastAboveLevel(sl, Size(sl), i);
      NextFromGap(sl, Size(sl), i, a + 1);
    }
  }

  lemma InsertSpanAfter(sl: Skiplist, lvl: int, d: seq<Stop>, a: int, p: int, i: int)
    requires Valid(sl) && 1 <= lvl <= MaxLevel && sl.level <= MaxLevel
    requires 0 <= a <= Size(sl) && SearchedTo(sl, d, a)
    requires a < p <= Size(sl) && 0 <= i < |sl.spans[p]|
    ensures var g := NextAt(InsertAt(sl.heights, a, lvl), p + 2, i);
            InsertOldSpan(sl, d, lvl, p, i) == (if g == 0 then Size(sl) + 1 else g) - (p + 1)
  {
    RowLength(sl, p);
    assert i < sl.level;
    assert Upd(sl, d, i) <= a;
    assert sl.spans[p][i] == Target(sl, p, i) - p;
    NextAtInsertAfter(sl.heights, a, lvl, p + 2, i);
  }

  // ---------------------------------------------------------------------
  // removeNode
  // ---------------------------------------------------------------------

  /** The nodes where a search stopped, level by level (the source's `update`). */
  function Nodes(d: seq<Stop>): (u: seq<int>)
    ensures |u| == |d| && forall j :: 0 <= j < |d| ==> u[j] == d[j].node
  {
    seq(|d|, j requires 0 <= j < |d| => d[j].node)
  }

  /** `u` holds, for every level below `level`, the last node up to position a reaching it. */
  predicate UpdatesAt(sl: Skiplist, u: seq<int>, a: int)
    requires WellFormed(sl) && 0 <= a <= Size(sl)
  {
    |u| >= sl.level && forall j :: 0 <= j < sl.level ==> u[j] == LastAtLevel(sl, a, j)
  }

  /** A span of a node before t after t is unlinked: update[i] absorbs t's span, or loses one. */
  function RemoveOldSpan(sl: Skiplist, u: seq<int>, t: int, p: int, i: int): int
    requires WellFormed(sl) && 1 <= t <= Size(sl) && |u| >= sl.level
    requires 0 <= p <= Size(sl) && 0 <= i < |sl.spans[p]|
  {
    if i < sl.level && p == u[i] then
      if Fwd(sl, p, i) == t then
        RowLength(sl, t);
        sl.spans[p][i] + sl.spans[t][i] - 1
      else sl.spans[p][i] - 1
    else sl.spans[p][i]
  }

  function RemoveOldRow(sl: Skiplist, u: seq<int>, t: int, p: int): (row: seq<int>)
    requires WellFormed(sl) && 1 <= t <= Size(sl) && |u| >= sl.level && 0 <= p <= Size(sl)
    ensures |row| == |sl.spans[p]|
    ensures forall i :: 0 <= i < |row| ==> row[i] == RemoveOldSpan(sl, u, t, p, i)
  {
    seq(|sl.spans[p]|, i requires 0 <= i < |sl.spans[p]| => RemoveOldSpan(sl, u, t, p, i))
  }

  /** All rows after unlinking position t: the rows before it rewritten, the rows after it unchanged. */
  function RemoveSpans(sl: Skiplist, u: seq<int>, t: int): (sp: seq<seq<int>>)
    requires WellFormed(sl) && 1 <= t <= Size(sl) && |u| >= sl.level
    ensures |sp| == Size(sl)
    ensures forall p :: 0 <= p < t ==> sp[p] == RemoveOldRow(sl, u, t, p)
    ensures forall p :: t <= p < Size(sl) ==> sp[p] == sl.spans[p + 1]
  {
    seq(Size(sl), p requires 0 <= p < Size(sl) =>
      if p < t then RemoveOldRow(sl, u, t, p) else sl.spans[p + 1])
  }

  /** The loop at the end of removeNode: drop top levels whose header forward is nil. */
  function ShrinkLevel(hs: seq<int>, l: int): (r: int)
    requires l >= 1
    ensures 1 <= r <= l
    ensures (forall k :: 0 <= k < |hs| ==> hs[k] <= l) ==> r == LevelOf(hs)
    decreases l
  {
    if l > 1 && NextAt(hs, 1, l - 1) == 0 then ShrinkLevel(hs, l - 1)
    else
      LevelOfRaised(hs, l);
      l
  }

  /** A level whose header forward is not nil is the level of the list, if no node is taller. */
  lemma LevelOfRaised(hs: seq<int>, l: int)
    requires l >= 1 && (l == 1 || NextAt(hs, 1, l - 1) != 0)
    ensures (forall k :: 0 <= k < |hs| ==> hs[k] <= l) ==> LevelOf(hs) == l
  {
    if forall k :: 0 <= k < |hs| ==> hs[k] <= l {
      if l == 1 {
        LevelOfUnique(hs, l);
      } else {
        LevelOfWitness(hs, l, NextAt(hs, 1, l - 1) - 1);
      }
    }
  }

  /**
    removeNode(t, update): unlink position t on every level, fix the spans
    of the update nodes, then lower `level` while its top header forward
    is nil.
   */
  function RemoveNode(sl: Skiplist, t: int, u: seq<int>): (r: Skiplist)
    requires Valid(sl) && 1 <= t <= Size(sl) && UpdatesAt(sl, u, t - 1)
    ensures Valid(r)
    ensures r.elems == DeleteAt(sl.elems, t - 1)
    ensures r.heights[..t - 1] == sl.heights[..t - 1]
    ensures r.level <= sl.level
  {
    var hs := DeleteAt(sl.heights, t - 1);
    var r := Skiplist(DeleteAt(sl.elems, t - 1), hs, RemoveSpans(sl, u, t), ShrinkLevel(hs, sl.level));
    RemoveValid(sl, t, u, r);
    r
  }

  lemma RemoveValid(sl: Skiplist, t: int, u: seq<int>, r: Skiplist)
    requires Valid(sl) && 1 <= t <= Size(sl) && UpdatesAt(sl, u, t - 1)
    requires r.elems == DeleteAt(sl.elems, t - 1) && r.heights == DeleteAt(sl.heights, t - 1)
    requires r.spans == RemoveSpans(sl, u, t) && r.level == ShrinkLevel(r.heights, sl.level)
    ensures Valid(r)
    ensures r.heights[..t - 1] == sl.heights[..t - 1]
  {
    forall k | 0 <= k < |r.heights| ensures r.heights[k] <= sl.level {
      if k < t - 1 { assert r.heights[k] == sl.heights[k]; } else { assert r.heights[k] == sl.heights[k + 1]; }
    }
    forall p | 1 <= p < |r.spans| ensures |r.spans[p]| == r.heights[p - 1] {
      if p < t { RowLength(sl, p); } else { RowLength(sl, p + 1); }
    }
    assert WellFormed(r);
    DeleteSorted(sl.elems, t - 1);
    RemoveSpansOk(sl, t, u, r);
  }

  lemma DeleteSorted(s: seq<Element>, k: int)
    requires Sorted(s) && 0 <= k < |s|
    ensures Sorted(DeleteAt(s, k))
  {
    var s' := DeleteAt(s, k);
    forall i, j | 0 <= i < j < |s'| ensures ElemLess(s'[i], s'[j]) {
      var i' := if i < k then i else i + 1;
      var j' := if j < k then j else j + 1;
      assert s'[i] == s[i'] && s'[j] == s[j'];
    }
  }

  lemma RemoveSpansOk(sl: Skiplist, t: int, u: seq<int>, r: Skiplist)
    requires Valid(sl) && 1 <= t <= Size(sl) && UpdatesAt(sl, u, t - 1)
    requires WellFormed(r) && |r.elems| == Size(sl) - 1 && r.heights == DeleteAt(sl.heights, t - 1)
    requires r.spans == RemoveSpans(sl, u, t) && r.level <= sl.level
    ensures SpansOk(r)
  {
    forall p, i | 0 <= p <= Size(r) && 0 <= i < |r.spans[p]| && i < r.level
      ensures r.spans[p][i] == Target(r, p, i) - p
    {
      if p < t {
        RemoveSpanBefore(sl, t, u, p, i);
      } else {
        RemoveSpanAfter(sl, t, p, i);
      }
    }
  }

  lemma RemoveSpanBefore(sl: Skiplist, t: int, u: seq<int>, p: int, i: int)
    requires Valid(sl) && 1 <= t <= Size(sl) && UpdatesAt(sl, u, t - 1)
    requires 0 <= p < t && 0 <= i < |sl.spans[p]| && i < sl.level
    ensures var g := NextAt(DeleteAt(sl.heights, t - 1), p + 1, i);
            RemoveOldSpan(sl, u, t, p, i) == (if g == 0 then Size(sl) - 1 else g) - p
  {
    NextAtDeleteBefore(sl.heights, t, p + 1, i);
    RowLength(sl, p);
    if p == u[i] {
      RemoveSpanUpdate(sl, t, p, i);
    } else {
      RemoveSpanUntouched(sl, t, p, i);
    }
  }

  /** The update node of level i: its forward is t or lies beyond t. */
  lemma RemoveSpanUpdate(sl: Skiplist, t: int, p: int, i: int)
    requires Valid(sl) && 1 <= t <= Size(sl) && 0 <= i < sl.level && p == LastAtLevel(sl, t - 1, i)
    ensures var f := Fwd(sl, p, i); f == 0 || f >= t
    ensures Fwd(sl, p, i) == t ==>
              i < |sl.spans[t]| && i < |sl.spans[p]| && sl.spans[p][i] + sl.spans[t][i] - 1 == Target(sl, t, i) - 1 - p
    ensures Fwd(sl, p, i) != t ==> i < |sl.spans[p]| && sl.spans[p][i] - 1 == Target(sl, p, i) - 1 - p
  {
    var f := Fwd(sl, p, i);
    RowLength(sl, p);
    assert f != 0 ==> Height(sl, f) == sl.heights[f - 1];
    assert sl.spans[p][i] == Target(sl, p, i) - p;
    if f == t {
      RowLength(sl, t);
      assert sl.spans[t][i] == Target(sl, t, i) - t;
    }
  }

  /** Any other node of level i before t: its forward lies before t. */
  lemma RemoveSpanUntouched(sl: Skiplist, t: int, p: int, i: int)
    requires Valid(sl) && 1 <= t <= Size(sl) && 0 <= i < sl.level && 0 <= p < t
    requires i < |sl.spans[p]| && p != LastAtLevel(sl, t - 1, i)
    ensures var f := Fwd(sl, p, i); f != 0 && f < t
    ensures sl.spans[p][i] == Target(sl, p, i) - p
  {
    var v := LastAtLevel(sl, t - 1, i);
    RowLength(sl, p);
    assert p < v by { assert Height(sl, p) > i; }
    assert Height(sl, v) == sl.heights[v - 1] > i;
  }

  lemma RemoveSpanAfter(sl: Skiplist, t: int, p: int, i: int)
    requires Valid(sl) && 1 <= t <= p < Size(sl)
    requires 0 <= i < |sl.spans[p + 1]| && i < sl.level
    ensures var g := NextAt(DeleteAt(sl.heights, t - 1), p + 1, i);
            sl.spans[p + 1][i] == (if g == 0 then Size(sl) - 1 else g) - p
  {
    NextAtDeleteAfter(sl.heights, t, p + 1, i);
    assert sl.spans[p + 1][i] == Target(sl, p + 1, i) - (p + 1);
  }

  // ---------------------------------------------------------------------
  // remove
  // ---------------------------------------------------------------------

  lemma DeleteMultiset<T>(s: seq<T>, k: int)
    requires 0 <= k < |s|
    ensures multiset(DeleteAt(s, k)) == multiset(s) - multiset{s[k]}
  {
    assert s == s[..k] + [s[k]] + s[k + 1..];
  }

  /** The search for (score, member) stops right before the element, when it is present. */
  lemma LessThanFinds(sl: Skiplist, e: Element, k: int)
    requires Valid(sl) && 0 <= k < Size(sl) && sl.elems[k] == e
    ensures Threshold(sl, LessThan(e)) == k
  {
    SearchBase(sl, LessThan(e));
    ElemLessOrder(e, e, e);
    assert !Holds(sl, LessThan(e), k + 1, k + 1);
    if k > 0 {
      assert ElemLess(sl.elems[k - 1], sl.elems[k]);
      assert Holds(sl, LessThan(e), k, k);
    }
  }

  /** The search for member-not-above stops on the element, when it is present. */
  lemma NotAboveFinds(sl: Skiplist, e: Element, k: int)
    requires Valid(sl) && 0 <= k < Size(sl) && sl.elems[k] == e
    ensures Threshold(sl, NotAbove(e)) == k + 1
  {
    SearchBase(sl, NotAbove(e));
    assert Holds(sl, NotAbove(e), k + 1, k + 1);
    if k + 1 < Size(sl) {
      assert ElemLess(sl.elems[k], sl.elems[k + 1]);
      ElemLessOrder(e, sl.elems[k + 1], e);
      assert !Holds(sl, NotAbove(e), k + 2, k + 2);
    }
  }

  datatype Deletion = Deletion(list: Skiplist, found: bool)

  /**
    remove(member, score): search for the predecessors of the element and
    unlink the next node when it carries exactly this member and score.
   */
  function Remove(sl: Skiplist, e: Element): (r: Deletion)
    requires Valid(sl)
    ensures Valid(r.list)
    ensures r.found <==> e in sl.elems
    ensures r.found ==> multiset(r.list.elems) == multiset(sl.elems) - multiset{e}
    ensures r.found ==> Size(r.list) == Size(sl) - 1
    ensures r.found ==> exists k :: 0 <= k < Size(sl) && sl.elems[k] == e && r.list.elems == DeleteAt(sl.elems, k)
    ensures !r.found ==> r.list == sl
  {
    SearchBase(sl, LessThan(e));
    var d := Search(sl, LessThan(e));
    var a := d[0].node;
    if a < Size(sl) && sl.elems[a] == e then
      DeleteMultiset(sl.elems, a);
      Deletion(RemoveNode(sl, a + 1, Nodes(d)), true)
    else
      assert e in sl.elems ==> false by {
        if e in sl.elems {
          var k :| 0 <= k < Size(sl) && sl.elems[k] == e;
          LessThanFinds(sl, e, k);
        }
      }
      Deletion(sl, false)
  }

  // ---------------------------------------------------------------------
  // getRank and getByRank
  // ---------------------------------------------------------------------

  /** The member of a node; the header was made with member "". */
  function MemberAt(sl: Skiplist, p: int): Bytes
    requires 0 <= p <= Size(sl)
  {
    if p == 0 then "" else sl.elems[p - 1].member
  }

  /** Stops `d` of a search, each on a node with its own position as rank, from level j down. */
  predicate RankedStops(sl: Skiplist, d: seq<Stop>, j: int)
  {
    j < |d| && forall k :: 0 <= k <= j ==> 0 <= d[k].node <= Size(sl) && d[k].rank == d[k].node
  }

  /**
    The early return of getRank from level j down: the rank at the first
    level whose stop carries the member. `skipHeader` adds the test that
    the stop is not the header.
   */
  function RankScan(sl: Skiplist, d: seq<Stop>, j: int, member: Bytes, skipHeader: bool): int
    requires RankedStops(sl, d, j)
    decreases j + 1
  {
    if j < 0 then 0
    else if (!skipHeader || d[j].node != 0) && MemberAt(sl, d[j].node) == member then d[j].rank
    else RankScan(sl, d, j - 1, member, skipHeader)
  }

  lemma SearchRanked(sl: Skiplist, probe: Probe)
    requires Valid(sl)
    ensures RankedStops(sl, Search(sl, probe), sl.level - 1)
  {
    SearchBase(sl, probe);
  }

  /** getRank as written: the header's member "" matches a search for member "". */
  function GetRankAsWritten(sl: Skiplist, member: Bytes, score: real): (r: int)
    requires Valid(sl)
    ensures r == 0 || (1 <= r <= Size(sl) && sl.elems[r - 1].member == member)
  {
    RankOf(sl, member, score, false)
  }

  /** getRank with the header excluded from the member test. */
  function GetRank(sl: Skiplist, member: Bytes, score: real): (r: int)
    requires Valid(sl)
    ensures r == 0 || (1 <= r <= Size(sl) && sl.elems[r - 1].member == member)
  {
    RankOf(sl, member, score, true)
  }

  /** The search for member-not-above followed by the scan up the levels it stopped on. */
  function RankOf(sl: Skiplist, member: Bytes, score: real, skipHeader: bool): (r: int)
    requires Valid(sl)
    ensures r == 0 || (1 <= r <= Size(sl) && sl.elems[r - 1].member == member)
  {
    var d := Search(sl, NotAbove(Element(member, score)));
    SearchRanked(sl, NotAbove(Element(member, score)));
    RankScanHit(sl, d, sl.level - 1, member, skipHeader);
    RankScan(sl, d, sl.level - 1, member, skipHeader)
  }

  lemma {:induction false} RankScanHit(sl: Skiplist, d: seq<Stop>, j: int, member: Bytes, skipHeader: bool)
    requires RankedStops(sl, d, j)
    ensures var r := RankScan(sl, d, j, member, skipHeader);
            r == 0 || (1 <= r <= Size(sl) && sl.elems[r - 1].member == member)
    decreases j + 1
  {
    if j >= 0 {
      RankScanHit(sl, d, j - 1, member, skipHeader);
    }
  }

  /** Stops `d`, from level j down, each on the last node up to position a on its level. */
  predicate StopsUpTo(sl: Skiplist, d: seq<Stop>, j: int, a: int)
    requires WellFormed(sl) && 0 <= a <= Size(sl)
  {
    j < |d| && forall k :: 0 <= k <= j ==> d[k] == Stop(LastAtLevel(sl, a, k), LastAtLevel(sl, a, k))
  }

  /** With unique members, the corrected scan finds the element's position a. */
  lemma {:induction false} RankScanFinds(sl: Skiplist, d: seq<Stop>, j: int, member: Bytes, a: int)
    requires Valid(sl) && UniqueMembers(sl.elems) && 1 <= a <= Size(sl) && sl.elems[a - 1].member == member
    requires j >= 0 && StopsUpTo(sl, d, j, a) && RankedStops(sl, d, j)
    ensures RankScan(sl, d, j, member, true) == a
    decreases j
  {
    BaseLevel(sl, a);
    var v := d[j].node;
    assert v == LastAtLevel(sl, a, j);
    if v != 0 && MemberAt(sl, v) == member {
      assert sl.elems[v - 1].member == sl.elems[a - 1].member;
    } else {
      RankScanFinds(sl, d, j - 1, member, a);
    }
  }

  /** The rank of a present element is its position, counted from 1. */
  lemma GetRankFinds(sl: Skiplist, member: Bytes, score: real, k: int)
    requires Valid(sl) && UniqueMembers(sl.elems) && 0 <= k < Size(sl) && sl.elems[k] == Element(member, score)
    ensures GetRank(sl, member, score) == k + 1
  {
    var d := Search(sl, NotAbove(Element(member, score)));
    SearchFinds(sl, Element(member, score), k);
    RankScanFinds(sl, d, sl.level - 1, member, k + 1);
    RankOfScans(sl, member, score, true);
  }

  lemma RankOfScans(sl: Skiplist, member: Bytes, score: real, skipHeader: bool)
    requires Valid(sl)
    ensures RankedStops(sl, Search(sl, NotAbove(Element(member, score))), sl.level - 1)
    ensures RankOf(sl, member, score, skipHeader) ==
            RankScan(sl, Search(sl, NotAbove(Element(member, score))), sl.level - 1, member, skipHeader)
  {
    SearchRanked(sl, NotAbove(Element(member, score)));
  }

  /** The search for a present element stops, on each level, at the last node up to it on that level. */
  lemma SearchFinds(sl: Skiplist, e: Element, k: int)
    requires Valid(sl) && 0 <= k < Size(sl) && sl.elems[k] == e
    ensures 1 <= sl.level <= MaxLevel
    ensures RankedStops(sl, Search(sl, NotAbove(e)), sl.level - 1)
    ensures StopsUpTo(sl, Search(sl, NotAbove(e)), sl.level - 1, k + 1)
  {
    SearchBase(sl, NotAbove(e));
    SearchRanked(sl, NotAbove(e));
    NotAboveFinds(sl, e, k);
  }

  /** No node up to position a reaches the top level: the search for it stops on the header there. */
  predicate HeaderAtTop(sl: Skiplist, a: int)
    requires WellFormed(sl) && 0 <= a <= Size(sl)
  {
    LastAtLevel(sl, a, sl.level - 1) == 0
  }

  /** A node's last predecessor on a level is never before its last predecessor one level up. */
  lemma LastAtLevelDown(sl: Skiplist, a: int, i: int)
    requires WellFormed(sl) && 0 <= a <= Size(sl)
    ensures LastAtLevel(sl, a, i) <= LastAtLevel(sl, a, i - 1)
  {
  }

  /**
    As written, the scan from level j down answers position a unless the
    member is "" and the stop at level j is the header, whose member is "".
   */
  lemma {:induction false} RankScanFindsAsWritten(sl: Skiplist, d: seq<Stop>, j: int, member: Bytes, a: int)
    requires Valid(sl) && UniqueMembers(sl.elems) && 1 <= a <= Size(sl) && sl.elems[a - 1].member == member
    requires j >= 0 && StopsUpTo(sl, d, j, a) && RankedStops(sl, d, j)
    ensures RankScan(sl, d, j, member, false) == if member == "" && LastAtLevel(sl, a, j) == 0 then 0 else a
    decreases j
  {
    BaseLevel(sl, a);
    var v := d[j].node;
    assert v == LastAtLevel(sl, a, j);
    if MemberAt(sl, v) == member {
      if v != 0 {
        assert sl.elems[v - 1].member == sl.elems[a - 1].member;
      }
    } else {
      RankScanFindsAsWritten(sl, d, j - 1, member, a);
      LastAtLevelDown(sl, a, j);
    }
  }

  /**
    getRank as written on a present element: its position, counted from 1,
    except 0 for the member "" when no node up to it reaches the top level.
   */
  lemma GetRankAsWrittenFinds(sl: Skiplist, member: Bytes, score: real, k: int)
    requires Valid(sl) && UniqueMembers(sl.elems) && 0 <= k < Size(sl) && sl.elems[k] == Element(member, score)
    ensures GetRankAsWritten(sl, member, score) == if member == "" && HeaderAtTop(sl, k + 1) then 0 else k + 1
  {
    if member == "" && HeaderAtTop(sl, k + 1) {
      GetRankHeaderQuirk(sl, score, k + 1);
    } else {
      GetRankAsWrittenPlain(sl, member, score, k);
    }
  }

  /** Away from the header quirk the as-written rank is the position too. */
  lemma GetRankAsWrittenPlain(sl: Skiplist, member: Bytes, score: real, k: int)
    requires Valid(sl) && UniqueMembers(sl.elems) && 0 <= k < Size(sl) && sl.elems[k] == Element(member, score)
    requires !(member == "" && HeaderAtTop(sl, k + 1))
    ensures GetRankAsWritten(sl, member, score) == k + 1
  {
    var d := Search(sl, NotAbove(Element(member, score)));
    SearchFinds(sl, Element(member, score), k);
    RankScanFindsAsWritten(sl, d, sl.level - 1, member, k + 1);
    RankOfScans(sl, member, score, false);
  }

  /** A member that is absent gets rank 0. */
  lemma GetRankAbsent(sl: Skiplist, member: Bytes, score: real)
    requires Valid(sl) && forall k :: 0 <= k < Size(sl) ==> sl.elems[k].member != member
    ensures GetRank(sl, member, score) == 0
  {
  }

  /**
    The header quirk: when the member "" is at position a and no node up
    to a reaches the top level, the search stops on the header there and
    getRank answers 0 instead of a.
   */
  lemma GetRankHeaderQuirk(sl: Skiplist, score: real, a: int)
    requires Valid(sl) && UniqueMembers(sl.elems) && 1 <= a <= Size(sl) && sl.elems[a - 1] == Element("", score)
    requires LastAtLevel(sl, a, sl.level - 1) == 0
    ensures GetRankAsWritten(sl, "", score) == 0
    ensures GetRank(sl, "", score) == a
  {
    var e := Element("", score);
    GetRankFinds(sl, "", score, a - 1);
    SearchBase(sl, NotAbove(e));
    var d := Search(sl, NotAbove(e));
    NotAboveFinds(sl, e, a - 1);
    assert d[sl.level - 1] == Stop(0, 0);
  }

  /** A concrete list: ("", 1) of height 1 before ("b", 2) of height 2. */
  const HeaderQuirkList: Skiplist :=
    Skiplist([Element("", 1.0), Element("b", 2.0)], [1, 2],
             [[1, 2, 0, 0, 0, 0, 0, 0, 0, 0, 0, 0, 0, 0, 0, 0], [1], [0, 0]], 2)

  /** On that list `zrank` of member "" reads rank 0 where 1 is right. */
  lemma GetRankHeaderExample()
    ensures Valid(HeaderQuirkList)
    ensures GetRankAsWritten(HeaderQuirkList, "", 1.0) == 0
    ensures GetRank(HeaderQuirkList, "", 1.0) == 1
  {
    var sl := HeaderQuirkList;
    assert StrLess("", "b");
    SortedFromAdjacent(sl.elems);
    assert NextAt(sl.heights, 1, 1) == 2;
    assert NextAt(sl.heights, 1, 0) == 1;
    assert NextAt(sl.heights, 2, 0) == 2;
    assert LevelOf(sl.heights) == 2 by { LevelOfWitness(sl.heights, 2, 1); }
    assert Valid(sl);
    GetRankHeaderQuirk(sl, 1.0, 1);
  }

  /** The early return of getByRank: the node of the first level whose rank so far is `rank`. */
  function RankLookup(d: seq<Stop>, j: int, rank: int): Option<int>
    requires j < |d|
    decreases j + 1
  {
    if j < 0 then None
    else if d[j].rank == rank then Some(d[j].node)
    else RankLookup(d, j - 1, rank)
  }

  lemma {:induction false} RankLookupHit(sl: Skiplist, d: seq<Stop>, j: int, rank: int)
    requires RankedStops(sl, d, j) && j >= 0
    ensures RankLookup(d, j, rank).Some? ==> RankLookup(d, j, rank) == Some(rank)
    ensures d[0].rank == rank ==> RankLookup(d, j, rank) == Some(rank)
    ensures (forall k :: 0 <= k <= j ==> d[k].rank != rank) ==> RankLookup(d, j, rank) == None
    decreases j
  {
    if j > 0 {
      RankLookupHit(sl, d, j - 1, rank);
    }
  }

  /** The search by rank stops at position `rank` when there is one. */
  lemma RankAtMostFinds(sl: Skiplist, rank: int)
    requires Valid(sl)
    ensures 0 <= rank <= Size(sl) ==> Threshold(sl, RankAtMost(rank)) == rank
  {
    SearchBase(sl, RankAtMost(rank));
    if 1 <= rank <= Size(sl) {
      assert Holds(sl, RankAtMost(rank), rank, rank);
    }
    if 0 <= rank < Size(sl) {
      assert !Holds(sl, RankAtMost(rank), rank + 1, rank + 1);
    }
  }

  /**
    getByRank(rank): the node at 1-based position `rank`; rank 0 finds the
    header (position 0) and a rank beyond the list finds nothing.
   */
  function GetByRank(sl: Skiplist, rank: int): (r: Option<int>)
    requires Valid(sl)
    ensures r == if 0 <= rank <= Size(sl) then Some(rank) else None
  {
    var d := Search(sl, RankAtMost(rank));
    SearchBase(sl, RankAtMost(rank));
    RankAtMostFinds(sl, rank);
    SearchRanked(sl, RankAtMost(rank));
    RankLookupHit(sl, d, sl.level - 1, rank);
    RankLookup(d, sl.level - 1, rank)
  }

  // ---------------------------------------------------------------------
  // hasInRange, getFirstInScoreRange, getLastInScoreRange
  // ---------------------------------------------------------------------

  /** The border test of hasInRange, as written: on `value` even for the infinite borders. */
  predicate EmptyRangeAsWritten(min: ScoreBorder, max: ScoreBorder)
  {
    min.value > max.value || (min.value == max.value && (min.exclude || max.exclude))
  }

  /** The same test restricted to two finite borders, where it means what it says. */
  predicate EmptyRange(min: ScoreBorder, max: ScoreBorder)
  {
    min.inf == 0 && max.inf == 0 && EmptyRangeAsWritten(min, max)
  }

  /** hasInRange: the range is not empty, the tail is above min and the first node below max. */
  predicate HasInRangeWith(sl: Skiplist, min: ScoreBorder, max: ScoreBorder, asWritten: bool)
  {
    && !(if asWritten then EmptyRangeAsWritten(min, max) else EmptyRange(min, max))
    && Size(sl) > 0
    && Less(min, sl.elems[Size(sl) - 1].score)
    && Greater(max, sl.elems[0].score)
  }

  predicate HasInRange(sl: Skiplist, min: ScoreBorder, max: ScoreBorder)
  {
    HasInRangeWith(sl, min, max, false)
  }

  /** Some element has a score within the borders. */
  predicate SomeInRange(sl: Skiplist, min: ScoreBorder, max: ScoreBorder)
  {
    exists k :: 0 <= k < Size(sl) && InRange(min, max, sl.elems[k].score)
  }

  /** The corrected hasInRange never rules out a range that holds an element. */
  lemma HasInRangeNecessary(sl: Skiplist, min: ScoreBorder, max: ScoreBorder)
    requires Sorted(sl.elems)
    ensures SomeInRange(sl, min, max) ==> HasInRange(sl, min, max)
  {
    if SomeInRange(sl, min, max) {
      var k :| 0 <= k < Size(sl) && InRange(min, max, sl.elems[k].score);
      var v := sl.elems[k].score;
      if k < Size(sl) - 1 { assert ElemLess(sl.elems[k], sl.elems[Size(sl) - 1]); }
      if k > 0 { assert ElemLess(sl.elems[0], sl.elems[k]); }
      BorderMonotone(min, v, sl.elems[Size(sl) - 1].score);
      BorderMonotone(max, sl.elems[0].score, v);
    }
  }

  /** As written, hasInRange rules out `[-inf, -5]` on a list holding score -10 (value 0 > -5). */
  lemma HasInRangeAsWrittenMisses(sl: Skiplist)
    requires sl.elems == [Element("a", -10.0)]
    ensures InRange(NegativeInfBorder, ScoreBorder(0, -5.0, false), sl.elems[0].score)
    ensures !HasInRangeWith(sl, NegativeInfBorder, ScoreBorder(0, -5.0, false), true)
    ensures HasInRange(sl, NegativeInfBorder, ScoreBorder(0, -5.0, false))
  {
  }

  /** Inserting anywhere into the empty sequence gives the one-element sequence. */
  lemma InsertIntoEmpty(e: Element, s: seq<Element>, r: seq<Element>)
    requires s == [] && exists k :: 0 <= k <= |s| && r == InsertAt(s, k, e)
    ensures r == [e]
  {
    var k :| 0 <= k <= |s| && r == InsertAt(s, k, e);
  }

  /** Such a list is reachable: inserting ("a", -10) into the empty skiplist. */
  lemma HasInRangeAsWrittenExample()
    ensures var sl := Insert(Empty, Element("a", -10.0), 1);
            Valid(sl) && sl.elems == [Element("a", -10.0)] &&
            !HasInRangeWith(sl, NegativeInfBorder, ScoreBorder(0, -5.0, false), true)
  {
    EmptyValid();
    var sl := Insert(Empty, Element("a", -10.0), 1);
    InsertIntoEmpty(Element("a", -10.0), Empty.elems, sl.elems);
    HasInRangeAsWrittenMisses(sl);
  }

  /** Scores ascend along the base level. */
  lemma ScoresAscend(s: seq<Element>, i: int, j: int)
    requires Sorted(s) && 0 <= i <= j < |s|
    ensures s[i].score <= s[j].score
  {
    if i < j { assert ElemLess(s[i], s[j]); }
  }

  /** The elements in range form one run: below it min fails, above it max fails. */
  lemma RangeRun(sl: Skiplist, min: ScoreBorder, max: ScoreBorder, i: int, j: int, k: int)
    requires Sorted(sl.elems) && 0 <= i <= j <= k < Size(sl)
    ensures InRange(min, max, sl.elems[i].score) && InRange(min, max, sl.elems[k].score) ==>
              InRange(min, max, sl.elems[j].score)
    ensures !Less(min, sl.elems[j].score) ==> !Less(min, sl.elems[i].score)
    ensures !Greater(max, sl.elems[j].score) ==> !Greater(max, sl.elems[k].score)
  {
    ScoresAscend(sl.elems, i, j);
    ScoresAscend(sl.elems, j, k);
    BorderMonotone(min, sl.elems[i].score, sl.elems[j].score);
    BorderMonotone(max, sl.elems[j].score, sl.elems[k].score);
  }

  /**
    getFirstInScoreRange: after hasInRange (as written), search for the
    last node not above min; its successor is the answer when max admits it.
    Borders that hasInRange's value test rules out give no node, even when
    an element lies within them.
   */
  function GetFirstInScoreRange(sl: Skiplist, min: ScoreBorder, max: ScoreBorder): (r: Option<int>)
    requires Valid(sl)
    ensures r.Some? ==> 1 <= r.value <= Size(sl) && InRange(min, max, sl.elems[r.value - 1].score)
    ensures r.Some? ==> forall k :: 0 <= k < r.value - 1 ==> !InRange(min, max, sl.elems[k].score)
    ensures EmptyRangeAsWritten(min, max) ==> r.None?
    ensures r.None? && !EmptyRangeAsWritten(min, max) ==> !SomeInRange(sl, min, max)
  {
    HasInRangeNecessary(sl, min, max);
    if !HasInRangeWith(sl, min, max, true) then None
    else
      SearchBase(sl, NotLess(min));
      var a := Search(sl, NotLess(min))[0].node;
      assert a < Size(sl) by {
        assert !Holds(sl, NotLess(min), Size(sl), Size(sl));
      }
      FirstInRange(sl, min, max, a);
      if !Greater(max, sl.elems[a].score) then None else Some(a + 1)
  }

  lemma FirstInRange(sl: Skiplist, min: ScoreBorder, max: ScoreBorder, a: int)
    requires Valid(sl) && 0 <= a < Size(sl) && PrefixClosed(sl, NotLess(min), a)
    ensures forall k :: 0 <= k < a ==> !InRange(min, max, sl.elems[k].score)
    ensures Less(min, sl.elems[a].score)
    ensures !Greater(max, sl.elems[a].score) ==> !SomeInRange(sl, min, max)
  {
    assert !Holds(sl, NotLess(min), a + 1, a + 1);
    forall k | 0 <= k < a ensures !InRange(min, max, sl.elems[k].score) {
      assert Holds(sl, NotLess(min), k + 1, k + 1);
    }
    if !Greater(max, sl.elems[a].score) {
      forall k | a <= k < Size(sl) ensures !InRange(min, max, sl.elems[k].score) {
        RangeRun(sl, min, max, a, a, k);
      }
    }
  }

  /**
    getLastInScoreRange: after hasInRange (as written), search for the last
    node below max; it is the answer when min admits it. The same borders
    as for getFirstInScoreRange give no node.
   */
  function GetLastInScoreRange(sl: Skiplist, min: ScoreBorder, max: ScoreBorder): (r: Option<int>)
    requires Valid(sl)
    ensures r.Some? ==> 1 <= r.value <= Size(sl) && InRange(min, max, sl.elems[r.value - 1].score)
    ensures r.Some? ==> forall k :: r.value <= k < Size(sl) ==> !InRange(min, max, sl.elems[k].score)
    ensures EmptyRangeAsWritten(min, max) ==> r.None?
    ensures r.None? && !EmptyRangeAsWritten(min, max) ==> !SomeInRange(sl, min, max)
  {
    HasInRangeNecessary(sl, min, max);
    if !HasInRangeWith(sl, min, max, true) then None
    else
      SearchBase(sl, Within(max));
      var b := Search(sl, Within(max))[0].node;
      assert b >= 1 by {
        assert Holds(sl, Within(max), 1, 1);
      }
      LastInRange(sl, min, max, b);
      if !Less(min, sl.elems[b - 1].score) then None else Some(b)
  }

  lemma LastInRange(sl: Skiplist, min: ScoreBorder, max: ScoreBorder, b: int)
    requires Valid(sl) && 1 <= b <= Size(sl) && PrefixClosed(sl, Within(max), b)
    ensures forall k :: b <= k < Size(sl) ==> !InRange(min, max, sl.elems[k].score)
    ensures Greater(max, sl.elems[b - 1].score)
    ensures !Less(min, sl.elems[b - 1].score) ==> !SomeInRange(sl, min, max)
  {
    assert Holds(sl, Within(max), b, b);
    forall k | b <= k < Size(sl) ensures !InRange(min, max, sl.elems[k].score) {
      assert !Holds(sl, Within(max), k + 1, k + 1);
    }
    if !Less(min, sl.elems[b - 1].score) {
      forall k | 0 <= k < b ensures !InRange(min, max, sl.elems[k].score) {
        RangeRun(sl, min, max, k, b - 1, b - 1);
      }
    }
  }

  // ---------------------------------------------------------------------
  // RemoveRangeByScore and RemoveRangeByRank
  // ---------------------------------------------------------------------

  /** Where a range removal stops: past max (after `limit` removals if positive), or at rank `stop`. */
  datatype Cut = ByScore(max: ScoreBorder, limit: int) | ByRank(stop: int)

  /** Whether the removal loop takes the node holding x, whose original rank is `rank`. */
  predicate Continues(cut: Cut, x: Element, rank: int)
  {
    match cut
    case ByScore(max, _) => Greater(max, x.score)
    case ByRank(stop) => rank < stop
  }

  /** The `limit` break after `count` removals. */
  predicate LimitReached(cut: Cut, count: int)
  {
    cut.ByScore? && cut.limit > 0 && count == cut.limit
  }

  datatype Cleared = Cleared(list: Skiplist, removed: seq<Element>)

  /** Positions up to a keep their heights, so the last node up to a on each level stays. */
  lemma {:induction false} LastAtLevelPrefix(sl: Skiplist, sl': Skiplist, a: int, i: int)
    requires WellFormed(sl) && WellFormed(sl') && 0 <= a <= Size(sl) && a <= Size(sl')
    requires sl.heights[..a] == sl'.heights[..a]
    ensures LastAtLevel(sl, a, i) == LastAtLevel(sl', a, i)
    decreases a
  {
    if a > 0 {
      assert sl.heights[a - 1] == sl.heights[..a][a - 1] == sl'.heights[a - 1];
      assert sl.heights[..a - 1] == sl.heights[..a][..a - 1];
      assert sl'.heights[..a - 1] == sl'.heights[..a][..a - 1];
      LastAtLevelPrefix(sl, sl', a - 1, i);
    }
  }

  /**
    What the removal loop from position a + 1 achieved, `count` nodes
    having been taken before it started: it took the run `removed` right
    after position a, every node of which the cut let through, stopping
    only at the end of the list, at the limit, or at a node the cut refuses.
   */
  predicate LoopDone(s: seq<Element>, a: int, cut: Cut, count: int, removed: seq<Element>, rest: seq<Element>)
  {
    && 0 <= a && a + |removed| <= |s|
    && removed == s[a..a + |removed|]
    && rest == s[..a] + s[a + |removed|..]
    && (forall m :: 0 <= m < |removed| ==> Continues(cut, removed[m], a + 1 + count + m))
    && (cut.ByScore? && cut.limit > count ==> count + |removed| <= cut.limit)
    && (a + |removed| < |s| && !LimitReached(cut, count + |removed|) ==>
          !Continues(cut, s[a + |removed|], a + 1 + count + |removed|))
  }

  /**
    The removal loop from position a + 1 on, reusing the same update
    nodes: take the next node while the cut lets it through, `count`
    nodes having been taken before.
   */
  function RemoveLoop(sl: Skiplist, u: seq<int>, a: int, cut: Cut, count: nat): (r: Cleared)
    requires Valid(sl) && 0 <= a <= Size(sl) && UpdatesAt(sl, u, a)
    ensures Valid(r.list)
    ensures LoopDone(sl.elems, a, cut, count, r.removed, r.list.elems)
    decreases Size(sl) - a
  {
    if a == Size(sl) || !Continues(cut, sl.elems[a], a + 1 + count) then
      LoopStops(sl.elems, a, cut, count);
      Cleared(sl, [])
    else
      var sl' := RemoveNode(sl, a + 1, u);
      UpdatesKept(sl, sl', u, a);
      if LimitReached(cut, count + 1) then
        LoopLimit(sl.elems, sl'.elems, a, cut, count);
        Cleared(sl', [sl.elems[a]])
      else
        var rest := RemoveLoop(sl', u, a, cut, count + 1);
        RemoveLoopStep(sl.elems, sl'.elems, a, cut, count, rest.removed, rest.list.elems);
        Cleared(rest.list, [sl.elems[a]] + rest.removed)
  }

  lemma UpdatesKept(sl: Skiplist, sl': Skiplist, u: seq<int>, a: int)
    requires WellFormed(sl) && WellFormed(sl') && 0 <= a <= Size(sl) && a <= Size(sl')
    requires sl.heights[..a] == sl'.heights[..a] && sl'.level <= sl.level && UpdatesAt(sl, u, a)
    ensures UpdatesAt(sl', u, a)
  {
    forall j | 0 <= j < sl'.level ensures u[j] == LastAtLevel(sl', a, j) {
      LastAtLevelPrefix(sl, sl', a, j);
    }
  }

  lemma LoopStops(s: seq<Element>, a: int, cut: Cut, count: int)
    requires 0 <= a <= |s| && (a == |s| || !Continues(cut, s[a], a + 1 + count))
    ensures LoopDone(s, a, cut, count, [], s)
  {
    assert s == s[..a] + s[a..];
  }

  lemma LoopLimit(s: seq<Element>, s': seq<Element>, a: int, cut: Cut, count: int)
    requires 0 <= a < |s| && s' == DeleteAt(s, a)
    requires Continues(cut, s[a], a + 1 + count) && LimitReached(cut, count + 1)
    ensures LoopDone(s, a, cut, count, [s[a]], s')
  {
    assert s' == s[..a] + s[a + 1..];
  }

  /** One removal followed by the rest of the loop on the shorter list. */
  lemma RemoveLoopStep(s: seq<Element>, s': seq<Element>, a: int, cut: Cut, count: nat,
                       removed: seq<Element>, rest: seq<Element>)
    requires 0 <= a < |s| && s' == DeleteAt(s, a)
    requires Continues(cut, s[a], a + 1 + count) && !LimitReached(cut, count + 1)
    requires LoopDone(s', a, cut, count + 1, removed, rest)
    ensures LoopDone(s, a, cut, count, [s[a]] + removed, rest)
  {
    var n := |removed|;
    var all := [s[a]] + removed;
    assert s'[..a] == s[..a];
    assert s'[a + n..] == s[a + 1 + n..];
    assert all == s[a..a + 1 + n];
    forall m | 0 <= m < |all| ensures Continues(cut, all[m], a + 1 + count + m) {
      if m > 0 {
        assert all[m] == removed[m - 1];
      }
    }
    if a + 1 + n < |s| {
      assert s'[a + n] == s[a + 1 + n];
    }
  }

  /**
    RemoveRangeByScore(min, max, limit): search for the last node not above
    min, then remove the nodes after it while max admits them, stopping
    after `limit` removals when limit is positive.
   */
  function RemoveRangeByScore(sl: Skiplist, min: ScoreBorder, max: ScoreBorder, limit: int): (r: Cleared)
    requires Valid(sl)
    ensures Valid(r.list)
    ensures forall m :: 0 <= m < |r.removed| ==> InRange(min, max, r.removed[m].score)
    ensures limit > 0 ==> |r.removed| <= limit
    ensures limit <= 0 || |r.removed| < limit ==>
              forall k :: 0 <= k < Size(r.list) ==> !InRange(min, max, r.list.elems[k].score)
    ensures exists k :: 0 <= k <= Size(r.list) && sl.elems == r.list.elems[..k] + r.removed + r.list.elems[k..] &&
              forall j :: 0 <= j < k ==> !InRange(min, max, r.list.elems[j].score)
  {
    SearchBase(sl, NotLess(min));
    var d := Search(sl, NotLess(min));
    var a := d[0].node;
    var r := RemoveLoop(sl, Nodes(d), a, ByScore(max, limit), 0);
    RemoveByScoreFacts(sl, min, max, limit, a, r);
    r
  }

  lemma RemoveByScoreFacts(sl: Skiplist, min: ScoreBorder, max: ScoreBorder, limit: int, a: int, r: Cleared)
    requires Valid(sl) && 0 <= a <= Size(sl) && PrefixClosed(sl, NotLess(min), a)
    requires LoopDone(sl.elems, a, ByScore(max, limit), 0, r.removed, r.list.elems)
    ensures forall m :: 0 <= m < |r.removed| ==> InRange(min, max, r.removed[m].score)
    ensures limit > 0 ==> |r.removed| <= limit
    ensures limit <= 0 || |r.removed| < limit ==>
              forall k :: 0 <= k < Size(r.list) ==> !InRange(min, max, r.list.elems[k].score)
    ensures exists k :: 0 <= k <= Size(r.list) && sl.elems == r.list.elems[..k] + r.removed + r.list.elems[k..] &&
              forall j :: 0 <= j < k ==> !InRange(min, max, r.list.elems[j].score)
  {
    MinSplit(sl, min, a);
    RemovedInRange(sl.elems, min, max, limit, a, r.removed, r.list.elems);
    if limit <= 0 || |r.removed| < limit {
      RestOutOfRange(sl, min, max, limit, a, r.removed, r.list.elems);
    }
    RemovedBlock(sl.elems, min, max, limit, a, r.removed, r.list.elems);
  }

  /** The search for min splits the list: nodes before position a are below min, the others not. */
  lemma MinSplit(sl: Skiplist, min: ScoreBorder, a: int)
    requires Valid(sl) && 0 <= a <= Size(sl) && PrefixClosed(sl, NotLess(min), a)
    ensures forall k :: 0 <= k < a ==> !Less(min, sl.elems[k].score)
    ensures forall k :: a <= k < Size(sl) ==> Less(min, sl.elems[k].score)
  {
    forall k | 0 <= k < a ensures !Less(min, sl.elems[k].score) {
      assert Holds(sl, NotLess(min), k + 1, k + 1);
    }
    forall k | a <= k < Size(sl) ensures Less(min, sl.elems[k].score) {
      assert !Holds(sl, NotLess(min), k + 1, k + 1);
    }
  }

  /** Every node the loop took lies within the borders, and no more than the limit were taken. */
  lemma RemovedInRange(s: seq<Element>, min: ScoreBorder, max: ScoreBorder, limit: int, a: int,
                       removed: seq<Element>, rest: seq<Element>)
    requires 0 <= a <= |s| && forall k :: a <= k < |s| ==> Less(min, s[k].score)
    requires LoopDone(s, a, ByScore(max, limit), 0, removed, rest)
    ensures forall m :: 0 <= m < |removed| ==> InRange(min, max, removed[m].score)
    ensures limit > 0 ==> |removed| <= limit
  {
    forall m | 0 <= m < |removed| ensures InRange(min, max, removed[m].score) {
      assert removed[m] == s[a + m];
      assert Continues(ByScore(max, limit), removed[m], a + 1 + m);
    }
  }

  /** When the loop stopped short of the limit, nothing left lies within the borders. */
  lemma RestOutOfRange(sl: Skiplist, min: ScoreBorder, max: ScoreBorder, limit: int, a: int,
                       removed: seq<Element>, rest: seq<Element>)
    requires Sorted(sl.elems) && 0 <= a <= |sl.elems|
    requires forall k :: 0 <= k < a ==> !Less(min, sl.elems[k].score)
    requires LoopDone(sl.elems, a, ByScore(max, limit), 0, removed, rest)
    requires limit <= 0 || |removed| < limit
    ensures forall k :: 0 <= k < |rest| ==> !InRange(min, max, rest[k].score)
  {
    var s, n := sl.elems, |removed|;
    assert !LimitReached(ByScore(max, limit), n);
    forall k | 0 <= k < |rest| ensures !InRange(min, max, rest[k].score) {
      if k < a {
        assert rest[k] == s[k];
      } else {
        assert rest[k] == s[k + n];
        assert !Greater(max, s[a + n].score);
        RangeRun(sl, min, max, a + n, a + n, k + n);
      }
    }
  }

  /** The nodes taken are one block, and the nodes before it lie below min. */
  lemma RemovedBlock(s: seq<Element>, min: ScoreBorder, max: ScoreBorder, limit: int, a: int,
                     removed: seq<Element>, rest: seq<Element>)
    requires 0 <= a <= |s| && forall k :: 0 <= k < a ==> !Less(min, s[k].score)
    requires LoopDone(s, a, ByScore(max, limit), 0, removed, rest)
    ensures exists k :: 0 <= k <= |rest| && s == rest[..k] + removed + rest[k..] &&
              forall j :: 0 <= j < k ==> !InRange(min, max, rest[j].score)
  {
    var n := |removed|;
    assert s == s[..a] + s[a..a + n] + s[a + n..];
    assert rest[..a] == s[..a];
    assert rest[a..] == s[a + n..];
    forall j | 0 <= j < a ensures !InRange(min, max, rest[j].score) {
      assert rest[j] == s[j];
    }
  }

  /** Clamp x into lo..hi. */
  function Clamp(x: int, lo: int, hi: int): int
  {
    if x < lo then lo else if x > hi then hi else x
  }

  /**
    RemoveRangeByRank(start, stop): remove the nodes whose 1-based rank lies
    in [start, stop), i.e. the elements at indices start - 1 .. stop - 2.
   */
  function RemoveRangeByRank(sl: Skiplist, start: int, stop: int): (r: Cleared)
    requires Valid(sl)
    ensures Valid(r.list)
    ensures var lo := Clamp(start - 1, 0, Size(sl));
            var hi := Clamp(stop - 1, lo, Size(sl));
            r.removed == sl.elems[lo..hi] && r.list.elems == sl.elems[..lo] + sl.elems[hi..]
  {
    SearchBase(sl, RankBelow(start));
    var d := Search(sl, RankBelow(start));
    RankBelowFinds(sl, start);
    var r := RemoveLoop(sl, Nodes(d), d[0].node, ByRank(stop), 0);
    RemoveByRankFacts(sl, start, stop, r);
    r
  }

  lemma RemoveByRankFacts(sl: Skiplist, start: int, stop: int, r: Cleared)
    requires Valid(sl)
    requires LoopDone(sl.elems, Clamp(start - 1, 0, Size(sl)), ByRank(stop), 0, r.removed, r.list.elems)
    ensures var lo := Clamp(start - 1, 0, Size(sl));
            var hi := Clamp(stop - 1, lo, Size(sl));
            r.removed == sl.elems[lo..hi] && r.list.elems == sl.elems[..lo] + sl.elems[hi..]
  {
    var a := Clamp(start - 1, 0, Size(sl));
    var n := |r.removed|;
    if n > 0 {
      assert Continues(ByRank(stop), r.removed[n - 1], a + 1 + (n - 1));
    }
    assert a + n < Size(sl) ==> !Continues(ByRank(stop), sl.elems[a + n], a + 1 + n);
    assert a + n == Clamp(stop - 1, a, Size(sl));
  }
  lemma RankBelowFinds(sl: Skiplist, start: int)
    requires Valid(sl)
    ensures Threshold(sl, RankBelow(start)) == Clamp(start - 1, 0, Size(sl))
  {
    SearchBase(sl, RankBelow(start));
    var c := Clamp(start - 1, 0, Size(sl));
    if c >= 1 {
      assert Holds(sl, RankBelow(start), c, c);
    }
    if c < Size(sl) {
      assert !Holds(sl, RankBelow(start), c + 1, c + 1);
    }
  }
}
