/**
  The sorted set (datastruct/sortedset/sortedset.go): a member -> score
  dict kept in step with a skiplist of (member, score) elements.

  The dict is modelled as a map from member to score (the source stores an
  *Element carrying both); the invariant says the dict holds exactly the
  pairs on the skiplist's base level.
 */
module SortedSets {
  import opened Base
  import opened ZOrder
  import opened Border
  import opened Numbers
  import Skiplist
  import SkiplistOps

  datatype SortedSet = SortedSet(dict: map<Bytes, real>, sl: Skiplist.Skiplist)

  /** The elements in the order of a walk: ascending, or descending along `backward`. */
  function Ordered(s: seq<Element>, desc: bool): (r: seq<Element>)
    ensures |r| == |s|
  {
    if desc then Reverse(s) else s
  }

  /** The members occurring in a sequence of elements. */
  function MemberSet(s: seq<Element>): set<Bytes>
  {
    if |s| == 0 then {} else {s[0].member} + MemberSet(s[1..])
  }

  /** The dict holds exactly the (member, score) pairs of `s`. */
  predicate DictMatches(dict: map<Bytes, real>, s: seq<Element>)
  {
    && (forall k :: 0 <= k < |s| ==> s[k].member in dict && dict[s[k].member] == s[k].score)
    && (forall m :: m in dict ==> Element(m, dict[m]) in s)
  }

  /** The sorted set invariant: a valid skiplist that the dict mirrors. */
  predicate Valid(ss: SortedSet)
  {
    Skiplist.Valid(ss.sl) && DictMatches(ss.dict, ss.sl.elems)
  }

  lemma {:induction false} MemberSetMeaning(s: seq<Element>, m: Bytes)
    ensures m in MemberSet(s) <==> exists k :: 0 <= k < |s| && s[k].member == m
    decreases |s|
  {
    if |s| > 0 {
      MemberSetMeaning(s[1..], m);
      if exists k :: 0 <= k < |s| && s[k].member == m {
        var k :| 0 <= k < |s| && s[k].member == m;
        if k > 0 { assert s[1..][k - 1].member == m; }
      }
      if exists k :: 0 <= k < |s| - 1 && s[1..][k].member == m {
        var k :| 0 <= k < |s| - 1 && s[1..][k].member == m;
        assert s[k + 1].member == m;
      }
    }
  }

  /** With no member twice, there are as many members as elements. */
  lemma {:induction false} MemberSetSize(s: seq<Element>)
    requires UniqueMembers(s)
    ensures |MemberSet(s)| == |s|
    decreases |s|
  {
    if |s| > 0 {
      assert UniqueMembers(s[1..]) by {
        forall i, j | 0 <= i < |s| - 1 && 0 <= j < |s| - 1 && s[1..][i].member == s[1..][j].member
          ensures i == j
        {
          assert s[i + 1].member == s[j + 1].member;
        }
      }
      MemberSetSize(s[1..]);
      MemberSetMeaning(s[1..], s[0].member);
      forall k | 0 <= k < |s| - 1 ensures s[1..][k].member != s[0].member {
        assert s[k + 1].member != s[0].member;
      }
    }
  }

  /** The dict's keys are the skiplist's members. */
  lemma DictKeys(dict: map<Bytes, real>, s: seq<Element>)
    requires DictMatches(dict, s)
    ensures dict.Keys == MemberSet(s)
  {
    forall m | m in dict ensures m in MemberSet(s) {
      var k :| 0 <= k < |s| && s[k] == Element(m, dict[m]);
      MemberSetMeaning(s, m);
    }
    forall m | m in MemberSet(s) ensures m in dict {
      MemberSetMeaning(s, m);
    }
  }

  /** A member has one score, so on a sorted list it occurs once. */
  lemma DictUnique(dict: map<Bytes, real>, s: seq<Element>)
    requires Sorted(s) && DictMatches(dict, s)
    ensures UniqueMembers(s)
  {
    forall i, j | 0 <= i < |s| && 0 <= j < |s| && s[i].member == s[j].member ensures i == j {
      assert s[i] == s[j];
      SortedDistinct(s, i, j);
    }
  }

  /** Make: an empty dict and an empty skiplist. */
  function Make(): (r: SortedSet)
    ensures Valid(r) && r.dict == map[] && r.sl.elems == []
  {
    Skiplist.EmptyValid();
    SortedSet(map[], Skiplist.Empty)
  }

  /** Len: the size of the dict, which is the number of elements. */
  function Len(ss: SortedSet): (r: int)
    requires Valid(ss)
    ensures r == |ss.sl.elems|
  {
    DictKeys(ss.dict, ss.sl.elems);
    DictUnique(ss.dict, ss.sl.elems);
    MemberSetSize(ss.sl.elems);
    |ss.dict|
  }

  /** A member is in the dict exactly when some element carries it. */
  lemma DictMembers(dict: map<Bytes, real>, s: seq<Element>, member: Bytes)
    requires DictMatches(dict, s)
    ensures member in dict <==> exists k :: 0 <= k < |s| && s[k].member == member
  {
    if member in dict {
      var k :| 0 <= k < |s| && s[k] == Element(member, dict[member]);
      assert s[k].member == member;
    }
  }

  /** Get: the element of a member, or nil. */
  function Get(ss: SortedSet, member: Bytes): (r: Option<Element>)
    requires Valid(ss)
    ensures r.Some? <==> exists k :: 0 <= k < |ss.sl.elems| && ss.sl.elems[k].member == member
    ensures r.Some? ==> r.value.member == member && r.value in ss.sl.elems
  {
    DictMembers(ss.dict, ss.sl.elems, member);
    if member in ss.dict then Some(Element(member, ss.dict[member])) else None
  }

  // ---------------------------------------------------------------------
  // Add and Remove
  // ---------------------------------------------------------------------

  /** Inserting an element of a new member keeps the dict in step. */
  lemma InsertKeeps(dict: map<Bytes, real>, s: seq<Element>, t: seq<Element>, e: Element)
    requires DictMatches(dict, s) && e.member !in dict
    requires exists k :: 0 <= k <= |s| && t == SkiplistOps.InsertAt(s, k, e)
    ensures DictMatches(dict[e.member := e.score], t)
  {
    var k :| 0 <= k <= |s| && t == SkiplistOps.InsertAt(s, k, e);
    var dict' := dict[e.member := e.score];
    forall i | 0 <= i < |t| ensures t[i].member in dict' && dict'[t[i].member] == t[i].score {
      InsertedFrom(s, t, k, e, i);
    }
    forall m | m in dict' ensures Element(m, dict'[m]) in t {
      if m != e.member {
        var j :| 0 <= j < |s| && s[j] == Element(m, dict[m]);
        InsertedTo(s, t, k, e, j);
      } else {
        assert t[k] == e;
      }
    }
  }

  /** Each element after an insertion is the inserted one or an old one. */
  lemma InsertedFrom(s: seq<Element>, t: seq<Element>, k: int, e: Element, i: int)
    requires 0 <= k <= |s| && t == SkiplistOps.InsertAt(s, k, e) && 0 <= i < |t|
    ensures t[i] == e || t[i] in s
  {
    if i < k { assert t[i] == s[i]; } else if i > k { assert t[i] == s[i - 1]; }
  }

  /** Each old element survives an insertion. */
  lemma InsertedTo(s: seq<Element>, t: seq<Element>, k: int, e: Element, j: int)
    requires 0 <= k <= |s| && t == SkiplistOps.InsertAt(s, k, e) && 0 <= j < |s|
    ensures s[j] in t
  {
    if j < k { assert t[j] == s[j]; } else { assert t[j + 1] == s[j]; }
  }

  /** Deleting the element of a member removes the member from the dict and from the list. */
  lemma DeleteKeeps(dict: map<Bytes, real>, s: seq<Element>, t: seq<Element>, e: Element)
    requires DictMatches(dict, s) && UniqueMembers(s)
    requires exists k :: 0 <= k < |s| && s[k] == e && t == SkiplistOps.DeleteAt(s, k)
    ensures DictMatches(dict - {e.member}, t)
    ensures forall j :: 0 <= j < |t| ==> t[j].member != e.member
  {
    var k :| 0 <= k < |s| && s[k] == e && t == SkiplistOps.DeleteAt(s, k);
    forall j | 0 <= j < |t| ensures t[j].member != e.member {
      if j < k { assert t[j] == s[j]; } else { assert t[j] == s[j + 1]; }
    }
    var dict' := dict - {e.member};
    forall m | m in dict' ensures Element(m, dict'[m]) in t {
      var j :| 0 <= j < |s| && s[j] == Element(m, dict[m]);
      assert j != k;
      if j < k { assert t[j] == s[j]; } else { assert t[j - 1] == s[j]; }
    }
  }

  datatype Added = Added(zset: SortedSet, added: bool)

  /**
    Add(member, score) with the random level of a new node given as `lvl`:
    the dict takes the new score; a new member is inserted, and a member
    whose score changed is removed and re-inserted. Reports whether the
    member is new.
   */
  function Add(ss: SortedSet, member: Bytes, score: real, lvl: int): (r: Added)
    requires Valid(ss) && 1 <= lvl <= Skiplist.MaxLevel
    ensures Valid(r.zset)
    ensures r.added <==> member !in ss.dict
    ensures r.zset.dict == ss.dict[member := score]
    ensures member !in ss.dict ==>
              multiset(r.zset.sl.elems) == multiset(ss.sl.elems) + multiset{Element(member, score)}
    ensures member in ss.dict ==>
              multiset(r.zset.sl.elems) ==
              multiset(ss.sl.elems) - multiset{Element(member, ss.dict[member])} + multiset{Element(member, score)}
  {
    var e := Element(member, score);
    if member in ss.dict then
      var prev := Element(member, ss.dict[member]);
      if score != prev.score then
        DictUnique(ss.dict, ss.sl.elems);
        var d := SkiplistOps.Remove(ss.sl, prev);
        DeleteKeeps(ss.dict, ss.sl.elems, d.list.elems, prev);
        var sl := SkiplistOps.Insert(d.list, e, lvl);
        ReinsertKeeps(ss, d.list, sl, e);
        Added(SortedSet(ss.dict[member := score], sl), false)
      else
        SameScoreKeeps(ss, e);
        Added(ss, false)
    else
      var sl := SkiplistOps.Insert(ss.sl, e, lvl);
      InsertKeeps(ss.dict, ss.sl.elems, sl.elems, e);
      Added(SortedSet(ss.dict[member := score], sl), true)
  }

  /** Re-inserting a member after removing its old element keeps the dict in step. */
  lemma ReinsertKeeps(ss: SortedSet, mid: Skiplist.Skiplist, sl: Skiplist.Skiplist, e: Element)
    requires e.member in ss.dict
    requires DictMatches(ss.dict - {e.member}, mid.elems)
    requires multiset(mid.elems) == multiset(ss.sl.elems) - multiset{Element(e.member, ss.dict[e.member])}
    requires exists k :: 0 <= k <= |mid.elems| && sl.elems == SkiplistOps.InsertAt(mid.elems, k, e)
    requires multiset(sl.elems) == multiset(mid.elems) + multiset{e}
    ensures DictMatches(ss.dict[e.member := e.score], sl.elems)
    ensures multiset(sl.elems) ==
              multiset(ss.sl.elems) - multiset{Element(e.member, ss.dict[e.member])} + multiset{e}
  {
    InsertKeeps(ss.dict - {e.member}, mid.elems, sl.elems, e);
    RemoveThenSet(ss.dict, e.member, e.score);
  }

  lemma RemoveThenSet(d: map<Bytes, real>, m: Bytes, v: real)
    ensures (d - {m})[m := v] == d[m := v]
  {
  }

  /** Re-adding a member with its current score changes nothing. */
  lemma SameScoreKeeps(ss: SortedSet, e: Element)
    requires Valid(ss) && e.member in ss.dict && ss.dict[e.member] == e.score
    ensures ss.dict[e.member := e.score] == ss.dict
    ensures multiset(ss.sl.elems) - multiset{e} + multiset{e} == multiset(ss.sl.elems)
  {
    assert e in ss.sl.elems;
  }

  datatype Removed = Removed(zset: SortedSet, removed: bool)

  /** Remove(member): unlink the member's element and drop it from the dict, if present. */
  function Remove(ss: SortedSet, member: Bytes): (r: Removed)
    requires Valid(ss)
    ensures Valid(r.zset)
    ensures r.removed <==> member in ss.dict
    ensures r.zset.dict == ss.dict - {member}
    ensures r.removed ==>
              multiset(r.zset.sl.elems) == multiset(ss.sl.elems) - multiset{Element(member, ss.dict[member])}
    ensures !r.removed ==> r.zset == ss
  {
    if member in ss.dict then
      var e := Element(member, ss.dict[member]);
      DictUnique(ss.dict, ss.sl.elems);
      var d := SkiplistOps.Remove(ss.sl, e);
      DeleteKeeps(ss.dict, ss.sl.elems, d.list.elems, e);
      Removed(SortedSet(ss.dict - {member}, d.list), true)
    else
      assert ss.dict - {member} == ss.dict;
      Removed(ss, false)
  }

  /**
    The header quirk of getRank: the member "" is present and no node up to
    it reaches the top level, so the search meets the header's member ""
    first and reads rank 0.
   */
  predicate RankShadowed(ss: SortedSet, member: Bytes)
    requires Valid(ss)
  {
    && member == ""
    && exists k :: 0 <= k < |ss.sl.elems| && ss.sl.elems[k].member == member && SkiplistOps.HeaderAtTop(ss.sl, k + 1)
  }

  /**
    GetRank(member, desc): -1 for an absent member; otherwise the 0-based
    rank, counted from the lowest element or, when `desc`, from the highest.
    Under the header quirk the skiplist rank is 0, which reads as -1, or
    as the length when `desc`.
   */
  function GetRank(ss: SortedSet, member: Bytes, desc: bool): (r: int)
    requires Valid(ss)
    ensures member !in ss.dict ==> r == -1
    ensures member in ss.dict && !RankShadowed(ss, member) ==>
              0 <= r < |ss.sl.elems| && Ordered(ss.sl.elems, desc)[r] == Element(member, ss.dict[member])
    ensures member in ss.dict && RankShadowed(ss, member) ==> r == if desc then |ss.sl.elems| else -1
  {
    if member !in ss.dict then -1
    else
      var rank := SkiplistOps.GetRankAsWritten(ss.sl, member, ss.dict[member]);
      var r := if desc then Skiplist.Size(ss.sl) - rank else rank - 1;
      RankPlace(ss, member, desc, rank, r);
      r
  }

  lemma RankPlace(ss: SortedSet, member: Bytes, desc: bool, rank: int, r: int)
    requires Valid(ss) && member in ss.dict
    requires rank == SkiplistOps.GetRankAsWritten(ss.sl, member, ss.dict[member])
    requires r == if desc then |ss.sl.elems| - rank else rank - 1
    ensures !RankShadowed(ss, member) ==>
              0 <= r < |ss.sl.elems| && Ordered(ss.sl.elems, desc)[r] == Element(member, ss.dict[member])
    ensures RankShadowed(ss, member) ==> r == if desc then |ss.sl.elems| else -1
  {
    var k :| 0 <= k < |ss.sl.elems| && ss.sl.elems[k] == Element(member, ss.dict[member]);
    DictUnique(ss.dict, ss.sl.elems);
    SkiplistOps.GetRankAsWrittenFinds(ss.sl, member, ss.dict[member], k);
    assert RankShadowed(ss, member) <==> member == "" && SkiplistOps.HeaderAtTop(ss.sl, k + 1);
    if desc {
      assert Reverse(ss.sl.elems)[|ss.sl.elems| - 1 - k] == ss.sl.elems[k];
    }
  }

  // ---------------------------------------------------------------------
  // ForEach, Range and Count
  // ---------------------------------------------------------------------

  /**
    The walk of ForEach over a sequence in walking order: up to `n`
    elements from index `i`, stopping early at the end (a nil link).
   */
  function Walk(o: seq<Element>, i: int, n: int): (r: seq<Element>)
    requires 0 <= i <= |o|
    ensures r == o[i..Min(i + Max(n, 0), |o|)]
    decreases |o| - i
  {
    if n <= 0 || i == |o| then [] else [o[i]] + Walk(o, i + 1, n - 1)
  }

  /**
    ForEach(start, stop, desc) with a consumer that never stops the walk:
    find the start node through getByRank (or the first node or tail for
    start 0) and visit up to stop - start + 1 nodes along the forward or
    backward links. The backward chain is the base level reversed.
    The source panics on an illegal start or stop.
   */
  function ForEach(ss: SortedSet, start: int, stop: int, desc: bool): (r: seq<Element>)
    requires Valid(ss)
    requires 0 <= start < |ss.sl.elems| && start <= stop <= |ss.sl.elems|
    ensures r == Ordered(ss.sl.elems, desc)[start..Min(stop + 1, |ss.sl.elems|)]
  {
    var i := StartNode(ss, start, desc);
    Walk(Ordered(ss.sl.elems, desc), i, stop - start + 1)
  }

  /**
    The node ForEach starts from, as an index in walking order: the first
    node or the tail for start 0, otherwise the node getByRank finds at
    rank start + 1 (ascending) or size - start (descending).
   */
  function StartNode(ss: SortedSet, start: int, desc: bool): (i: int)
    requires Valid(ss) && 0 <= start < |ss.sl.elems|
    ensures i == start
  {
    var size := Len(ss);
    var rank := if desc then size - start else start + 1;
    var node := if start > 0 then SkiplistOps.GetByRank(ss.sl, rank) else Some(if desc then size else 1);
    match node
    case None => start
    case Some(p) => if desc then size - p else p - 1
  }

  /** A rank counted from the end when negative, as Range reads its indices. */
  function FromEnd(n: int, index: int): int
  {
    if index < 0 then index + n else index
  }

  /**
    `r` is the run of `o` from `lo` holding exactly the ranks from start
    to stop, negative ranks counted from the end.
   */
  predicate RankWindow(o: seq<Element>, r: seq<Element>, lo: int, start: int, stop: int)
  {
    && 0 <= lo && lo + |r| <= |o| && r == o[lo..lo + |r|]
    && forall k :: 0 <= k < |o| ==> (lo <= k < lo + |r| <==> RankSelected(|o|, start, stop, k))
  }

  /** Rank k of n lies between start and stop, negative ranks counted from the end. */
  predicate RankSelected(n: int, start: int, stop: int, k: int)
  {
    FromEnd(n, start) <= k <= FromEnd(n, stop)
  }

  /**
    Range(start, stop, desc): ranks start..stop, negative ranks counted
    from the end, clamped to the set; nil when nothing remains.
   */
  function Range(ss: SortedSet, start: int, stop: int, desc: bool): (r: seq<Element>)
    requires Valid(ss)
    ensures exists lo :: RankWindow(Ordered(ss.sl.elems, desc), r, lo, start, stop)
  {
    var size := Len(ss);
    var s := if start < 0 then start + size else start;
    var t := if stop < 0 then stop + size else stop;
    var s := if s < 0 then 0 else s;
    var t := if t >= size then size - 1 else t;
    RangeClamped(ss, start, stop, desc, s, t)
  }

  /** The tail of Range once the ranks are clamped: nil for an empty window, else the ForEach walk. */
  function RangeClamped(ss: SortedSet, start: int, stop: int, desc: bool, s: int, t: int): (r: seq<Element>)
    requires Valid(ss)
    requires s == Max(FromEnd(|ss.sl.elems|, start), 0) && t == Min(FromEnd(|ss.sl.elems|, stop), |ss.sl.elems| - 1)
    ensures exists lo :: RankWindow(Ordered(ss.sl.elems, desc), r, lo, start, stop)
  {
    var o := Ordered(ss.sl.elems, desc);
    WindowClamped(o, start, stop, s, t);
    if s >= |ss.sl.elems| || s > t then
      assert RankWindow(o, [], 0, start, stop);
      []
    else
      var r := ForEach(ss, s, t, desc);
      assert RankWindow(o, r, s, start, stop);
      r
  }

  /** The clamped ranks bound the window: empty when they cross, else the slice from s to t. */
  lemma WindowClamped(o: seq<Element>, start: int, stop: int, s: int, t: int)
    requires s == Max(FromEnd(|o|, start), 0) && t == Min(FromEnd(|o|, stop), |o| - 1)
    ensures s >= |o| || s > t ==> RankWindow(o, [], 0, start, stop)
    ensures 0 <= s < |o| && s <= t ==> RankWindow(o, o[s..Min(t + 1, |o|)], s, start, stop)
  {
  }

  /** For ranks within the set, the window starts at start and holds stop - start + 1 elements. */
  lemma WindowExact(o: seq<Element>, r: seq<Element>, lo: int, start: int, stop: int)
    requires RankWindow(o, r, lo, start, stop) && 0 <= start <= stop < |o|
    ensures lo == start && |r| == stop - start + 1
  {
    assert RankSelected(|o|, start, stop, start) && RankSelected(|o|, start, stop, stop);
    if |r| > 0 {
      assert RankSelected(|o|, start, stop, lo) && RankSelected(|o|, start, stop, lo + |r| - 1);
    }
  }

  /** The whole range, 0 to -1, is every element in walking order. */
  lemma RangeAll(ss: SortedSet, desc: bool)
    requires Valid(ss)
    ensures Range(ss, 0, -1, desc) == Ordered(ss.sl.elems, desc)
  {
    var r := Range(ss, 0, -1, desc);
    var o := Ordered(ss.sl.elems, desc);
    var lo :| RankWindow(o, r, lo, 0, -1);
    if |o| > 0 {
      WindowExact(o, r, lo, 0, |o| - 1);
    }
  }

  /** Ranks within the set select exactly the slice from start to stop in walking order. */
  lemma RangeExact(ss: SortedSet, start: int, stop: int, desc: bool)
    requires Valid(ss) && 0 <= start <= stop < |ss.sl.elems|
    ensures Range(ss, start, stop, desc) == Ordered(ss.sl.elems, desc)[start..stop + 1]
  {
    var r := Range(ss, start, stop, desc);
    var lo :| RankWindow(Ordered(ss.sl.elems, desc), r, lo, start, stop);
    WindowExact(Ordered(ss.sl.elems, desc), r, lo, start, stop);
  }

  /** The elements whose score lies within the borders (`keep`) or outside them (`!keep`), in order. */
  function Select(s: seq<Element>, min: ScoreBorder, max: ScoreBorder, keep: bool): seq<Element>
  {
    if |s| == 0 then []
    else (if InRange(min, max, s[0].score) == keep then [s[0]] else []) + Select(s[1..], min, max, keep)
  }

  /**
    Count's consumer folded over the ascending walk: skip elements below
    min, stop at the first element above max, count the rest.
   */
  function CountScan(s: seq<Element>, min: ScoreBorder, max: ScoreBorder): nat
  {
    if |s| == 0 then 0
    else if !Less(min, s[0].score) then CountScan(s[1..], min, max)
    else if !Greater(max, s[0].score) then 0
    else 1 + CountScan(s[1..], min, max)
  }

  /** On an ascending sequence the early stop loses nothing: the scan counts every element in range. */
  lemma {:induction false} CountScanSorted(s: seq<Element>, min: ScoreBorder, max: ScoreBorder)
    requires Sorted(s)
    ensures CountScan(s, min, max) == |Select(s, min, max, true)|
    decreases |s|
  {
    if |s| > 0 {
      assert Sorted(s[1..]) by {
        forall i, j | 0 <= i < j < |s| - 1 ensures ElemLess(s[1..][i], s[1..][j]) {
          assert ElemLess(s[i + 1], s[j + 1]);
        }
      }
      if Less(min, s[0].score) && !Greater(max, s[0].score) {
        forall k | 0 <= k < |s| - 1 ensures !InRange(min, max, s[1..][k].score) {
          assert ElemLess(s[0], s[k + 1]);
          BorderMonotone(max, s[0].score, s[k + 1].score);
        }
        SelectNone(s[1..], min, max, true);
      } else {
        CountScanSorted(s[1..], min, max);
      }
    }
  }

  lemma {:induction false} SelectNone(s: seq<Element>, min: ScoreBorder, max: ScoreBorder, keep: bool)
    requires forall k :: 0 <= k < |s| ==> InRange(min, max, s[k].score) != keep
    ensures Select(s, min, max, keep) == []
    decreases |s|
  {
    if |s| > 0 {
      assert forall k :: 0 <= k < |s| - 1 ==> s[1..][k] == s[k + 1];
      SelectNone(s[1..], min, max, keep);
    }
  }

  lemma {:induction false} SelectAll(s: seq<Element>, min: ScoreBorder, max: ScoreBorder, keep: bool)
    requires forall k :: 0 <= k < |s| ==> InRange(min, max, s[k].score) == keep
    ensures Select(s, min, max, keep) == s
    decreases |s|
  {
    if |s| > 0 {
      assert forall k :: 0 <= k < |s| - 1 ==> s[1..][k] == s[k + 1];
      SelectAll(s[1..], min, max, keep);
      assert s == [s[0]] + s[1..];
    }
  }

  lemma {:induction false} SelectAppend(a: seq<Element>, b: seq<Element>, min: ScoreBorder, max: ScoreBorder, keep: bool)
    ensures Select(a + b, min, max, keep) == Select(a, min, max, keep) + Select(b, min, max, keep)
    decreases |a|
  {
    if |a| > 0 {
      assert (a + b)[1..] == a[1..] + b;
      SelectAppend(a[1..], b, min, max, keep);
    } else {
      assert a + b == b;
    }
  }

  /**
    Count(min, max): the number of elements with a score within the
    borders, by a walk over the whole set. The walk's ForEach(0, Len)
    panics on an empty set.
   */
  function Count(ss: SortedSet, min: ScoreBorder, max: ScoreBorder): (r: int)
    requires Valid(ss) && |ss.sl.elems| > 0
    ensures r == |Select(ss.sl.elems, min, max, true)|
  {
    var walk := ForEach(ss, 0, Len(ss), false);
    assert walk == ss.sl.elems;
    CountScanSorted(ss.sl.elems, min, max);
    CountScan(walk, min, max)
  }

  // ---------------------------------------------------------------------
  // ForEachByScore and RangeByScore
  // ---------------------------------------------------------------------

  /** Exactly the elements at indices a..b-1 of `o` lie within the borders. */
  predicate Run(o: seq<Element>, min: ScoreBorder, max: ScoreBorder, a: int, b: int)
  {
    && 0 <= a <= b <= |o|
    && forall k :: 0 <= k < |o| ==> (InRange(min, max, o[k].score) <==> a <= k < b)
  }

  /** The elements within the borders are contiguous. */
  predicate Convex(o: seq<Element>, min: ScoreBorder, max: ScoreBorder)
  {
    forall i, j, k :: 0 <= i <= j <= k < |o| && InRange(min, max, o[i].score) && InRange(min, max, o[k].score) ==>
      InRange(min, max, o[j].score)
  }

  lemma SortedConvex(s: seq<Element>, min: ScoreBorder, max: ScoreBorder)
    requires Sorted(s)
    ensures Convex(s, min, max) && Convex(Reverse(s), min, max)
  {
    forall i, j, k | 0 <= i <= j <= k < |s| && InRange(min, max, s[i].score) && InRange(min, max, s[k].score)
      ensures InRange(min, max, s[j].score)
    {
      SkiplistOps.ScoresAscend(s, i, j);
      SkiplistOps.ScoresAscend(s, j, k);
      BorderMonotone(min, s[i].score, s[j].score);
      BorderMonotone(max, s[j].score, s[k].score);
    }
    var r := Reverse(s);
    var n := |s|;
    forall i, j, k | 0 <= i <= j <= k < n && InRange(min, max, r[i].score) && InRange(min, max, r[k].score)
      ensures InRange(min, max, r[j].score)
    {
      assert r[i] == s[n - 1 - i] && r[j] == s[n - 1 - j] && r[k] == s[n - 1 - k];
    }
  }

  /** The first index from j on whose element lies within the borders. */
  function FirstIn(o: seq<Element>, min: ScoreBorder, max: ScoreBorder, j: int): (r: Option<int>)
    requires 0 <= j <= |o|
    ensures r.Some? ==> j <= r.value < |o| && InRange(min, max, o[r.value].score) &&
                        forall k :: j <= k < r.value ==> !InRange(min, max, o[k].score)
    ensures r.None? ==> forall k :: j <= k < |o| ==> !InRange(min, max, o[k].score)
    decreases |o| - j
  {
    if j == |o| then None
    else if InRange(min, max, o[j].score) then Some(j)
    else FirstIn(o, min, max, j + 1)
  }

  /** The first index from j on whose element lies outside the borders, or |o|. */
  function FirstOut(o: seq<Element>, min: ScoreBorder, max: ScoreBorder, j: int): (r: int)
    requires 0 <= j <= |o|
    ensures j <= r <= |o| && (r < |o| ==> !InRange(min, max, o[r].score))
    ensures forall k :: j <= k < r ==> InRange(min, max, o[k].score)
    decreases |o| - j
  {
    if j == |o| || !InRange(min, max, o[j].score) then j
    else FirstOut(o, min, max, j + 1)
  }

  /** On a contiguous selection, the run starts at the first element within the borders. */
  lemma RunFrom(o: seq<Element>, min: ScoreBorder, max: ScoreBorder, a: int) returns (b: int)
    requires Convex(o, min, max) && FirstIn(o, min, max, 0) == Some(a)
    ensures a < b && Run(o, min, max, a, b)
  {
    b := FirstOut(o, min, max, a);
    forall k | b <= k < |o| ensures !InRange(min, max, o[k].score) {
      assert InRange(min, max, o[a].score) && !InRange(min, max, o[b].score);
      assert a <= b <= k;
    }
  }

  lemma SelectRun(o: seq<Element>, min: ScoreBorder, max: ScoreBorder, a: int, b: int)
    requires Run(o, min, max, a, b)
    ensures Select(o, min, max, true) == o[a..b]
  {
    assert o == o[..a] + o[a..b] + o[b..];
    SelectAppend(o[..a] + o[a..b], o[b..], min, max, true);
    SelectAppend(o[..a], o[a..b], min, max, true);
    SelectNone(o[..a], min, max, true);
    SelectAll(o[a..b], min, max, true);
    SelectNone(o[b..], min, max, true);
  }

  /** The first `limit` elements of `s`, or all of them when limit is negative or large. */
  function Take(s: seq<Element>, limit: int): (r: seq<Element>)
    ensures limit >= 0 ==> |r| == Min(limit, |s|)
    ensures limit < 0 ==> r == s
    ensures r == s[..|r|]
  {
    if limit < 0 || limit >= |s| then s else s[..limit]
  }

  /** ForEachByScore's skip loop: advance `offset` nodes, or fall off the end. */
  function Skip(o: seq<Element>, i: int, offset: int): (r: Option<int>)
    requires 0 <= i < |o|
    ensures r == if i + Max(offset, 0) < |o| then Some(i + Max(offset, 0)) else None
    decreases |o| - i
  {
    if offset <= 0 then Some(i)
    else if i + 1 == |o| then None
    else Skip(o, i + 1, offset - 1)
  }

  /**
    ForEachByScore's main loop with a consumer that never stops it: take
    the current node while fewer than `limit` are taken (any number when
    limit is negative), and go on only while the next node exists and lies
    within the borders. The current node itself is not tested.
   */
  function Collect(o: seq<Element>, i: int, count: int, limit: int, min: ScoreBorder, max: ScoreBorder): seq<Element>
    requires 0 <= i < |o|
    decreases |o| - i
  {
    if !(count < limit || limit < 0) then []
    else if i + 1 == |o| || !InRange(min, max, o[i + 1].score) then [o[i]]
    else [o[i]] + Collect(o, i + 1, count + 1, limit, min, max)
  }

  /** Inside the run the loop takes up to the limit or the run's end; past it, the one node it starts on. */
  lemma {:induction false} CollectRun(o: seq<Element>, min: ScoreBorder, max: ScoreBorder, a: int, b: int,
                                      j: int, count: int, limit: int)
    requires Run(o, min, max, a, b) && a <= j < |o| && 0 <= count && (count < limit || limit < 0)
    ensures j < b ==> Collect(o, j, count, limit, min, max) == o[j..if limit < 0 then b else Min(b, j + limit - count)]
    ensures j >= b ==> Collect(o, j, count, limit, min, max) == [o[j]]
    decreases |o| - j
  {
    var e := if limit < 0 then b else Min(b, j + limit - count);
    if j + 1 < |o| && InRange(min, max, o[j + 1].score) {
      assert j + 1 < b;
      if count + 1 < limit || limit < 0 {
        CollectRun(o, min, max, a, b, j + 1, count + 1, limit);
        assert o[j..e] == [o[j]] + o[j + 1..e];
      } else {
        assert e == j + 1;
      }
    } else if j < b {
      assert j + 1 == b && e == j + 1;
    }
  }

  /** The stray element past the run that ForEachByScore returns when `offset` skips the whole run. */
  function Stray(o: seq<Element>, min: ScoreBorder, max: ScoreBorder, offset: int): (r: seq<Element>)
    ensures |r| <= 1
  {
    match FirstIn(o, min, max, 0)
    case None => []
    case Some(a) => if 0 <= a + offset < |o| then [o[a + offset]] else []
  }

  /**
    ForEachByScore(min, max, offset, limit, desc) with a consumer that
    never stops it: start at the first (or, when desc, the last) element
    within the borders, skip `offset` nodes, then run the main loop. Borders
    that hasInRange's value test rules out (SkiplistOps.EmptyRangeAsWritten)
    visit nothing.
   */
  function ForEachByScore(ss: SortedSet, min: ScoreBorder, max: ScoreBorder, offset: int, limit: int, desc: bool): (r: seq<Element>)
    requires Valid(ss)
    ensures SkiplistOps.EmptyRangeAsWritten(min, max) ==> r == []
    ensures var f := Select(Ordered(ss.sl.elems, desc), min, max, true);
            !SkiplistOps.EmptyRangeAsWritten(min, max) && limit != 0 && Max(offset, 0) < |f| ==>
            r == Take(f[Max(offset, 0)..], limit)
    ensures var f := Select(Ordered(ss.sl.elems, desc), min, max, true);
            !SkiplistOps.EmptyRangeAsWritten(min, max) && limit != 0 && Max(offset, 0) >= |f| ==>
            r == Stray(Ordered(ss.sl.elems, desc), min, max, Max(offset, 0))
    ensures limit == 0 ==> r == []
  {
    match StartByScore(ss, min, max, desc)
    case None => []
    case Some(i) => ScoreWalk(Ordered(ss.sl.elems, desc), min, max, i, offset, limit)
  }

  /**
    The walk's starting node, as an index into the walking order: the first
    (or, when desc, the last) element within the borders, and none for
    borders that hasInRange's value test rules out.
   */
  function StartByScore(ss: SortedSet, min: ScoreBorder, max: ScoreBorder, desc: bool): (r: Option<int>)
    requires Valid(ss)
    ensures Convex(Ordered(ss.sl.elems, desc), min, max)
    ensures SkiplistOps.EmptyRangeAsWritten(min, max) ==> r.None?
    ensures var o := Ordered(ss.sl.elems, desc);
            !SkiplistOps.EmptyRangeAsWritten(min, max) ==>
            FirstIn(o, min, max, 0) == r && (r.None? ==> Select(o, min, max, true) == [])
  {
    if desc then StartDesc(ss, min, max) else StartAsc(ss, min, max)
  }

  /** The ascending walk starts at the first node within the borders. */
  function StartAsc(ss: SortedSet, min: ScoreBorder, max: ScoreBorder): (r: Option<int>)
    requires Valid(ss)
    ensures Convex(Ordered(ss.sl.elems, false), min, max)
    ensures SkiplistOps.EmptyRangeAsWritten(min, max) ==> r.None?
    ensures var o := Ordered(ss.sl.elems, false);
            !SkiplistOps.EmptyRangeAsWritten(min, max) ==>
            FirstIn(o, min, max, 0) == r && (r.None? ==> Select(o, min, max, true) == [])
  {
    var g := SkiplistOps.GetFirstInScoreRange(ss.sl, min, max);
    var r := if g.None? then None else Some(g.value - 1);
    StartFacts(ss, min, max, false, g, r);
    r
  }

  /** The descending walk starts at the last node within the borders. */
  function StartDesc(ss: SortedSet, min: ScoreBorder, max: ScoreBorder): (r: Option<int>)
    requires Valid(ss)
    ensures Convex(Ordered(ss.sl.elems, true), min, max)
    ensures SkiplistOps.EmptyRangeAsWritten(min, max) ==> r.None?
    ensures var o := Ordered(ss.sl.elems, true);
            !SkiplistOps.EmptyRangeAsWritten(min, max) ==>
            FirstIn(o, min, max, 0) == r && (r.None? ==> Select(o, min, max, true) == [])
  {
    var g := SkiplistOps.GetLastInScoreRange(ss.sl, min, max);
    var r := if g.None? then None else Some(|ss.sl.elems| - g.value);
    StartFacts(ss, min, max, true, g, r);
    r
  }

  /** What the skiplist lookup g tells about the walk's start r, in either order. */
  lemma StartFacts(ss: SortedSet, min: ScoreBorder, max: ScoreBorder, desc: bool, g: Option<int>, r: Option<int>)
    requires Valid(ss)
    requires g == if desc then SkiplistOps.GetLastInScoreRange(ss.sl, min, max)
                  else SkiplistOps.GetFirstInScoreRange(ss.sl, min, max)
    requires r == if g.None? then None else if desc then Some(|ss.sl.elems| - g.value) else Some(g.value - 1)
    ensures Convex(Ordered(ss.sl.elems, desc), min, max)
    ensures SkiplistOps.EmptyRangeAsWritten(min, max) ==> r.None?
    ensures var o := Ordered(ss.sl.elems, desc);
            !SkiplistOps.EmptyRangeAsWritten(min, max) ==>
            FirstIn(o, min, max, 0) == r && (r.None? ==> Select(o, min, max, true) == [])
  {
    if g.None? {
      if SkiplistOps.EmptyRangeAsWritten(min, max) {
        SortedConvex(ss.sl.elems, min, max);
      } else {
        NoneWithin(ss, min, max, desc);
      }
    } else if desc {
      StartWithin(ss, min, max, true, g.value, |ss.sl.elems| - g.value);
    } else {
      StartWithin(ss, min, max, false, g.value, g.value - 1);
    }
  }

  /** From the first element in range, the skip loop and then the main loop. */
  function ScoreWalk(o: seq<Element>, min: ScoreBorder, max: ScoreBorder, a: int, offset: int, limit: int): (r: seq<Element>)
    requires 0 <= a < |o| && Convex(o, min, max) && FirstIn(o, min, max, 0) == Some(a)
    ensures var f := Select(o, min, max, true);
            limit != 0 && Max(offset, 0) < |f| ==> r == Take(f[Max(offset, 0)..], limit)
    ensures var f := Select(o, min, max, true);
            limit != 0 && Max(offset, 0) >= |f| ==> r == Stray(o, min, max, Max(offset, 0))
    ensures limit == 0 ==> r == []
  {
    var r := match Skip(o, a, offset)
             case None => []
             case Some(j) => Collect(o, j, 0, limit, min, max);
    WalkFacts(o, min, max, a, offset, limit, r);
    r
  }

  /** No element within the borders: the selection is empty. */
  lemma NoneWithin(ss: SortedSet, min: ScoreBorder, max: ScoreBorder, desc: bool)
    requires Valid(ss)
    requires !SkiplistOps.SomeInRange(ss.sl, min, max)
    ensures Select(Ordered(ss.sl.elems, desc), min, max, true) == []
    ensures FirstIn(Ordered(ss.sl.elems, desc), min, max, 0) == None
    ensures Convex(Ordered(ss.sl.elems, desc), min, max)
  {
    var o := Ordered(ss.sl.elems, desc);
    var n := |ss.sl.elems|;
    SortedConvex(ss.sl.elems, min, max);
    forall k | 0 <= k < n ensures !InRange(min, max, o[k].score) {
      if desc { assert o[k] == ss.sl.elems[n - 1 - k]; }
    }
    SelectNone(o, min, max, true);
  }

  /** The node the search finds is the first within the borders in walking order. */
  lemma StartWithin(ss: SortedSet, min: ScoreBorder, max: ScoreBorder, desc: bool, p: int, i: int)
    requires Valid(ss) && 1 <= p <= |ss.sl.elems|
    requires InRange(min, max, ss.sl.elems[p - 1].score)
    requires !desc ==> i == p - 1 && forall k :: 0 <= k < p - 1 ==> !InRange(min, max, ss.sl.elems[k].score)
    requires desc ==> i == |ss.sl.elems| - p && forall k :: p <= k < |ss.sl.elems| ==> !InRange(min, max, ss.sl.elems[k].score)
    ensures 0 <= i < |ss.sl.elems|
    ensures Convex(Ordered(ss.sl.elems, desc), min, max)
    ensures FirstIn(Ordered(ss.sl.elems, desc), min, max, 0) == Some(i)
  {
    var o := Ordered(ss.sl.elems, desc);
    var n := |ss.sl.elems|;
    SortedConvex(ss.sl.elems, min, max);
    assert InRange(min, max, o[i].score);
    forall k | 0 <= k < i ensures !InRange(min, max, o[k].score) {
      if desc { assert o[k] == ss.sl.elems[n - 1 - k]; }
    }
    FirstInIs(o, min, max, i);
  }

  lemma FirstInIs(o: seq<Element>, min: ScoreBorder, max: ScoreBorder, i: int)
    requires 0 <= i < |o| && InRange(min, max, o[i].score)
    requires forall k :: 0 <= k < i ==> !InRange(min, max, o[k].score)
    ensures FirstIn(o, min, max, 0) == Some(i)
  {
    var r := FirstIn(o, min, max, 0);
    assert InRange(min, max, o[i].score);
  }

  /** What the skip loop and the main loop return from the start of the run. */
  lemma WalkFacts(o: seq<Element>, min: ScoreBorder, max: ScoreBorder, a: int, offset: int, limit: int, r: seq<Element>)
    requires 0 <= a < |o| && Convex(o, min, max) && FirstIn(o, min, max, 0) == Some(a)
    requires r == match Skip(o, a, offset)
                  case None => []
                  case Some(j) => Collect(o, j, 0, limit, min, max)
    ensures var f := Select(o, min, max, true);
            limit != 0 && Max(offset, 0) < |f| ==> r == Take(f[Max(offset, 0)..], limit)
    ensures var f := Select(o, min, max, true);
            limit != 0 && Max(offset, 0) >= |f| ==> r == Stray(o, min, max, Max(offset, 0))
    ensures limit == 0 ==> r == []
  {
    var b := RunFrom(o, min, max, a);
    SelectRun(o, min, max, a, b);
    var off := Max(offset, 0);
    if limit == 0 {
    } else if a + off >= |o| {
      assert r == [];
    } else if a + off < b {
      WalkInside(o, min, max, a, b, off, limit);
    } else {
      WalkPast(o, min, max, a, b, off, limit);
    }
  }

  /** Skipping past the run, the main loop returns the one node it lands on. */
  lemma WalkPast(o: seq<Element>, min: ScoreBorder, max: ScoreBorder, a: int, b: int, off: int, limit: int)
    requires Run(o, min, max, a, b) && 0 <= off && b <= a + off < |o| && limit != 0
    requires FirstIn(o, min, max, 0) == Some(a)
    ensures Collect(o, a + off, 0, limit, min, max) == Stray(o, min, max, off)
  {
    CollectRun(o, min, max, a, b, a + off, 0, limit);
  }

  lemma WalkInside(o: seq<Element>, min: ScoreBorder, max: ScoreBorder, a: int, b: int, off: int, limit: int)
    requires Run(o, min, max, a, b) && 0 <= off && a + off < b && limit != 0
    ensures Collect(o, a + off, 0, limit, min, max) == Take(o[a..b][off..], limit)
  {
    CollectRun(o, min, max, a, b, a + off, 0, limit);
    var run := o[a..b][off..];
    assert run == o[a + off..b];
    if 0 <= limit < |run| {
      assert run[..limit] == o[a + off..a + off + limit];
    }
  }

  /**
    RangeByScore(min, max, offset, limit, desc): empty for a zero limit or
    a negative offset; otherwise the elements ForEachByScore visits, which
    is nothing for borders that hasInRange's value test rules out.
   */
  function RangeByScore(ss: SortedSet, min: ScoreBorder, max: ScoreBorder, offset: int, limit: int, desc: bool): (r: seq<Element>)
    requires Valid(ss)
    ensures limit == 0 || offset < 0 ==> r == []
    ensures SkiplistOps.EmptyRangeAsWritten(min, max) ==> r == []
    ensures limit > 0 ==> |r| <= limit
    ensures var f := Select(Ordered(ss.sl.elems, desc), min, max, true);
            !SkiplistOps.EmptyRangeAsWritten(min, max) && limit != 0 && 0 <= offset < |f| ==> r == Take(f[offset..], limit)
    ensures var f := Select(Ordered(ss.sl.elems, desc), min, max, true);
            !SkiplistOps.EmptyRangeAsWritten(min, max) && limit != 0 && offset >= |f| ==>
            r == Stray(Ordered(ss.sl.elems, desc), min, max, offset)
  {
    if limit == 0 || offset < 0 then []
    else
      var r := ForEachByScore(ss, min, max, offset, limit, desc);
      if SkiplistOps.EmptyRangeAsWritten(min, max) then r
      else
        TakeOrStray(Select(Ordered(ss.sl.elems, desc), min, max, true), r, Stray(Ordered(ss.sl.elems, desc), min, max, offset), offset, limit);
        r
  }

  /**
    With offset 0 and a negative limit (the comment on ForEachByScore's
    `limit` promises "all elements from the offset") the walk returns exactly
    the members within the borders, in walk order, unless hasInRange's value
    test rules the borders out.
   */
  lemma RangeByScoreAll(ss: SortedSet, min: ScoreBorder, max: ScoreBorder, desc: bool)
    requires Valid(ss)
    ensures !SkiplistOps.EmptyRangeAsWritten(min, max) ==>
            RangeByScore(ss, min, max, 0, -1, desc) == Select(Ordered(ss.sl.elems, desc), min, max, true)
    ensures SkiplistOps.EmptyRangeAsWritten(min, max) ==> RangeByScore(ss, min, max, 0, -1, desc) == []
  {
    var o := Ordered(ss.sl.elems, desc);
    var f := Select(o, min, max, true);
    if |f| == 0 {
      SelectEmptyNoneIn(o, min, max);
    } else {
      assert f[0..] == f;
    }
  }

  /** Nothing selected means no element lies within the borders. */
  lemma {:induction false} SelectEmptyNoneIn(s: seq<Element>, min: ScoreBorder, max: ScoreBorder)
    requires Select(s, min, max, true) == []
    ensures forall k :: 0 <= k < |s| ==> !InRange(min, max, s[k].score)
    decreases |s|
  {
    if |s| > 0 {
      SelectEmptyNoneIn(s[1..], min, max);
      assert forall k :: 1 <= k < |s| ==> s[k] == s[1..][k - 1];
    }
  }

  /** The walk's result is a window of at most `limit` elements or the single stray element. */
  lemma TakeOrStray(f: seq<Element>, r: seq<Element>, stray: seq<Element>, offset: int, limit: int)
    requires 0 <= offset && limit != 0 && |stray| <= 1
    requires offset < |f| ==> r == Take(f[offset..], limit)
    requires offset >= |f| ==> r == stray
    ensures limit > 0 ==> |r| <= limit
  {
  }

  /**
    With an offset past every element in range, the walk still returns the
    node `offset` places after the first element in range, though it lies
    outside the borders: [0, 2] with offset 1 over scores 1 and 5 gives 5.
   */
  lemma RangeByScoreStray(ss: SortedSet)
    requires Valid(ss) && ss.sl.elems == [Element("a", 1.0), Element("b", 5.0)]
    ensures RangeByScore(ss, ScoreBorder(0, 0.0, false), ScoreBorder(0, 2.0, false), 1, 1, false) == [Element("b", 5.0)]
    ensures !InRange(ScoreBorder(0, 0.0, false), ScoreBorder(0, 2.0, false), 5.0)
  {
    var o := ss.sl.elems;
    var min := ScoreBorder(0, 0.0, false);
    var max := ScoreBorder(0, 2.0, false);
    assert InRange(min, max, o[0].score) && !InRange(min, max, o[1].score);
    assert o[1..][1..] == [];
    assert Select(o[1..], min, max, true) == [];
    assert Select(o, min, max, true) == [Element("a", 1.0)];
    FirstInIs(o, min, max, 0);
  }

  /**
    Borders that hasInRange's value test rules out visit nothing even when
    a member lies within them: `5 +inf` over a member scored 10 (the
    infinite border's value is 0, below 5).
   */
  lemma RangeByScoreBorderQuirk(ss: SortedSet)
    requires Valid(ss) && ss.sl.elems == [Element("a", 10.0)]
    ensures Select(ss.sl.elems, ScoreBorder(0, 5.0, false), PositiveInfBorder, true) == [Element("a", 10.0)]
    ensures RangeByScore(ss, ScoreBorder(0, 5.0, false), PositiveInfBorder, 0, 10, false) == []
  {
    var o := ss.sl.elems;
    assert InRange(ScoreBorder(0, 5.0, false), PositiveInfBorder, o[0].score);
    assert o[1..] == [];
  }

  // ---------------------------------------------------------------------
  // RemoveByScore and RemoveByRank
  // ---------------------------------------------------------------------

  datatype Trimmed = Trimmed(zset: SortedSet, count: int)

  /** The loop deleting each removed element's member from the dict. */
  function DeleteMembers(dict: map<Bytes, real>, s: seq<Element>): (r: map<Bytes, real>)
    ensures r == dict - MemberSet(s)
    decreases |s|
  {
    if |s| == 0 then dict
    else
      var r := DeleteMembers(dict - {s[0].member}, s[1..]);
      assert dict - {s[0].member} - MemberSet(s[1..]) == dict - MemberSet(s);
      r
  }

  /** Cutting a block out of a list whose dict mirrors it leaves a dict mirroring the rest. */
  lemma SplitKeeps(dict: map<Bytes, real>, s: seq<Element>, l: seq<Element>, cut: seq<Element>, k: int)
    requires DictMatches(dict, s) && UniqueMembers(s)
    requires 0 <= k <= |l| && s == l[..k] + cut + l[k..]
    ensures DictMatches(dict - MemberSet(cut), l)
  {
    forall i | 0 <= i < |l| ensures l[i].member !in MemberSet(cut) && l[i].member in dict && dict[l[i].member] == l[i].score {
      SplitKeptMember(s, l, cut, k, i);
    }
    var dict' := dict - MemberSet(cut);
    forall m | m in dict' ensures Element(m, dict'[m]) in l {
      var q :| 0 <= q < |s| && s[q] == Element(m, dict[m]);
      SplitPlace(s, l, cut, k, q);
    }
  }

  /** An element left in place keeps a member that no cut element carries. */
  lemma SplitKeptMember(s: seq<Element>, l: seq<Element>, cut: seq<Element>, k: int, i: int)
    requires UniqueMembers(s) && 0 <= k <= |l| && s == l[..k] + cut + l[k..] && 0 <= i < |l|
    ensures l[i] in s && l[i].member !in MemberSet(cut)
  {
    var q := if i < k then i else i + |cut|;
    assert s[q] == l[i];
    forall j | 0 <= j < |cut| ensures cut[j].member != l[i].member {
      assert s[k + j] == cut[j];
    }
    MemberSetMeaning(cut, l[i].member);
  }

  /** An element of the whole list is either cut, and its member is in the cut, or left in place. */
  lemma SplitPlace(s: seq<Element>, l: seq<Element>, cut: seq<Element>, k: int, q: int)
    requires 0 <= k <= |l| && s == l[..k] + cut + l[k..] && 0 <= q < |s|
    ensures s[q] in cut ==> s[q].member in MemberSet(cut)
    ensures s[q] in l || s[q].member in MemberSet(cut)
  {
    MemberSetMeaning(cut, s[q].member);
    if k <= q < k + |cut| {
      assert cut[q - k] == s[q];
    } else if q < k {
      assert l[q] == s[q];
    } else {
      assert l[q - |cut|] == s[q];
    }
    if s[q] in cut {
      var j :| 0 <= j < |cut| && cut[j] == s[q];
    }
  }

  /** Selecting from three pieces selects from each. */
  lemma SelectThree(a: seq<Element>, b: seq<Element>, c: seq<Element>, min: ScoreBorder, max: ScoreBorder, keep: bool)
    ensures Select(a + b + c, min, max, keep)
         == Select(a, min, max, keep) + Select(b, min, max, keep) + Select(c, min, max, keep)
  {
    SelectAppend(a + b, c, min, max, keep);
    SelectAppend(a, b, min, max, keep);
  }

  /** Selecting the elements in range from a block in range between two runs out of range. */
  lemma SelectBlockIn(a: seq<Element>, cut: seq<Element>, c: seq<Element>, min: ScoreBorder, max: ScoreBorder)
    requires forall m :: 0 <= m < |cut| ==> InRange(min, max, cut[m].score)
    requires forall m :: 0 <= m < |a| ==> !InRange(min, max, a[m].score)
    requires forall m :: 0 <= m < |c| ==> !InRange(min, max, c[m].score)
    ensures Select(a + cut + c, min, max, true) == cut
  {
    SelectThree(a, cut, c, min, max, true);
    SelectNone(a, min, max, true);
    SelectNone(c, min, max, true);
    SelectAll(cut, min, max, true);
    assert [] + cut + [] == cut;
  }

  /** Selecting the elements out of range from the same list. */
  lemma SelectBlockOut(a: seq<Element>, cut: seq<Element>, c: seq<Element>, min: ScoreBorder, max: ScoreBorder)
    requires forall m :: 0 <= m < |cut| ==> InRange(min, max, cut[m].score)
    requires forall m :: 0 <= m < |a| ==> !InRange(min, max, a[m].score)
    requires forall m :: 0 <= m < |c| ==> !InRange(min, max, c[m].score)
    ensures Select(a + cut + c, min, max, false) == a + c
  {
    var ac := a + cut;
    SelectAppend(ac, c, min, max, false);
    SelectAppend(a, cut, min, max, false);
    SelectAll(a, min, max, false);
    SelectNone(cut, min, max, false);
    assert Select(ac, min, max, false) == a;
    SelectAll(c, min, max, false);
  }

  /** Selecting from a list with a block in range cut into a list out of range. */
  lemma SelectSplit(l: seq<Element>, cut: seq<Element>, k: int, min: ScoreBorder, max: ScoreBorder)
    requires forall m :: 0 <= m < |cut| ==> InRange(min, max, cut[m].score)
    requires forall m :: 0 <= m < |l| ==> !InRange(min, max, l[m].score)
    requires 0 <= k <= |l|
    ensures Select(l[..k] + cut + l[k..], min, max, true) == cut
    ensures Select(l[..k] + cut + l[k..], min, max, false) == l
  {
    var a, c := l[..k], l[k..];
    assert forall m :: 0 <= m < |a| ==> a[m] == l[m];
    assert forall m :: 0 <= m < |c| ==> c[m] == l[k + m];
    SelectBlockIn(a, cut, c, min, max);
    SelectBlockOut(a, cut, c, min, max);
    assert a + c == l;
  }

  /** What removing the block of elements in range does to the elements and the dict. */
  lemma ByScoreKeeps(ss: SortedSet, min: ScoreBorder, max: ScoreBorder, l: seq<Element>, cut: seq<Element>, k: int)
    requires Valid(ss)
    requires forall m :: 0 <= m < |cut| ==> InRange(min, max, cut[m].score)
    requires forall m :: 0 <= m < |l| ==> !InRange(min, max, l[m].score)
    requires 0 <= k <= |l| && ss.sl.elems == l[..k] + cut + l[k..]
    ensures Select(ss.sl.elems, min, max, true) == cut
    ensures Select(ss.sl.elems, min, max, false) == l
    ensures DictMatches(ss.dict - MemberSet(cut), l)
    ensures ss.dict - MemberSet(cut) == map m | m in ss.dict && !InRange(min, max, ss.dict[m]) :: ss.dict[m]
  {
    var s := ss.sl.elems;
    DictUnique(ss.dict, s);
    SplitKeeps(ss.dict, s, l, cut, k);
    SelectSplit(l, cut, k, min, max);
    forall m | m in ss.dict ensures m in MemberSet(cut) <==> InRange(min, max, ss.dict[m]) {
      CutMember(ss.dict, s, l, cut, k, min, max, m);
    }
  }

  /** A member is cut exactly when its score is in range. */
  lemma CutMember(dict: map<Bytes, real>, s: seq<Element>, l: seq<Element>, cut: seq<Element>, k: int,
                  min: ScoreBorder, max: ScoreBorder, m: Bytes)
    requires DictMatches(dict, s) && m in dict
    requires forall j :: 0 <= j < |cut| ==> InRange(min, max, cut[j].score)
    requires forall j :: 0 <= j < |l| ==> !InRange(min, max, l[j].score)
    requires 0 <= k <= |l| && s == l[..k] + cut + l[k..]
    ensures m in MemberSet(cut) <==> InRange(min, max, dict[m])
  {
    MemberSetMeaning(cut, m);
    if m in MemberSet(cut) {
      var j :| 0 <= j < |cut| && cut[j].member == m;
      assert s[k + j] == cut[j];
    }
    var q :| 0 <= q < |s| && s[q] == Element(m, dict[m]);
    SplitPlace(s, l, cut, k, q);
  }

  /**
    RemoveByScore(min, max): remove every element within the borders from
    the skiplist and its member from the dict; report how many went.
   */
  function RemoveByScore(ss: SortedSet, min: ScoreBorder, max: ScoreBorder): (r: Trimmed)
    requires Valid(ss)
    ensures Valid(r.zset)
    ensures r.count == |Select(ss.sl.elems, min, max, true)|
    ensures r.zset.sl.elems == Select(ss.sl.elems, min, max, false)
    ensures r.zset.dict == map m | m in ss.dict && !InRange(min, max, ss.dict[m]) :: ss.dict[m]
  {
    var c := SkiplistOps.RemoveRangeByScore(ss.sl, min, max, 0);
    var k :| 0 <= k <= |c.list.elems| && ss.sl.elems == c.list.elems[..k] + c.removed + c.list.elems[k..];
    ByScoreKeeps(ss, min, max, c.list.elems, c.removed, k);
    Trimmed(SortedSet(DeleteMembers(ss.dict, c.removed), c.list), |c.removed|)
  }

  /** Ranks lo..hi cut out of s: the kept list around the cut is s without it. */
  lemma RankSplit(s: seq<Element>, lo: int, hi: int, l: seq<Element>)
    requires 0 <= lo <= hi <= |s| && l == s[..lo] + s[hi..]
    ensures 0 <= lo <= |l| && s == l[..lo] + s[lo..hi] + l[lo..]
  {
    assert l[..lo] == s[..lo];
    assert l[lo..] == s[hi..];
    assert s == s[..lo] + s[lo..hi] + s[hi..];
  }

  /**
    The 1-based ranks [from, to), clamped to the set, were cut out of the
    skiplist and their members out of the dict; `count` says how many.
   */
  predicate RanksRemoved(ss: SortedSet, r: Trimmed, from: int, to: int)
  {
    var n := |ss.sl.elems|;
    var lo := SkiplistOps.Clamp(from - 1, 0, n);
    var hi := SkiplistOps.Clamp(to - 1, lo, n);
    && r.count == hi - lo
    && r.zset.sl.elems == ss.sl.elems[..lo] + ss.sl.elems[hi..]
    && r.zset.dict == ss.dict - MemberSet(ss.sl.elems[lo..hi])
  }

  /**
    RemoveByRank(start, stop): remove the elements of 0-based rank in
    [start, stop) from the skiplist and their members from the dict. The
    skiplist takes 1-based ranks, and `start + 1` is int64 arithmetic.
   */
  function RemoveByRank(ss: SortedSet, start: int, stop: int): (r: Trimmed)
    requires Valid(ss) && IsInt64(start) && IsInt64(stop)
    ensures Valid(r.zset)
    ensures RanksRemoved(ss, r, Wrap64(start + 1), Wrap64(stop + 1))
  {
    RemoveRanks(ss, Wrap64(start + 1), Wrap64(stop + 1))
  }

  /** Removal of the 1-based ranks [from, to) once the int64 sums are taken. */
  function RemoveRanks(ss: SortedSet, from: int, to: int): (r: Trimmed)
    requires Valid(ss)
    ensures Valid(r.zset)
    ensures RanksRemoved(ss, r, from, to)
  {
    var c := SkiplistOps.RemoveRangeByRank(ss.sl, from, to);
    var n := |ss.sl.elems|;
    var lo := SkiplistOps.Clamp(from - 1, 0, n);
    var hi := SkiplistOps.Clamp(to - 1, lo, n);
    RankKeeps(ss, lo, hi, c.list.elems);
    Trimmed(SortedSet(DeleteMembers(ss.dict, c.removed), c.list), |c.removed|)
  }

  /** Removing a block of ranks leaves a dict that mirrors the rest. */
  lemma RankKeeps(ss: SortedSet, lo: int, hi: int, l: seq<Element>)
    requires Valid(ss) && 0 <= lo <= hi <= |ss.sl.elems| && l == ss.sl.elems[..lo] + ss.sl.elems[hi..]
    ensures DictMatches(ss.dict - MemberSet(ss.sl.elems[lo..hi]), l)
  {
    DictUnique(ss.dict, ss.sl.elems);
    RankSplit(ss.sl.elems, lo, hi, l);
    SplitKeeps(ss.dict, ss.sl.elems, l, ss.sl.elems[lo..hi], lo);
  }

  /**
    `start + 1` wraps for start = INT64_MAX, so the skiplist is asked for
    ranks from INT64_MIN and the removal starts at the first element.
   */
  lemma RemoveByRankWraps(ss: SortedSet, stop: int)
    requires Valid(ss) && IsInt64(stop) && 0 <= stop < INT64_MAX
    ensures var r := RemoveByRank(ss, INT64_MAX, stop);
            var hi := Min(stop, |ss.sl.elems|);
            r.count == hi && r.zset.sl.elems == ss.sl.elems[hi..]
  {
    assert Wrap64(INT64_MAX + 1) == INT64_MIN by {
      assert (INT64_MAX + 1 - INT64_MIN) % TWO_TO_64 == 0;
    }
    assert Wrap64(stop + 1) == stop + 1;
    var r := RemoveRanks(ss, INT64_MIN, stop + 1);
    assert RemoveByRank(ss, INT64_MAX, stop) == r;
  }
}
