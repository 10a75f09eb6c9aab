/**
  The skiplist of a sorted set (datastruct/sortedset/skiplist.go): its
  state, its invariant and the top-down search every operation performs.

  Nodes are numbered by their position on the base level: 0 is the header
  and 1..n are the elements in order. A node's forward link at level i
  goes to the next node taller than i, so forwards are determined by the
  heights; the `span` of every level of every node is stored, as in the
  source, and the invariant says it equals the base-level distance its
  link covers. `backward` and `tail` are the previous position and the
  last position.
 */
module Skiplist {
  import opened Base
  import opened ZOrder
  import opened Border

  /** maxLevel: the header's height and the cap of `level`. */
  const MaxLevel: int := 16

  /**
    `heights[k]` is the number of levels of the node at position k + 1 and
    `spans[p][i]` the span of level i of the node at position p (the
    header's row has MaxLevel entries).
   */
  datatype Skiplist = Skiplist(elems: seq<Element>, heights: seq<int>, spans: seq<seq<int>>, level: int)

  /** The header's row of spans in a new skiplist: MaxLevel zeros. */
  const ZeroRow: seq<int> := [0, 0, 0, 0, 0, 0, 0, 0, 0, 0, 0, 0, 0, 0, 0, 0]

  /** makeSkiplist: level 1 and a header whose spans are all 0. */
  const Empty: Skiplist := Skiplist([], [], [ZeroRow], 1)

  function Size(sl: Skiplist): nat { |sl.elems| }

  /** One height per element within 1..MaxLevel and one span per level of every node. */
  predicate WellFormed(sl: Skiplist)
  {
    && |sl.heights| == |sl.elems|
    && |sl.spans| == |sl.elems| + 1
    && |sl.spans[0]| == MaxLevel
    && (forall k :: 0 <= k < |sl.heights| ==> 1 <= sl.heights[k] <= MaxLevel)
    && (forall p :: 1 <= p < |sl.spans| ==> |sl.spans[p]| == sl.heights[p - 1])
  }

  function Height(sl: Skiplist, p: int): int
    requires WellFormed(sl) && 0 <= p <= Size(sl)
  {
    if p == 0 then MaxLevel else sl.heights[p - 1]
  }

  lemma RowLength(sl: Skiplist, p: int)
    requires WellFormed(sl) && 0 <= p <= Size(sl)
    ensures |sl.spans[p]| == Height(sl, p)
  {
  }

  /** `f` is the first position from `q` on whose node is taller than `i`, or 0 (nil). */
  predicate IsNextAt(hs: seq<int>, q: int, i: int, f: int)
  {
    && (f == 0 || (q <= f <= |hs| && 1 <= f))
    && (f != 0 ==> hs[f - 1] > i)
    && (forall j :: 0 <= j < |hs| && q <= j + 1 && (f == 0 || j + 1 < f) ==> hs[j] <= i)
  }

  function NextAt(hs: seq<int>, q: int, i: int): (f: int)
    requires 1 <= q <= |hs| + 1
    ensures IsNextAt(hs, q, i, f)
    decreases |hs| + 1 - q
  {
    if q > |hs| then 0 else if hs[q - 1] > i then q else NextAt(hs, q + 1, i)
  }

  lemma NextAtUnique(hs: seq<int>, q: int, i: int, f: int)
    requires 1 <= q <= |hs| + 1 && IsNextAt(hs, q, i, f)
    ensures NextAt(hs, q, i) == f
  {
  }

  /** The forward link of level i of node p (0 for nil). */
  function Fwd(sl: Skiplist, p: int, i: int): int
    requires WellFormed(sl) && 0 <= p <= Size(sl)
  {
    NextAt(sl.heights, p + 1, i)
  }

  /** Where a level's span counts to: the forward node, or the last position when nil. */
  function Target(sl: Skiplist, p: int, i: int): int
    requires WellFormed(sl) && 0 <= p <= Size(sl)
  {
    var f := Fwd(sl, p, i);
    if f == 0 then Size(sl) else f
  }

  /** The height of the tallest node, at least 1: what `level` must be. */
  function LevelOf(hs: seq<int>): (l: int)
    ensures l >= 1
    ensures forall k :: 0 <= k < |hs| ==> hs[k] <= l
    ensures l == 1 || exists k :: 0 <= k < |hs| && hs[k] == l
  {
    if |hs| == 0 then 1
    else
      var m := LevelOf(hs[..|hs| - 1]);
      assert forall k :: 0 <= k < |hs| - 1 ==> hs[k] == hs[..|hs| - 1][k];
      if hs[|hs| - 1] > m then hs[|hs| - 1] else m
  }

  lemma LevelOfUnique(hs: seq<int>, l: int)
    requires l >= 1 && forall k :: 0 <= k < |hs| ==> hs[k] <= l
    requires l == 1 || exists k :: 0 <= k < |hs| && hs[k] == l
    ensures LevelOf(hs) == l
  {
  }

  /** LevelOf by a witness: a node of height l and none taller. */
  lemma LevelOfWitness(hs: seq<int>, l: int, k: int)
    requires l >= 1 && forall j :: 0 <= j < |hs| ==> hs[j] <= l
    requires 0 <= k < |hs| && hs[k] == l
    ensures LevelOf(hs) == l
  {
    LevelOfUnique(hs, l);
  }

  /** A tallest node, when the level is above 1. */
  lemma LevelOfTallest(hs: seq<int>) returns (k: int)
    requires LevelOf(hs) > 1
    ensures 0 <= k < |hs| && hs[k] == LevelOf(hs)
  {
    k :| 0 <= k < |hs| && hs[k] == LevelOf(hs);
  }

  /** The span invariant: every level below `level` spans exactly to its target. */
  predicate SpansOk(sl: Skiplist)
    requires WellFormed(sl)
  {
    forall p, i :: 0 <= p <= Size(sl) && 0 <= i < |sl.spans[p]| && i < sl.level ==>
      sl.spans[p][i] == Target(sl, p, i) - p
  }

  /** The skiplist invariant. */
  predicate Valid(sl: Skiplist)
  {
    && WellFormed(sl)
    && Sorted(sl.elems)
    && sl.level == LevelOf(sl.heights)
    && SpansOk(sl)
  }

  lemma EmptyValid()
    ensures Valid(Empty)
  {
    assert LevelOf([]) == 1;
  }

  // ---------------------------------------------------------------------
  // The search
  // ---------------------------------------------------------------------

  /** The condition under which a search moves to the forward node. */
  datatype Probe =
    | LessThan(e: Element)       // insert and remove: forward < (score, member)
    | NotAbove(e: Element)       // getRank: forward <= (score, member)
    | RankAtMost(rank: int)      // getByRank: rank so far + span <= rank
    | RankBelow(rank: int)       // RemoveRangeByRank: rank so far + span < start
    | NotLess(min: ScoreBorder)  // getFirstInScoreRange, RemoveRangeByScore: !min.less(score)
    | Within(max: ScoreBorder)   // getLastInScoreRange: max.greater(score)

  function ElemAt(sl: Skiplist, q: int): Element
    requires 1 <= q <= Size(sl)
  {
    sl.elems[q - 1]
  }

  /** Whether the probe lets the search step onto node q, reaching rank `acc`. */
  predicate Holds(sl: Skiplist, probe: Probe, q: int, acc: int)
    requires 1 <= q <= Size(sl)
  {
    var x := ElemAt(sl, q);
    match probe
    case LessThan(e) => x.score < e.score || (x.score == e.score && StrLess(x.member, e.member))
    case NotAbove(e) => x.score < e.score || (x.score == e.score && (StrLess(x.member, e.member) || x.member == e.member))
    case RankAtMost(r) => acc <= r
    case RankBelow(r) => acc < r
    case NotLess(min) => !Less(min, x.score)
    case Within(max) => Greater(max, x.score)
  }

  datatype Stop = Stop(node: int, rank: int)

  /** The inner loop at level i: follow forwards while the probe holds, adding spans. */
  function WalkLevel(sl: Skiplist, probe: Probe, i: int, p: int, acc: int): (w: Stop)
    requires WellFormed(sl) && 0 <= p <= Size(sl) && 0 <= i < Height(sl, p)
    ensures p <= w.node <= Size(sl) && i < Height(sl, w.node)
    decreases Size(sl) - p
  {
    var f := Fwd(sl, p, i);
    if f == 0 then Stop(p, acc)
    else
      var acc' := acc + sl.spans[p][i];
      if Holds(sl, probe, f, acc') then WalkLevel(sl, probe, i, f, acc') else Stop(p, acc)
  }

  /**
    The outer loop from level i down to 0, starting at node p with rank
    acc; entry j of the result is where level j stopped (the source's
    `update[j]` and `rank[j]`).
   */
  function Descend(sl: Skiplist, probe: Probe, i: int, p: int, acc: int): (d: seq<Stop>)
    requires WellFormed(sl) && 0 <= p <= Size(sl) && 0 <= i < Height(sl, p)
    ensures |d| == i + 1
    ensures forall j :: 0 <= j <= i ==> 0 <= d[j].node <= Size(sl) && j < Height(sl, d[j].node)
    decreases i
  {
    var w := WalkLevel(sl, probe, i, p, acc);
    if i == 0 then [w] else Descend(sl, probe, i - 1, w.node, w.rank) + [w]
  }

  /** The full search from the header at the top level. */
  function Search(sl: Skiplist, probe: Probe): (d: seq<Stop>)
    requires WellFormed(sl) && 1 <= sl.level <= MaxLevel
    ensures |d| == sl.level
    ensures forall j :: 0 <= j < sl.level ==> 0 <= d[j].node <= Size(sl) && j < Height(sl, d[j].node)
  {
    Descend(sl, probe, sl.level - 1, 0, 0)
  }

  // ---------------------------------------------------------------------
  // Where the search stops
  // ---------------------------------------------------------------------

  /** The last node at or before position a that reaches level i (the header if none). */
  function LastAtLevel(sl: Skiplist, a: int, i: int): (q: int)
    requires WellFormed(sl) && 0 <= a <= Size(sl)
    ensures 0 <= q <= a && (q == 0 || Height(sl, q) > i)
    ensures forall k :: q < k <= a ==> Height(sl, k) <= i
    decreases a
  {
    if a == 0 then 0 else if sl.heights[a - 1] > i then a else LastAtLevel(sl, a - 1, i)
  }

  /** The probe holds on exactly the first `a` nodes (with the rank equal to the position). */
  predicate PrefixClosed(sl: Skiplist, probe: Probe, a: int)
  {
    forall q :: 1 <= q <= Size(sl) ==> (Holds(sl, probe, q, q) <==> q <= a)
  }

  lemma {:induction false} WalkLevelStops(sl: Skiplist, probe: Probe, a: int, i: int, p: int)
    requires WellFormed(sl) && SpansOk(sl) && sl.level <= MaxLevel && 0 <= a <= Size(sl) && PrefixClosed(sl, probe, a)
    requires 0 <= i < sl.level && 0 <= p <= a && (p == 0 || Height(sl, p) > i)
    ensures WalkLevel(sl, probe, i, p, p) == Stop(LastAtLevel(sl, a, i), LastAtLevel(sl, a, i))
    decreases Size(sl) - p
  {
    var f := Fwd(sl, p, i);
    NextOnLevel(sl, a, i, p);
    if f == 0 {
      assert WalkLevel(sl, probe, i, p, p) == Stop(p, p);
    } else {
      assert i < |sl.spans[p]|;
      assert p + sl.spans[p][i] == f;
      if f <= a {
        assert Holds(sl, probe, f, f);
        WalkLevelStops(sl, probe, a, i, f);
        assert WalkLevel(sl, probe, i, p, p) == WalkLevel(sl, probe, i, f, f);
      } else {
        assert !Holds(sl, probe, f, f);
        assert WalkLevel(sl, probe, i, p, p) == Stop(p, p);
      }
    }
  }

  /** From a node on level i, the next node on that level is the last one up to a, or lies past a. */
  lemma NextOnLevel(sl: Skiplist, a: int, i: int, p: int)
    requires WellFormed(sl) && 0 <= a <= Size(sl) && 0 <= p <= a && (p == 0 || Height(sl, p) > i)
    ensures var f := Fwd(sl, p, i); f == 0 || f > a ==> LastAtLevel(sl, a, i) == p
  {
    var q := LastAtLevel(sl, a, i);
    assert p <= q;
    if p < q {
      assert sl.heights[q - 1] > i;
    }
  }

  lemma {:induction false} DescendStops(sl: Skiplist, probe: Probe, a: int, i: int, p: int)
    requires WellFormed(sl) && SpansOk(sl) && sl.level <= MaxLevel && 0 <= a <= Size(sl) && PrefixClosed(sl, probe, a)
    requires 0 <= i < sl.level && 0 <= p <= a && (p == 0 || Height(sl, p) > i)
    ensures forall j :: 0 <= j <= i ==>
              Descend(sl, probe, i, p, p)[j] == Stop(LastAtLevel(sl, a, j), LastAtLevel(sl, a, j))
    decreases i
  {
    WalkLevelStops(sl, probe, a, i, p);
    var w := Stop(LastAtLevel(sl, a, i), LastAtLevel(sl, a, i));
    if i > 0 {
      DescendStops(sl, probe, a, i - 1, w.node);
      DescendStep(sl, probe, i, p);
      StopsSnoc(sl, a, Descend(sl, probe, i - 1, w.node, w.rank), i);
    }
  }

  /** Above level 0 a descent is the descent from level i's stop, then that stop. */
  lemma DescendStep(sl: Skiplist, probe: Probe, i: int, p: int)
    requires WellFormed(sl) && 0 <= p <= Size(sl) && 0 < i < Height(sl, p)
    ensures var w := WalkLevel(sl, probe, i, p, p);
            Descend(sl, probe, i, p, p) == Descend(sl, probe, i - 1, w.node, w.rank) + [w]
  {
  }

  /** Appending level i's stop to the stops of the levels below it. */
  lemma StopsSnoc(sl: Skiplist, a: int, rest: seq<Stop>, i: int)
    requires WellFormed(sl) && 0 <= a <= Size(sl) && 0 < i && |rest| == i
    requires forall j :: 0 <= j < i ==> rest[j] == Stop(LastAtLevel(sl, a, j), LastAtLevel(sl, a, j))
    ensures var d := rest + [Stop(LastAtLevel(sl, a, i), LastAtLevel(sl, a, i))];
            forall j :: 0 <= j <= i ==> d[j] == Stop(LastAtLevel(sl, a, j), LastAtLevel(sl, a, j))
  {
  }

  /**
    Under the invariant, a search whose probe holds on exactly the first
    `a` nodes stops at each level j on the last node up to `a` reaching
    level j, with that node's base-level rank; on level 0 this is node a.
   */
  lemma SearchStops(sl: Skiplist, probe: Probe, a: int)
    requires Valid(sl) && 0 <= a <= Size(sl) && PrefixClosed(sl, probe, a)
    ensures sl.level <= MaxLevel
    ensures forall j :: 0 <= j < sl.level ==>
              Search(sl, probe)[j] == Stop(LastAtLevel(sl, a, j), LastAtLevel(sl, a, j))
    ensures Search(sl, probe)[0] == Stop(a, a)
  {
    LevelBound(sl);
    DescendStops(sl, probe, a, sl.level - 1, 0);
    BaseLevel(sl, a);
  }

  lemma LevelBound(sl: Skiplist)
    requires Valid(sl)
    ensures sl.level <= MaxLevel
  {
  }

  /** Every node reaches level 0. */
  lemma BaseLevel(sl: Skiplist, a: int)
    requires WellFormed(sl) && 0 <= a <= Size(sl)
    ensures LastAtLevel(sl, a, 0) == a
  {
  }

  // ---------------------------------------------------------------------
  // Which nodes a probe holds on
  // ---------------------------------------------------------------------

  /** The probe holds on node q and on every node before it. */
  function Leading(sl: Skiplist, probe: Probe, q: int): (a: int)
    requires 1 <= q <= Size(sl) + 1
    ensures q - 1 <= a <= Size(sl)
    ensures forall k :: q <= k <= a ==> Holds(sl, probe, k, k)
    ensures a < Size(sl) ==> !Holds(sl, probe, a + 1, a + 1)
    decreases Size(sl) + 1 - q
  {
    if q > Size(sl) then Size(sl)
    else if Holds(sl, probe, q, q) then Leading(sl, probe, q + 1)
    else q - 1
  }

  /** The number of leading nodes the probe holds on. */
  function Threshold(sl: Skiplist, probe: Probe): (a: int)
    ensures 0 <= a <= Size(sl)
  {
    Leading(sl, probe, 1)
  }

  /** A probe that holds on a node holds on every earlier one. */
  predicate Monotone(sl: Skiplist, probe: Probe)
  {
    forall q1, q2 :: 1 <= q1 < q2 <= Size(sl) && Holds(sl, probe, q2, q2) ==> Holds(sl, probe, q1, q1)
  }

  lemma ThresholdPrefix(sl: Skiplist, probe: Probe)
    requires Monotone(sl, probe)
    ensures PrefixClosed(sl, probe, Threshold(sl, probe))
  {
    var a := Threshold(sl, probe);
    forall q | 1 <= q <= Size(sl) ensures Holds(sl, probe, q, q) <==> q <= a {
      if q > a {
        assert !Holds(sl, probe, a + 1, a + 1);
      }
    }
  }

  /** Every probe the source uses is monotone along a sorted base level. */
  lemma ProbeMonotone(sl: Skiplist, probe: Probe)
    requires Sorted(sl.elems)
    ensures Monotone(sl, probe)
  {
    forall q1, q2 | 1 <= q1 < q2 <= Size(sl) && Holds(sl, probe, q2, q2)
      ensures Holds(sl, probe, q1, q1)
    {
      var x1 := ElemAt(sl, q1);
      var x2 := ElemAt(sl, q2);
      assert ElemLess(x1, x2);
      match probe {
        case LessThan(e) =>
          ElemLessOrder(x1, x2, e);
        case NotAbove(e) =>
          ElemLessOrder(x1, x2, e);
        case RankAtMost(r) =>
        case RankBelow(r) =>
        case NotLess(min) =>
          BorderMonotone(min, x1.score, x2.score);
        case Within(max) =>
          BorderMonotone(max, x1.score, x2.score);
      }
    }
  }

  /** A search stops, on level 0, at the last node the probe holds on. */
  lemma SearchBase(sl: Skiplist, probe: Probe)
    requires Valid(sl)
    ensures sl.level <= MaxLevel
    ensures PrefixClosed(sl, probe, Threshold(sl, probe))
    ensures forall j :: 0 <= j < sl.level ==>
              Search(sl, probe)[j] == Stop(LastAtLevel(sl, Threshold(sl, probe), j), LastAtLevel(sl, Threshold(sl, probe), j))
    ensures Search(sl, probe)[0] == Stop(Threshold(sl, probe), Threshold(sl, probe))
  {
    ProbeMonotone(sl, probe);
    ThresholdPrefix(sl, probe);
    SearchStops(sl, probe, Threshold(sl, probe));
  }
}
