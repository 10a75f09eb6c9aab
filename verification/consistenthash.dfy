/**
  The consistent-hash ring of the algorithm package: every real node id is
  placed on a ring of 32-bit hash values at `replicas` virtual points, and a
  key belongs to the node owning the first point at or after the key's hash,
  wrapping round to the first point. Keys carrying a `{tag}` are placed by
  the tag alone.

  The hash function is a parameter of the ring (the program's default is
  CRC-32/IEEE, whose arithmetic is not modelled), so every property here
  holds for any hash function into the 32-bit range.
 */
module HashRing {
  import opened Base
  import Numbers

  /** A hash code: an unsigned 32-bit value, widened to Go's int. */
  type Hash32 = h: int | 0 <= h <= Numbers.UINT32_MAX

  /** Go's `HashFunc`: any function from bytes to a 32-bit code. */
  type HashFunc = Bytes -> Hash32

  /**
    The ring: the hash function, the number of virtual points per node, the
    points (kept sorted by AddNode) and, for each point, the node it stands
    for.
   */
  datatype Ring = Ring(hash: HashFunc, replicas: int, points: seq<int>, owner: map<int, Bytes>)

  predicate Sorted(s: seq<int>)
  {
    forall i, j :: 0 <= i < j < |s| ==> s[i] <= s[j]
  }

  /** The hash of virtual point i of node id: the hash of Itoa(i) followed by the id. */
  function VirtualPoint(hash: HashFunc, i: int, id: Bytes): Hash32
  {
    hash(Numbers.FormatInt(i) + id)
  }

  /** The virtual points of one node, for i from 0 below replicas (none when replicas <= 0). */
  function Virtuals(hash: HashFunc, replicas: int, id: Bytes): (v: seq<int>)
    ensures |v| == Max(replicas, 0)
    ensures forall i :: 0 <= i < |v| ==> v[i] == VirtualPoint(hash, i, id)
  {
    seq(Max(replicas, 0), i => VirtualPoint(hash, i, id))
  }

  /**
    The ring invariant: the points are sorted, every point has an owner,
    every owned value is a point, and every owner is a non-empty id one of
    whose virtual points is that value.
   */
  predicate Valid(r: Ring)
  {
    && Sorted(r.points)
    && (forall p :: p in r.points ==> p in r.owner)
    && (forall p :: p in r.owner ==> p in r.points)
    && Owned(r)
  }

  /** Every owner is a non-empty id that has the owned value as one of its virtual points. */
  predicate Owned(r: Ring)
  {
    forall p :: p in r.owner ==> r.owner[p] != [] && exists i :: 0 <= i < r.replicas && VirtualPoint(r.hash, i, r.owner[p]) == p
  }

  /** New: an empty ring with the given replica count and hash function. */
  function New(replicas: int, hash: HashFunc): (r: Ring)
    ensures Valid(r) && IsEmpty(r)
    ensures r.replicas == replicas && r.hash == hash
  {
    Ring(hash, replicas, [], map[])
  }

  /** IsEmpty: the ring has no points. */
  predicate IsEmpty(r: Ring)
  {
    |r.points| == 0
  }

  // ---------------------------------------------------------------------
  // AddNode
  // ---------------------------------------------------------------------

  /** One node's inner loop: append its virtual points, each now owned by the node. */
  function Register(r: Ring, id: Bytes): (r': Ring)
    ensures r'.hash == r.hash && r'.replicas == r.replicas
  {
    var v := Virtuals(r.hash, r.replicas, id);
    r.(points := r.points + v, owner := r.owner + map p | p in v :: id)
  }

  /** The outer loop: register each non-empty id in turn, points left unsorted. */
  function AddPoints(r: Ring, ids: seq<Bytes>): (r': Ring)
    ensures r'.hash == r.hash && r'.replicas == r.replicas
    decreases |ids|
  {
    if |ids| == 0 then r
    else if ids[0] == [] then AddPoints(r, ids[1..])
    else AddPoints(Register(r, ids[0]), ids[1..])
  }

  /** The points the non-empty ids bring, in the order the loop appends them. */
  function NewPoints(hash: HashFunc, replicas: int, ids: seq<Bytes>): seq<int>
    decreases |ids|
  {
    if |ids| == 0 then []
    else if ids[0] == [] then NewPoints(hash, replicas, ids[1..])
    else Virtuals(hash, replicas, ids[0]) + NewPoints(hash, replicas, ids[1..])
  }

  /**
    AddNode: register every non-empty id, then sort the points. The points
    are the old points and the new ones, sorted, and the ring stays valid.
   */
  function AddNode(r: Ring, ids: seq<Bytes>): (r': Ring)
    ensures Sorted(r'.points)
    ensures multiset(r'.points) == multiset(r.points) + multiset(NewPoints(r.hash, r.replicas, ids))
    ensures r'.hash == r.hash && r'.replicas == r.replicas
    ensures Valid(r) ==> Valid(r')
  {
    var a := AddPoints(r, ids);
    AddPointsContents(r, ids);
    AddPointsLinked(r, ids);
    var sorted := SortInts(a.points);
    SortedSameElements(a.points, sorted);
    a.(points := sorted)
  }

  lemma AddPointsLinked(r: Ring, ids: seq<Bytes>)
    ensures Linked(r) ==> Linked(AddPoints(r, ids))
  {
    if Linked(r) {
      AddPointsOwned(r, ids);
    }
  }

  /** The unsorted points are the old points followed by the new ones. */
  lemma {:induction false} AddPointsContents(r: Ring, ids: seq<Bytes>)
    ensures AddPoints(r, ids).points == r.points + NewPoints(r.hash, r.replicas, ids)
    decreases |ids|
  {
    if |ids| > 0 {
      if ids[0] == [] {
        AddPointsContents(r, ids[1..]);
      } else {
        var next := Register(r, ids[0]);
        AddPointsContents(next, ids[1..]);
      }
    }
  }

  /** The ring invariant without sortedness: points and owners agree, and owners own their points. */
  predicate Linked(r: Ring)
  {
    && (forall p :: p in r.points ==> p in r.owner)
    && (forall p :: p in r.owner ==> p in r.points)
    && Owned(r)
  }

  lemma RegisterLinked(r: Ring, id: Bytes)
    requires Linked(r) && id != []
    ensures Linked(Register(r, id))
  {
    var v := Virtuals(r.hash, r.replicas, id);
    var r' := Register(r, id);
    forall p | p in r'.owner
      ensures r'.owner[p] != [] && exists i :: 0 <= i < r'.replicas && VirtualPoint(r'.hash, i, r'.owner[p]) == p
    {
      if p in v {
        var i :| 0 <= i < |v| && v[i] == p;
        assert VirtualPoint(r.hash, i, id) == p;
      }
    }
  }

  lemma {:induction false} AddPointsOwned(r: Ring, ids: seq<Bytes>)
    requires Linked(r)
    ensures Linked(AddPoints(r, ids))
    decreases |ids|
  {
    if |ids| > 0 {
      if ids[0] == [] {
        AddPointsOwned(r, ids[1..]);
      } else {
        RegisterLinked(r, ids[0]);
        AddPointsOwned(Register(r, ids[0]), ids[1..]);
      }
    }
  }

  /** Two sequences with the same elements hold the same values. */
  lemma SortedSameElements(a: seq<int>, b: seq<int>)
    requires multiset(a) == multiset(b)
    ensures forall x :: x in a <==> x in b
  {
    forall x ensures x in a <==> x in b {
      assert x in a <==> x in multiset(a);
      assert x in b <==> x in multiset(b);
    }
  }

  // ---------------------------------------------------------------------
  // sort.Ints, as a functional insertion sort
  // ---------------------------------------------------------------------

  function Insert(x: int, s: seq<int>): (r: seq<int>)
    requires Sorted(s)
    ensures Sorted(r)
    ensures multiset(r) == multiset(s) + multiset{x}
    ensures |r| == |s| + 1 && (r[0] == x || (|s| > 0 && r[0] == s[0]))
    decreases |s|
  {
    if |s| == 0 then [x]
    else if x <= s[0] then [x] + s
    else
      assert s == [s[0]] + s[1..];
      [s[0]] + Insert(x, s[1..])
  }

  /** sort.Ints: the same values in ascending order. */
  function SortInts(s: seq<int>): (r: seq<int>)
    ensures Sorted(r)
    ensures multiset(r) == multiset(s)
    decreases |s|
  {
    if |s| == 0 then []
    else
      assert s == [s[0]] + s[1..];
      Insert(s[0], SortInts(s[1..]))
  }

  // ---------------------------------------------------------------------
  // Ownership after AddNode
  // ---------------------------------------------------------------------

  /** Some non-empty id from k on brings point p. */
  predicate BroughtFrom(hash: HashFunc, replicas: int, ids: seq<Bytes>, k: int, p: int)
    requires 0 <= k <= |ids|
  {
    exists m :: k <= m < |ids| && ids[m] != [] && p in Virtuals(hash, replicas, ids[m])
  }

  /** What the ids after the first bring from k on, all the ids bring from k + 1 on. */
  lemma BroughtShift(hash: HashFunc, replicas: int, ids: seq<Bytes>, k: int, p: int)
    requires 0 <= k < |ids|
    ensures BroughtFrom(hash, replicas, ids[1..], k, p) ==> BroughtFrom(hash, replicas, ids, k + 1, p)
  {
    if BroughtFrom(hash, replicas, ids[1..], k, p) {
      var m :| k <= m < |ids[1..]| && ids[1..][m] != [] && p in Virtuals(hash, replicas, ids[1..][m]);
      assert ids[m + 1] == ids[1..][m];
    }
  }

  /** A point no given id brings keeps its owner. */
  lemma {:induction false} AddNodeKeeps(r: Ring, ids: seq<Bytes>, p: int)
    requires p in r.owner && !BroughtFrom(r.hash, r.replicas, ids, 0, p)
    ensures p in AddNode(r, ids).owner && AddNode(r, ids).owner[p] == r.owner[p]
    decreases |ids|
  {
    AddPointsKeeps(r, ids, p);
  }

  lemma {:induction false} AddPointsKeeps(r: Ring, ids: seq<Bytes>, p: int)
    requires p in r.owner && !BroughtFrom(r.hash, r.replicas, ids, 0, p)
    ensures p in AddPoints(r, ids).owner && AddPoints(r, ids).owner[p] == r.owner[p]
    decreases |ids|
  {
    if |ids| > 0 {
      BroughtShift(r.hash, r.replicas, ids, 0, p);
      if ids[0] == [] {
        AddPointsKeeps(r, ids[1..], p);
      } else {
        assert p !in Virtuals(r.hash, r.replicas, ids[0]);
        AddPointsKeeps(Register(r, ids[0]), ids[1..], p);
      }
    }
  }

  /**
    A later colliding id overwrites an earlier one: virtual point i of the
    id at position k belongs to that id when no later non-empty id brings
    the same value.
   */
  lemma AddNodeLastWins(r: Ring, ids: seq<Bytes>, k: int, i: int)
    requires 0 <= k < |ids| && ids[k] != [] && 0 <= i < r.replicas
    requires !BroughtFrom(r.hash, r.replicas, ids, k + 1, VirtualPoint(r.hash, i, ids[k]))
    ensures VirtualPoint(r.hash, i, ids[k]) in AddNode(r, ids).owner
    ensures AddNode(r, ids).owner[VirtualPoint(r.hash, i, ids[k])] == ids[k]
  {
    AddPointsLastWins(r, ids, k, i);
  }

  lemma {:induction false} AddPointsLastWins(r: Ring, ids: seq<Bytes>, k: int, i: int)
    requires 0 <= k < |ids| && ids[k] != [] && 0 <= i < r.replicas
    requires !BroughtFrom(r.hash, r.replicas, ids, k + 1, VirtualPoint(r.hash, i, ids[k]))
    ensures VirtualPoint(r.hash, i, ids[k]) in AddPoints(r, ids).owner
    ensures AddPoints(r, ids).owner[VirtualPoint(r.hash, i, ids[k])] == ids[k]
    decreases |ids|
  {
    var p := VirtualPoint(r.hash, i, ids[k]);
    if k == 0 {
      var next := Register(r, ids[0]);
      assert Virtuals(r.hash, r.replicas, ids[0])[i] == p;
      BroughtShift(r.hash, r.replicas, ids, 0, p);
      AddPointsKeeps(next, ids[1..], p);
    } else {
      var next := if ids[0] == [] then r else Register(r, ids[0]);
      assert ids[1..][k - 1] == ids[k];
      BroughtShift(r.hash, r.replicas, ids, k, p);
      AddPointsLastWins(next, ids[1..], k - 1, i);
    }
  }

  // ---------------------------------------------------------------------
  // Hash tags
  // ---------------------------------------------------------------------

  /** strings.Index for one byte: the first position of c, or -1. */
  function IndexOf(s: Bytes, c: char): (i: int)
    ensures -1 <= i < |s|
    ensures i >= 0 ==> s[i] == c
    ensures forall j :: 0 <= j < |s| && (i == -1 || j < i) ==> s[j] != c
    decreases |s|
  {
    if |s| == 0 then -1
    else if s[0] == c then 0
    else
      var k := IndexOf(s[1..], c);
      if k == -1 then -1 else k + 1
  }

  /**
    getPartitionKey as written: the first `}` is searched from the start of
    the key, not after the `{`, so a key with a `}` before its first `{`
    slices backwards and panics.
   */
  function PartitionKeyAsWritten(key: Bytes): (r: Outcome<Bytes>)
  {
    var beg := IndexOf(key, '{');
    if beg == -1 then Normal(key)
    else
      var end := IndexOf(key, '}');
      if end == -1 || end == beg + 1 then Normal(key)
      else if end < beg + 1 then Panic
      else Normal(key[beg + 1..end])
  }

  /** The as-written version panics exactly when a `}` comes before the first `{`. */
  lemma PartitionKeyAsWrittenPanics(key: Bytes)
    ensures PartitionKeyAsWritten(key).Panic? <==> 0 <= IndexOf(key, '}') < IndexOf(key, '{')
  {
  }

  /** `}{a}` is such a key: the as-written version panics, the corrected one finds the tag `a`. */
  lemma PartitionKeyAsWrittenExample()
    ensures PartitionKeyAsWritten("}{a}") == Panic
    ensures PartitionKey("}{a}") == "a"
  {
    assert IndexOf("}{a}", '{') == 1;
    assert IndexOf("}{a}", '}') == 0;
    assert IndexOf("a}", '}') == 1;
  }

  /**
    The hash tag, as evidently intended: the text between the first `{` and
    the first `}` after it, when that text is not empty; otherwise the whole key.
   */
  function PartitionKey(key: Bytes): (r: Bytes)
    ensures r == key || (|r| > 0 && '}' !in r)
  {
    var beg := IndexOf(key, '{');
    if beg == -1 then key
    else
      var end := IndexOf(key[beg + 1..], '}');
      if end <= 0 then key
      else
        var r := key[beg + 1..beg + 1 + end];
        assert forall j :: 0 <= j < |r| ==> r[j] == key[beg + 1..][j];
        r
  }

  /** Wherever the as-written version does not panic, it agrees with the corrected one. */
  lemma PartitionKeyAgrees(key: Bytes)
    requires PartitionKeyAsWritten(key).Normal?
    ensures PartitionKeyAsWritten(key).value == PartitionKey(key)
  {
    var beg := IndexOf(key, '{');
    if beg != -1 {
      var end := IndexOf(key, '}');
      var after := IndexOf(key[beg + 1..], '}');
      if end == -1 {
        var tail := key[beg + 1..];
        forall j | 0 <= j < |tail| ensures tail[j] != '}' {
          assert tail[j] == key[beg + 1 + j];
        }
      } else {
        assert key[beg + 1..][end - beg - 1] == key[end];
        assert after == end - beg - 1;
      }
    }
  }

  /** A key `pre{tag}post`, with no `{` in pre and no `}` in a non-empty tag, is placed by tag. */
  lemma PartitionKeyTag(pre: Bytes, tag: Bytes, post: Bytes)
    requires '{' !in pre && '}' !in tag && |tag| > 0
    ensures PartitionKey(pre + "{" + tag + "}" + post) == tag
  {
    var key := pre + "{" + tag + "}" + post;
    var rest := tag + ("}" + post);
    assert key == pre + ("{" + rest);
    IndexOfAfter(pre, '{', "{" + rest);
    assert IndexOf(key, '{') == |pre|;
    assert key[|pre| + 1..] == rest;
    IndexOfAfter(tag, '}', "}" + post);
    assert IndexOf(key[|pre| + 1..], '}') == |tag|;
    assert key[|pre| + 1..|pre| + 1 + |tag|] == tag;
  }

  /** The first c in a + b, when a has none, is at |a| if b starts with c. */
  lemma {:induction false} IndexOfAfter(a: Bytes, c: char, b: Bytes)
    requires c !in a && |b| > 0 && b[0] == c
    ensures IndexOf(a + b, c) == |a|
    decreases |a|
  {
    if |a| > 0 {
      assert (a + b)[1..] == a[1..] + b;
      IndexOfAfter(a[1..], c, b);
    } else {
      assert a + b == b;
    }
  }

  /**
    Conversely, a key the tag rule changes has the shape `pre{tag}post`
    with no `{` in pre, and the tag is what it picks.
   */
  lemma PartitionKeySplit(key: Bytes) returns (pre: Bytes, post: Bytes)
    requires PartitionKey(key) != key
    ensures '{' !in pre && '}' !in PartitionKey(key) && |PartitionKey(key)| > 0
    ensures key == pre + "{" + PartitionKey(key) + "}" + post
  {
    var beg, stop := TagBounds(key);
    pre := key[..beg];
    post := key[stop + 1..];
    CutTwice(key, beg, stop);
  }

  /** Where the tag rule changes a key: the `{` and `}` around the tag, and no `{` before them. */
  lemma TagBounds(key: Bytes) returns (beg: int, stop: int)
    requires PartitionKey(key) != key
    ensures 0 <= beg < stop < |key| && key[beg] == '{' && key[stop] == '}'
    ensures '{' !in key[..beg] && key[beg + 1..stop] == PartitionKey(key)
  {
    beg := IndexOf(key, '{');
    var end := IndexOf(key[beg + 1..], '}');
    stop := beg + 1 + end;
    assert key[beg + 1..][end] == key[stop];
    assert forall j :: 0 <= j < beg ==> key[..beg][j] == key[j];
  }

  /** A sequence cut at two positions is the sum of its five pieces. */
  lemma CutTwice(s: Bytes, i: int, j: int)
    requires 0 <= i < j < |s|
    ensures s == s[..i] + [s[i]] + s[i + 1..j] + [s[j]] + s[j + 1..]
  {
    assert s == s[..i] + s[i..];
    assert s[i..] == [s[i]] + s[i + 1..j] + [s[j]] + s[j + 1..];
  }
  // ---------------------------------------------------------------------
  // PickNode
  // ---------------------------------------------------------------------

  /** The first index whose point is at least h, or |points| when none is. */
  function FirstAtLeast(points: seq<int>, h: int): (i: int)
    ensures 0 <= i <= |points|
    ensures forall j :: 0 <= j < i ==> points[j] < h
    ensures i < |points| ==> points[i] >= h
    decreases |points|
  {
    if |points| == 0 then 0
    else if points[0] >= h then 0
    else 1 + FirstAtLeast(points[1..], h)
  }

  /**
    sort.Search over the sorted points, as its binary search runs: the
    smallest index whose point is at least h.
   */
  method Search(points: seq<int>, h: int) returns (idx: int)
    requires Sorted(points)
    ensures idx == FirstAtLeast(points, h)
  {
    var i, j := 0, |points|;
    while i < j
      invariant 0 <= i <= j <= |points|
      invariant forall k :: 0 <= k < i ==> points[k] < h
      invariant forall k :: j <= k < |points| ==> points[k] >= h
      decreases j - i
    {
      var m := (i + j) / 2;
      if points[m] < h {
        i := m + 1;
      } else {
        j := m;
      }
    }
    FirstAtLeastUnique(points, h, i);
    idx := i;
  }

  /** An index that every earlier point is below and whose point is not below h is FirstAtLeast. */
  lemma {:induction false} FirstAtLeastUnique(points: seq<int>, h: int, i: int)
    requires 0 <= i <= |points|
    requires forall k :: 0 <= k < i ==> points[k] < h
    requires i < |points| ==> points[i] >= h
    ensures FirstAtLeast(points, h) == i
    decreases |points|
  {
    if |points| > 0 && points[0] < h {
      FirstAtLeastUnique(points[1..], h, i - 1);
    }
  }

  /**
    PickNode: "" on an empty ring; otherwise the owner of the first point at
    or after the hash of the key's partition key (getPartitionKey as
    written, which may panic), wrapping to the first point. An unowned
    point, which a valid ring never has, reads as "".
   */
  function PickNode(r: Ring, key: Bytes): (node: Outcome<Bytes>)
    requires Sorted(r.points)
    ensures IsEmpty(r) ==> node == Normal([])
    ensures node.Panic? <==> !IsEmpty(r) && 0 <= IndexOf(key, '}') < IndexOf(key, '{')
    ensures !IsEmpty(r) && node.Normal? ==> node.value == OwnerAfter(r, r.hash(PartitionKey(key)))
  {
    if IsEmpty(r) then Normal([])
    else
      PartitionKeyAsWrittenPanics(key);
      match PartitionKeyAsWritten(key)
      case Panic => Panic
      case Normal(pk) =>
        PartitionKeyAgrees(key);
        Normal(OwnerAfter(r, r.hash(pk)))
  }

  /** The owner of the first point at or after hash h, wrapping to the first point. */
  function OwnerAfter(r: Ring, h: int): Bytes
    requires !IsEmpty(r)
  {
    var first := FirstAtLeast(r.points, h);
    var idx := if first == |r.points| then 0 else first;
    if r.points[idx] in r.owner then r.owner[r.points[idx]] else []
  }

  /**
    On a non-empty valid ring the picked node owns a point that is the
    smallest point not below the key's hash, or, when every point is below
    it, the smallest point of all; and the node is a non-empty id whose
    virtual points include that point.
   */
  lemma PickNodeSuccessor(r: Ring, key: Bytes) returns (p: int)
    requires Valid(r) && !IsEmpty(r)
    ensures p in r.points && p in r.owner && (PickNode(r, key).Panic? || PickNode(r, key) == Normal(r.owner[p]))
    ensures var h := r.hash(PartitionKey(key));
            || (p >= h && forall q :: q in r.points && q >= h ==> p <= q)
            || (forall q :: q in r.points ==> q < h && p <= q)
    ensures r.owner[p] != [] && exists i :: 0 <= i < r.replicas && VirtualPoint(r.hash, i, r.owner[p]) == p
  {
    p := OwnerAfterSuccessor(r, r.hash(PartitionKey(key)));
  }

  lemma OwnerAfterSuccessor(r: Ring, h: int) returns (p: int)
    requires Valid(r) && !IsEmpty(r)
    ensures p in r.points && p in r.owner && OwnerAfter(r, h) == r.owner[p]
    ensures || (p >= h && forall q :: q in r.points && q >= h ==> p <= q)
            || (forall q :: q in r.points ==> q < h && p <= q)
    ensures OwnerAfter(r, h) != [] && exists i :: 0 <= i < r.replicas && VirtualPoint(r.hash, i, OwnerAfter(r, h)) == p
  {
    var first := FirstAtLeast(r.points, h);
    var idx := if first == |r.points| then 0 else first;
    p := r.points[idx];
    forall q | q in r.points
      ensures first < |r.points| && q >= h ==> p <= q
      ensures first == |r.points| ==> q < h && p <= q
    {
      var m :| 0 <= m < |r.points| && r.points[m] == q;
      assert m < first ==> q < h;
    }
  }

  /** IsEmpty is exactly when PickNode answers "" on a valid ring. */
  lemma PickNodeEmpty(r: Ring, key: Bytes)
    requires Valid(r)
    ensures IsEmpty(r) <==> PickNode(r, key) == Normal([])
  {
    if !IsEmpty(r) {
      var p := PickNodeSuccessor(r, key);
    }
  }

  /**
    Keys sharing a hash tag land on the same node, unless one of them panics;
    one panics only when its prefix holds a `}`.
   */
  lemma SameTagSameNode(r: Ring, pre1: Bytes, post1: Bytes, pre2: Bytes, post2: Bytes, tag: Bytes)
    requires Sorted(r.points)
    requires '{' !in pre1 && '{' !in pre2 && '}' !in tag && |tag| > 0
    ensures '}' !in pre1 ==> PickNode(r, pre1 + "{" + tag + "}" + post1).Normal?
    ensures '}' !in pre2 ==> PickNode(r, pre2 + "{" + tag + "}" + post2).Normal?
    ensures PickNode(r, pre1 + "{" + tag + "}" + post1).Normal? && PickNode(r, pre2 + "{" + tag + "}" + post2).Normal? ==>
            PickNode(r, pre1 + "{" + tag + "}" + post1) == PickNode(r, pre2 + "{" + tag + "}" + post2)
  {
    PartitionKeyTag(pre1, tag, post1);
    PartitionKeyTag(pre2, tag, post2);
    TagKeyNoPanic(pre1, tag, post1);
    TagKeyNoPanic(pre2, tag, post2);
  }

  /** In `pre{tag}post` with neither brace in pre, no `}` comes before the first `{`. */
  lemma TagKeyNoPanic(pre: Bytes, tag: Bytes, post: Bytes)
    requires '{' !in pre && '}' !in tag && |tag| > 0
    ensures '}' !in pre ==> !(0 <= IndexOf(pre + "{" + tag + "}" + post, '}') < IndexOf(pre + "{" + tag + "}" + post, '{'))
  {
    var key := pre + "{" + tag + "}" + post;
    var rest := tag + ("}" + post);
    assert key == pre + ("{" + rest);
    IndexOfAfter(pre, '{', "{" + rest);
  }
}
