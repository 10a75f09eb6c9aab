/**
  The doubly linked list of byte strings behind the list commands
  (datastruct/list/list.go). The chain of nodes from head to tail is a
  sequence, and the list's `length` field is that sequence's length, so
  the link surgery of the source becomes sequence splicing.
 */
module Lists {
  import opened Base

  datatype List = List(items: seq<Bytes>)

  /** The empty list of NewList. */
  const Empty: List := List([])

  function Len(l: List): nat { |l.items| }

  // ---------------------------------------------------------------------
  // Pushing
  // ---------------------------------------------------------------------

  /** lpush: the value becomes the new head (both branches of the source agree). */
  function PushHead(l: List, v: Bytes): List { List([v] + l.items) }

  /** rpush: the value becomes the new tail. */
  function PushTail(l: List, v: Bytes): List { List(l.items + [v]) }

  /** Lpush: pushes the values one at a time at the head, so they end up reversed. */
  function Lpush(l: List, vs: seq<Bytes>): (r: List)
    ensures r.items == Reverse(vs) + l.items
    ensures Len(r) == Len(l) + |vs|
    decreases |vs|
  {
    if |vs| == 0 then l else Lpush(PushHead(l, vs[0]), vs[1..])
  }

  /** Rpush: pushes the values one at a time at the tail, keeping their order. */
  function Rpush(l: List, vs: seq<Bytes>): (r: List)
    ensures r.items == l.items + vs
    ensures Len(r) == Len(l) + |vs|
    decreases |vs|
  {
    if |vs| == 0 then l
    else
      var r := Rpush(PushTail(l, vs[0]), vs[1..]);
      assert l.items + [vs[0]] + vs[1..] == l.items + vs;
      r
  }

  // ---------------------------------------------------------------------
  // Index normalisation
  // ---------------------------------------------------------------------

  /** A negative index counts from the tail: -1 is the last element. */
  function Normalise(i: int, len: nat): int { if i < 0 then i + len else i }

  predicate Between(i: int, lo: int, hi: int) { lo <= i <= hi }

  datatype Window = Window(start: int, stop: int)

  const NoElementsErr: Bytes := "all elements of index are nil"

  /**
    checkborder: normalises both ends, rejects a window that selects no
    element, and clamps the rest to the list.
   */
  function CheckBorder(l: List, start: int, stop: int): (r: Result<Window>)
    ensures r.Fail? ==> r.err == Msg(NoElementsErr)
    ensures r.Ok? ==> 0 <= r.value.start && r.value.stop <= Len(l) - 1
    ensures r.Ok? && Len(l) > 0 ==> r.value.start <= r.value.stop
    ensures r.Ok? && Len(l) == 0 ==> r.value == Window(0, -1)
    ensures r.Ok? ==> forall i :: Between(i, 0, Len(l) - 1) ==>
                (Between(i, r.value.start, r.value.stop) <==> Between(i, Normalise(start, Len(l)), Normalise(stop, Len(l))))
  {
    var s := Normalise(start, Len(l));
    var t := Normalise(stop, Len(l));
    if s > t then Fail(Msg(NoElementsErr))
    else if t < 0 then Fail(Msg(NoElementsErr))
    else if s > Len(l) - 1 then Fail(Msg(NoElementsErr))
    else Ok(Window(if s < 0 then 0 else s, if t > Len(l) - 1 then Len(l) - 1 else t))
  }

  /** On a non-empty list, checkborder fails exactly when the window selects no element. */
  lemma CheckBorderFailsIffEmpty(l: List, start: int, stop: int)
    requires Len(l) > 0
    ensures CheckBorder(l, start, stop).Fail? <==>
            forall i :: Between(i, 0, Len(l) - 1) ==> !Between(i, Normalise(start, Len(l)), Normalise(stop, Len(l)))
  {
    var s := Normalise(start, Len(l));
    var t := Normalise(stop, Len(l));
    if CheckBorder(l, start, stop).Ok? {
      var w := CheckBorder(l, start, stop).value;
      assert Between(w.start, 0, Len(l) - 1) && Between(w.start, w.start, w.stop);
    }
  }

  // ---------------------------------------------------------------------
  // Reading
  // ---------------------------------------------------------------------

  /**
    Lrange: the elements whose normalised index lies in [start, stop],
    clamped to the list, in order; nothing when checkborder fails.
   */
  function Lrange(l: List, start: int, stop: int): (r: seq<Bytes>)
    ensures var lo := Max(Normalise(start, Len(l)), 0);
            var hi := Min(Normalise(stop, Len(l)), Len(l) - 1);
            |r| == Max(hi - lo + 1, 0) &&
            forall k :: 0 <= k < |r| ==> r[k] == l.items[lo + k]
  {
    match CheckBorder(l, start, stop)
    case Fail(_) => []
    case Ok(w) =>
      if w.start >= Len(l) then []
      else
        var stop' := if w.stop >= Len(l) then Len(l) - 1 else w.stop;
        l.items[w.start..stop' + 1]
  }

  /** checkIndex: the index, counted from the tail when negative, falls in the list. */
  predicate CheckIndex(l: List, i: int)
  {
    var j := Normalise(i, Len(l));
    0 <= j < Len(l)
  }

  /**
    Lindex: the walk uses the index as given, so a valid negative index
    walks zero steps and yields the head.
   */
  function Lindex(l: List, index: int): (r: Option<Bytes>)
    ensures r.Some? <==> 0 <= index + Len(l) && index < Len(l)
    ensures 0 <= index < Len(l) ==> r == Some(l.items[index])
    ensures 0 <= index + Len(l) && index < 0 ==> r == Some(l.items[0])
  {
    if !CheckIndex(l, index) then None
    else if index <= 0 then Some(l.items[0])
    else Some(l.items[index])
  }

  /** Lrange(0, -1) is the whole list. */
  lemma LrangeWhole(l: List)
    ensures Lrange(l, 0, -1) == l.items
  {
  }

  /** A one-element window at a non-negative index agrees with Lindex. */
  lemma LrangeLindex(l: List, i: int)
    requires 0 <= i < Len(l)
    ensures Lrange(l, i, i) == [Lindex(l, i).value]
  {
  }

  /** For a negative index Lrange reads the tail end while Lindex reads the head. */
  lemma LindexNegativeDisagrees(l: List)
    requires Len(l) >= 2 && l.items[0] != l.items[Len(l) - 1]
    ensures Lrange(l, -1, -1) == [l.items[Len(l) - 1]]
    ensures Lindex(l, -1) == Some(l.items[0])
  {
  }

  // ---------------------------------------------------------------------
  // Linsert
  // ---------------------------------------------------------------------

  function FirstIndex(s: seq<Bytes>, x: Bytes): (i: nat)
    ensures i <= |s|
    ensures i < |s| <==> x in s
    ensures i < |s| ==> s[i] == x
    ensures forall j :: 0 <= j < i ==> s[j] != x
  {
    if |s| == 0 then 0 else if s[0] == x then 0 else 1 + FirstIndex(s[1..], x)
  }

  datatype Inserted = Inserted(list: List, reply: int)

  /**
    Linsert: 0 on an empty list, -1 when the pivot is absent, otherwise the
    value goes right before or after the first node equal to the pivot and
    the new length is returned.
   */
  function Linsert(l: List, pivot: Bytes, value: Bytes, before: bool): (r: Inserted)
    ensures Len(l) == 0 ==> r == Inserted(l, 0)
    ensures Len(l) > 0 && pivot !in l.items ==> r == Inserted(l, -1)
    ensures pivot in l.items ==> r.reply == Len(l) + 1 == Len(r.list)
    ensures pivot in l.items ==>
              var p := FirstIndex(l.items, pivot);
              var q := if before then p else p + 1;
              r.list.items[..q] == l.items[..q] && r.list.items[q] == value && r.list.items[q + 1..] == l.items[q..]
    ensures pivot in l.items && before ==>
              var p := FirstIndex(l.items, pivot); r.list.items[p] == value && r.list.items[p + 1] == pivot
    ensures pivot in l.items && !before ==>
              var p := FirstIndex(l.items, pivot); r.list.items[p] == pivot && r.list.items[p + 1] == value
    ensures multiset(r.list.items) == if pivot in l.items then multiset(l.items) + multiset{value} else multiset(l.items)
  {
    if Len(l) == 0 then Inserted(l, 0)
    else
      var p := FirstIndex(l.items, pivot);
      if p == Len(l) then Inserted(l, -1)
      else InsertNear(l, p, value, before)
  }

  /** Link a new node right before or after node p; the reply is the new length. */
  function InsertNear(l: List, p: int, value: Bytes, before: bool): (r: Inserted)
    requires 0 <= p < Len(l)
    ensures r.reply == Len(l) + 1 == Len(r.list)
    ensures var q := if before then p else p + 1;
            r.list.items[..q] == l.items[..q] && r.list.items[q] == value && r.list.items[q + 1..] == l.items[q..]
    ensures before ==> r.list.items[p] == value && r.list.items[p + 1] == l.items[p]
    ensures !before ==> r.list.items[p] == l.items[p] && r.list.items[p + 1] == value
    ensures multiset(r.list.items) == multiset(l.items) + multiset{value}
  {
    var q := if before then p else p + 1;
    var items := l.items[..q] + [value] + l.items[q..];
    Spliced(l.items, q, value);
    Inserted(List(items), Len(l) + 1)
  }

  /** A value spliced in at position q: the prefix, the value, then the old suffix. */
  lemma Spliced(s: seq<Bytes>, q: int, v: Bytes)
    requires 0 <= q <= |s|
    ensures var t := s[..q] + [v] + s[q..];
            && |t| == |s| + 1 && t[..q] == s[..q] && t[q] == v && t[q + 1..] == s[q..]
            && multiset(t) == multiset(s) + multiset{v}
  {
    var t := s[..q] + [v] + s[q..];
    assert t[q + 1..] == s[q..];
    assert s == s[..q] + s[q..];
  }

  // ---------------------------------------------------------------------
  // Lrem
  // ---------------------------------------------------------------------

  function CountOf(s: seq<Bytes>, v: Bytes): (n: nat)
    ensures n <= |s|
  {
    if |s| == 0 then 0 else (if s[0] == v then 1 else 0) + CountOf(s[1..], v)
  }

  /** The sequence with every occurrence of `v` taken out, the rest in order. */
  function Without(s: seq<Bytes>, v: Bytes): (r: seq<Bytes>)
    ensures v !in r
    ensures |r| == |s| - CountOf(s, v)
  {
    if |s| == 0 then [] else (if s[0] == v then [] else [s[0]]) + Without(s[1..], v)
  }

  /** The walk from the head: removes the first `n` nodes equal to `v`. */
  function DropFirst(s: seq<Bytes>, v: Bytes, n: nat): (r: seq<Bytes>)
    ensures |r| == |s| - Min(n, CountOf(s, v))
    ensures CountOf(r, v) == CountOf(s, v) - Min(n, CountOf(s, v))
    ensures Without(r, v) == Without(s, v)
    ensures n >= CountOf(s, v) ==> r == Without(s, v)
  {
    if |s| == 0 || n == 0 then (WithoutNone(s, v); s)
    else if s[0] == v then DropFirst(s[1..], v, n - 1)
    else [s[0]] + DropFirst(s[1..], v, n)
  }

  /** The walk from the tail: removes the last `n` nodes equal to `v`. */
  function DropLast(s: seq<Bytes>, v: Bytes, n: nat): (r: seq<Bytes>)
    decreases |s|
  {
    if |s| == 0 || n == 0 then s
    else if s[|s| - 1] == v then DropLast(s[..|s| - 1], v, n - 1)
    else DropLast(s[..|s| - 1], v, n) + [s[|s| - 1]]
  }

  lemma {:induction false} WithoutNone(s: seq<Bytes>, v: Bytes)
    ensures CountOf(s, v) == 0 ==> Without(s, v) == s
  {
    if |s| > 0 { WithoutNone(s[1..], v); }
  }

  lemma {:induction false} ReverseSnoc<T>(s: seq<T>, x: T)
    ensures Reverse(s + [x]) == [x] + Reverse(s)
  {
  }

  lemma ReverseCons<T>(x: T, s: seq<T>)
    ensures Reverse([x] + s) == Reverse(s) + [x]
  {
  }

  lemma ReverseReverse<T>(s: seq<T>)
    ensures Reverse(Reverse(s)) == s
  {
  }

  lemma {:induction false} ReverseLast<T>(s: seq<T>)
    requires |s| > 0
    ensures Reverse(s) == [s[|s| - 1]] + Reverse(s[..|s| - 1])
  {
    assert s == s[..|s| - 1] + [s[|s| - 1]];
    ReverseSnoc(s[..|s| - 1], s[|s| - 1]);
  }

  /** Removing from the tail is removing from the head of the reversed list. */
  lemma {:induction false} DropLastMirror(s: seq<Bytes>, v: Bytes, n: nat)
    ensures DropLast(s, v, n) == Reverse(DropFirst(Reverse(s), v, n))
    decreases |s|
  {
    if |s| == 0 || n == 0 {
      ReverseReverse(s);
    } else {
      var init := s[..|s| - 1];
      var last := s[|s| - 1];
      DropFirstReversed(s, v, n);
      if last == v {
        DropLastMirror(init, v, n - 1);
      } else {
        DropLastMirror(init, v, n);
        ReverseCons(last, DropFirst(Reverse(init), v, n));
      }
    }
  }

  /** The head walk over the reversed list meets the last node first. */
  lemma DropFirstReversed(s: seq<Bytes>, v: Bytes, n: nat)
    requires |s| > 0 && n > 0
    ensures var init, last := s[..|s| - 1], s[|s| - 1];
            DropFirst(Reverse(s), v, n) ==
              if last == v then DropFirst(Reverse(init), v, n - 1) else [last] + DropFirst(Reverse(init), v, n)
  {
    var rs := Reverse(s);
    ReverseLast(s);
    assert rs[0] == s[|s| - 1] && rs[1..] == Reverse(s[..|s| - 1]);
  }

  lemma {:induction false} CountOfReverse(s: seq<Bytes>, v: Bytes)
    ensures CountOf(Reverse(s), v) == CountOf(s, v)
  {
    if |s| > 0 {
      CountOfReverse(s[1..], v);
      CountOfAppend(Reverse(s[1..]), [s[0]], v);
    }
  }

  lemma {:induction false} CountOfAppend(a: seq<Bytes>, b: seq<Bytes>, v: Bytes)
    ensures CountOf(a + b, v) == CountOf(a, v) + CountOf(b, v)
  {
    if |a| > 0 {
      assert (a + b)[0] == a[0];
      assert (a + b)[1..] == a[1..] + b;
      CountOfAppend(a[1..], b, v);
    } else {
      assert a + b == b;
    }
  }

  /**
    r is s with the occurrences of v in some prefix taken out, m of them,
    and the rest of s untouched.
   */
  predicate RemovedFromHead(s: seq<Bytes>, r: seq<Bytes>, v: Bytes, m: int)
  {
    exists p :: 0 <= p <= |s| && CountOf(s[..p], v) == m && r == Without(s[..p], v) + s[p..]
  }

  /**
    r is s with the occurrences of v in some suffix taken out, m of them,
    and the rest of s untouched.
   */
  predicate RemovedFromTail(s: seq<Bytes>, r: seq<Bytes>, v: Bytes, m: int)
  {
    exists p :: 0 <= p <= |s| && CountOf(s[p..], v) == m && r == s[..p] + Without(s[p..], v)
  }

  /** The head walk takes out the occurrences in a prefix holding min(n, all) of them. */
  lemma {:induction false} DropFirstSplit(s: seq<Bytes>, v: Bytes, n: nat) returns (p: int)
    ensures 0 <= p <= |s| && CountOf(s[..p], v) == Min(n, CountOf(s, v))
    ensures DropFirst(s, v, n) == Without(s[..p], v) + s[p..]
  {
    if |s| == 0 || n == 0 {
      p := 0;
      assert s[..0] == [] && s[0..] == s;
    } else {
      var q := DropFirstSplit(s[1..], v, if s[0] == v then n - 1 else n);
      p := q + 1;
      assert s[..p][0] == s[0] && s[..p][1..] == s[1..][..q];
      assert s[p..] == s[1..][q..];
    }
  }

  /** The tail walk takes out the occurrences in a suffix holding min(n, all) of them. */
  lemma {:induction false} DropLastSplit(s: seq<Bytes>, v: Bytes, n: nat) returns (p: int)
    ensures 0 <= p <= |s| && CountOf(s[p..], v) == Min(n, CountOf(s, v))
    ensures DropLast(s, v, n) == s[..p] + Without(s[p..], v)
    decreases |s|
  {
    if |s| == 0 || n == 0 {
      p := |s|;
      assert s[..p] == s && s[p..] == [];
    } else {
      var init, last := s[..|s| - 1], s[|s| - 1];
      var m := if last == v then n - 1 else n;
      assert s == init + [last];
      p := DropLastSplit(init, v, m);
      SnocSplit(init, last, v, p);
      assert DropLast(s, v, n) == DropLast(init, v, m) + (if last == v then [] else [last]);
    }
  }

  /** Splitting `init + [last]` at a position inside init. */
  lemma SnocSplit(init: seq<Bytes>, last: Bytes, v: Bytes, p: int)
    requires 0 <= p <= |init|
    ensures (init + [last])[..p] == init[..p] && (init + [last])[p..] == init[p..] + [last]
    ensures CountOf(init + [last], v) == CountOf(init, v) + (if last == v then 1 else 0)
    ensures CountOf(init[p..] + [last], v) == CountOf(init[p..], v) + (if last == v then 1 else 0)
    ensures Without(init[p..] + [last], v) == Without(init[p..], v) + (if last == v then [] else [last])
  {
    CountOfAppend(init, [last], v);
    CountOfAppend(init[p..], [last], v);
    WithoutAppend(init[p..], [last], v);
    assert CountOf([last], v) == (if last == v then 1 else 0);
    assert Without([last], v) == (if last == v then [] else [last]);
  }

  lemma DropFirstRemoved(s: seq<Bytes>, v: Bytes, n: nat)
    ensures RemovedFromHead(s, DropFirst(s, v, n), v, Min(n, CountOf(s, v)))
  {
    var p := DropFirstSplit(s, v, n);
  }

  lemma DropLastRemoved(s: seq<Bytes>, v: Bytes, n: nat)
    ensures RemovedFromTail(s, DropLast(s, v, n), v, Min(n, CountOf(s, v)))
  {
    var p := DropLastSplit(s, v, n);
  }

  /** How many nodes a removal with this count may take out. */
  function RemLimit(l: List, count: int): nat
  {
    if count == 0 then Len(l) else if count < 0 then -count else count
  }

  /** The list left after Lrem's walk. */
  function RemKeep(l: List, count: int, value: Bytes): seq<Bytes>
  {
    if count < 0 then DropLast(l.items, value, -count)
    else DropFirst(l.items, value, RemLimit(l, count))
  }

  /**
    remove dereferences `p.next` when unlinking a head node, which is nil
    for the sole remaining node: Lrem crashes exactly when its walk would
    empty a non-empty list.
   */
  predicate LremPanics(l: List, count: int, value: Bytes)
  {
    Len(l) > 0 && RemKeep(l, count, value) == []
  }

  datatype Removed = Removed(list: List, removed: nat)

  /**
    Lrem: count > 0 removes the first count occurrences, count < 0 the last
    |count|, count == 0 all of them; returns how many were removed.
   */
  function Lrem(l: List, count: int, value: Bytes): (r: Removed)
    requires !LremPanics(l, count, value)
    ensures r.removed == Min(RemLimit(l, count), CountOf(l.items, value))
    ensures Len(r.list) == Len(l) - r.removed
    ensures Without(r.list.items, value) == Without(l.items, value)
    ensures count == 0 ==> r.list.items == Without(l.items, value)
    ensures count > 0 ==> r.list.items == DropFirst(l.items, value, count)
    ensures count < 0 ==> r.list.items == Reverse(DropFirst(Reverse(l.items), value, -count))
    ensures count >= 0 ==> RemovedFromHead(l.items, r.list.items, value, r.removed)
    ensures count < 0 ==> RemovedFromTail(l.items, r.list.items, value, r.removed)
  {
    if count < 0 then RemoveFromTail(l, -count, value)
    else RemoveFromHead(l, RemLimit(l, count), value)
  }

  /** Lrem's walk from the head, taking out at most n nodes equal to the value. */
  function RemoveFromHead(l: List, n: nat, value: Bytes): (r: Removed)
    ensures r.removed == Min(n, CountOf(l.items, value))
    ensures Len(r.list) == Len(l) - r.removed
    ensures Without(r.list.items, value) == Without(l.items, value)
    ensures r.list.items == DropFirst(l.items, value, n)
    ensures RemovedFromHead(l.items, r.list.items, value, r.removed)
  {
    var keep := DropFirst(l.items, value, n);
    DropFirstRemoved(l.items, value, n);
    Removed(List(keep), Len(l) - |keep|)
  }

  /** Lrem's walk from the tail, taking out at most n nodes equal to the value. */
  function RemoveFromTail(l: List, n: nat, value: Bytes): (r: Removed)
    ensures r.removed == Min(n, CountOf(l.items, value))
    ensures Len(r.list) == Len(l) - r.removed
    ensures Without(r.list.items, value) == Without(l.items, value)
    ensures r.list.items == Reverse(DropFirst(Reverse(l.items), value, n))
    ensures RemovedFromTail(l.items, r.list.items, value, r.removed)
  {
    DropLastFacts(l.items, value, n);
    var keep := DropLast(l.items, value, n);
    DropLastRemoved(l.items, value, n);
    Removed(List(keep), Len(l) - |keep|)
  }

  /** The tail walk removes min(n, occurrences) nodes and keeps the others in order. */
  lemma DropLastFacts(s: seq<Bytes>, v: Bytes, n: nat)
    ensures DropLast(s, v, n) == Reverse(DropFirst(Reverse(s), v, n))
    ensures |DropLast(s, v, n)| == |s| - Min(n, CountOf(s, v))
    ensures Without(DropLast(s, v, n), v) == Without(s, v)
  {
    DropLastMirror(s, v, n);
    CountOfReverse(s, v);
    var d := DropFirst(Reverse(s), v, n);
    WithoutReverse(d, v);
    WithoutReverse(s, v);
    ReverseReverse(Without(s, v));
    assert Reverse(Without(d, v)) == Reverse(Reverse(Without(s, v)));
  }

  lemma {:induction false} WithoutAppend(a: seq<Bytes>, b: seq<Bytes>, v: Bytes)
    ensures Without(a + b, v) == Without(a, v) + Without(b, v)
  {
    if |a| > 0 {
      assert (a + b)[0] == a[0];
      assert (a + b)[1..] == a[1..] + b;
      WithoutAppend(a[1..], b, v);
    } else {
      assert a + b == b;
    }
  }

  lemma {:induction false} WithoutReverse(s: seq<Bytes>, v: Bytes)
    ensures Without(Reverse(s), v) == Reverse(Without(s, v))
  {
    if |s| > 0 {
      WithoutReverse(s[1..], v);
      WithoutAppend(Reverse(s[1..]), [s[0]], v);
      assert [s[0]][1..] == [];
      var h := if s[0] == v then [] else [s[0]];
      ReverseAppend(h, Without(s[1..], v));
    }
  }

  lemma {:induction false} ReverseAppend<T>(a: seq<T>, b: seq<T>)
    ensures Reverse(a + b) == Reverse(b) + Reverse(a)
  {
  }

  /** Lrem crashes exactly when every node equals the value and the count reaches all of them. */
  lemma LremPanicsIff(l: List, count: int, value: Bytes)
    ensures LremPanics(l, count, value) <==>
            Len(l) > 0 && CountOf(l.items, value) == Len(l) && RemLimit(l, count) >= Len(l)
  {
    if count < 0 {
      DropLastMirror(l.items, value, -count);
      CountOfReverse(l.items, value);
    }
  }

  // ---------------------------------------------------------------------
  // Ltrim and Lset
  // ---------------------------------------------------------------------

  /**
    Ltrim's scan stops at the node before the tail, so the node that starts
    the kept range is never found when that range starts at the last node
    (or the list is empty), and trim dereferences nil.
   */
  predicate LtrimPanics(l: List, start: int, stop: int)
  {
    var c := CheckBorder(l, start, stop);
    c.Ok? && (Len(l) == 0 || c.value.start == Len(l) - 1)
  }

  /**
    Ltrim: an empty window clears the list; otherwise exactly the window is
    kept.
   */
  function Ltrim(l: List, start: int, stop: int): (r: List)
    requires !LtrimPanics(l, start, stop)
    ensures CheckBorder(l, start, stop).Fail? ==> r == Empty
    ensures CheckBorder(l, start, stop).Ok? ==>
              r.items == Lrange(l, start, stop) &&
              Len(r) == CheckBorder(l, start, stop).value.stop - CheckBorder(l, start, stop).value.start + 1
  {
    match CheckBorder(l, start, stop)
    case Fail(_) => Empty
    case Ok(w) =>
      // the scan visits ranks 0 .. Len(l) - 2: a stop on the tail leaves `end` nil
      if w.stop <= Len(l) - 2 then List(l.items[w.start..w.stop + 1])
      else List(l.items[w.start..])
  }

  const IndexOutsideErr: Bytes := "index outside"

  /** Lset: replaces exactly the element at the normalised index. */
  function Lset(l: List, index: int, value: Bytes): (r: Result<List>)
    ensures r.Ok? <==> 0 <= index + Len(l) && index < Len(l)
    ensures r.Fail? ==> r.err == Msg(IndexOutsideErr)
    ensures r.Ok? ==> Len(r.value) == Len(l)
    ensures r.Ok? ==> forall k :: 0 <= k < Len(l) ==>
              r.value.items[k] == (if k == Normalise(index, Len(l)) then value else l.items[k])
  {
    var i := Normalise(index, Len(l));
    if i < 0 || i >= Len(l) then Fail(Msg(IndexOutsideErr))
    else Ok(List(l.items[i := value]))
  }

  /** Reading back the position just written, through Lrange, gives the new value. */
  lemma LsetLrange(l: List, index: int, value: Bytes)
    requires 0 <= index + Len(l) && index < Len(l)
    ensures Lrange(Lset(l, index, value).value, index, index) == [value]
  {
  }

  // ---------------------------------------------------------------------
  // Popping
  // ---------------------------------------------------------------------

  datatype Popped = Popped(list: List, values: seq<Option<Bytes>>)

  /** getHead: detaches the head; the sole remaining node is dropped with a nil result. */
  function GetHead(l: List): (List, Option<Bytes>)
  {
    if Len(l) == 0 then (l, None)
    else if Len(l) == 1 then (Empty, None)
    else (List(l.items[1..]), Some(l.items[0]))
  }

  /** getTail: detaches the tail; the sole remaining node is dropped with a nil result. */
  function GetTail(l: List): (List, Option<Bytes>)
  {
    if Len(l) == 0 then (l, None)
    else if Len(l) == 1 then (Empty, None)
    else (List(l.items[..Len(l) - 1]), Some(l.items[Len(l) - 1]))
  }

  function PopHeads(l: List, k: nat): (r: Popped)
    requires k <= Len(l)
    ensures r.list.items == l.items[k..]
    ensures |r.values| == k
    ensures forall i :: 0 <= i < k ==> r.values[i] == (if i == Len(l) - 1 then None else Some(l.items[i]))
    decreases k
  {
    if k == 0 then Popped(l, [])
    else
      var step := GetHead(l);
      assert Len(step.0) == Len(l) - 1;
      var rest := PopHeads(step.0, k - 1);
      assert forall i :: 0 < i < k ==> ([step.1] + rest.values)[i] == rest.values[i - 1];
      Popped(rest.list, [step.1] + rest.values)
  }

  function PopTails(l: List, k: nat): (r: Popped)
    requires k <= Len(l)
    ensures r.list.items == l.items[..Len(l) - k]
    ensures |r.values| == k
    ensures forall i :: 0 <= i < k ==> r.values[i] == (if i == Len(l) - 1 then None else Some(l.items[Len(l) - 1 - i]))
    decreases k
  {
    if k == 0 then Popped(l, [])
    else
      var step := GetTail(l);
      assert Len(step.0) == Len(l) - 1;
      var rest := PopTails(step.0, k - 1);
      assert forall i :: 0 < i < k ==> ([step.1] + rest.values)[i] == rest.values[i - 1];
      Popped(rest.list, [step.1] + rest.values)
  }

  /** How many entries a pop with this count returns (the source's `size`). */
  function PopSize(l: List, count: int): int
  {
    if count <= Len(l) then count else Len(l)
  }

  /**
    Lpop: min(count, length) entries from the head; the entry for the last
    remaining node is nil. A negative count makes `make` panic.
   */
  function Lpop(l: List, count: int): (r: Popped)
    requires count >= 0
    ensures |r.values| == Min(count, Len(l))
    ensures r.list.items == l.items[Min(count, Len(l))..]
    ensures forall i :: 0 <= i < |r.values| ==>
              r.values[i] == (if i == Len(l) - 1 then None else Some(l.items[i]))
  {
    PopHeads(l, PopSize(l, count))
  }

  /** Rpop: the mirror image of Lpop, reading from the tail. */
  function Rpop(l: List, count: int): (r: Popped)
    requires count >= 0
    ensures |r.values| == Min(count, Len(l))
    ensures r.list.items == l.items[..Len(l) - Min(count, Len(l))]
    ensures forall i :: 0 <= i < |r.values| ==>
              r.values[i] == (if i == Len(l) - 1 then None else Some(l.items[Len(l) - 1 - i]))
  {
    PopTails(l, PopSize(l, count))
  }

  /** Pushing values at the head of a non-empty list and popping as many gives them back reversed. */
  lemma LpushLpop(l: List, vs: seq<Bytes>)
    requires Len(l) > 0
    ensures Lpop(Lpush(l, vs), |vs|) == Popped(l, Somes(Reverse(vs)))
  {
    var r := Lpop(Lpush(l, vs), |vs|);
    assert (Reverse(vs) + l.items)[|vs|..] == l.items;
  }

  /** Pushing values at the tail of a non-empty list and popping as many from the tail gives them back reversed. */
  lemma RpushRpop(l: List, vs: seq<Bytes>)
    requires Len(l) > 0
    ensures Rpop(Rpush(l, vs), |vs|) == Popped(l, Somes(Reverse(vs)))
  {
    var p := Rpush(l, vs);
    TailPopped(p, l.items, vs, Rpop(p, |vs|));
  }

  /** What Rpop promises about popping |vs| entries off the tail of a + vs: a is left and vs comes back reversed. */
  lemma TailPopped(p: List, a: seq<Bytes>, vs: seq<Bytes>, r: Popped)
    requires p.items == a + vs && |a| > 0
    requires |r.values| == Min(|vs|, Len(p))
    requires r.list.items == p.items[..Len(p) - Min(|vs|, Len(p))]
    requires forall i :: 0 <= i < |r.values| ==>
               r.values[i] == (if i == Len(p) - 1 then None else Some(p.items[Len(p) - 1 - i]))
    ensures r == Popped(List(a), Somes(Reverse(vs)))
  {
    TailValues(p, a, vs, r.values);
    SomesReversed(vs, r.values);
    assert p.items[..|a|] == a;
  }

  /** Tail entries read off a + vs, as many as vs has, are the values of vs from its end. */
  lemma TailValues(p: List, a: seq<Bytes>, vs: seq<Bytes>, values: seq<Option<Bytes>>)
    requires p.items == a + vs && |a| > 0 && |values| == |vs|
    requires forall i :: 0 <= i < |values| ==>
               values[i] == (if i == Len(p) - 1 then None else Some(p.items[Len(p) - 1 - i]))
    ensures forall i :: 0 <= i < |vs| ==> values[i] == Some(vs[|vs| - 1 - i])
  {
    forall i | 0 <= i < |vs| ensures values[i] == Some(vs[|vs| - 1 - i]) {
      assert p.items[Len(p) - 1 - i] == vs[|vs| - 1 - i];
    }
  }

  /** Entries holding vs from its end are Somes(Reverse(vs)). */
  lemma SomesReversed(vs: seq<Bytes>, values: seq<Option<Bytes>>)
    requires |values| == |vs|
    requires forall i :: 0 <= i < |vs| ==> values[i] == Some(vs[|vs| - 1 - i])
    ensures values == Somes(Reverse(vs))
  {
    assert forall i :: 0 <= i < |vs| ==> values[i] == Somes(Reverse(vs))[i];
  }
}
