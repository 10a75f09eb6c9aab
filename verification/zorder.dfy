/**
  The elements of a sorted set and their order: by score, then by member,
  with members compared as Go compares strings (byte by byte).
 */
module ZOrder {
  import opened Base

  /** An entry of the sorted set (the skiplist's Element). */
  datatype Element = Element(member: Bytes, score: real)

  /** Go's `<` on strings: lexicographic on bytes, a proper prefix first. */
  predicate StrLess(a: Bytes, b: Bytes)
    decreases |a|
  {
    if |a| == 0 then |b| > 0
    else if |b| == 0 then false
    else if a[0] != b[0] then a[0] < b[0]
    else StrLess(a[1..], b[1..])
  }

  /** The skiplist's order: `(score, member)` lexicographically. */
  predicate ElemLess(a: Element, b: Element)
  {
    a.score < b.score || (a.score == b.score && StrLess(a.member, b.member))
  }

  /** Strictly ascending: the level-0 chain of a skiplist. */
  predicate Sorted(s: seq<Element>)
  {
    forall i, j :: 0 <= i < j < |s| ==> ElemLess(s[i], s[j])
  }

  /** No member occurs twice: what the sorted set's dict guarantees of its skiplist. */
  predicate UniqueMembers(s: seq<Element>)
  {
    forall i, j :: 0 <= i < |s| && 0 <= j < |s| && s[i].member == s[j].member ==> i == j
  }

  lemma {:induction false} StrLessIrreflexive(a: Bytes)
    ensures !StrLess(a, a)
    decreases |a|
  {
    if |a| > 0 { StrLessIrreflexive(a[1..]); }
  }

  lemma {:induction false} StrLessTransitive(a: Bytes, b: Bytes, c: Bytes)
    requires StrLess(a, b) && StrLess(b, c)
    ensures StrLess(a, c)
    decreases |a|
  {
    if |a| > 0 && |b| > 0 && |c| > 0 && a[0] == b[0] && b[0] == c[0] {
      StrLessTransitive(a[1..], b[1..], c[1..]);
    }
  }

  lemma {:induction false} StrLessTotal(a: Bytes, b: Bytes)
    ensures a == b || StrLess(a, b) || StrLess(b, a)
    decreases |a|
  {
    if |a| > 0 && |b| > 0 && a[0] == b[0] {
      StrLessTotal(a[1..], b[1..]);
      if a[1..] == b[1..] {
        assert a == [a[0]] + a[1..] && b == [b[0]] + b[1..];
      }
    }
  }

  lemma StrLessAsymmetric(a: Bytes, b: Bytes)
    ensures !(StrLess(a, b) && StrLess(b, a))
  {
    if StrLess(a, b) && StrLess(b, a) {
      StrLessTransitive(a, b, a);
      StrLessIrreflexive(a);
    }
  }

  /** ElemLess is a strict total order on elements. */
  lemma ElemLessOrder(a: Element, b: Element, c: Element)
    ensures !ElemLess(a, a)
    ensures ElemLess(a, b) && ElemLess(b, c) ==> ElemLess(a, c)
    ensures a == b || ElemLess(a, b) || ElemLess(b, a)
    ensures !(ElemLess(a, b) && ElemLess(b, a))
  {
    StrLessIrreflexive(a.member);
    StrLessAsymmetric(a.member, b.member);
    StrLessTotal(a.member, b.member);
    if ElemLess(a, b) && ElemLess(b, c) && a.score == b.score && b.score == c.score {
      StrLessTransitive(a.member, b.member, c.member);
    }
  }

  /** Sortedness follows from ordered neighbours. */
  lemma {:induction false} SortedFromAdjacent(s: seq<Element>)
    requires forall i :: 0 <= i < |s| - 1 ==> ElemLess(s[i], s[i + 1])
    ensures Sorted(s)
    decreases |s|
  {
    if |s| > 1 {
      SortedFromAdjacent(s[1..]);
      forall j | 1 <= j < |s| ensures ElemLess(s[0], s[j]) {
        if j > 1 {
          ElemLessOrder(s[0], s[1], s[j]);
        }
      }
    }
  }

  /** In a sorted sequence an element occurs at most once. */
  lemma SortedDistinct(s: seq<Element>, i: int, j: int)
    requires Sorted(s) && 0 <= i < |s| && 0 <= j < |s| && s[i] == s[j]
    ensures i == j
  {
    if i < j || j < i {
      ElemLessOrder(s[i], s[j], s[j]);
    }
  }

  /** In a sorted sequence positions are ordered as their elements, both ways. */
  lemma SortedPositions(s: seq<Element>, i: int, j: int)
    requires Sorted(s) && 0 <= i < |s| && 0 <= j < |s|
    ensures ElemLess(s[i], s[j]) <==> i < j
  {
    ElemLessOrder(s[i], s[j], s[j]);
  }
}
