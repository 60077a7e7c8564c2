// The two merges of sorted iterators used by the trace generators:
// merge_join_by (pairs up equal elements) and merge_by (interleaves two
// sequences under a "take the left one first" predicate).

module Itertools {
  import opened Sorting

  /** One item of merge_join_by. */
  datatype EitherOrBoth = Left(l: int) | Both(l: int, r: int) | Right(r: int)

  /** EitherOrBoth::is_left: true only for the Left variant. */
  predicate IsLeft(e: EitherOrBoth)
  {
    e.Left?
  }

  /** EitherOrBoth::into_left: the left value, or the right one for Right. */
  function IntoLeft(e: EitherOrBoth): int
  {
    match e
    case Left(l) => l
    case Both(l, _) => l
    case Right(r) => r
  }

  /**
   * One `next()` of merge_join_by on a and b compared by value, with the
   * iterator positions i (into a) and j (into b) before and after.
   */
  function MergeJoinNext(a: seq<int>, b: seq<int>, i: nat, j: nat): (r: (EitherOrBoth, nat, nat))
    requires i <= |a| && j <= |b| && (i < |a| || j < |b|)
    ensures r.1 <= |a| && r.2 <= |b| && r.1 + r.2 > i + j
    ensures r.0.Left? ==> r.1 == i + 1 && r.2 == j && r.0.l == a[i]
    ensures r.0.Right? ==> r.1 == i && r.2 == j + 1 && r.0.r == b[j]
    ensures r.0.Both? ==> r.1 == i + 1 && r.2 == j + 1 && r.0.l == a[i] == b[j] == r.0.r
  {
    if i < |a| && j < |b| then
      if a[i] < b[j] then (Left(a[i]), i + 1, j)
      else if a[i] > b[j] then (Right(b[j]), i, j + 1)
      else (Both(a[i], b[j]), i + 1, j + 1)
    else if i < |a| then (Left(a[i]), i + 1, j)
    else (Right(b[j]), i, j + 1)
  }

  function MergeJoinFrom(a: seq<int>, b: seq<int>, i: nat, j: nat): seq<EitherOrBoth>
    requires i <= |a| && j <= |b|
    decreases |a| - i + |b| - j
  {
    if i == |a| && j == |b| then []
    else
      var (e, i', j') := MergeJoinNext(a, b, i, j);
      [e] + MergeJoinFrom(a, b, i', j')
  }

  /** All items of merge_join_by(a, b, cmp). */
  function MergeJoin(a: seq<int>, b: seq<int>): seq<EitherOrBoth>
  {
    MergeJoinFrom(a, b, 0, 0)
  }

  /** The values of the left iterator, in the order the items carry them. */
  function LeftValues(items: seq<EitherOrBoth>): seq<int>
  {
    if items == [] then []
    else (if items[0].Right? then [] else [items[0].l]) + LeftValues(items[1..])
  }

  /** The values of the right iterator, in the order the items carry them. */
  function RightValues(items: seq<EitherOrBoth>): seq<int>
  {
    if items == [] then []
    else (if items[0].Left? then [] else [items[0].r]) + RightValues(items[1..])
  }

  /** The value each item carries (into_left), in item order. */
  function Carried(items: seq<EitherOrBoth>): (r: seq<int>)
    ensures |r| == |items| && forall k :: 0 <= k < |items| ==> r[k] == IntoLeft(items[k])
  {
    seq(|items|, k requires 0 <= k < |items| => IntoLeft(items[k]))
  }

  lemma {:induction false} MergeJoinFromSides(a: seq<int>, b: seq<int>, i: nat, j: nat)
    requires i <= |a| && j <= |b|
    ensures LeftValues(MergeJoinFrom(a, b, i, j)) == a[i..]
    ensures RightValues(MergeJoinFrom(a, b, i, j)) == b[j..]
    decreases |a| - i + |b| - j
  {
    if i < |a| || j < |b| {
      var (e, i', j') := MergeJoinNext(a, b, i, j);
      MergeJoinFromSides(a, b, i', j');
      var items := MergeJoinFrom(a, b, i, j);
      assert items[0] == e && items[1..] == MergeJoinFrom(a, b, i', j');
      if e.Left? || e.Both? {
        assert a[i..] == [a[i]] + a[i'..];
      }
      if e.Right? || e.Both? {
        assert b[j..] == [b[j]] + b[j'..];
      }
    }
  }

  /** The smaller of the two current heads: the value the next item carries. */
  function MinHead(a: seq<int>, b: seq<int>, i: nat, j: nat): int
    requires i <= |a| && j <= |b| && (i < |a| || j < |b|)
  {
    if i < |a| && j < |b| then (if a[i] <= b[j] then a[i] else b[j])
    else if i < |a| then a[i]
    else b[j]
  }

  lemma {:induction false} MergeJoinFromBound(a: seq<int>, b: seq<int>, i: nat, j: nat)
    requires i <= |a| && j <= |b| && (i < |a| || j < |b|)
    requires Sorted(a) && Sorted(b)
    ensures IntoLeft(MergeJoinNext(a, b, i, j).0) == MinHead(a, b, i, j)
    ensures forall k :: 0 <= k < |MergeJoinFrom(a, b, i, j)| ==>
      MinHead(a, b, i, j) <= IntoLeft(MergeJoinFrom(a, b, i, j)[k])
    decreases |a| - i + |b| - j
  {
    var (e, i', j') := MergeJoinNext(a, b, i, j);
    var items := MergeJoinFrom(a, b, i, j);
    var rest := MergeJoinFrom(a, b, i', j');
    assert items == [e] + rest;
    if i' < |a| || j' < |b| {
      MergeJoinFromBound(a, b, i', j');
      assert MinHead(a, b, i, j) <= MinHead(a, b, i', j') by {
        if i' < |a| && i < |a| {
          assert a[i] <= a[i'];
        }
        if j' < |b| && j < |b| {
          assert b[j] <= b[j'];
        }
      }
      forall k | 0 <= k < |items|
        ensures MinHead(a, b, i, j) <= IntoLeft(items[k])
      {
        if k > 0 {
          assert items[k] == rest[k - 1];
        }
      }
    }
  }

  lemma {:induction false} MergeJoinFromSorted(a: seq<int>, b: seq<int>, i: nat, j: nat)
    requires i <= |a| && j <= |b|
    requires Sorted(a) && Sorted(b)
    ensures Sorted(Carried(MergeJoinFrom(a, b, i, j)))
    decreases |a| - i + |b| - j
  {
    if i < |a| || j < |b| {
      var (e, i', j') := MergeJoinNext(a, b, i, j);
      MergeJoinFromSorted(a, b, i', j');
      MergeJoinFromBound(a, b, i, j);
      var items := MergeJoinFrom(a, b, i, j);
      var rest := MergeJoinFrom(a, b, i', j');
      assert items == [e] + rest;
      var vs := Carried(items);
      var ws := Carried(rest);
      forall k1, k2 | 0 <= k1 < k2 < |vs|
        ensures vs[k1] <= vs[k2]
      {
        assert items[k2] == rest[k2 - 1];
        if k1 > 0 {
          assert items[k1] == rest[k1 - 1];
          assert ws[k1 - 1] <= ws[k2 - 1];
        }
      }
    }
  }

  /**
   * merge_join_by of two sorted inputs: the left values are exactly a, the
   * right values exactly b, and the carried values are non-decreasing.
   */
  lemma MergeJoinProps(a: seq<int>, b: seq<int>)
    requires Sorted(a) && Sorted(b)
    ensures LeftValues(MergeJoin(a, b)) == a
    ensures RightValues(MergeJoin(a, b)) == b
    ensures Sorted(Carried(MergeJoin(a, b)))
  {
    MergeJoinFromSides(a, b, 0, 0);
    MergeJoinFromSorted(a, b, 0, 0);
    assert a[0..] == a && b[0..] == b;
  }

  // ---------------------------------------------------------------------
  // merge_by
  // ---------------------------------------------------------------------

  /**
   * merge_by(a, b, isFirst): repeatedly take the head of a when
   * isFirst(head of a, head of b) holds, else the head of b.
   */
  function MergeBy<T>(a: seq<T>, b: seq<T>, isFirst: (T, T) -> bool): seq<T>
    decreases |a| + |b|
  {
    if a == [] then b
    else if b == [] then a
    else if isFirst(a[0], b[0]) then [a[0]] + MergeBy(a[1..], b, isFirst)
    else [b[0]] + MergeBy(a, b[1..], isFirst)
  }

  /** merge_by keeps every element of both inputs. */
  lemma {:induction false} MergeByPermutation<T>(a: seq<T>, b: seq<T>, isFirst: (T, T) -> bool)
    ensures multiset(MergeBy(a, b, isFirst)) == multiset(a) + multiset(b)
    ensures |MergeBy(a, b, isFirst)| == |a| + |b|
    decreases |a| + |b|
  {
    MergeByMultiset(a, b, isFirst);
    assert |multiset(MergeBy(a, b, isFirst))| == |multiset(a) + multiset(b)|;
  }

  lemma {:induction false} MergeByMultiset<T>(a: seq<T>, b: seq<T>, isFirst: (T, T) -> bool)
    ensures multiset(MergeBy(a, b, isFirst)) == multiset(a) + multiset(b)
    decreases |a| + |b|
  {
    if a == [] || b == [] {
    } else if isFirst(a[0], b[0]) {
      MergeByMultiset(a[1..], b, isFirst);
      TakeFirstMultiset(a, b, isFirst);
    } else {
      MergeByMultiset(a, b[1..], isFirst);
      TakeSecondMultiset(a, b, isFirst);
    }
  }

  lemma TakeFirstMultiset<T>(a: seq<T>, b: seq<T>, isFirst: (T, T) -> bool)
    requires a != [] && b != [] && isFirst(a[0], b[0])
    ensures multiset(MergeBy(a, b, isFirst)) == multiset{a[0]} + multiset(MergeBy(a[1..], b, isFirst))
    ensures multiset(a) == multiset{a[0]} + multiset(a[1..])
  {
    assert MergeBy(a, b, isFirst) == [a[0]] + MergeBy(a[1..], b, isFirst);
    assert a == [a[0]] + a[1..];
  }

  lemma TakeSecondMultiset<T>(a: seq<T>, b: seq<T>, isFirst: (T, T) -> bool)
    requires a != [] && b != [] && !isFirst(a[0], b[0])
    ensures multiset(MergeBy(a, b, isFirst)) == multiset{b[0]} + multiset(MergeBy(a, b[1..], isFirst))
    ensures multiset(b) == multiset{b[0]} + multiset(b[1..])
  {
    assert MergeBy(a, b, isFirst) == [b[0]] + MergeBy(a, b[1..], isFirst);
    assert b == [b[0]] + b[1..];
  }

  /**
   * When both inputs are sorted by `key` and `isFirst` agrees with
   * comparing keys, the merge is sorted by `key`.
   */
  lemma {:induction false} MergeBySorted<T>(a: seq<T>, b: seq<T>, isFirst: (T, T) -> bool, key: T -> int)
    requires SortedBy(a, key) && SortedBy(b, key)
    requires forall x, y :: isFirst(x, y) ==> key(x) <= key(y)
    requires forall x, y :: !isFirst(x, y) ==> key(y) <= key(x)
    ensures SortedBy(MergeBy(a, b, isFirst), key)
    decreases |a| + |b|
  {
    if a == [] || b == [] {
    } else if isFirst(a[0], b[0]) {
      SortedByTail(a, key);
      MergeBySorted(a[1..], b, isFirst, key);
      MergeByPermutation(a[1..], b, isFirst);
      var m := MergeBy(a[1..], b, isFirst);
      forall e | e in m
        ensures key(a[0]) <= key(e)
      {
        assert e in multiset(m);
        if e in multiset(a[1..]) {
          var k :| 0 <= k < |a[1..]| && a[1..][k] == e;
          assert a[k + 1] == e;
        } else {
          assert e in multiset(b);
          var k :| 0 <= k < |b| && b[k] == e;
          assert k == 0 || key(b[0]) <= key(b[k]);
        }
      }
      SortedCons(a[0], m, key);
    } else {
      SortedByTail(b, key);
      MergeBySorted(a, b[1..], isFirst, key);
      MergeByPermutation(a, b[1..], isFirst);
      var m := MergeBy(a, b[1..], isFirst);
      forall e | e in m
        ensures key(b[0]) <= key(e)
      {
        assert e in multiset(m);
        if e in multiset(b[1..]) {
          var k :| 0 <= k < |b[1..]| && b[1..][k] == e;
          assert b[k + 1] == e;
        } else {
          assert e in multiset(a);
          var k :| 0 <= k < |a| && a[k] == e;
          assert k == 0 || key(a[0]) <= key(a[k]);
        }
      }
      SortedCons(b[0], m, key);
    }
  }

  lemma SortedByTail<T>(s: seq<T>, key: T -> int)
    requires SortedBy(s, key) && s != []
    ensures SortedBy(s[1..], key)
  {
    forall i, j | 0 <= i < j < |s[1..]|
      ensures key(s[1..][i]) <= key(s[1..][j])
    {
      assert s[1..][i] == s[i + 1] && s[1..][j] == s[j + 1];
    }
  }
}
