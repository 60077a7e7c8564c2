// Stable sorting by an integer key (Rust's sort_by_key / sorted_by_key and,
// for plain values, sorted / sorted_unstable, whose result is unique).

module Sorting {

  predicate SortedBy<T>(s: seq<T>, key: T -> int)
  {
    forall i, j :: 0 <= i < j < |s| ==> key(s[i]) <= key(s[j])
  }

  predicate Sorted(s: seq<int>)
  {
    forall i, j :: 0 <= i < j < |s| ==> s[i] <= s[j]
  }

  /** Insert x before the first element whose key is not smaller. */
  function InsertBy<T>(x: T, s: seq<T>, key: T -> int): seq<T>
  {
    if s == [] || key(x) <= key(s[0]) then [x] + s
    else [s[0]] + InsertBy(x, s[1..], key)
  }

  /** Insertion sort; elements with equal keys keep their input order. */
  function SortBy<T>(s: seq<T>, key: T -> int): seq<T>
  {
    if s == [] then [] else InsertBy(s[0], SortBy(s[1..], key), key)
  }

  /** The elements of s whose key is v, in order. */
  function WithKey<T>(s: seq<T>, key: T -> int, v: int): seq<T>
  {
    if s == [] then []
    else (if key(s[0]) == v then [s[0]] else []) + WithKey(s[1..], key, v)
  }

  lemma SortedCons<T>(h: T, t: seq<T>, key: T -> int)
    requires SortedBy(t, key)
    requires forall e | e in t :: key(h) <= key(e)
    ensures SortedBy([h] + t, key)
  {
    forall i, j | 0 <= i < j < |[h] + t|
      ensures key(([h] + t)[i]) <= key(([h] + t)[j])
    {
      assert ([h] + t)[j] == t[j - 1];
      if i > 0 {
        assert ([h] + t)[i] == t[i - 1];
      }
    }
  }

  lemma {:induction false} InsertByProps<T>(x: T, s: seq<T>, key: T -> int)
    requires SortedBy(s, key)
    ensures SortedBy(InsertBy(x, s, key), key)
    ensures multiset(InsertBy(x, s, key)) == multiset(s) + multiset{x}
    ensures |InsertBy(x, s, key)| == |s| + 1
  {
    if s == [] || key(x) <= key(s[0]) {
      forall e | e in s
        ensures key(x) <= key(e)
      {
        var m :| 0 <= m < |s| && s[m] == e;
        assert key(s[0]) <= key(s[m]) || m == 0;
      }
      SortedCons(x, s, key);
    } else {
      var rest := s[1..];
      assert SortedBy(rest, key) by {
        forall i, j | 0 <= i < j < |rest|
          ensures key(rest[i]) <= key(rest[j])
        {
          assert rest[i] == s[i + 1] && rest[j] == s[j + 1];
        }
      }
      InsertByProps(x, rest, key);
      var t := InsertBy(x, rest, key);
      assert s == [s[0]] + rest;
      forall e | e in t
        ensures key(s[0]) <= key(e)
      {
        assert e in multiset(t);
        if e != x {
          assert e in multiset(rest);
          var m :| 0 <= m < |rest| && rest[m] == e;
          assert s[m + 1] == e;
        }
      }
      SortedCons(s[0], t, key);
    }
  }

  /** SortBy yields a key-sorted permutation of its input. */
  lemma {:induction false} SortByProps<T>(s: seq<T>, key: T -> int)
    ensures SortedBy(SortBy(s, key), key)
    ensures multiset(SortBy(s, key)) == multiset(s)
    ensures |SortBy(s, key)| == |s|
  {
    if s != [] {
      SortByProps(s[1..], key);
      InsertByProps(s[0], SortBy(s[1..], key), key);
      assert s == [s[0]] + s[1..];
    }
  }

  lemma {:induction false} WithKeyAppend<T>(a: seq<T>, b: seq<T>, key: T -> int, v: int)
    ensures WithKey(a + b, key, v) == WithKey(a, key, v) + WithKey(b, key, v)
  {
    if a != [] {
      assert (a + b)[1..] == a[1..] + b;
      WithKeyAppend(a[1..], b, key, v);
    } else {
      assert a + b == b;
    }
  }

  lemma {:induction false} InsertByWithKey<T>(x: T, s: seq<T>, key: T -> int, v: int)
    ensures WithKey(InsertBy(x, s, key), key, v) == WithKey([x], key, v) + WithKey(s, key, v)
  {
    WithKeyAppend([x], s, key, v);
    if s == [] || key(x) <= key(s[0]) {
    } else {
      InsertByWithKey(x, s[1..], key, v);
      WithKeyAppend([s[0]], InsertBy(x, s[1..], key), key, v);
      WithKeyAppend([s[0]], s[1..], key, v);
      assert s == [s[0]] + s[1..];
      assert ([s[0]] + InsertBy(x, s[1..], key))[1..] == InsertBy(x, s[1..], key);
    }
  }

  /**
   * Stability: for every key value the elements carrying it appear in the
   * sorted output in the same order as in the input.
   */
  lemma {:induction false} SortByStable<T>(s: seq<T>, key: T -> int, v: int)
    ensures WithKey(SortBy(s, key), key, v) == WithKey(s, key, v)
  {
    if s != [] {
      SortByStable(s[1..], key, v);
      InsertByWithKey(s[0], SortBy(s[1..], key), key, v);
      WithKeyAppend([s[0]], s[1..], key, v);
      assert s == [s[0]] + s[1..];
    }
  }

  function Id(x: int): int
  {
    x
  }

  /** Ascending sort of plain values (sorted / sorted_unstable_by_key on the value). */
  function Sort(s: seq<int>): (r: seq<int>)
    ensures Sorted(r) && multiset(r) == multiset(s) && |r| == |s|
  {
    SortByProps(s, Id);
    SortBy(s, Id)
  }

  lemma SortedHeadIsMin(a: seq<int>, x: int)
    requires Sorted(a) && x in a
    ensures a[0] <= x
  {
    var m :| 0 <= m < |a| && a[m] == x;
    assert m == 0 || a[0] <= a[m];
  }

  lemma SortedTail(a: seq<int>)
    requires Sorted(a) && a != []
    ensures Sorted(a[1..])
  {
    forall i, j | 0 <= i < j < |a[1..]|
      ensures a[1..][i] <= a[1..][j]
    {
      assert a[1..][i] == a[i + 1] && a[1..][j] == a[j + 1];
    }
  }

  /** Two sorted sequences with the same elements are equal. */
  lemma {:induction false} SortedUnique(a: seq<int>, b: seq<int>)
    requires Sorted(a) && Sorted(b) && multiset(a) == multiset(b)
    ensures a == b
    decreases |a|
  {
    assert |a| == |multiset(a)| == |multiset(b)| == |b|;
    if a != [] {
      assert a[0] in multiset(b) && b[0] in multiset(a);
      SortedHeadIsMin(a, b[0]);
      SortedHeadIsMin(b, a[0]);
      assert a == [a[0]] + a[1..];
      assert b == [b[0]] + b[1..];
      assert a[0] == b[0];
      assert multiset(a[1..]) == multiset(a) - multiset{a[0]};
      assert multiset(b[1..]) == multiset(b) - multiset{b[0]};
      SortedTail(a);
      SortedTail(b);
      SortedUnique(a[1..], b[1..]);
    }
  }

  /** Sorting depends only on the multiset of values. */
  lemma SortOfPermutation(a: seq<int>, b: seq<int>)
    requires multiset(a) == multiset(b)
    ensures Sort(a) == Sort(b)
  {
    SortedUnique(Sort(a), Sort(b));
  }
}
