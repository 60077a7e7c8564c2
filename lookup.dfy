// The Halo2-style permutation lookup: the constraints that tie a permuted
// input column A' to a permuted table column S', and the two routines that
// compute (A', S') from an input column and a table column.

module Lookup {
  import opened Field
  import opened Expr
  import opened Sorting
  import opened Itertools
  import opened Wrappers

  // ---------------------------------------------------------------------
  // eval_lookups
  // ---------------------------------------------------------------------

  /**
   * eval_lookups: on every row (A'_next - A'_local) * (A'_next - S'_next),
   * and on the last row, whose next row is the first, A'_next - S'_next.
   */
  function EvalLookups(lv: seq<Felt>, nv: seq<Felt>, colPermutedInput: nat, colPermutedTable: nat): seq<Yield>
    requires colPermutedInput < |lv| && colPermutedInput < |nv| && colPermutedTable < |nv|
  {
    var localPermInput: int := lv[colPermutedInput];
    var nextPermTable: int := nv[colPermutedTable];
    var nextPermInput: int := nv[colPermutedInput];
    var diffInputPrev := nextPermInput - localPermInput;
    var diffInputTable := nextPermInput - nextPermTable;
    [Yield(Always, diffInputPrev * diffInputTable), Yield(LastRow, diffInputTable)]
  }

  /**
   * The lookup constraints hold at a row exactly when the next permuted
   * input repeats the local one or equals the next permuted table value,
   * and, on the last row, when the first row's two values are equal.
   */
  lemma EvalLookupsMeaning(lv: seq<Felt>, nv: seq<Felt>, ci: nat, ct: nat, isFirst: bool, isLast: bool)
    requires PrimeModulus()
    requires ci < |lv| && ci < |nv| && ct < |nv|
    ensures AllHold(EvalLookups(lv, nv, ci, ct), isFirst, isLast) <==>
      (nv[ci] == lv[ci] || nv[ci] == nv[ct]) && (isLast ==> nv[ci] == nv[ct])
  {
    var ys := EvalLookups(lv, nv, ci, ct);
    var dPrev := nv[ci] as int - lv[ci] as int;
    var dTable := nv[ci] as int - nv[ct] as int;
    IsZeroSmall(dPrev);
    IsZeroSmall(dTable);
    if IsZero(dPrev * dTable) {
      ZeroProduct(dPrev, dTable);
    }
    if dPrev == 0 || dTable == 0 {
      assert dPrev * dTable == 0;
    }
    assert AllHold(ys, isFirst, isLast) <==> HoldsAt(ys[0], isFirst, isLast) && HoldsAt(ys[1], isFirst, isLast);
  }

  /** One row of a two-column lookup table: the permuted input and table values. */
  datatype LookupPair = LookupPair(input: Felt, table: Felt)

  function PairConstraints(lv: LookupPair, nv: LookupPair): seq<Yield>
  {
    EvalLookups([lv.input, lv.table], [nv.input, nv.table], 0, 1)
  }

  function Pairs(a: seq<Felt>, s: seq<Felt>): (r: seq<LookupPair>)
    requires |a| == |s|
    ensures |r| == |a| && forall k :: 0 <= k < |a| ==> r[k] == LookupPair(a[k], s[k])
  {
    seq(|a|, k requires 0 <= k < |a| => LookupPair(a[k], s[k]))
  }

  /**
   * The condition the lookup constraints impose on (A', S'): the first
   * values agree, and every later A' value repeats its predecessor or
   * equals the S' value beside it.
   */
  predicate LookupCondition(a: seq<int>, s: seq<int>)
    requires |a| == |s|
  {
    |a| > 0 ==> a[0] == s[0] && forall k :: 1 <= k < |a| ==> a[k] == a[k - 1] || a[k] == s[k]
  }

  /** What the lookup constraints demand at row k of a two-column trace. */
  predicate RowCondition(a: seq<int>, s: seq<int>, k: nat)
    requires |a| == |s| && k < |a|
  {
    var k' := (k + 1) % |a|;
    (a[k'] == a[k] || a[k'] == s[k']) && (k == |a| - 1 ==> a[k'] == s[k'])
  }

  lemma LookupRowMeaning(a: seq<Felt>, s: seq<Felt>, k: nat)
    requires PrimeModulus()
    requires |a| == |s| && k < |a|
    ensures AllHold(PairConstraints(Pairs(a, s)[k], NextRow(Pairs(a, s), k)), k == 0, k == |a| - 1)
      <==> RowCondition(a, s, k)
  {
    var k' := (k + 1) % |a|;
    assert NextRow(Pairs(a, s), k) == LookupPair(a[k'], s[k']);
    EvalLookupsMeaning([a[k], s[k]], [a[k'], s[k']], 0, 1, k == 0, k == |a| - 1);
  }

  lemma RowsGiveCondition(a: seq<int>, s: seq<int>)
    requires |a| == |s|
    requires forall k :: 0 <= k < |a| ==> RowCondition(a, s, k)
    ensures LookupCondition(a, s)
  {
    var n := |a|;
    if n > 0 {
      assert RowCondition(a, s, n - 1);
      assert (n - 1 + 1) % n == 0;
      forall k | 1 <= k < n
        ensures a[k] == a[k - 1] || a[k] == s[k]
      {
        assert RowCondition(a, s, k - 1);
        assert (k - 1 + 1) % n == k;
      }
    }
  }

  lemma ConditionGivesRows(a: seq<int>, s: seq<int>)
    requires |a| == |s| && LookupCondition(a, s)
    ensures forall k :: 0 <= k < |a| ==> RowCondition(a, s, k)
  {
    var n := |a|;
    forall k | 0 <= k < n
      ensures RowCondition(a, s, k)
    {
      if k < n - 1 {
        assert (k + 1) % n == k + 1;
      } else {
        assert (k + 1) % n == 0;
      }
    }
  }

  /** A two-column trace satisfies eval_lookups exactly under LookupCondition. */
  lemma LookupTraceMeaning(a: seq<Felt>, s: seq<Felt>)
    requires PrimeModulus()
    requires |a| == |s|
    ensures TraceSatisfies(Pairs(a, s), PairConstraints) <==> LookupCondition(a, s)
  {
    forall k | 0 <= k < |a|
      ensures AllHold(PairConstraints(Pairs(a, s)[k], NextRow(Pairs(a, s), k)), k == 0, k == |a| - 1)
        <==> RowCondition(a, s, k)
    {
      LookupRowMeaning(a, s, k);
    }
    if TraceSatisfies(Pairs(a, s), PairConstraints) {
      RowsGiveCondition(a, s);
    }
    if LookupCondition(a, s) {
      ConditionGivesRows(a, s);
    }
  }

  lemma {:induction false} LookupConditionInTable(a: seq<int>, s: seq<int>, k: nat)
    requires |a| == |s| && LookupCondition(a, s) && k < |a|
    ensures a[k] in s
  {
    if k > 0 && a[k] == a[k - 1] {
      LookupConditionInTable(a, s, k - 1);
    }
  }

  /**
   * Soundness of the lookup argument: if (A', S') satisfy the constraints,
   * A' is a permutation of the input and S' one of the table, then every
   * input value occurs in the table.
   */
  lemma LookupSound(input: seq<Felt>, table: seq<Felt>, a: seq<Felt>, s: seq<Felt>)
    requires PrimeModulus()
    requires |a| == |s|
    requires multiset(a) == multiset(input) && multiset(s) == multiset(table)
    requires TraceSatisfies(Pairs(a, s), PairConstraints)
    ensures forall x :: x in input ==> x in table
  {
    LookupTraceMeaning(a, s);
    forall x | x in input
      ensures x in table
    {
      assert x in multiset(a);
      var k :| 0 <= k < |a| && a[k] == x;
      LookupConditionInTable(a, s, k);
      assert x in multiset(s);
    }
  }

  // ---------------------------------------------------------------------
  // Shared vocabulary for the two permutation routines
  // ---------------------------------------------------------------------

  /** Row k of a sorted column starts a new run of equal values. */
  predicate IsNew(a: seq<int>, k: nat)
    requires k < |a|
  {
    k == 0 || a[k] != a[k - 1]
  }

  /** c copies of x. */
  function Copies(x: int, c: nat): multiset<int>
  {
    multiset{}[x := c]
  }

  function Range(lo: nat, hi: nat): (r: seq<nat>)
    requires lo <= hi
    ensures |r| == hi - lo && forall k :: 0 <= k < |r| ==> r[k] == lo + k
  {
    seq(hi - lo, k requires 0 <= k < hi - lo => lo + k)
  }

  predicate Increasing(xs: seq<nat>)
  {
    forall k1, k2 :: 0 <= k1 < k2 < |xs| ==> xs[k1] < xs[k2]
  }

  lemma MultisetUpdate(s: seq<int>, i: nat, v: int)
    requires i < |s|
    ensures multiset(s[i := v]) == multiset(s) - multiset{s[i]} + multiset{v}
  {
    assert s == s[..i] + [s[i]] + s[i + 1..];
    assert s[i := v] == s[..i] + [v] + s[i + 1..];
  }

  // ---------------------------------------------------------------------
  // permute_cols: the while loop over both sorted columns
  // ---------------------------------------------------------------------

  /**
   * The loop state of permute_cols: positions i (input) and j (table), the
   * queue of table values not yet placed, the queue of rows still waiting
   * for a table value, and the permuted table column being filled.
   */
  datatype Walk = Walk(i: nat, j: nat, unusedVals: seq<int>, unusedInds: seq<nat>, permuted: seq<int>)

  /** One iteration of the while loop. */
  function WalkStep(a: seq<int>, s: seq<int>, n: nat, w: Walk): (r: Walk)
    requires n <= |a| && n <= |s| && w.i < n && w.j < n && |w.permuted| == n
    ensures |r.permuted| == n && r.i <= n && r.j <= n && r.i + r.j > w.i + w.j
  {
    if a[w.i] > s[w.j] then
      w.(unusedVals := w.unusedVals + [s[w.j]], j := w.j + 1)
    else if a[w.i] < s[w.j] then
      if |w.unusedVals| > 0 then
        w.(permuted := w.permuted[w.i := w.unusedVals[0]], unusedVals := w.unusedVals[1..], i := w.i + 1)
      else
        w.(unusedInds := w.unusedInds + [w.i], i := w.i + 1)
    else
      w.(permuted := w.permuted[w.i := s[w.j]], i := w.i + 1, j := w.j + 1)
  }

  /** Run the while loop to its end (i == n or j == n). */
  function WalkFrom(a: seq<int>, s: seq<int>, n: nat, w: Walk): (r: Walk)
    requires n <= |a| && n <= |s| && w.i <= n && w.j <= n && |w.permuted| == n
    ensures r.i <= n && r.j <= n && (r.i == n || r.j == n) && |r.permuted| == n
    decreases 2 * n - w.i - w.j
  {
    if w.i < n && w.j < n then WalkFrom(a, s, n, WalkStep(a, s, n, w)) else w
  }

  function InitialWalk(n: nat): Walk
  {
    Walk(0, 0, [], [], seq(n, _ => 0))
  }

  /**
   * The zip_eq loop: write vals[k] at row inds[k], in order. (The walk
   * always hands it queues of equal length with indices in range; the
   * guards only keep the function total.)
   */
  function Fill(perm: seq<int>, inds: seq<nat>, vals: seq<int>): (r: seq<int>)
    ensures |r| == |perm|
    decreases |inds|
  {
    if inds == [] || vals == [] then perm
    else Fill(if inds[0] < |perm| then perm[inds[0] := vals[0]] else perm, inds[1..], vals[1..])
  }

  /** What the loop keeps true about its state. */
  predicate WalkInv(a: seq<int>, s: seq<int>, n: nat, w: Walk)
    requires |a| == n && n <= |s|
  {
    && w.i <= n && w.j <= n && |w.permuted| == n
    && |w.unusedInds| + w.j == |w.unusedVals| + w.i
    && Increasing(w.unusedInds)
    && (forall k :: 0 <= k < |w.unusedInds| ==> w.unusedInds[k] < w.i && w.permuted[w.unusedInds[k]] == 0)
    && (forall x :: w.i <= x < n ==> w.permuted[x] == 0)
    && WalkCount(s, n, w)
    && WalkAhead(a, s, n, w)
    && WalkPlaced(a, s, n, w)
  }

  lemma WalkInvInit(a: seq<int>, s: seq<int>, n: nat)
    requires |a| == n && n <= |s|
    ensures WalkInv(a, s, n, InitialWalk(n))
  {
    var w := InitialWalk(n);
    assert s[..0] == [];
    assert multiset(w.permuted) == Copies(0, n) by {
      MultisetOfZeros(n);
    }
  }

  lemma {:induction false} MultisetOfZeros(n: nat)
    ensures multiset(seq(n, _ => 0)) == Copies(0, n)
  {
    if n > 0 {
      MultisetOfZeros(n - 1);
      assert seq(n, _ => 0) == seq(n - 1, _ => 0) + [0];
    }
  }

  lemma WalkStepShape(a: seq<int>, s: seq<int>, n: nat, w: Walk)
    requires |a| == n && n <= |s| && WalkInv(a, s, n, w) && w.i < n && w.j < n
    ensures var r := WalkStep(a, s, n, w);
      && r.i <= n && r.j <= n && |r.permuted| == n
      && |r.unusedInds| + r.j == |r.unusedVals| + r.i
      && Increasing(r.unusedInds)
      && (forall k :: 0 <= k < |r.unusedInds| ==> r.unusedInds[k] < r.i && r.permuted[r.unusedInds[k]] == 0)
      && (forall x :: r.i <= x < n ==> r.permuted[x] == 0)
  {
  }

  /** The counting part of the loop invariant: values placed or queued, against zeros. */
  predicate WalkCount(s: seq<int>, n: nat, w: Walk)
    requires w.i <= n && w.j <= |s|
  {
    multiset(w.permuted) + multiset(w.unusedVals) == multiset(s[..w.j]) + Copies(0, |w.unusedInds| + n - w.i)
  }

  lemma CountPushVal(s: seq<int>, n: nat, w: Walk)
    requires w.i <= n && w.j < |s| && WalkCount(s, n, w)
    ensures WalkCount(s, n, w.(unusedVals := w.unusedVals + [s[w.j]], j := w.j + 1))
  {
    var c := |w.unusedInds| + n - w.i;
    assert s[..w.j + 1] == s[..w.j] + [s[w.j]];
    AddToBoth(multiset(w.permuted), multiset(w.unusedVals), multiset(s[..w.j]), Copies(0, c), s[w.j]);
  }

  lemma CountPopVal(s: seq<int>, n: nat, w: Walk)
    requires w.i < n && w.j <= |s| && |w.permuted| == n && w.permuted[w.i] == 0 && |w.unusedVals| > 0
    requires WalkCount(s, n, w)
    ensures WalkCount(s, n, w.(permuted := w.permuted[w.i := w.unusedVals[0]], unusedVals := w.unusedVals[1..], i := w.i + 1))
  {
    var v := w.unusedVals[0];
    var rest := w.unusedVals[1..];
    assert w.unusedVals == [v] + rest;
    assert multiset(w.permuted) + multiset(rest) + multiset{v} == multiset(w.permuted) + multiset(w.unusedVals);
    PlaceFromQueue(w.permuted, w.i, multiset(rest), v, multiset(s[..w.j]), |w.unusedInds| + n - w.i);
  }

  lemma CountPushInd(s: seq<int>, n: nat, w: Walk)
    requires w.i < n && w.j <= |s| && WalkCount(s, n, w)
    ensures WalkCount(s, n, w.(unusedInds := w.unusedInds + [w.i], i := w.i + 1))
  {
  }

  lemma CountMatch(s: seq<int>, n: nat, w: Walk)
    requires w.i < n && w.j < |s| && |w.permuted| == n && w.permuted[w.i] == 0
    requires WalkCount(s, n, w)
    ensures WalkCount(s, n, w.(permuted := w.permuted[w.i := s[w.j]], i := w.i + 1, j := w.j + 1))
  {
    var c := |w.unusedInds| + n - w.i;
    var pm, vm, sm := multiset(w.permuted), multiset(w.unusedVals), multiset(s[..w.j]);
    assert s[..w.j + 1] == s[..w.j] + [s[w.j]];
    AddToBoth(pm, vm, sm, Copies(0, c), s[w.j]);
    PlaceFromQueue(w.permuted, w.i, vm, s[w.j], sm + multiset{s[w.j]}, c);
  }

  lemma WalkStepMultiset(a: seq<int>, s: seq<int>, n: nat, w: Walk)
    requires |a| == n && n <= |s| && w.i < n && w.j < n && |w.permuted| == n && w.permuted[w.i] == 0
    requires WalkCount(s, n, w)
    ensures WalkCount(s, n, WalkStep(a, s, n, w))
  {
    var i, j := w.i, w.j;
    if a[i] > s[j] {
      CountPushVal(s, n, w);
    } else if a[i] < s[j] {
      if |w.unusedVals| > 0 {
        CountPopVal(s, n, w);
      } else {
        CountPushInd(s, n, w);
      }
    } else {
      CountMatch(s, n, w);
    }
  }

  lemma AddToBoth(pm: multiset<int>, vm: multiset<int>, sm: multiset<int>, z: multiset<int>, x: int)
    requires pm + vm == sm + z
    ensures pm + (vm + multiset{x}) == (sm + multiset{x}) + z
    ensures pm + vm + multiset{x} == (sm + multiset{x}) + z
  {
    var lhs := pm + (vm + multiset{x});
    var rhs := (sm + multiset{x}) + z;
    forall e
      ensures lhs[e] == rhs[e]
    {
      assert (pm + vm)[e] == (sm + z)[e];
    }
    assert lhs == rhs;
  }

  /**
   * Writing v over one of the zero entries trades a zero for v: the
   * counting step behind both "pop a value" branches.
   */
  lemma PlaceFromQueue(perm: seq<int>, i: nat, rest: multiset<int>, v: int, sm: multiset<int>, c: nat)
    requires i < |perm| && c > 0
    requires multiset(perm) + rest + multiset{v} == sm + Copies(perm[i], c)
    ensures multiset(perm[i := v]) + rest == sm + Copies(perm[i], c - 1)
  {
    MultisetUpdate(perm, i, v);
    var m := multiset(perm);
    var filler := perm[i];
    assert m[filler] >= 1;
    var lhs := multiset(perm[i := v]) + rest;
    var rhs := sm + Copies(filler, c - 1);
    var before := m + rest + multiset{v};
    forall x
      ensures lhs[x] == rhs[x]
    {
      assert before[x] == (sm + Copies(filler, c))[x];
    }
    assert lhs == rhs;
  }

  /** No table row before j holds the value of a run that still starts at or after i. */
  predicate WalkAhead(a: seq<int>, s: seq<int>, n: nat, w: Walk)
    requires |a| == n && n <= |s|
  {
    forall k, jj :: w.i <= k < n && 0 <= jj < n && IsNew(a, k) && s[jj] == a[k] ==> w.j <= jj
  }

  /** Every run started before i whose value occurs in the table got that value. */
  predicate WalkPlaced(a: seq<int>, s: seq<int>, n: nat, w: Walk)
    requires |a| == n && n <= |s| && |w.permuted| == n && w.i <= n
  {
    forall k :: 0 <= k < w.i && IsNew(a, k) && a[k] in s[..n] ==> w.permuted[k] == a[k] && k !in w.unusedInds
  }

  lemma WalkStepAhead(a: seq<int>, s: seq<int>, n: nat, w: Walk)
    requires |a| == n && n <= |s| && Sorted(a) && Sorted(s)
    requires w.i < n && w.j < n && |w.permuted| == n && WalkAhead(a, s, n, w)
    ensures WalkAhead(a, s, n, WalkStep(a, s, n, w))
  {
    var r := WalkStep(a, s, n, w);
    var i, j := w.i, w.j;
    forall k, jj | r.i <= k < n && 0 <= jj < n && IsNew(a, k) && s[jj] == a[k]
      ensures r.j <= jj
    {
      if r.j == j + 1 {
        // the table value just passed is smaller than a[k]
        assert j <= jj;
        if a[i] > s[j] {
          assert a[i] <= a[k];
        } else {
          assert a[k - 1] >= a[i];
          assert a[k] > a[k - 1];
        }
        assert jj != j;
      }
    }
  }

  lemma WalkStepPlaced(a: seq<int>, s: seq<int>, n: nat, w: Walk)
    requires |a| == n && n <= |s| && Sorted(a) && Sorted(s)
    requires w.i < n && w.j < n && |w.permuted| == n
    requires forall k :: 0 <= k < |w.unusedInds| ==> w.unusedInds[k] < w.i
    requires WalkAhead(a, s, n, w) && WalkPlaced(a, s, n, w)
    ensures WalkPlaced(a, s, n, WalkStep(a, s, n, w))
  {
    var r := WalkStep(a, s, n, w);
    var i, j := w.i, w.j;
    forall k | 0 <= k < r.i && IsNew(a, k) && a[k] in s[..n]
      ensures r.permuted[k] == a[k] && k !in r.unusedInds
    {
      if k == i {
        var jj :| 0 <= jj < n && s[..n][jj] == a[k];
        assert s[jj] == a[k];
        assert j <= jj;
        assert s[j] <= s[jj];
        assert a[i] == s[j];
      }
    }
  }

  lemma WalkStepInv(a: seq<int>, s: seq<int>, n: nat, w: Walk)
    requires |a| == n && n <= |s| && Sorted(a) && Sorted(s)
    requires WalkInv(a, s, n, w) && w.i < n && w.j < n
    ensures WalkInv(a, s, n, WalkStep(a, s, n, w))
  {
    WalkStepShape(a, s, n, w);
    WalkStepMultiset(a, s, n, w);
    WalkStepAhead(a, s, n, w);
    WalkStepPlaced(a, s, n, w);
  }

  lemma {:induction false} WalkFromInv(a: seq<int>, s: seq<int>, n: nat, w: Walk)
    requires |a| == n && n <= |s| && Sorted(a) && Sorted(s)
    requires WalkInv(a, s, n, w)
    ensures WalkInv(a, s, n, WalkFrom(a, s, n, w))
    decreases 2 * n - w.i - w.j
  {
    if w.i < n && w.j < n {
      WalkStepInv(a, s, n, w);
      WalkFromInv(a, s, n, WalkStep(a, s, n, w));
    }
  }

  /** The two queues after the loop, extended as permute_cols does. */
  function FinalInds(w: Walk, n: nat): seq<nat>
    requires w.i <= n
  {
    w.unusedInds + Range(w.i, n)
  }

  function FinalVals(s: seq<int>, w: Walk, n: nat): seq<int>
    requires w.j <= n <= |s|
  {
    w.unusedVals + s[w.j..n]
  }

  /** What the fill needs of the extended queues. */
  predicate FinalQueuesOk(w: Walk, s: seq<int>, n: nat)
  {
    && w.i <= n && w.j <= n <= |s| && |w.permuted| == n
    && |FinalInds(w, n)| == |FinalVals(s, w, n)|
    && (forall k :: 0 <= k < |FinalInds(w, n)| ==> FinalInds(w, n)[k] < n)
    && Increasing(FinalInds(w, n))
    && (forall k :: 0 <= k < |FinalInds(w, n)| ==> w.permuted[FinalInds(w, n)[k]] == 0)
  }

  lemma FinalQueues(a: seq<int>, s: seq<int>, n: nat, w: Walk)
    requires |a| == n && n <= |s| && WalkInv(a, s, n, w)
    ensures FinalQueuesOk(w, s, n)
  {
    var inds := FinalInds(w, n);
    forall k1, k2 | 0 <= k1 < k2 < |inds|
      ensures inds[k1] < inds[k2]
    {
    }
  }

  /** permute_cols as a function of its inputs (the loop, then the zip_eq fill). */
  function PermutedColumns(input: seq<int>, table: seq<int>): (r: (seq<int>, seq<int>))
    requires |input| <= |table|
  {
    var n := |input|;
    var a := Sort(input);
    var s := Sort(table);
    var w := WalkFrom(a, s, n, InitialWalk(n));
    (a, Fill(w.permuted, FinalInds(w, n), FinalVals(s, w, n)))
  }

  /** Overwriting entry i with v swaps one copy of the old entry for one v. */
  lemma Trade(perm: seq<int>, i: nat, v: int)
    requires i < |perm|
    ensures multiset(perm[i := v]) + multiset{perm[i]} == multiset(perm) + multiset{v}
  {
    MultisetUpdate(perm, i, v);
    var m := multiset(perm);
    assert m[perm[i]] >= 1;
    var lhs := multiset(perm[i := v]) + multiset{perm[i]};
    var rhs := m + multiset{v};
    forall x
      ensures lhs[x] == rhs[x]
    {
    }
    assert lhs == rhs;
  }

  lemma IncreasingTail(inds: seq<nat>)
    requires Increasing(inds) && inds != []
    ensures Increasing(inds[1..])
    ensures forall k :: 0 <= k < |inds[1..]| ==> inds[0] < inds[1..][k]
  {
    forall k1, k2 | 0 <= k1 < k2 < |inds[1..]|
      ensures inds[1..][k1] < inds[1..][k2]
    {
      assert inds[k1 + 1] < inds[k2 + 1];
    }
    forall k | 0 <= k < |inds[1..]|
      ensures inds[0] < inds[1..][k]
    {
      assert inds[1..][k] == inds[k + 1];
    }
  }

  /** The fill writes each queued value over a zero. */
  lemma {:induction false} FillMultiset(perm: seq<int>, inds: seq<nat>, vals: seq<int>)
    requires |inds| == |vals| && forall k :: 0 <= k < |inds| ==> inds[k] < |perm|
    requires Increasing(inds)
    requires forall k :: 0 <= k < |inds| ==> perm[inds[k]] == 0
    ensures multiset(Fill(perm, inds, vals)) + Copies(0, |inds|) == multiset(perm) + multiset(vals)
    decreases |inds|
  {
    if inds != [] {
      var perm' := perm[inds[0] := vals[0]];
      IncreasingTail(inds);
      forall k | 0 <= k < |inds[1..]|
        ensures perm'[inds[1..][k]] == 0
      {
        assert inds[1..][k] == inds[k + 1];
      }
      FillMultiset(perm', inds[1..], vals[1..]);
      Trade(perm, inds[0], vals[0]);
      assert vals == [vals[0]] + vals[1..];
      var f := multiset(Fill(perm', inds[1..], vals[1..]));
      calc {
        multiset(Fill(perm, inds, vals)) + Copies(0, |inds|);
        f + (Copies(0, |inds| - 1) + multiset{0});
        (f + Copies(0, |inds| - 1)) + multiset{0};
        (multiset(perm') + multiset(vals[1..])) + multiset{0};
        (multiset(perm') + multiset{0}) + multiset(vals[1..]);
        (multiset(perm) + multiset{vals[0]}) + multiset(vals[1..]);
        multiset(perm) + multiset(vals);
      }
    }
  }

  /** The fill leaves every row outside the index queue as it was. */
  lemma {:induction false} FillKeeps(perm: seq<int>, inds: seq<nat>, vals: seq<int>, x: nat)
    requires |inds| == |vals| && forall k :: 0 <= k < |inds| ==> inds[k] < |perm|
    requires x < |perm| && x !in inds
    ensures Fill(perm, inds, vals)[x] == perm[x]
    decreases |inds|
  {
    if inds != [] {
      assert inds == [inds[0]] + inds[1..];
      FillKeeps(perm[inds[0] := vals[0]], inds[1..], vals[1..], x);
    }
  }

  /**
   * permute_cols, for an input no longer than the table: A' is the sorted
   * input; S' has one entry per input row and is a permutation of the n
   * smallest table values; and every row that starts a run of equal A'
   * values whose value is among them carries that value in S' as well.
   */
  lemma PermutedColumnsProps(input: seq<int>, table: seq<int>)
    requires |input| <= |table|
    ensures var r := PermutedColumns(input, table); var n := |input|;
      && r.0 == Sort(input)
      && |r.1| == n
      && multiset(r.1) == multiset(Sort(table)[..n])
      && forall k :: 0 <= k < n && IsNew(r.0, k) && r.0[k] in Sort(table)[..n] ==> r.1[k] == r.0[k]
  {
    var n := |input|;
    var a := Sort(input);
    var s := Sort(table);
    WalkInvInit(a, s, n);
    WalkFromInv(a, s, n, InitialWalk(n));
    var w := WalkFrom(a, s, n, InitialWalk(n));
    FinalColumnCount(a, s, n, w);
    FinalColumnMatch(a, s, n, w);
  }

  /** The filled column holds exactly the n smallest table values. */
  lemma FinalColumnCount(a: seq<int>, s: seq<int>, n: nat, w: Walk)
    requires |a| == n && n <= |s| && WalkInv(a, s, n, w)
    ensures FinalQueuesOk(w, s, n)
    ensures multiset(Fill(w.permuted, FinalInds(w, n), FinalVals(s, w, n))) == multiset(s[..n])
  {
    FinalQueues(a, s, n, w);
    var inds := FinalInds(w, n);
    var vals := FinalVals(s, w, n);
    FillMultiset(w.permuted, inds, vals);
    var f := multiset(Fill(w.permuted, inds, vals));
    var c := |w.unusedInds| + n - w.i;
    assert s[..n] == s[..w.j] + s[w.j..n];
    assert |inds| == c;
    calc {
      f + Copies(0, c);
      multiset(w.permuted) + (multiset(w.unusedVals) + multiset(s[w.j..n]));
      (multiset(w.permuted) + multiset(w.unusedVals)) + multiset(s[w.j..n]);
      (multiset(s[..w.j]) + Copies(0, c)) + multiset(s[w.j..n]);
      multiset(s[..n]) + Copies(0, c);
    }
    MultisetCancel(f, multiset(s[..n]), Copies(0, c));
  }

  lemma MultisetCancel(x: multiset<int>, y: multiset<int>, z: multiset<int>)
    requires x + z == y + z
    ensures x == y
  {
    forall e
      ensures x[e] == y[e]
    {
      assert (x + z)[e] == (y + z)[e];
    }
  }

  /** Rows that start a run of a value present among the n smallest table values keep it. */
  lemma FinalColumnMatch(a: seq<int>, s: seq<int>, n: nat, w: Walk)
    requires |a| == n && n <= |s| && WalkInv(a, s, n, w) && (w.i == n || w.j == n)
    ensures FinalQueuesOk(w, s, n)
    ensures forall k :: 0 <= k < n && IsNew(a, k) && a[k] in s[..n] ==>
      Fill(w.permuted, FinalInds(w, n), FinalVals(s, w, n))[k] == a[k]
  {
    FinalQueues(a, s, n, w);
    var inds := FinalInds(w, n);
    var vals := FinalVals(s, w, n);
    forall k | 0 <= k < n && IsNew(a, k) && a[k] in s[..n]
      ensures Fill(w.permuted, inds, vals)[k] == a[k]
    {
      var jj :| 0 <= jj < n && s[..n][jj] == a[k];
      assert s[jj] == a[k];
      assert k < w.i;
      assert k !in w.unusedInds;
      assert k !in Range(w.i, n);
      assert k !in inds;
      FillKeeps(w.permuted, inds, vals, k);
    }
  }

  /**
   * The use the STARK tables make of permute_cols: with a table as long as
   * the input and every input value in the table, S' is a permutation of
   * the table and (A', S') satisfy the lookup condition.
   */
  lemma PermutedColumnsLookup(input: seq<int>, table: seq<int>)
    requires |input| == |table|
    requires forall x :: x in input ==> x in table
    ensures var r := PermutedColumns(input, table);
      && |r.0| == |r.1| == |input|
      && multiset(r.0) == multiset(input)
      && multiset(r.1) == multiset(table)
      && LookupCondition(r.0, r.1)
  {
    PermutedColumnsProps(input, table);
    var r := PermutedColumns(input, table);
    var n := |input|;
    var s := Sort(table);
    assert s[..n] == s;
    forall k | 0 <= k < n
      ensures r.0[k] in s
    {
      assert r.0[k] in multiset(input);
      assert r.0[k] in input;
      assert r.0[k] in table;
      assert r.0[k] in multiset(table);
    }
    if n > 0 {
      forall k | 1 <= k < n
        ensures r.0[k] == r.0[k - 1] || r.0[k] == r.1[k]
      {
      }
    }
  }

  /**
   * permute_cols as written: a while loop over the two sorted columns with
   * two queues and a pre-sized output column, then the extension of the
   * queues and the zip_eq fill.
   */
  method PermuteCols(colInput: seq<int>, colTable: seq<int>) returns (colInputSorted: seq<int>, colTablePermuted: seq<int>)
    requires |colInput| <= |colTable|
    ensures (colInputSorted, colTablePermuted) == PermutedColumns(colInput, colTable)
  {
    var n := |colInput|;
    colInputSorted := Sort(colInput);
    var colTableSorted := Sort(colTable);
    var permuted := new int[n](_ => 0);
    assert permuted[..] == InitialWalk(n).permuted;
    var i, j, unusedTableVals, unusedTableInds := PermuteLoop(colInputSorted, colTableSorted, permuted);
    ghost var w := Walk(i, j, unusedTableVals, unusedTableInds, permuted[..]);
    WalkInvInit(colInputSorted, colTableSorted, n);
    WalkFromInv(colInputSorted, colTableSorted, n, InitialWalk(n));
    FinalQueues(colInputSorted, colTableSorted, n, w);
    var vals := unusedTableVals + colTableSorted[j..n];
    var inds := unusedTableInds + Range(i, n);
    FillQueued(permuted, inds, vals);
    colTablePermuted := permuted[..];
  }

  /** The while loop of permute_cols, writing into the pre-sized column. */
  method PermuteLoop(colInputSorted: seq<int>, colTableSorted: seq<int>, permuted: array<int>)
    returns (i: nat, j: nat, unusedTableVals: seq<int>, unusedTableInds: seq<nat>)
    requires permuted.Length == |colInputSorted| <= |colTableSorted|
    modifies permuted
    ensures Walk(i, j, unusedTableVals, unusedTableInds, permuted[..])
         == WalkFrom(colInputSorted, colTableSorted, permuted.Length, Walk(0, 0, [], [], old(permuted[..])))
  {
    var n := permuted.Length;
    ghost var w0 := Walk(0, 0, [], [], permuted[..]);
    i, j := 0, 0;
    unusedTableVals, unusedTableInds := [], [];
    while j < n && i < n
      invariant i <= n && j <= n
      invariant WalkFrom(colInputSorted, colTableSorted, n, Walk(i, j, unusedTableVals, unusedTableInds, permuted[..]))
             == WalkFrom(colInputSorted, colTableSorted, n, w0)
      decreases 2 * n - i - j
    {
      ghost var before := Walk(i, j, unusedTableVals, unusedTableInds, permuted[..]);
      var inputVal := colInputSorted[i];
      var tableVal := colTableSorted[j];
      if inputVal > tableVal {
        unusedTableVals := unusedTableVals + [colTableSorted[j]];
        j := j + 1;
      } else if inputVal < tableVal {
        if |unusedTableVals| > 0 {
          permuted[i] := unusedTableVals[0];
          unusedTableVals := unusedTableVals[1..];
        } else {
          unusedTableInds := unusedTableInds + [i];
        }
        i := i + 1;
      } else {
        permuted[i] := colTableSorted[j];
        i := i + 1;
        j := j + 1;
      }
      assert Walk(i, j, unusedTableVals, unusedTableInds, permuted[..])
          == WalkStep(colInputSorted, colTableSorted, n, before);
    }
  }

  /** The zip_eq loop: write each queued value at its queued row. */
  method FillQueued(permuted: array<int>, inds: seq<nat>, vals: seq<int>)
    requires |inds| == |vals| && forall k :: 0 <= k < |inds| ==> inds[k] < permuted.Length
    modifies permuted
    ensures permuted[..] == Fill(old(permuted[..]), inds, vals)
  {
    ghost var p0 := permuted[..];
    for k := 0 to |inds|
      invariant Fill(permuted[..], inds[k..], vals[k..]) == Fill(p0, inds, vals)
    {
      assert inds[k..][1..] == inds[k + 1..] && vals[k..][1..] == vals[k + 1..];
      permuted[inds[k]] := vals[k];
    }
    assert inds[|inds|..] == [];
  }

  // ---------------------------------------------------------------------
  // permute_cols_: merge_join_by over both sorted columns
  // ---------------------------------------------------------------------

  /** The placeholder written for a row that still waits for a table value. */
  const PLACEHOLDER: int := 17

  /** The state of the for_each over merge_join_by, with the iterator positions. */
  datatype MergeWalk = MergeWalk(i: nat, j: nat, unusedVals: seq<int>, unusedInds: seq<nat>, permuted: seq<int>)

  predicate IndsInside(w: MergeWalk)
  {
    forall k :: 0 <= k < |w.unusedInds| ==> w.unusedInds[k] < |w.permuted|
  }

  /** Take the next merge_join_by item and process it. */
  function MergeStep(a: seq<int>, s: seq<int>, w: MergeWalk): (r: MergeWalk)
    requires w.i <= |a| && w.j <= |s| && (w.i < |a| || w.j < |s|) && IndsInside(w)
    ensures r.i <= |a| && r.j <= |s| && r.i + r.j > w.i + w.j && IndsInside(r)
  {
    var (item, i', j') := MergeJoinNext(a, s, w.i, w.j);
    var w' := w.(i := i', j := j');
    match item
    case Left(_) =>
      if |w.unusedVals| > 0 then
        w'.(permuted := w.permuted + [w.unusedVals[0]], unusedVals := w.unusedVals[1..])
      else
        w'.(unusedInds := w.unusedInds + [|w.permuted|], permuted := w.permuted + [PLACEHOLDER])
    case Both(_, b) => w'.(permuted := w.permuted + [b])
    case Right(b) =>
      if |w.unusedInds| > 0 then
        w'.(permuted := w.permuted[w.unusedInds[0] := b], unusedInds := w.unusedInds[1..])
      else
        w'.(unusedVals := w.unusedVals + [b])
  }

  function MergeWalkFrom(a: seq<int>, s: seq<int>, w: MergeWalk): (r: MergeWalk)
    requires w.i <= |a| && w.j <= |s| && IndsInside(w)
    ensures r.i == |a| && r.j == |s|
    decreases |a| - w.i + |s| - w.j
  {
    if w.i == |a| && w.j == |s| then w else MergeWalkFrom(a, s, MergeStep(a, s, w))
  }

  /**
   * permute_cols_ as a function: None where the source's final assertions
   * (both queues empty) fail.
   */
  function PermutedColumnsMerge(input: seq<int>, table: seq<int>): Option<(seq<int>, seq<int>)>
  {
    var a := Sort(input);
    var s := Sort(table);
    var w := MergeWalkFrom(a, s, MergeWalk(0, 0, [], [], []));
    if |w.unusedInds| == 0 && |w.unusedVals| == 0 then Some((a, w.permuted)) else None
  }

  /** The shape part of the for_each invariant. */
  predicate MergeShape(a: seq<int>, s: seq<int>, w: MergeWalk)
  {
    && w.i <= |a| && w.j <= |s| && |w.permuted| == w.i
    && |w.unusedInds| + w.j == |w.unusedVals| + w.i
    && (|w.unusedInds| == 0 || |w.unusedVals| == 0)
    && Increasing(w.unusedInds)
    && (forall k :: 0 <= k < |w.unusedInds| ==> w.unusedInds[k] < w.i && w.permuted[w.unusedInds[k]] == PLACEHOLDER)
  }

  /** The counting part: values placed or queued, against placeholders. */
  predicate MergeCount(s: seq<int>, w: MergeWalk)
    requires w.j <= |s|
  {
    multiset(w.permuted) + multiset(w.unusedVals) == multiset(s[..w.j]) + Copies(PLACEHOLDER, |w.unusedInds|)
  }

  predicate MergeAhead(a: seq<int>, s: seq<int>, w: MergeWalk)
  {
    forall k, jj :: w.i <= k < |a| && 0 <= jj < |s| && IsNew(a, k) && s[jj] == a[k] ==> w.j <= jj
  }

  predicate MergePlaced(a: seq<int>, s: seq<int>, w: MergeWalk)
    requires w.i <= |a| && |w.permuted| == w.i
  {
    forall k :: 0 <= k < w.i && IsNew(a, k) && a[k] in s ==> w.permuted[k] == a[k] && k !in w.unusedInds
  }

  predicate MergeInv(a: seq<int>, s: seq<int>, w: MergeWalk)
  {
    MergeShape(a, s, w) && MergeCount(s, w) && MergeAhead(a, s, w) && MergePlaced(a, s, w)
  }

  lemma MergeStepShape(a: seq<int>, s: seq<int>, w: MergeWalk)
    requires MergeShape(a, s, w) && (w.i < |a| || w.j < |s|)
    ensures MergeShape(a, s, MergeStep(a, s, w))
  {
    var r := MergeStep(a, s, w);
    var (item, i', j') := MergeJoinNext(a, s, w.i, w.j);
    if item.Right? && |w.unusedInds| > 0 {
      forall k | 0 <= k < |r.unusedInds|
        ensures r.permuted[r.unusedInds[k]] == PLACEHOLDER
      {
        assert r.unusedInds[k] == w.unusedInds[k + 1];
        assert w.unusedInds[0] < w.unusedInds[k + 1];
      }
    }
  }

  lemma MergeCountPopVal(s: seq<int>, w: MergeWalk)
    requires w.j <= |s| && |w.unusedVals| > 0 && MergeCount(s, w)
    ensures MergeCount(s, w.(i := w.i + 1, permuted := w.permuted + [w.unusedVals[0]], unusedVals := w.unusedVals[1..]))
  {
    var v := w.unusedVals[0];
    var rest := w.unusedVals[1..];
    assert w.unusedVals == [v] + rest;
    assert multiset(w.permuted + [v]) + multiset(rest) == multiset(w.permuted) + multiset(w.unusedVals);
  }

  lemma MergeCountPushInd(s: seq<int>, w: MergeWalk)
    requires w.j <= |s| && MergeCount(s, w)
    ensures MergeCount(s, w.(i := w.i + 1, unusedInds := w.unusedInds + [|w.permuted|], permuted := w.permuted + [PLACEHOLDER]))
  {
    var c := |w.unusedInds|;
    AddToBoth(multiset(w.permuted), multiset(w.unusedVals), multiset(s[..w.j]), Copies(PLACEHOLDER, c), PLACEHOLDER);
    assert multiset(s[..w.j]) + multiset{PLACEHOLDER} + Copies(PLACEHOLDER, c)
        == multiset(s[..w.j]) + Copies(PLACEHOLDER, c + 1);
  }

  lemma MergeCountBoth(s: seq<int>, w: MergeWalk)
    requires w.j < |s| && MergeCount(s, w)
    ensures MergeCount(s, w.(i := w.i + 1, j := w.j + 1, permuted := w.permuted + [s[w.j]]))
  {
    assert s[..w.j + 1] == s[..w.j] + [s[w.j]];
    AddToBoth(multiset(w.permuted), multiset(w.unusedVals), multiset(s[..w.j]), Copies(PLACEHOLDER, |w.unusedInds|), s[w.j]);
  }

  lemma MergeCountFillInd(s: seq<int>, w: MergeWalk)
    requires w.j < |s| && |w.unusedInds| > 0 && w.unusedInds[0] < |w.permuted|
    requires w.permuted[w.unusedInds[0]] == PLACEHOLDER && MergeCount(s, w)
    ensures MergeCount(s, w.(j := w.j + 1, permuted := w.permuted[w.unusedInds[0] := s[w.j]], unusedInds := w.unusedInds[1..]))
  {
    var c := |w.unusedInds|;
    var pm, vm, sm := multiset(w.permuted), multiset(w.unusedVals), multiset(s[..w.j]);
    assert s[..w.j + 1] == s[..w.j] + [s[w.j]];
    AddToBoth(pm, vm, sm, Copies(PLACEHOLDER, c), s[w.j]);
    PlaceFromQueue(w.permuted, w.unusedInds[0], vm, s[w.j], sm + multiset{s[w.j]}, c);
  }

  lemma MergeCountPushVal(s: seq<int>, w: MergeWalk)
    requires w.j < |s| && MergeCount(s, w)
    ensures MergeCount(s, w.(j := w.j + 1, unusedVals := w.unusedVals + [s[w.j]]))
  {
    assert s[..w.j + 1] == s[..w.j] + [s[w.j]];
    AddToBoth(multiset(w.permuted), multiset(w.unusedVals), multiset(s[..w.j]), Copies(PLACEHOLDER, |w.unusedInds|), s[w.j]);
  }

  lemma MergeStepMultiset(a: seq<int>, s: seq<int>, w: MergeWalk)
    requires MergeShape(a, s, w) && (w.i < |a| || w.j < |s|) && MergeCount(s, w)
    ensures MergeCount(s, MergeStep(a, s, w))
  {
    var (item, i', j') := MergeJoinNext(a, s, w.i, w.j);
    match item
    case Left(_) =>
      if |w.unusedVals| > 0 {
        MergeCountPopVal(s, w);
      } else {
        MergeCountPushInd(s, w);
      }
    case Both(_, b) =>
      MergeCountBoth(s, w);
    case Right(b) =>
      if |w.unusedInds| > 0 {
        MergeCountFillInd(s, w);
      } else {
        MergeCountPushVal(s, w);
      }
  }

  lemma MergeStepAhead(a: seq<int>, s: seq<int>, w: MergeWalk)
    requires Sorted(a) && Sorted(s)
    requires MergeShape(a, s, w) && MergeAhead(a, s, w) && (w.i < |a| || w.j < |s|)
    ensures MergeAhead(a, s, MergeStep(a, s, w))
  {
    var r := MergeStep(a, s, w);
    var (item, i', j') := MergeJoinNext(a, s, w.i, w.j);
    var i, j := w.i, w.j;
    forall k, jj | r.i <= k < |a| && 0 <= jj < |s| && IsNew(a, k) && s[jj] == a[k]
      ensures r.j <= jj
    {
      if r.j == j + 1 {
        assert j <= jj;
        if item.Right? {
          assert a[i] <= a[k];
        } else {
          assert a[k - 1] >= a[i];
        }
        assert jj != j;
      }
    }
  }

  /** Under a Left item the current input run cannot start on a table value. */
  lemma LeftNotInTable(a: seq<int>, s: seq<int>, w: MergeWalk)
    requires Sorted(s) && w.i < |a| && w.j <= |s| && MergeAhead(a, s, w)
    requires w.j == |s| || a[w.i] < s[w.j]
    ensures !(IsNew(a, w.i) && a[w.i] in s)
  {
    forall jj | 0 <= jj < |s| && IsNew(a, w.i)
      ensures s[jj] != a[w.i]
    {
      assert s[jj] == a[w.i] ==> w.j <= jj;
      assert w.j <= jj ==> s[w.j] <= s[jj];
    }
  }

  /** Appending one entry for row i keeps the placed runs before it. */
  lemma PlacedAppend(a: seq<int>, s: seq<int>, w: MergeWalk, r: MergeWalk)
    requires w.i < |a| && |w.permuted| == w.i && MergePlaced(a, s, w)
    requires forall k :: 0 <= k < |w.unusedInds| ==> w.unusedInds[k] < w.i
    requires r.i == w.i + 1 && |r.permuted| == r.i && r.permuted[..w.i] == w.permuted
    requires r.unusedInds == w.unusedInds || r.unusedInds == w.unusedInds + [w.i]
    requires IsNew(a, w.i) && a[w.i] in s ==> r.permuted[w.i] == a[w.i] && r.unusedInds == w.unusedInds
    ensures MergePlaced(a, s, r)
  {
    forall k | 0 <= k < r.i && IsNew(a, k) && a[k] in s
      ensures r.permuted[k] == a[k] && k !in r.unusedInds
    {
      if k < w.i {
        assert r.permuted[k] == r.permuted[..w.i][k];
        assert w.permuted[k] == a[k] && k !in w.unusedInds;
        assert k !in w.unusedInds + [w.i];
      }
    }
  }

  /** Filling the oldest waiting row keeps the placed runs. */
  lemma PlacedFill(a: seq<int>, s: seq<int>, w: MergeWalk, b: int)
    requires w.i <= |a| && |w.permuted| == w.i && MergePlaced(a, s, w)
    requires |w.unusedInds| > 0 && w.unusedInds[0] < w.i
    ensures MergePlaced(a, s, w.(permuted := w.permuted[w.unusedInds[0] := b], unusedInds := w.unusedInds[1..]))
  {
    assert w.unusedInds == [w.unusedInds[0]] + w.unusedInds[1..];
  }

  lemma MergeStepPlaced(a: seq<int>, s: seq<int>, w: MergeWalk)
    requires Sorted(a) && Sorted(s)
    requires MergeShape(a, s, w) && MergeAhead(a, s, w) && MergePlaced(a, s, w) && (w.i < |a| || w.j < |s|)
    ensures MergeShape(a, s, MergeStep(a, s, w)) ==> MergePlaced(a, s, MergeStep(a, s, w))
  {
    var r := MergeStep(a, s, w);
    var (item, i', j') := MergeJoinNext(a, s, w.i, w.j);
    match item
    case Left(_) =>
      LeftNotInTable(a, s, w);
      assert r.permuted[..w.i] == w.permuted;
      PlacedAppend(a, s, w, r);
    case Both(_, _) =>
      assert r.permuted[..w.i] == w.permuted;
      PlacedAppend(a, s, w, r);
    case Right(b) =>
      if |w.unusedInds| > 0 {
        PlacedFill(a, s, w, b);
      }
  }

  lemma {:induction false} MergeWalkFromInv(a: seq<int>, s: seq<int>, w: MergeWalk)
    requires Sorted(a) && Sorted(s) && MergeInv(a, s, w)
    ensures MergeInv(a, s, MergeWalkFrom(a, s, w))
    decreases |a| - w.i + |s| - w.j
  {
    if w.i < |a| || w.j < |s| {
      MergeStepShape(a, s, w);
      MergeStepMultiset(a, s, w);
      MergeStepAhead(a, s, w);
      MergeStepPlaced(a, s, w);
      MergeWalkFromInv(a, s, MergeStep(a, s, w));
    }
  }

  /** After the for_each: the queues are empty exactly for equal lengths, and then S' is complete. */
  lemma MergeFinal(a: seq<int>, s: seq<int>, w: MergeWalk)
    requires MergeInv(a, s, w) && w.i == |a| && w.j == |s|
    ensures |w.unusedInds| == 0 && |w.unusedVals| == 0 <==> |a| == |s|
    ensures |a| == |s| ==> multiset(w.permuted) == multiset(s)
    ensures forall k :: 0 <= k < |a| && IsNew(a, k) && a[k] in s ==> w.permuted[k] == a[k]
  {
    assert MergeShape(a, s, w) && MergeCount(s, w) && MergePlaced(a, s, w);
    assert |w.unusedInds| + |s| == |w.unusedVals| + |a|;
    assert s[..|s|] == s;
    if |a| == |s| {
      assert w.unusedVals == [] && |w.unusedInds| == 0;
      assert multiset(w.permuted) + multiset{} == multiset(s) + Copies(PLACEHOLDER, 0);
      assert Copies(PLACEHOLDER, 0) == multiset{};
      assert multiset(w.permuted) + multiset{} == multiset(w.permuted);
      assert multiset(s) + multiset{} == multiset(s);
    }
  }

  /**
   * permute_cols_: the final assertions pass exactly when the input and
   * the table have the same length; then A' is the sorted input, S' a
   * permutation of the table, and every row that starts a run of equal A'
   * values present in the table carries that value in S'.
   */
  lemma PermutedColumnsMergeProps(input: seq<int>, table: seq<int>)
    ensures PermutedColumnsMerge(input, table).Some? <==> |input| == |table|
    ensures PermutedColumnsMerge(input, table).Some? ==>
      var r := PermutedColumnsMerge(input, table).value;
      && r.0 == Sort(input)
      && |r.1| == |input|
      && multiset(r.1) == multiset(table)
      && forall k :: 0 <= k < |input| && IsNew(r.0, k) && r.0[k] in table ==> r.1[k] == r.0[k]
  {
    var a := Sort(input);
    var s := Sort(table);
    var w0 := MergeWalk(0, 0, [], [], []);
    assert s[..0] == [];
    assert MergeInv(a, s, w0);
    MergeWalkFromInv(a, s, w0);
    var w := MergeWalkFrom(a, s, w0);
    MergeFinal(a, s, w);
    forall k | 0 <= k < |input| && IsNew(a, k) && a[k] in table
      ensures a[k] in s
    {
      assert a[k] in multiset(table);
    }
  }

  /** permute_cols_ as written: merge_join_by, then for_each with two queues. */
  method PermuteColsMerge(colInput: seq<int>, colTable: seq<int>) returns (r: Option<(seq<int>, seq<int>)>)
    ensures r == PermutedColumnsMerge(colInput, colTable)
  {
    var colInputSorted := Sort(colInput);
    var colTableSorted := Sort(colTable);
    var unusedTableInds: seq<nat> := [];
    var unusedTableVals: seq<int> := [];
    var colTablePermuted: seq<int> := [];
    var i: nat, j: nat := 0, 0;
    ghost var w0 := MergeWalk(0, 0, [], [], []);
    while i < |colInputSorted| || j < |colTableSorted|
      invariant i <= |colInputSorted| && j <= |colTableSorted|
      invariant IndsInside(MergeWalk(i, j, unusedTableVals, unusedTableInds, colTablePermuted))
      invariant MergeWalkFrom(colInputSorted, colTableSorted, MergeWalk(i, j, unusedTableVals, unusedTableInds, colTablePermuted))
             == MergeWalkFrom(colInputSorted, colTableSorted, w0)
      decreases |colInputSorted| - i + |colTableSorted| - j
    {
      ghost var before := MergeWalk(i, j, unusedTableVals, unusedTableInds, colTablePermuted);
      var next := MergeJoinNext(colInputSorted, colTableSorted, i, j);
      i, j := next.1, next.2;
      match next.0
      case Left(_) =>
        if |unusedTableVals| > 0 {
          colTablePermuted := colTablePermuted + [unusedTableVals[0]];
          unusedTableVals := unusedTableVals[1..];
        } else {
          unusedTableInds := unusedTableInds + [|colTablePermuted|];
          colTablePermuted := colTablePermuted + [PLACEHOLDER];
        }
      case Both(_, b) =>
        colTablePermuted := colTablePermuted + [b];
      case Right(b) =>
        if |unusedTableInds| > 0 {
          colTablePermuted := colTablePermuted[unusedTableInds[0] := b];
          unusedTableInds := unusedTableInds[1..];
        } else {
          unusedTableVals := unusedTableVals + [b];
        }
      assert MergeWalk(i, j, unusedTableVals, unusedTableInds, colTablePermuted)
          == MergeStep(colInputSorted, colTableSorted, before);
    }
    if |unusedTableInds| == 0 && |unusedTableVals| == 0 {
      r := Some((colInputSorted, colTablePermuted));
    } else {
      r := None;
    }
  }

  // ---------------------------------------------------------------------
  // The property test comparing the two routines
  // ---------------------------------------------------------------------

  /**
   * The property test asserts that both routines return the same permuted
   * table column. They need not: on input [1, 3] with table [2, 4] the
   * while loop places 4 then 2, the merge join 2 then 4.
   */
  lemma OracleExactColumnsDiffer()
    ensures PermutedColumns([1, 3], [2, 4]).1 == [4, 2]
    ensures PermutedColumnsMerge([1, 3], [2, 4]) == Some(([1, 3], [2, 4]))
    ensures PermutedColumns([1, 3], [2, 4]).1 != PermutedColumnsMerge([1, 3], [2, 4]).value.1
  {
    WhileLoopExample();
    MergeJoinExample();
  }

  lemma SortTwo(x: int, y: int)
    requires x <= y
    ensures Sort([x, y]) == [x, y]
  {
    SortedUnique(Sort([x, y]), [x, y]);
  }

  lemma InitialWalkTwo()
    ensures InitialWalk(2) == Walk(0, 0, [], [], [0, 0])
  {
  }

  /** The while loop on the sorted columns [1, 3] and [2, 4]. */
  lemma ExampleWalk()
    ensures WalkFrom([1, 3], [2, 4], 2, Walk(0, 0, [], [], [0, 0])) == Walk(2, 1, [], [0], [0, 2])
  {
    var a: seq<int> := [1, 3];
    var s: seq<int> := [2, 4];
    var w0 := Walk(0, 0, [], [], [0, 0]);
    var w1 := Walk(1, 0, [], [0], [0, 0]);
    var w2 := Walk(1, 1, [2], [0], [0, 0]);
    var w3 := Walk(2, 1, [], [0], [0, 2]);
    assert WalkStep(a, s, 2, w0) == w1;
    assert WalkStep(a, s, 2, w1) == w2;
    assert WalkStep(a, s, 2, w2) == w3;
    assert WalkFrom(a, s, 2, w3) == w3;
    assert WalkFrom(a, s, 2, w2) == w3;
    assert WalkFrom(a, s, 2, w1) == w3;
  }

  lemma ExampleSortedWalk()
    ensures WalkFrom(Sort([1, 3]), Sort([2, 4]), 2, InitialWalk(2)) == Walk(2, 1, [], [0], [0, 2])
  {
    SortTwo(1, 3);
    SortTwo(2, 4);
    InitialWalkTwo();
    ExampleWalk();
  }

  /** The zip_eq fill after the example's loop: the queued 4 goes to row 0. */
  lemma ExampleFill()
    ensures var w := Walk(2, 1, [], [0], [0, 2]);
      Fill(w.permuted, FinalInds(w, 2), FinalVals([2, 4], w, 2)) == [4, 2]
  {
    var w := Walk(2, 1, [], [0], [0, 2]);
    assert FinalInds(w, 2) == [0];
    assert FinalVals([2, 4], w, 2) == [4];
    assert [0, 2][0 := 4] == [4, 2];
    assert Fill([4, 2], [], []) == [4, 2];
  }

  lemma WhileLoopExample()
    ensures PermutedColumns([1, 3], [2, 4]).1 == [4, 2]
  {
    SortTwo(2, 4);
    ExampleSortedWalk();
    ExampleFill();
  }

  /** The for_each over merge_join_by on the sorted columns [1, 3] and [2, 4]. */
  lemma ExampleMergeWalk()
    ensures MergeWalkFrom([1, 3], [2, 4], MergeWalk(0, 0, [], [], [])) == MergeWalk(2, 2, [], [], [2, 4])
  {
    var a: seq<int> := [1, 3];
    var s: seq<int> := [2, 4];
    var m0 := MergeWalk(0, 0, [], [], []);
    var m1 := MergeWalk(1, 0, [], [0], [PLACEHOLDER]);
    var m2 := MergeWalk(1, 1, [], [], [2]);
    var m3 := MergeWalk(2, 1, [], [1], [2, PLACEHOLDER]);
    var m4 := MergeWalk(2, 2, [], [], [2, 4]);
    assert MergeStep(a, s, m0) == m1;
    assert MergeStep(a, s, m1) == m2;
    assert MergeStep(a, s, m2) == m3;
    assert MergeStep(a, s, m3) == m4;
    assert MergeWalkFrom(a, s, m4) == m4;
    assert MergeWalkFrom(a, s, m3) == m4;
    assert MergeWalkFrom(a, s, m2) == m4;
    assert MergeWalkFrom(a, s, m1) == m4;
  }

  lemma MergeJoinExample()
    ensures PermutedColumnsMerge([1, 3], [2, 4]) == Some(([1, 3], [2, 4]))
  {
    SortTwo(1, 3);
    SortTwo(2, 4);
    ExampleMergeWalk();
  }

  /**
   * What the test evidently means to check, and what holds for every
   * input and table of equal length: the same permuted input column and
   * the same permuted table column once both are sorted.
   */
  lemma OracleSortedColumnsAgree(input: seq<int>, table: seq<int>)
    requires |input| == |table|
    ensures PermutedColumnsMerge(input, table).Some?
    ensures PermutedColumns(input, table).0 == PermutedColumnsMerge(input, table).value.0
    ensures Sort(PermutedColumns(input, table).1) == Sort(PermutedColumnsMerge(input, table).value.1)
  {
    PermutedColumnsProps(input, table);
    PermutedColumnsMergeProps(input, table);
    var s := Sort(table);
    assert s[..|input|] == s;
    SortOfPermutation(PermutedColumns(input, table).1, PermutedColumnsMerge(input, table).value.1);
  }
}
