// The shift-amount trace: the amounts of the executed shift instructions,
// sorted and merge-joined with 0..32 so that every amount below 32
// appears, then padded to a power of two with (is_executed 0, amount 31).

module BitshiftGen {
  import opened Field
  import opened Sorting
  import opened Itertools
  import CpuColumns

  /** ShiftAmountView: whether the row is a looked-up execution, and the amount. */
  datatype ShiftAmountRow = ShiftAmountRow(isExecuted: int, executed: int)

  /** The fixed amounts every trace covers: 0..32. */
  function AllAmounts(): (r: seq<int>)
    ensures |r| == 32 && forall k :: 0 <= k < 32 ==> r[k] == k
  {
    seq(32, k => k)
  }

  /** The padding row. */
  const PADDING_ROW: ShiftAmountRow := ShiftAmountRow(0, 31)

  // ---------------------------------------------------------------------
  // filter_shift_trace
  // ---------------------------------------------------------------------

  /** A CPU row whose shift selectors do not sum to zero in the field. */
  predicate IsShiftRow(row: CpuColumns.CpuRow)
  {
    Canon(CpuColumns.FilterForShiftAmount(row)) != 0
  }

  /** filter_shift_trace: the shift amounts of the shifting rows, in row order. */
  function FilterShiftTrace(stepRows: seq<CpuColumns.CpuRow>): seq<int>
  {
    if stepRows == [] then []
    else
      (if IsShiftRow(stepRows[0]) then [stepRows[0].bitshift.amount as int] else [])
        + FilterShiftTrace(stepRows[1..])
  }

  /**
   * The filter distributes over concatenation, a shifting row contributes
   * its amount and any other row nothing: together these fix the result.
   */
  lemma {:induction false} FilterShiftTraceAppend(a: seq<CpuColumns.CpuRow>, b: seq<CpuColumns.CpuRow>)
    ensures FilterShiftTrace(a + b) == FilterShiftTrace(a) + FilterShiftTrace(b)
  {
    if a != [] {
      assert (a + b)[1..] == a[1..] + b;
      FilterShiftTraceAppend(a[1..], b);
    } else {
      assert a + b == b;
    }
  }

  lemma FilterShiftTraceSingle(row: CpuColumns.CpuRow)
    ensures FilterShiftTrace([row]) == if IsShiftRow(row) then [row.bitshift.amount as int] else []
  {
    assert [row][1..] == [];
  }

  /** Under one-hot opcodes, the shifting rows are exactly the SLL and SRL rows. */
  lemma ShiftRowsAreShifts(row: CpuColumns.CpuRow, i: nat)
    requires CpuColumns.Selected(row.inst.ops, i)
    ensures IsShiftRow(row) <==> i == CpuColumns.OP_SLL || i == CpuColumns.OP_SRL
  {
    CpuColumns.FiltersOfSelected(row, i);
  }

  // ---------------------------------------------------------------------
  // pad_trace
  // ---------------------------------------------------------------------

  /** The trace resized to the next power of two with the default row. */
  function Padded<T>(trace: seq<T>, default: T): (r: seq<T>)
    ensures |r| == NextPow2(|trace|) && IsPow2(|r|)
  {
    trace + seq(NextPow2(|trace|) - |trace|, _ => default)
  }

  /** pad_trace: resize in place up to the next power of two. */
  method PadTrace<T>(trace: seq<T>, default: T) returns (r: seq<T>)
    ensures r == Padded(trace, default)
  {
    r := trace;
    var target := NextPow2(|trace|);
    while |r| < target
      invariant |trace| <= |r| <= target
      invariant r == trace + seq(|r| - |trace|, _ => default)
      decreases target - |r|
    {
      r := r + [default];
    }
  }

  /**
   * Padding keeps the prefix, fills with the default to a power of two,
   * and changes nothing when the length already is one.
   */
  lemma PaddedProps<T>(trace: seq<T>, default: T)
    ensures |Padded(trace, default)| >= |trace|
    ensures Padded(trace, default)[..|trace|] == trace
    ensures forall k :: |trace| <= k < |Padded(trace, default)| ==> Padded(trace, default)[k] == default
    ensures IsPow2(|trace|) ==> Padded(trace, default) == trace
  {
    NextPow2OfPow2(|trace|);
  }

  // ---------------------------------------------------------------------
  // generate_shift_amount_trace
  // ---------------------------------------------------------------------

  /** One merged item as a row, as written: is_executed is is_left. */
  function AsWrittenRow(e: EitherOrBoth): ShiftAmountRow
  {
    ShiftAmountRow(if IsLeft(e) then 1 else 0, IntoLeft(e))
  }

  /** One merged item as a row, with is_executed set for every executed amount. */
  function CorrectedRow(e: EitherOrBoth): ShiftAmountRow
  {
    ShiftAmountRow(if e.Right? then 0 else 1, IntoLeft(e))
  }

  function MergedAmounts(cpuTrace: seq<CpuColumns.CpuRow>): seq<EitherOrBoth>
  {
    MergeJoin(Sort(FilterShiftTrace(cpuTrace)), AllAmounts())
  }

  function MapRows(items: seq<EitherOrBoth>, f: EitherOrBoth -> ShiftAmountRow): (r: seq<ShiftAmountRow>)
    ensures |r| == |items| && forall k :: 0 <= k < |items| ==> r[k] == f(items[k])
  {
    seq(|items|, k requires 0 <= k < |items| => f(items[k]))
  }

  /** The trace generate_shift_amount_trace returns. */
  function ShiftAmountTrace(cpuTrace: seq<CpuColumns.CpuRow>): seq<ShiftAmountRow>
  {
    Padded(MapRows(MergedAmounts(cpuTrace), AsWrittenRow), PADDING_ROW)
  }

  /** The same trace with is_executed corrected. */
  function ShiftAmountTraceCorrected(cpuTrace: seq<CpuColumns.CpuRow>): seq<ShiftAmountRow>
  {
    Padded(MapRows(MergedAmounts(cpuTrace), CorrectedRow), PADDING_ROW)
  }

  /** generate_shift_amount_trace: filter, sort, merge-join with 0..32, map, pad. */
  method GenerateShiftAmountTrace(cpuTrace: seq<CpuColumns.CpuRow>) returns (trace: seq<ShiftAmountRow>)
    ensures trace == ShiftAmountTrace(cpuTrace)
  {
    var executed := Sort(FilterShiftTrace(cpuTrace));
    var items := MergeJoin(executed, AllAmounts());
    trace := PadTrace(MapRows(items, AsWrittenRow), PADDING_ROW);
  }

  // ---------------------------------------------------------------------
  // Shape of the trace
  // ---------------------------------------------------------------------

  lemma AllAmountsSorted()
    ensures Sorted(AllAmounts())
  {
  }

  /** In merge_join_by's output a Both item pairs equal values. */
  lemma {:induction false} BothAreEqual(a: seq<int>, b: seq<int>, i: nat, j: nat)
    requires i <= |a| && j <= |b|
    ensures forall k :: 0 <= k < |MergeJoinFrom(a, b, i, j)| && MergeJoinFrom(a, b, i, j)[k].Both? ==>
      MergeJoinFrom(a, b, i, j)[k].l == MergeJoinFrom(a, b, i, j)[k].r
    decreases |a| - i + |b| - j
  {
    if i < |a| || j < |b| {
      var (e, i', j') := MergeJoinNext(a, b, i, j);
      BothAreEqual(a, b, i', j');
      assert MergeJoinFrom(a, b, i, j) == [e] + MergeJoinFrom(a, b, i', j');
    }
  }

  /** Every right value is carried by some item when Both items pair equal values. */
  lemma {:induction false} RightValuesCarried(items: seq<EitherOrBoth>, x: int)
    requires forall k :: 0 <= k < |items| && items[k].Both? ==> items[k].l == items[k].r
    requires x in RightValues(items)
    ensures x in Carried(items)
  {
    var rest := items[1..];
    if items[0].Left? || x != items[0].r {
      RightValuesCarried(rest, x);
      var k :| 0 <= k < |rest| && Carried(rest)[k] == x;
      assert Carried(items)[k + 1] == x;
    } else {
      assert Carried(items)[0] == x;
    }
  }

  /**
   * Before padding, the executed column is non-decreasing and carries every
   * amount 0..31; after padding the trace has a power-of-two length of at
   * least 32 and its extra rows are (0, 31).
   */
  lemma ShiftAmountTraceShape(cpuTrace: seq<CpuColumns.CpuRow>)
    ensures var items := MergedAmounts(cpuTrace);
      var trace := ShiftAmountTrace(cpuTrace);
      && Sorted(Carried(items))
      && (forall v :: 0 <= v < 32 ==> v in Carried(items))
      && IsPow2(|trace|) && |trace| >= 32
      && trace[..|items|] == MapRows(items, AsWrittenRow)
      && (forall k :: |items| <= k < |trace| ==> trace[k] == PADDING_ROW)
  {
    var a := Sort(FilterShiftTrace(cpuTrace));
    var items := MergedAmounts(cpuTrace);
    var rows := MapRows(items, AsWrittenRow);
    var trace := ShiftAmountTrace(cpuTrace);
    AllAmountsSorted();
    MergeJoinProps(a, AllAmounts());
    MergeJoinFromSides(a, AllAmounts(), 0, 0);
    BothAreEqual(a, AllAmounts(), 0, 0);
    PaddedProps(rows, PADDING_ROW);
    assert |RightValues(items)| == 32;
    assert |items| >= 32 by {
      RightValuesLength(items);
    }
    forall v | 0 <= v < 32
      ensures v in Carried(items)
    {
      assert AllAmounts()[v] == v;
      assert v in RightValues(items);
      RightValuesCarried(items, v);
    }
  }

  lemma {:induction false} RightValuesLength(items: seq<EitherOrBoth>)
    ensures |RightValues(items)| <= |items|
  {
    if items != [] {
      RightValuesLength(items[1..]);
    }
  }

  // ---------------------------------------------------------------------
  // Which rows are marked as executed
  // ---------------------------------------------------------------------

  /** The amounts of the rows marked is_executed, in row order. */
  function ExecutedValues(rows: seq<ShiftAmountRow>): seq<int>
  {
    if rows == [] then []
    else (if rows[0].isExecuted == 1 then [rows[0].executed] else []) + ExecutedValues(rows[1..])
  }

  lemma {:induction false} ExecutedValuesAppend(a: seq<ShiftAmountRow>, b: seq<ShiftAmountRow>)
    ensures ExecutedValues(a + b) == ExecutedValues(a) + ExecutedValues(b)
  {
    if a != [] {
      assert (a + b)[1..] == a[1..] + b;
      ExecutedValuesAppend(a[1..], b);
    } else {
      assert a + b == b;
    }
  }

  lemma {:induction false} PaddingNotExecuted(n: nat)
    ensures ExecutedValues(seq(n, _ => PADDING_ROW)) == []
  {
    if n > 0 {
      assert seq(n, _ => PADDING_ROW)[1..] == seq(n - 1, _ => PADDING_ROW);
      PaddingNotExecuted(n - 1);
    }
  }

  /** With the correction, the executed rows carry the left values in order. */
  lemma {:induction false} CorrectedExecutedAreLeft(items: seq<EitherOrBoth>)
    ensures ExecutedValues(MapRows(items, CorrectedRow)) == LeftValues(items)
  {
    if items != [] {
      CorrectedExecutedAreLeft(items[1..]);
      assert MapRows(items, CorrectedRow)[1..] == MapRows(items[1..], CorrectedRow);
    }
  }

  /** As written, only Left items are marked executed. */
  lemma {:induction false} AsWrittenExecutedNone(items: seq<EitherOrBoth>)
    requires forall k :: 0 <= k < |items| ==> !items[k].Left?
    ensures ExecutedValues(MapRows(items, AsWrittenRow)) == []
  {
    if items != [] {
      AsWrittenExecutedNone(items[1..]);
      assert MapRows(items, AsWrittenRow)[1..] == MapRows(items[1..], AsWrittenRow);
    }
  }

  predicate StrictlySorted(s: seq<int>)
  {
    forall i, j :: 0 <= i < j < |s| ==> s[i] < s[j]
  }

  /**
   * When the remaining left values are distinct and each occurs among the
   * remaining right values, merge_join_by never yields a Left item.
   */
  lemma {:induction false} CoveredHasNoLeft(a: seq<int>, b: seq<int>, i: nat, j: nat)
    requires i <= |a| && j <= |b|
    requires StrictlySorted(a) && Sorted(b)
    requires forall k :: i <= k < |a| ==> a[k] in b[j..]
    ensures forall k :: 0 <= k < |MergeJoinFrom(a, b, i, j)| ==> !MergeJoinFrom(a, b, i, j)[k].Left?
    decreases |a| - i + |b| - j
  {
    if i < |a| || j < |b| {
      var (e, i', j') := MergeJoinNext(a, b, i, j);
      if i < |a| {
        assert a[i] in b[j..];
        var m :| j <= m < |b| && b[m] == a[i];
        assert b[j] <= b[m];
      }
      assert !e.Left?;
      forall k | i' <= k < |a|
        ensures a[k] in b[j'..]
      {
        assert a[k] in b[j..];
        var m :| j <= m < |b| && b[m] == a[k];
        assert m > j by {
          if e.Right? {
            assert b[j] < a[i] <= a[k];
          } else {
            assert k > i && a[i] < a[k];
          }
        }
        assert b[j'..][m - j'] == a[k];
      }
      CoveredHasNoLeft(a, b, i', j');
      assert MergeJoinFrom(a, b, i, j) == [e] + MergeJoinFrom(a, b, i', j');
    }
  }

  /**
   * As written, a CPU trace whose shift amounts are distinct and below 32
   * yields a shift-amount table with no row marked executed.
   */
  lemma AsWrittenMarksNothing(cpuTrace: seq<CpuColumns.CpuRow>)
    requires StrictlySorted(Sort(FilterShiftTrace(cpuTrace)))
    requires forall x :: x in FilterShiftTrace(cpuTrace) ==> 0 <= x < 32
    ensures ExecutedValues(ShiftAmountTrace(cpuTrace)) == []
  {
    var a := Sort(FilterShiftTrace(cpuTrace));
    var items := MergedAmounts(cpuTrace);
    var rows := MapRows(items, AsWrittenRow);
    assert AllAmounts()[0..] == AllAmounts();
    forall k | 0 <= k < |a|
      ensures a[k] in AllAmounts()[0..]
    {
      assert a[k] in multiset(a);
      assert a[k] in FilterShiftTrace(cpuTrace);
      assert AllAmounts()[a[k]] == a[k];
    }
    AllAmountsSorted();
    CoveredHasNoLeft(a, AllAmounts(), 0, 0);
    AsWrittenExecutedNone(items);
    ExecutedValuesAppend(rows, seq(NextPow2(|rows|) - |rows|, _ => PADDING_ROW));
    PaddingNotExecuted(NextPow2(|rows|) - |rows|);
  }

  /**
   * With the correction, the rows marked executed list exactly the CPU's
   * shift amounts, sorted, so each amount is looked up as often as it was
   * executed.
   */
  lemma CorrectedMarksExecuted(cpuTrace: seq<CpuColumns.CpuRow>)
    ensures ExecutedValues(ShiftAmountTraceCorrected(cpuTrace)) == Sort(FilterShiftTrace(cpuTrace))
  {
    var a := Sort(FilterShiftTrace(cpuTrace));
    var items := MergedAmounts(cpuTrace);
    var rows := MapRows(items, CorrectedRow);
    AllAmountsSorted();
    MergeJoinProps(a, AllAmounts());
    CorrectedExecutedAreLeft(items);
    ExecutedValuesAppend(rows, seq(NextPow2(|rows|) - |rows|, _ => PADDING_ROW));
    PaddingNotExecuted(NextPow2(|rows|) - |rows|);
  }

  /** A CPU row executing SLL by the given amount. */
  function SllRow(amount: Felt): (r: CpuColumns.CpuRow)
    ensures IsShiftRow(r) && r.bitshift.amount == amount
  {
    var ops := CpuColumns.OpSelectors(0, 0, 0, 0, 0, 0, 0, 0, 0, 1, 0, 0, 0, 0, 0, 0, 0);
    var regs: CpuColumns.Regs := seq(CpuColumns.NUM_REGS, _ => 0);
    var inst := CpuColumns.Instruction(0, ops, regs, regs, regs, 0, 0);
    var r := CpuColumns.CpuRow(0, inst, 0, 0, 0, 0, regs, CpuColumns.XorView(0, 0, 0), CpuColumns.Bitshift(amount, 0));
    CpuColumns.SumOfTwo(1, 0);
    r
  }

  /**
   * One SLL by 3: the CPU looks up amount 3 once, the table as written
   * marks no row executed, and the corrected table marks exactly one.
   */
  lemma SingleShiftExample()
    ensures FilterShiftTrace([SllRow(3)]) == [3]
    ensures ExecutedValues(ShiftAmountTrace([SllRow(3)])) == []
    ensures ExecutedValues(ShiftAmountTraceCorrected([SllRow(3)])) == [3]
  {
    FilterShiftTraceSingle(SllRow(3));
    assert Sort([3]) == [3] by {
      SortedUnique(Sort([3]), [3]);
    }
    AsWrittenMarksNothing([SllRow(3)]);
    CorrectedMarksExecuted([SllRow(3)]);
  }
}
