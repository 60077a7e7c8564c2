// The flat-column CPU table: two opcode selectors (ADD and HALT), a
// clock, a destination-register index, the register file, and the ADD
// gadget. Also the table's one piece of mutable state, the compress
// challenge, which is set once and read back.

module CpuFlat {
  import opened Field
  import opened Expr
  import opened Wrappers
  import CpuColumns
  import CpuStark

  /** CpuStark's stored state: the compress challenge, unset by default. */
  class CpuStarkState {
    var compressChallenge: Option<Felt>

    constructor ()
      ensures compressChallenge == None
    {
      compressChallenge := None;
    }

    /** set_compress_challenge: a second call panics ("already set?"). */
    method SetCompressChallenge(challenge: Felt) returns (r: Result<(), string>)
      requires compressChallenge == None
      modifies this
      ensures compressChallenge == Some(challenge)
      ensures r == Ok(())
    {
      compressChallenge := Some(challenge);
      r := Ok(());
    }

    /** get_compress_challenge. */
    function GetCompressChallenge(): (r: Option<Felt>)
      reads this
      ensures r.Some? <==> compressChallenge != None
      ensures r.Some? ==> compressChallenge == Some(r.value)
    {
      compressChallenge
    }
  }

  /** The columns the flat CPU constraints read. */
  datatype FlatRow = FlatRow(
    clk: Felt, pc: Felt, sAdd: Felt, sHalt: Felt, rd: Felt,
    regs: CpuColumns.Regs, op1Value: Felt, op2Value: Felt, dstValue: Felt)

  /** opcode_one_hot: ADD and HALT selectors form a one-hot pair. */
  function OpcodeOneHot(lv: FlatRow): seq<Yield>
  {
    CpuStark.OneHot([lv.sAdd, lv.sHalt])
  }

  /** clock_ticks as written: the clock steps by one on every row. */
  function ClockTicks(lv: FlatRow, nv: FlatRow): seq<Yield>
  {
    [Yield(Always, nv.clk - (lv.clk + 1))]
  }

  /** The clock step as intended: every row but the last. */
  function ClockTicksCorrected(lv: FlatRow, nv: FlatRow): seq<Yield>
  {
    [Yield(Transition, nv.clk - (lv.clk + 1))]
  }

  /** only_rd_changes: every register other than the one indexed by rd keeps its value. */
  function OnlyRdChanges(lv: FlatRow, nv: FlatRow): (r: seq<Yield>)
    ensures |r| == CpuColumns.NUM_REGS
  {
    seq(CpuColumns.NUM_REGS, reg requires 0 <= reg < CpuColumns.NUM_REGS =>
      Yield(Always, (lv.rd - reg) * (lv.regs[reg] as int - nv.regs[reg])))
  }

  /** add::eval_packed_generic as written: dst = op1 + op2, and the pc term with its sign as written. */
  function AddConstraints(lv: FlatRow, nv: FlatRow): seq<Yield>
  {
    [ Yield(Always, lv.sAdd * (lv.dstValue - (lv.op1Value + lv.op2Value))),
      Yield(Always, lv.sAdd * (nv.pc - lv.pc + 4)) ]
  }

  /** The ADD gadget with the pc advancing by four. */
  function AddConstraintsCorrected(lv: FlatRow, nv: FlatRow): seq<Yield>
  {
    [ Yield(Always, lv.sAdd * (lv.dstValue - (lv.op1Value + lv.op2Value))),
      Yield(Always, lv.sAdd * (nv.pc - (lv.pc + 4))) ]
  }

  /** The last row must be HALT. */
  function HaltLastRow(lv: FlatRow): seq<Yield>
  {
    [Yield(LastRow, lv.sHalt - 1)]
  }

  /** eval_packed_generic as written (halt's own gadget is not part of this model). */
  function EvalPackedGeneric(lv: FlatRow, nv: FlatRow): seq<Yield>
  {
    OpcodeOneHot(lv) + ClockTicks(lv, nv) + OnlyRdChanges(lv, nv) + AddConstraints(lv, nv) + HaltLastRow(lv)
  }

  /** eval_packed_generic with the clock and pc corrections. */
  function EvalCorrected(lv: FlatRow, nv: FlatRow): seq<Yield>
  {
    OpcodeOneHot(lv) + ClockTicksCorrected(lv, nv) + OnlyRdChanges(lv, nv) + AddConstraintsCorrected(lv, nv) + HaltLastRow(lv)
  }

  const CONSTRAINT_DEGREE: nat := 2

  // ---------------------------------------------------------------------
  // Meaning of each group
  // ---------------------------------------------------------------------

  /** Exactly one of ADD and HALT is selected. */
  lemma OpcodeOneHotMeaning(lv: FlatRow, isFirst: bool, isLast: bool)
    requires PrimeModulus()
    ensures AllHold(OpcodeOneHot(lv), isFirst, isLast) <==>
      (lv.sAdd == 1 && lv.sHalt == 0) || (lv.sAdd == 0 && lv.sHalt == 1)
  {
    var s: seq<int> := [lv.sAdd, lv.sHalt];
    CpuStark.OneHotMeaning([lv.sAdd, lv.sHalt], isFirst, isLast);
    assert CpuColumns.OneHotAt(2, 0) == [1, 0];
    assert CpuColumns.OneHotAt(2, 1) == [0, 1];
    if CpuColumns.IsOneHot(s) {
      var i :| 0 <= i < 2 && s == CpuColumns.OneHotAt(2, i);
    }
  }

  /** Every register is kept unless rd indexes it. */
  lemma OnlyRdChangesMeaning(lv: FlatRow, nv: FlatRow, isFirst: bool, isLast: bool)
    requires PrimeModulus()
    ensures AllHold(OnlyRdChanges(lv, nv), isFirst, isLast) <==>
      forall reg :: 0 <= reg < CpuColumns.NUM_REGS ==> lv.rd == reg || nv.regs[reg] == lv.regs[reg]
  {
    var ys := OnlyRdChanges(lv, nv);
    forall reg | 0 <= reg < CpuColumns.NUM_REGS
      ensures IsZero(ys[reg].term) <==> lv.rd == reg || nv.regs[reg] == lv.regs[reg]
    {
      ZeroProductSmall(lv.rd - reg, lv.regs[reg] as int - nv.regs[reg]);
    }
  }

  /** As written, a selected ADD forces dst = op1 + op2 and next pc = pc - 4. */
  lemma AddMeaning(lv: FlatRow, nv: FlatRow, isFirst: bool, isLast: bool)
    requires PrimeModulus()
    ensures AllHold(AddConstraints(lv, nv), isFirst, isLast) <==>
      lv.sAdd == 0 || (lv.dstValue == Canon(lv.op1Value + lv.op2Value) && nv.pc == Canon(lv.pc - 4))
  {
    var ys := AddConstraints(lv, nv);
    GatedEq(lv.sAdd, lv.dstValue, lv.op1Value + lv.op2Value);
    assert nv.pc - lv.pc + 4 == nv.pc - (lv.pc - 4);
    GatedEq(lv.sAdd, nv.pc, lv.pc - 4);
    assert AllHold(ys, isFirst, isLast) <==> HoldsAt(ys[0], isFirst, isLast) && HoldsAt(ys[1], isFirst, isLast);
  }

  /** An ADD at pc 0 followed by pc 4, the straight-line step. */
  function AddAtZero(): (r: (FlatRow, FlatRow))
    ensures r.0.sAdd == 1 && r.0.pc == 0 && r.1.pc == 4
  {
    var regs: CpuColumns.Regs := seq(CpuColumns.NUM_REGS, _ => 0);
    (FlatRow(0, 0, 1, 0, 0, regs, 0, 0, 0), FlatRow(1, 4, 1, 0, 0, regs, 0, 0, 0))
  }

  /** The as-written ADD gadget rejects the step from pc 0 to pc 4. */
  lemma AsWrittenAddRejectsStep(isFirst: bool, isLast: bool)
    requires PrimeModulus()
    ensures !AllHold(AddConstraints(AddAtZero().0, AddAtZero().1), isFirst, isLast)
  {
    var (lv, nv) := AddAtZero();
    AddMeaning(lv, nv, isFirst, isLast);
    assert Canon(lv.pc - 4) == P - 4;
  }

  /** With the sign corrected, a selected ADD forces dst = op1 + op2 and next pc = pc + 4. */
  lemma AddCorrectedMeaning(lv: FlatRow, nv: FlatRow, isFirst: bool, isLast: bool)
    requires PrimeModulus()
    ensures AllHold(AddConstraintsCorrected(lv, nv), isFirst, isLast) <==>
      lv.sAdd == 0 || (lv.dstValue == Canon(lv.op1Value + lv.op2Value) && nv.pc == Canon(lv.pc + 4))
  {
    var ys := AddConstraintsCorrected(lv, nv);
    GatedEq(lv.sAdd, lv.dstValue, lv.op1Value + lv.op2Value);
    GatedEq(lv.sAdd, nv.pc, lv.pc + 4);
    assert AllHold(ys, isFirst, isLast) <==> HoldsAt(ys[0], isFirst, isLast) && HoldsAt(ys[1], isFirst, isLast);
  }

  /** The corrected ADD gadget accepts the step from pc 0 to pc 4. */
  lemma CorrectedAddAcceptsStep(isFirst: bool, isLast: bool)
    requires PrimeModulus()
    ensures AllHold(AddConstraintsCorrected(AddAtZero().0, AddAtZero().1), isFirst, isLast)
  {
    var (lv, nv) := AddAtZero();
    AddCorrectedMeaning(lv, nv, isFirst, isLast);
  }

  /**
   * The ADD gadget does not wrap: for u32 operands whose sum overflows,
   * no u32 dst (the range check's demand on ADD rows) satisfies it.
   */
  lemma AddDoesNotWrap(lv: FlatRow, nv: FlatRow, isFirst: bool, isLast: bool)
    requires PrimeModulus()
    requires lv.sAdd == 1
    requires lv.op1Value < TWO_32 && lv.op2Value < TWO_32 && lv.dstValue < TWO_32
    ensures AllHold(AddConstraintsCorrected(lv, nv), isFirst, isLast) ==>
      lv.op1Value + lv.op2Value < TWO_32 && lv.dstValue == lv.op1Value + lv.op2Value
  {
    AddCorrectedMeaning(lv, nv, isFirst, isLast);
  }

  // ---------------------------------------------------------------------
  // The clock
  // ---------------------------------------------------------------------

  /** Clock holds at a row pair exactly when the next clock is one more. */
  lemma ClockStep(lv: FlatRow, nv: FlatRow, isFirst: bool, isLast: bool)
    ensures AllHold(ClockTicks(lv, nv), isFirst, isLast) <==> nv.clk == Canon(lv.clk + 1)
    ensures AllHold(ClockTicksCorrected(lv, nv), isFirst, isLast) <==> isLast || nv.clk == Canon(lv.clk + 1)
  {
    IsZeroCanon(nv.clk, lv.clk + 1);
    assert AllHold(ClockTicks(lv, nv), isFirst, isLast) <==> HoldsAt(ClockTicks(lv, nv)[0], isFirst, isLast);
    assert AllHold(ClockTicksCorrected(lv, nv), isFirst, isLast) <==> HoldsAt(ClockTicksCorrected(lv, nv)[0], isFirst, isLast);
  }

  /** Each row's clock is the first row's plus its index, in the field. */
  predicate ClockCounts(rows: seq<FlatRow>)
    requires |rows| > 0
  {
    forall k :: 0 <= k < |rows| ==> rows[k].clk == Canon(rows[0].clk + k)
  }

  lemma CanonStep(x: int, k: int, c: Felt)
    requires c == Canon(x + k)
    ensures Canon(c + 1) == Canon(x + k + 1)
  {
    var q := (x + k) / P;
    assert x + k == q * P + c;
    assert x + k + 1 == q * P + (c + 1);
  }

  /** The prefix of clock steps up to row m gives the count up to row m. */
  lemma {:induction false} ClockPrefix(rows: seq<FlatRow>, m: nat)
    requires 0 < |rows| && m < |rows|
    requires ClockSteps(rows)
    ensures rows[m].clk == Canon(rows[0].clk + m)
  {
    if m > 0 {
      ClockPrefix(rows, m - 1);
      CanonStep(rows[0].clk, m - 1, rows[m - 1].clk);
    }
  }

  /** Each row's clock is one more than the previous row's. */
  predicate ClockSteps(rows: seq<FlatRow>)
  {
    forall k :: 0 <= k < |rows| - 1 ==> rows[k + 1].clk == Canon(rows[k].clk + 1)
  }

  lemma NextRowOf<R>(rows: seq<R>, k: nat)
    requires k < |rows|
    ensures NextRow(rows, k) == if k == |rows| - 1 then rows[0] else rows[k + 1]
  {
  }

  /** The corrected clock constraint holds on a trace exactly when the clock steps between rows. */
  lemma ClockCorrectedSteps(rows: seq<FlatRow>)
    requires |rows| > 0
    ensures TraceSatisfies(rows, ClockTicksCorrected) <==> ClockSteps(rows)
  {
    if TraceSatisfies(rows, ClockTicksCorrected) {
      CorrectedTraceSteps(rows);
    }
    if ClockSteps(rows) {
      StepsSatisfyCorrected(rows);
    }
  }

  lemma CorrectedTraceSteps(rows: seq<FlatRow>)
    requires |rows| > 0 && TraceSatisfies(rows, ClockTicksCorrected)
    ensures ClockSteps(rows)
  {
    var n := |rows|;
    forall k | 0 <= k < n - 1
      ensures rows[k + 1].clk == Canon(rows[k].clk + 1)
    {
      NextRowOf(rows, k);
      assert AllHold(ClockTicksCorrected(rows[k], NextRow(rows, k)), k == 0, k == n - 1);
      ClockStep(rows[k], rows[k + 1], k == 0, false);
    }
  }

  lemma StepsSatisfyCorrected(rows: seq<FlatRow>)
    requires |rows| > 0 && ClockSteps(rows)
    ensures TraceSatisfies(rows, ClockTicksCorrected)
  {
    var n := |rows|;
    forall k | 0 <= k < n
      ensures AllHold(ClockTicksCorrected(rows[k], NextRow(rows, k)), k == 0, k == n - 1)
    {
      NextRowOf(rows, k);
      if k < n - 1 {
        assert rows[k + 1].clk == Canon(rows[k].clk + 1);
        ClockStep(rows[k], rows[k + 1], k == 0, false);
      } else {
        ClockStep(rows[k], rows[0], k == 0, true);
      }
    }
  }

  lemma ClockStepsCount(rows: seq<FlatRow>)
    requires |rows| > 0
    ensures ClockSteps(rows) <==> ClockCounts(rows)
  {
    if ClockSteps(rows) {
      forall m | 0 <= m < |rows|
        ensures rows[m].clk == Canon(rows[0].clk + m)
      {
        ClockPrefix(rows, m);
      }
    }
    if ClockCounts(rows) {
      forall k | 0 <= k < |rows| - 1
        ensures rows[k + 1].clk == Canon(rows[k].clk + 1)
      {
        CanonStep(rows[0].clk, k, rows[k].clk);
      }
    }
  }

  /**
   * The corrected clock constraint holds on a trace exactly when the
   * clock counts up by one from the first row.
   */
  lemma ClockCorrectedMeaning(rows: seq<FlatRow>)
    requires |rows| > 0
    ensures TraceSatisfies(rows, ClockTicksCorrected) <==> ClockCounts(rows)
  {
    ClockCorrectedSteps(rows);
    ClockStepsCount(rows);
  }

  lemma CanonWrapImpossible(x: int, n: nat)
    requires 0 < n < P
    ensures Canon(x + n) != Canon(x)
  {
    var q := x / P;
    var r := x % P;
    assert x == q * P + r;
    assert x + n == q * P + (r + n);
    if r + n < P {
      assert Canon(x + n) == r + n;
    } else {
      assert x + n == (q + 1) * P + (r + n - P);
      assert Canon(x + n) == r + n - P;
    }
  }

  /**
   * As written, the clock constraint also ties the last row to the first,
   * so summing the steps around the trace gives n = 0 in the field: no
   * trace of 1 <= n < P rows satisfies the table.
   */
  lemma AsWrittenClockUnsatisfiable(rows: seq<FlatRow>)
    requires 0 < |rows| < P
    ensures !TraceSatisfies(rows, EvalPackedGeneric)
  {
    if TraceSatisfies(rows, EvalPackedGeneric) {
      var n := |rows|;
      forall k | 0 <= k < n
        ensures NextRow(rows, k).clk == Canon(rows[k].clk + 1)
      {
        AsWrittenRowStep(rows, k);
      }
      forall k | 0 <= k < n - 1
        ensures rows[k + 1].clk == Canon(rows[k].clk + 1)
      {
        NextRowOf(rows, k);
      }
      NextRowOf(rows, n - 1);
      WrapAroundBreaks(rows);
    }
  }

  /** A clock stepping by one over 1 <= n < P rows cannot step from the last row back to the first. */
  lemma WrapAroundBreaks(rows: seq<FlatRow>)
    requires 0 < |rows| < P && ClockSteps(rows)
    ensures rows[0].clk != Canon(rows[|rows| - 1].clk + 1)
  {
    var n := |rows|;
    ClockPrefix(rows, n - 1);
    CanonStep(rows[0].clk, n - 1, rows[n - 1].clk);
    CanonWrapImpossible(rows[0].clk, n);
    assert Canon(rows[0].clk) == rows[0].clk;
  }

  lemma AsWrittenRowStep(rows: seq<FlatRow>, k: nat)
    requires k < |rows| && TraceSatisfies(rows, EvalPackedGeneric)
    ensures NextRow(rows, k).clk == Canon(rows[k].clk + 1)
  {
    AsWrittenRow(rows, k);
    AsWrittenClockStep(rows[k], NextRow(rows, k), k == 0, k == |rows| - 1);
  }

  lemma AsWrittenRow(rows: seq<FlatRow>, k: nat)
    requires k < |rows| && TraceSatisfies(rows, EvalPackedGeneric)
    ensures AllHold(EvalPackedGeneric(rows[k], NextRow(rows, k)), k == 0, k == |rows| - 1)
  {
  }

  /** Any row pair satisfying the as-written table has the next clock one more. */
  lemma AsWrittenClockStep(lv: FlatRow, nv: FlatRow, isFirst: bool, isLast: bool)
    requires AllHold(EvalPackedGeneric(lv, nv), isFirst, isLast)
    ensures nv.clk == Canon(lv.clk + 1)
  {
    var a := OpcodeOneHot(lv);
    var c := ClockTicks(lv, nv);
    var rest := OnlyRdChanges(lv, nv) + AddConstraints(lv, nv) + HaltLastRow(lv);
    assert EvalPackedGeneric(lv, nv) == (a + c) + rest;
    AllHoldAppend(a + c, rest, isFirst, isLast);
    AllHoldAppend(a, c, isFirst, isLast);
    ClockStep(lv, nv, isFirst, isLast);
  }

  // ---------------------------------------------------------------------
  // One step of the corrected table
  // ---------------------------------------------------------------------

  lemma EvalCorrectedParts(lv: FlatRow, nv: FlatRow, isFirst: bool, isLast: bool)
    ensures AllHold(EvalCorrected(lv, nv), isFirst, isLast) <==>
      AllHold(OpcodeOneHot(lv), isFirst, isLast)
      && AllHold(ClockTicksCorrected(lv, nv), isFirst, isLast)
      && AllHold(OnlyRdChanges(lv, nv), isFirst, isLast)
      && AllHold(AddConstraintsCorrected(lv, nv), isFirst, isLast)
      && AllHold(HaltLastRow(lv), isFirst, isLast)
  {
    var a := OpcodeOneHot(lv);
    var b := ClockTicksCorrected(lv, nv);
    var c := OnlyRdChanges(lv, nv);
    var d := AddConstraintsCorrected(lv, nv);
    var e := HaltLastRow(lv);
    AllHoldAppend(a + b + c + d, e, isFirst, isLast);
    AllHoldAppend(a + b + c, d, isFirst, isLast);
    AllHoldAppend(a + b, c, isFirst, isLast);
    AllHoldAppend(a, b, isFirst, isLast);
  }

  /**
   * An ADD row of the corrected table: the clock and pc step, dst is
   * op1 + op2, and only the register rd indexes may change.
   */
  lemma CorrectedAddStep(lv: FlatRow, nv: FlatRow, isFirst: bool, isLast: bool)
    requires PrimeModulus()
    requires AllHold(EvalCorrected(lv, nv), isFirst, isLast)
    requires lv.sAdd == 1
    ensures lv.sHalt == 0 && !isLast
    ensures nv.clk == Canon(lv.clk + 1) && nv.pc == Canon(lv.pc + 4)
    ensures lv.dstValue == Canon(lv.op1Value + lv.op2Value)
    ensures forall reg :: 0 <= reg < CpuColumns.NUM_REGS && lv.rd != reg ==> nv.regs[reg] == lv.regs[reg]
  {
    EvalCorrectedParts(lv, nv, isFirst, isLast);
    OpcodeOneHotMeaning(lv, isFirst, isLast);
    IsZeroSmall(lv.sHalt - 1);
    assert HoldsAt(HaltLastRow(lv)[0], isFirst, isLast);
    ClockStep(lv, nv, isFirst, isLast);
    OnlyRdChangesMeaning(lv, nv, isFirst, isLast);
    AddCorrectedMeaning(lv, nv, isFirst, isLast);
  }
}
