// The CPU table's own constraints: one-hot opcode and register
// selectors, the clock, the program counter of straight-line opcodes,
// the register file (register 0, the destination register and everything
// else), the two operand values, the permuted program columns and the
// final HALT. Each constraint group is a list of yielded terms over a
// row pair; its meaning is stated under the primality hypothesis.

module CpuStark {
  import opened Field
  import opened Expr
  import opened CpuColumns
  import CpuSub
  import CpuBitwise

  /** is_straightline: the thirteen opcodes that fall through to pc + 4. */
  function IsStraightline(ops: OpSelectors): int
  {
    ops.add + ops.sub + ops.and + ops.or + ops.xor + ops.divu + ops.mul
      + ops.mulhu + ops.remu + ops.sll + ops.slt + ops.sltu + ops.srl
  }

  /** The opcodes that may move the pc elsewhere (ECALL's halt keeps it). */
  predicate IsJumping(i: nat)
  {
    i in {OP_JALR, OP_BEQ, OP_BNE, OP_ECALL}
  }

  /** pc_ticks_up: straight-line opcodes advance the pc by 4. */
  function PcTicksUp(lv: CpuRow, nv: CpuRow): seq<Yield>
  {
    [Yield(Transition, IsStraightline(lv.inst.ops) * (nv.inst.pc - (lv.inst.pc + 4)))]
  }

  /** one_hot: every selector is binary and they sum to one. */
  function OneHot(selectors: seq<Felt>): (r: seq<Yield>)
    ensures |r| == |selectors| + 1
  {
    seq(|selectors|, k requires 0 <= k < |selectors| => Yield(Always, IsBinaryTerm(selectors[k])))
      + [Yield(Always, 1 - Sum(selectors))]
  }

  /** one_hots: the opcode selectors and the three register selectors. */
  function OneHots(inst: Instruction): seq<Yield>
  {
    OneHot(OpList(inst.ops)) + OneHot(inst.rs1Select) + OneHot(inst.rs2Select) + OneHot(inst.rdSelect)
  }

  /** clock_ticks: the clock advances by one while the CPU is not halted. */
  function ClockTicks(lv: CpuRow, nv: CpuRow): seq<Yield>
  {
    [Yield(Transition, (nv.clk - lv.clk) - (1 - lv.halt))]
  }

  /** r0_always_0. */
  function R0Always0(lv: CpuRow): seq<Yield>
  {
    [Yield(Always, lv.regs[0])]
  }

  /** A row of the permuted program columns: the filter and the instruction columns. */
  datatype ProgramRow = ProgramRow(filter: Felt, inst: seq<Felt>)

  /**
   * check_permuted_inst_cols: the filter is binary and starts at 1, and a
   * next row whose filter is 0 repeats this row's instruction (izip stops
   * at the shorter row).
   */
  function CheckPermutedInstCols(lv: ProgramRow, nv: ProgramRow): seq<Yield>
  {
    FilterConstraints(lv) + RepeatConstraints(lv, nv)
  }

  /** The filter is binary and is 1 on the first row. */
  function FilterConstraints(lv: ProgramRow): seq<Yield>
  {
    [Yield(Always, lv.filter * (lv.filter - 1)), Yield(FirstRow, lv.filter - 1)]
  }

  /** The number of instruction columns izip pairs up. */
  function Paired(lv: ProgramRow, nv: ProgramRow): nat
  {
    if |lv.inst| <= |nv.inst| then |lv.inst| else |nv.inst|
  }

  /** Where the next filter is 0, each paired instruction column repeats. */
  function RepeatConstraints(lv: ProgramRow, nv: ProgramRow): (r: seq<Yield>)
    ensures |r| == Paired(lv, nv)
  {
    var n := Paired(lv, nv);
    seq(n, k requires 0 <= k < n => Yield(Always, (nv.filter - 1) * (lv.inst[k] as int - nv.inst[k])))
  }

  /** only_rd_changes: a register not selected as rd keeps its value. */
  function OnlyRdChanges(lv: CpuRow, nv: CpuRow): (r: seq<Yield>)
    ensures |r| == NUM_REGS
  {
    seq(NUM_REGS, reg requires 0 <= reg < NUM_REGS =>
      Yield(Transition, (1 - lv.inst.rdSelect[reg] as int) * (lv.regs[reg] as int - nv.regs[reg])))
  }

  /** rd_actually_changes: the selected rd (other than register 0) takes dst. */
  function RdActuallyChanges(lv: CpuRow, nv: CpuRow): (r: seq<Yield>)
    ensures |r| == NUM_REGS - 1
  {
    seq(NUM_REGS - 1, k requires 0 <= k < NUM_REGS - 1 =>
      Yield(Transition, lv.inst.rdSelect[k + 1] * (lv.dstValue - nv.regs[k + 1])))
  }

  /** populate_op1_value: op1 is the register rs1 selects. */
  function PopulateOp1Value(lv: CpuRow): seq<Yield>
  {
    [Yield(Always, lv.op1Value - Dot(lv.inst.rs1Select, lv.regs))]
  }

  /** populate_op2_value: op2 is the register rs2 selects plus the immediate. */
  function PopulateOp2Value(lv: CpuRow): seq<Yield>
  {
    [Yield(Always, lv.op2Value - lv.inst.immValue - Dot(lv.inst.rs2Select, lv.regs))]
  }

  /** The last row must be HALT. */
  function HaltLastRow(lv: CpuRow): seq<Yield>
  {
    [Yield(LastRow, lv.halt - 1)]
  }

  /** CpuColumnsExtended: the CPU columns and the permuted program columns. */
  datatype ExtendedRow = ExtendedRow(cpu: CpuRow, permuted: ProgramRow)

  /** The register-file and control part of eval_packed_generic. */
  function CoreConstraints(lv: CpuRow, nv: CpuRow): seq<Yield>
  {
    ClockTicks(lv, nv) + PcTicksUp(lv, nv) + OneHots(lv.inst) + R0Always0(lv)
      + OnlyRdChanges(lv, nv) + RdActuallyChanges(lv, nv)
      + PopulateOp1Value(lv) + PopulateOp2Value(lv)
  }

  /**
   * eval_packed_generic, with the opcode gadgets that read this row layout
   * (SUB and the bitwise operations). The branch and JALR gadgets are
   * stated on their own rows; the ADD, ECALL, MUL, DIV and signed
   * comparison gadgets are not part of this model.
   */
  function EvalPackedGeneric(lv: ExtendedRow, nv: ExtendedRow): seq<Yield>
  {
    CheckPermutedInstCols(lv.permuted, nv.permuted)
      + CoreConstraints(lv.cpu, nv.cpu)
      + CpuSub.Constraints(lv.cpu) + CpuBitwise.Constraints(lv.cpu)
      + HaltLastRow(lv.cpu)
  }

  const CONSTRAINT_DEGREE: nat := 3

  // ---------------------------------------------------------------------
  // Meaning of each group
  // ---------------------------------------------------------------------

  lemma BinaryPart(selectors: seq<Felt>, isFirst: bool, isLast: bool)
    requires PrimeModulus()
    ensures AllHold(OneHot(selectors)[..|selectors|], isFirst, isLast) <==> AllBits(selectors)
  {
    var ys := OneHot(selectors)[..|selectors|];
    forall k | 0 <= k < |selectors|
      ensures HoldsAt(ys[k], isFirst, isLast) <==> selectors[k] == 0 || selectors[k] == 1
    {
      BinaryMeaning(selectors[k]);
    }
  }

  /** one_hot holds exactly on one-hot selector vectors. */
  lemma OneHotMeaning(selectors: seq<Felt>, isFirst: bool, isLast: bool)
    requires PrimeModulus()
    requires |selectors| < P
    ensures AllHold(OneHot(selectors), isFirst, isLast) <==> IsOneHot(selectors)
  {
    var ys := OneHot(selectors);
    var n := |selectors|;
    assert ys == ys[..n] + [ys[n]];
    AllHoldAppend(ys[..n], [ys[n]], isFirst, isLast);
    BinaryPart(selectors, isFirst, isLast);
    if AllBits(selectors) {
      BitsSumBounds(selectors);
      BitsSumOne(selectors);
      IsZeroSmall(1 - Sum(selectors));
    }
    if IsOneHot(selectors) {
      var i :| 0 <= i < n && selectors == OneHotAt(n, i);
      assert AllBits(selectors);
    }
  }

  /** The four selector groups are each one-hot. */
  lemma OneHotsMeaning(inst: Instruction, isFirst: bool, isLast: bool)
    requires PrimeModulus()
    ensures AllHold(OneHots(inst), isFirst, isLast) <==>
      IsOneHot(OpList(inst.ops)) && IsOneHot(inst.rs1Select) && IsOneHot(inst.rs2Select) && IsOneHot(inst.rdSelect)
  {
    var a := OneHot(OpList(inst.ops));
    var b := OneHot(inst.rs1Select);
    var c := OneHot(inst.rs2Select);
    var d := OneHot(inst.rdSelect);
    AllHoldAppend(a + b + c, d, isFirst, isLast);
    AllHoldAppend(a + b, c, isFirst, isLast);
    AllHoldAppend(a, b, isFirst, isLast);
    OneHotMeaning(OpList(inst.ops), isFirst, isLast);
    OneHotMeaning(inst.rs1Select, isFirst, isLast);
    OneHotMeaning(inst.rs2Select, isFirst, isLast);
    OneHotMeaning(inst.rdSelect, isFirst, isLast);
  }

  /** On every row but the last, the next clock is clk + 1 - halt. */
  lemma ClockTicksMeaning(lv: CpuRow, nv: CpuRow, isFirst: bool, isLast: bool)
    ensures AllHold(ClockTicks(lv, nv), isFirst, isLast) <==>
      isLast || nv.clk == Canon(lv.clk + 1 - lv.halt)
  {
    IsZeroCanon(nv.clk, lv.clk + 1 - lv.halt);
    assert AllHold(ClockTicks(lv, nv), isFirst, isLast) <==> HoldsAt(ClockTicks(lv, nv)[0], isFirst, isLast);
  }

  /** Under one-hot opcode selectors, is_straightline is 1 except for the jumping opcodes. */
  lemma StraightlineOfSelected(ops: OpSelectors, i: nat)
    requires Selected(ops, i)
    ensures IsStraightline(ops) == if IsJumping(i) then 0 else 1
  {
    SelectedValues(ops, i);
    var l := OpList(ops);
    assert ops.add == l[OP_ADD] && ops.sub == l[OP_SUB] && ops.xor == l[OP_XOR] && ops.or == l[OP_OR];
    assert ops.and == l[OP_AND] && ops.divu == l[OP_DIVU] && ops.remu == l[OP_REMU] && ops.mul == l[OP_MUL];
    assert ops.mulhu == l[OP_MULHU] && ops.sll == l[OP_SLL] && ops.slt == l[OP_SLT] && ops.sltu == l[OP_SLTU];
    assert ops.srl == l[OP_SRL];
  }

  /**
   * With the opcode selected at i, every straight-line opcode moves the pc
   * to pc + 4 on every row but the last; JALR, BEQ, BNE and ECALL are left
   * to their own constraints.
   */
  lemma PcTicksUpMeaning(lv: CpuRow, nv: CpuRow, i: nat, isFirst: bool, isLast: bool)
    requires PrimeModulus()
    requires Selected(lv.inst.ops, i)
    ensures AllHold(PcTicksUp(lv, nv), isFirst, isLast) <==>
      isLast || IsJumping(i) || nv.inst.pc == Canon(lv.inst.pc + 4)
  {
    StraightlineOfSelected(lv.inst.ops, i);
    GatedEq(IsStraightline(lv.inst.ops), nv.inst.pc, lv.inst.pc + 4);
    assert AllHold(PcTicksUp(lv, nv), isFirst, isLast) <==> HoldsAt(PcTicksUp(lv, nv)[0], isFirst, isLast);
  }

  lemma R0Meaning(lv: CpuRow, isFirst: bool, isLast: bool)
    ensures AllHold(R0Always0(lv), isFirst, isLast) <==> lv.regs[0] == 0
  {
    IsZeroSmall(lv.regs[0]);
    assert AllHold(R0Always0(lv), isFirst, isLast) <==> HoldsAt(R0Always0(lv)[0], isFirst, isLast);
  }

  /** Every register whose rd selector is not 1 is unchanged on the next row. */
  lemma OnlyRdChangesMeaning(lv: CpuRow, nv: CpuRow, isFirst: bool, isLast: bool)
    requires PrimeModulus()
    ensures AllHold(OnlyRdChanges(lv, nv), isFirst, isLast) <==>
      isLast || forall reg :: 0 <= reg < NUM_REGS ==> lv.inst.rdSelect[reg] == 1 || nv.regs[reg] == lv.regs[reg]
  {
    var ys := OnlyRdChanges(lv, nv);
    forall reg | 0 <= reg < NUM_REGS
      ensures IsZero(ys[reg].term) <==> lv.inst.rdSelect[reg] == 1 || nv.regs[reg] == lv.regs[reg]
    {
      ZeroProductSmall(1 - lv.inst.rdSelect[reg] as int, lv.regs[reg] as int - nv.regs[reg]);
    }
  }

  /** Every register from 1 up whose rd selector is set takes dst on the next row. */
  lemma RdActuallyChangesMeaning(lv: CpuRow, nv: CpuRow, isFirst: bool, isLast: bool)
    requires PrimeModulus()
    ensures AllHold(RdActuallyChanges(lv, nv), isFirst, isLast) <==>
      isLast || forall reg :: 1 <= reg < NUM_REGS ==> lv.inst.rdSelect[reg] == 0 || nv.regs[reg] == lv.dstValue
  {
    var ys := RdActuallyChanges(lv, nv);
    forall k | 0 <= k < NUM_REGS - 1
      ensures IsZero(ys[k].term) <==> lv.inst.rdSelect[k + 1] == 0 || nv.regs[k + 1] == lv.dstValue
    {
      ZeroProductSmall(lv.inst.rdSelect[k + 1], lv.dstValue - nv.regs[k + 1]);
    }
    if !isLast && forall reg :: 1 <= reg < NUM_REGS ==> lv.inst.rdSelect[reg] == 0 || nv.regs[reg] == lv.dstValue {
      forall k | 0 <= k < NUM_REGS - 1
        ensures HoldsAt(ys[k], isFirst, isLast)
      {
        assert 1 <= k + 1 < NUM_REGS;
      }
    }
    if AllHold(ys, isFirst, isLast) && !isLast {
      forall reg | 1 <= reg < NUM_REGS
        ensures lv.inst.rdSelect[reg] == 0 || nv.regs[reg] == lv.dstValue
      {
        assert HoldsAt(ys[reg - 1], isFirst, isLast);
      }
    }
  }

  /** With rs1 selecting register i, op1 is the value of register i. */
  lemma PopulateOp1Meaning(lv: CpuRow, i: nat, isFirst: bool, isLast: bool)
    requires i < NUM_REGS && lv.inst.rs1Select == OneHotAt(NUM_REGS, i)
    ensures AllHold(PopulateOp1Value(lv), isFirst, isLast) <==> lv.op1Value == lv.regs[i]
  {
    DotOneHot(NUM_REGS, i, lv.regs);
    IsZeroSmall(lv.op1Value - lv.regs[i]);
    assert AllHold(PopulateOp1Value(lv), isFirst, isLast) <==> HoldsAt(PopulateOp1Value(lv)[0], isFirst, isLast);
  }

  /** With rs2 selecting register i, op2 is register i plus the immediate, in the field. */
  lemma PopulateOp2Meaning(lv: CpuRow, i: nat, isFirst: bool, isLast: bool)
    requires i < NUM_REGS && lv.inst.rs2Select == OneHotAt(NUM_REGS, i)
    ensures AllHold(PopulateOp2Value(lv), isFirst, isLast) <==> lv.op2Value == Canon(lv.regs[i] + lv.inst.immValue)
  {
    DotOneHot(NUM_REGS, i, lv.regs);
    IsZeroCanon(lv.op2Value, lv.regs[i] + lv.inst.immValue);
    assert AllHold(PopulateOp2Value(lv), isFirst, isLast) <==> HoldsAt(PopulateOp2Value(lv)[0], isFirst, isLast);
  }

  /** The last row's halt is 1. */
  lemma HaltMeaning(lv: CpuRow, isFirst: bool, isLast: bool)
    ensures AllHold(HaltLastRow(lv), isFirst, isLast) <==> !isLast || lv.halt == 1
  {
    IsZeroSmall(lv.halt - 1);
    assert AllHold(HaltLastRow(lv), isFirst, isLast) <==> HoldsAt(HaltLastRow(lv)[0], isFirst, isLast);
  }

  /** The register file after writing v to rd; writes to register 0 are dropped. */
  function WriteReg(regs: Regs, rd: nat, v: Felt): (r: Regs)
    requires rd < NUM_REGS
    ensures forall k :: 1 <= k < NUM_REGS ==> r[k] == if k == rd then v else regs[k]
    ensures r[0] == regs[0]
  {
    if rd == 0 then regs else regs[rd := v]
  }

  /**
   * With rd selecting register rd, the two register constraints hold
   * exactly when the next row's registers 1..31 are this row's with dst
   * written to rd, and register 0 is kept unless rd is register 0.
   */
  lemma RegisterWriteMeaning(lv: CpuRow, nv: CpuRow, rd: nat, isFirst: bool, isLast: bool)
    requires PrimeModulus()
    requires rd < NUM_REGS && lv.inst.rdSelect == OneHotAt(NUM_REGS, rd)
    ensures AllHold(OnlyRdChanges(lv, nv) + RdActuallyChanges(lv, nv), isFirst, isLast) <==>
      isLast ||
        ((forall k :: 1 <= k < NUM_REGS ==> nv.regs[k] == WriteReg(lv.regs, rd, lv.dstValue)[k])
         && (rd != 0 ==> nv.regs[0] == lv.regs[0]))
  {
    AllHoldAppend(OnlyRdChanges(lv, nv), RdActuallyChanges(lv, nv), isFirst, isLast);
    OnlyRdChangesMeaning(lv, nv, isFirst, isLast);
    RdActuallyChangesMeaning(lv, nv, isFirst, isLast);
    var w := WriteReg(lv.regs, rd, lv.dstValue);
    assert forall k :: 0 <= k < NUM_REGS ==> lv.inst.rdSelect[k] == if k == rd then 1 else 0;
  }

  /** The instruction's selectors decode to opcode i and registers r1, r2, rd. */
  predicate Decoded(inst: Instruction, i: nat, r1: nat, r2: nat, rd: nat)
  {
    Selected(inst.ops, i) && r1 < NUM_REGS && r2 < NUM_REGS && rd < NUM_REGS
    && inst.rs1Select == OneHotAt(NUM_REGS, r1)
    && inst.rs2Select == OneHotAt(NUM_REGS, r2)
    && inst.rdSelect == OneHotAt(NUM_REGS, rd)
  }

  /** Selector columns satisfy the one-hot constraints exactly when they decode to something. */
  lemma OneHotsDecode(inst: Instruction, isFirst: bool, isLast: bool)
    requires PrimeModulus()
    ensures AllHold(OneHots(inst), isFirst, isLast) <==>
      exists i, r1, r2, rd :: Decoded(inst, i, r1, r2, rd)
  {
    OneHotsMeaning(inst, isFirst, isLast);
    if AllHold(OneHots(inst), isFirst, isLast) {
      var i :| 0 <= i < NUM_OPS && OpList(inst.ops) == OneHotAt(NUM_OPS, i);
      var r1 :| 0 <= r1 < NUM_REGS && inst.rs1Select == OneHotAt(NUM_REGS, r1);
      var r2 :| 0 <= r2 < NUM_REGS && inst.rs2Select == OneHotAt(NUM_REGS, r2);
      var rd :| 0 <= rd < NUM_REGS && inst.rdSelect == OneHotAt(NUM_REGS, rd);
      assert Decoded(inst, i, r1, r2, rd);
    }
    if exists i, r1, r2, rd :: Decoded(inst, i, r1, r2, rd) {
      var i, r1, r2, rd :| Decoded(inst, i, r1, r2, rd);
      assert IsOneHot(OpList(inst.ops));
      assert IsOneHot(inst.rs1Select) && IsOneHot(inst.rs2Select) && IsOneHot(inst.rdSelect);
    }
  }

  /**
   * One CPU step: for a decoded instruction, the control and register
   * constraints hold exactly when the clock ticks unless halted, a
   * straight-line opcode moves the pc by 4, register 0 reads 0, op1 and
   * op2 read rs1 and rs2 (plus the immediate), and the next register file
   * is this one with dst written to rd.
   */
  lemma CoreConstraintsMeaning(lv: CpuRow, nv: CpuRow, i: nat, r1: nat, r2: nat, rd: nat, isFirst: bool, isLast: bool)
    requires PrimeModulus()
    requires Decoded(lv.inst, i, r1, r2, rd)
    ensures AllHold(CoreConstraints(lv, nv), isFirst, isLast) <==>
      (isLast || nv.clk == Canon(lv.clk + 1 - lv.halt))
      && (isLast || IsJumping(i) || nv.inst.pc == Canon(lv.inst.pc + 4))
      && lv.regs[0] == 0
      && (isLast ||
            ((forall k :: 1 <= k < NUM_REGS ==> nv.regs[k] == WriteReg(lv.regs, rd, lv.dstValue)[k])
             && (rd != 0 ==> nv.regs[0] == lv.regs[0])))
      && lv.op1Value == lv.regs[r1]
      && lv.op2Value == Canon(lv.regs[r2] + lv.inst.immValue)
  {
    var c := ClockTicks(lv, nv);
    var p := PcTicksUp(lv, nv);
    var o := OneHots(lv.inst);
    var z := R0Always0(lv);
    var w := OnlyRdChanges(lv, nv) + RdActuallyChanges(lv, nv);
    var a := PopulateOp1Value(lv);
    var b := PopulateOp2Value(lv);
    assert CoreConstraints(lv, nv) == c + p + o + z + w + a + b;
    AllHoldAppend(c + p + o + z + w + a, b, isFirst, isLast);
    AllHoldAppend(c + p + o + z + w, a, isFirst, isLast);
    AllHoldAppend(c + p + o + z, w, isFirst, isLast);
    AllHoldAppend(c + p + o, z, isFirst, isLast);
    AllHoldAppend(c + p, o, isFirst, isLast);
    AllHoldAppend(c, p, isFirst, isLast);
    ClockTicksMeaning(lv, nv, isFirst, isLast);
    PcTicksUpMeaning(lv, nv, i, isFirst, isLast);
    OneHotsDecode(lv.inst, isFirst, isLast);
    R0Meaning(lv, isFirst, isLast);
    RegisterWriteMeaning(lv, nv, rd, isFirst, isLast);
    PopulateOp1Meaning(lv, r1, isFirst, isLast);
    PopulateOp2Meaning(lv, r2, isFirst, isLast);
  }

  /** eval_packed_generic holds exactly when each of its modelled groups holds. */
  lemma EvalPackedGenericParts(lv: ExtendedRow, nv: ExtendedRow, isFirst: bool, isLast: bool)
    ensures AllHold(EvalPackedGeneric(lv, nv), isFirst, isLast) <==>
      AllHold(CheckPermutedInstCols(lv.permuted, nv.permuted), isFirst, isLast)
      && AllHold(CoreConstraints(lv.cpu, nv.cpu), isFirst, isLast)
      && AllHold(CpuSub.Constraints(lv.cpu), isFirst, isLast)
      && AllHold(CpuBitwise.Constraints(lv.cpu), isFirst, isLast)
      && AllHold(HaltLastRow(lv.cpu), isFirst, isLast)
  {
    var a := CheckPermutedInstCols(lv.permuted, nv.permuted);
    var b := CoreConstraints(lv.cpu, nv.cpu);
    var c := CpuSub.Constraints(lv.cpu);
    var d := CpuBitwise.Constraints(lv.cpu);
    var e := HaltLastRow(lv.cpu);
    AllHoldAppend(a + b + c + d, e, isFirst, isLast);
    AllHoldAppend(a + b + c, d, isFirst, isLast);
    AllHoldAppend(a + b, c, isFirst, isLast);
    AllHoldAppend(a, b, isFirst, isLast);
  }

  /** What eval_packed_generic fixes on a single row pair. */
  lemma RowBoundaries(lv: ExtendedRow, nv: ExtendedRow, isFirst: bool, isLast: bool)
    requires PrimeModulus()
    requires AllHold(EvalPackedGeneric(lv, nv), isFirst, isLast)
    ensures isFirst ==> lv.permuted.filter == 1
    ensures isLast ==> lv.cpu.halt == 1
    ensures lv.cpu.regs[0] == 0
  {
    EvalPackedGenericParts(lv, nv, isFirst, isLast);
    CheckPermutedMeaning(lv.permuted, nv.permuted, isFirst, isLast);
    HaltMeaning(lv.cpu, isFirst, isLast);
    var c := ClockTicks(lv.cpu, nv.cpu) + PcTicksUp(lv.cpu, nv.cpu) + OneHots(lv.cpu.inst);
    var z := R0Always0(lv.cpu);
    var rest := OnlyRdChanges(lv.cpu, nv.cpu) + RdActuallyChanges(lv.cpu, nv.cpu)
      + PopulateOp1Value(lv.cpu) + PopulateOp2Value(lv.cpu);
    assert CoreConstraints(lv.cpu, nv.cpu) == c + z + rest;
    AllHoldAppend(c + z, rest, isFirst, isLast);
    AllHoldAppend(c, z, isFirst, isLast);
    R0Meaning(lv.cpu, isFirst, isLast);
  }

  /**
   * On a satisfying CPU trace the program filter starts at 1, the last row
   * is HALT, and register 0 reads 0 on every row.
   */
  lemma TraceBoundaries(rows: seq<ExtendedRow>)
    requires PrimeModulus()
    requires |rows| > 0 && TraceSatisfies(rows, EvalPackedGeneric)
    ensures rows[0].permuted.filter == 1
    ensures rows[|rows| - 1].cpu.halt == 1
    ensures forall k :: 0 <= k < |rows| ==> rows[k].cpu.regs[0] == 0
  {
    var last := |rows| - 1;
    forall k | 0 <= k < |rows|
      ensures rows[k].cpu.regs[0] == 0
      ensures k == 0 ==> rows[k].permuted.filter == 1
      ensures k == last ==> rows[k].cpu.halt == 1
    {
      RowBoundaries(rows[k], NextRow(rows, k), k == 0, k == last);
    }
  }

  /** The first n instruction columns of two rows agree. */
  predicate SameInstruction(lv: ProgramRow, nv: ProgramRow, n: nat)
    requires n <= |lv.inst| && n <= |nv.inst|
  {
    forall k :: 0 <= k < n ==> lv.inst[k] == nv.inst[k]
  }

  lemma FilterConstraintsMeaning(lv: ProgramRow, isFirst: bool, isLast: bool)
    requires PrimeModulus()
    ensures AllHold(FilterConstraints(lv), isFirst, isLast) <==>
      (lv.filter == 0 || lv.filter == 1) && (isFirst ==> lv.filter == 1)
  {
    var ys := FilterConstraints(lv);
    BinaryMeaning(lv.filter);
    assert lv.filter * (lv.filter - 1) == -IsBinaryTerm(lv.filter);
    IsZeroNegIff(IsBinaryTerm(lv.filter));
    IsZeroSmall(lv.filter - 1);
    assert AllHold(ys, isFirst, isLast) <==> HoldsAt(ys[0], isFirst, isLast) && HoldsAt(ys[1], isFirst, isLast);
  }

  lemma RepeatConstraintsMeaning(lv: ProgramRow, nv: ProgramRow, isFirst: bool, isLast: bool)
    requires PrimeModulus()
    ensures AllHold(RepeatConstraints(lv, nv), isFirst, isLast) <==>
      nv.filter == 1 || SameInstruction(lv, nv, Paired(lv, nv))
  {
    var n := Paired(lv, nv);
    var ys := RepeatConstraints(lv, nv);
    forall k | 0 <= k < n
      ensures IsZero(ys[k].term) <==> nv.filter == 1 || lv.inst[k] == nv.inst[k]
    {
      ZeroProductSmall(nv.filter - 1, lv.inst[k] as int - nv.inst[k]);
    }
    if nv.filter != 1 && AllHold(ys, isFirst, isLast) {
      forall k | 0 <= k < n
        ensures lv.inst[k] == nv.inst[k]
      {
        assert HoldsAt(ys[k], isFirst, isLast);
      }
    }
  }

  /**
   * The permuted program columns: the filter is a bit, it is 1 on the
   * first row, and a row after which the filter drops to 0 is repeated.
   */
  lemma CheckPermutedMeaning(lv: ProgramRow, nv: ProgramRow, isFirst: bool, isLast: bool)
    requires PrimeModulus()
    ensures AllHold(CheckPermutedInstCols(lv, nv), isFirst, isLast) <==>
      (lv.filter == 0 || lv.filter == 1)
      && (isFirst ==> lv.filter == 1)
      && (nv.filter == 1 || SameInstruction(lv, nv, Paired(lv, nv)))
  {
    AllHoldAppend(FilterConstraints(lv), RepeatConstraints(lv, nv), isFirst, isLast);
    FilterConstraintsMeaning(lv, isFirst, isLast);
    RepeatConstraintsMeaning(lv, nv, isFirst, isLast);
  }
}
