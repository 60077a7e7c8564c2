// JALR on the CPU table: dst receives the return address pc + 4 and the
// next row's pc is imm + op1, each reduced modulo 2^32 by allowing the
// value itself or the value minus 2^32.

module CpuJalr {
  import opened Field
  import opened Expr

  /** The columns the JALR gadget reads on the current row. */
  datatype JalrRow = JalrRow(isJalr: Felt, pc: Felt, dstValue: Felt, immValue: Felt, op1Value: Felt)

  /** constraints: the wrapped return address and the wrapped jump target. */
  function Constraints(lv: JalrRow, newPc: Felt): seq<Yield>
  {
    var returnAddress := lv.pc + 4;
    var jumpTarget := lv.immValue + lv.op1Value;
    [ Yield(Always, lv.isJalr * ((lv.dstValue - returnAddress) * (lv.dstValue - (returnAddress - TWO_32)))),
      Yield(Transition, lv.isJalr * ((newPc - jumpTarget) * (newPc - (jumpTarget - TWO_32)))) ]
  }

  /**
   * Field meaning: with JALR selected, dst is pc + 4 or pc + 4 - 2^32, and
   * on every row but the last the next pc is imm + op1 or that minus 2^32.
   */
  lemma ConstraintsMeaning(lv: JalrRow, newPc: Felt, isFirst: bool, isLast: bool)
    requires PrimeModulus()
    ensures AllHold(Constraints(lv, newPc), isFirst, isLast) <==>
      (lv.isJalr == 0 || lv.dstValue == Canon(lv.pc + 4) || lv.dstValue == Canon(lv.pc + 4 - TWO_32))
      && (isLast || lv.isJalr == 0
          || newPc == Canon(lv.immValue + lv.op1Value)
          || newPc == Canon(lv.immValue + lv.op1Value - TWO_32))
  {
    var ys := Constraints(lv, newPc);
    GatedEitherEq(lv.isJalr, lv.dstValue, lv.pc + 4, lv.pc + 4 - TWO_32);
    GatedEitherEq(lv.isJalr, newPc, lv.immValue + lv.op1Value, lv.immValue + lv.op1Value - TWO_32);
    assert AllHold(ys, isFirst, isLast) <==> HoldsAt(ys[0], isFirst, isLast) && HoldsAt(ys[1], isFirst, isLast);
  }

  /**
   * On u32 values the constraints are exactly the RISC-V wrapping
   * arithmetic: dst = (pc + 4) mod 2^32 and next pc = (imm + op1) mod 2^32.
   */
  lemma U32Meaning(lv: JalrRow, newPc: Felt, isFirst: bool, isLast: bool)
    requires PrimeModulus()
    requires lv.isJalr != 0
    requires lv.pc < TWO_32 && lv.dstValue < TWO_32
    requires lv.immValue < TWO_32 && lv.op1Value < TWO_32 && newPc < TWO_32
    ensures AllHold(Constraints(lv, newPc), isFirst, isLast) <==>
      lv.dstValue == (lv.pc + 4) % TWO_32
      && (isLast || newPc == (lv.immValue + lv.op1Value) % TWO_32)
  {
    ConstraintsMeaning(lv, newPc, isFirst, isLast);
    WrapCandidates(lv.dstValue, lv.pc + 4);
    WrapCandidates(newPc, lv.immValue + lv.op1Value);
  }

  /**
   * The jump the tests exercise: with imm = 8 - rs1 (wrapping), JALR from
   * pc 0 lands on 8 and writes the return address 4, whatever rs1 holds.
   */
  lemma JumpsToEight(rs1Value: nat, rd: Felt, newPc: Felt, isFirst: bool)
    requires PrimeModulus()
    requires rs1Value < TWO_32 && rd < TWO_32 && newPc < TWO_32
    requires AllHold(Constraints(JalrRow(1, 0, rd, (8 - rs1Value) % TWO_32, rs1Value), newPc), isFirst, false)
    ensures newPc == 8 && rd == 4
  {
    var imm := (8 - rs1Value) % TWO_32;
    assert newPc == (imm + rs1Value) % TWO_32 && rd == 4 by {
      U32Meaning(JalrRow(1, 0, rd, imm, rs1Value), newPc, isFirst, false);
    }
    if rs1Value <= 8 {
      assert imm == 8 - rs1Value;
    } else {
      assert imm == 8 - rs1Value + TWO_32;
    }
  }
}
