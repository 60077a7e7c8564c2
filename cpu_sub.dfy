// SUB on the CPU table: when the SUB selector is set, the destination is
// op1 - op2, possibly wrapped by adding 2^32. For u32 operands and a u32
// destination this is exactly u32::wrapping_sub.

module CpuSub {
  import opened Field
  import opened Expr
  import opened CpuColumns

  /** The single gated constraint: dst is op1 - op2 or op1 - op2 + 2^32. */
  function Constraints(lv: CpuRow): seq<Yield>
  {
    var expected := lv.op1Value - lv.op2Value;
    var wrapped := TWO_32 + expected;
    [Yield(Always, lv.inst.ops.sub * ((lv.dstValue - expected) * (lv.dstValue - wrapped)))]
  }

  /** u32::wrapping_sub. */
  function WrappingSub(a: nat, b: nat): (r: nat)
    ensures r < TWO_32
  {
    (a - b) % TWO_32
  }

  /** In the field the constraint leaves the destination two candidates, or none when SUB is off. */
  lemma ConstraintsMeaning(lv: CpuRow, isFirst: bool, isLast: bool)
    requires PrimeModulus()
    ensures AllHold(Constraints(lv), isFirst, isLast) <==>
      lv.inst.ops.sub == 0
      || lv.dstValue == Canon(lv.op1Value - lv.op2Value)
      || lv.dstValue == Canon(lv.op1Value - lv.op2Value + TWO_32)
  {
    GatedEitherEq(lv.inst.ops.sub, lv.dstValue, lv.op1Value - lv.op2Value, TWO_32 + (lv.op1Value - lv.op2Value));
    assert AllHold(Constraints(lv), isFirst, isLast) <==> HoldsAt(Constraints(lv)[0], isFirst, isLast);
  }

  /**
   * For u32 operands and a u32 destination, a SUB row satisfies the
   * constraint exactly when dst is the wrapping difference.
   */
  lemma U32Meaning(lv: CpuRow, isFirst: bool, isLast: bool)
    requires PrimeModulus()
    requires lv.inst.ops.sub != 0
    requires lv.op1Value < TWO_32 && lv.op2Value < TWO_32 && lv.dstValue < TWO_32
    ensures AllHold(Constraints(lv), isFirst, isLast) <==> lv.dstValue == WrappingSub(lv.op1Value, lv.op2Value)
  {
    var a: int, b: int, y: Felt := lv.op1Value, lv.op2Value, lv.dstValue;
    var x := a - b + TWO_32;
    var holds := AllHold(Constraints(lv), isFirst, isLast);
    assert holds <==> y == Canon(x - TWO_32) || y == Canon(x) by {
      ConstraintsMeaning(lv, isFirst, isLast);
    }
    assert (y == Canon(x) || y == Canon(x - TWO_32)) <==> y == x % TWO_32 by {
      WrapCandidates(y, x);
    }
    assert x % TWO_32 == WrappingSub(a, b) by {
      ModShift32(a - b);
    }
  }

  lemma ModShift32(v: int)
    ensures (v + TWO_32) % TWO_32 == v % TWO_32
  {
  }

  /** The exact field difference always satisfies the constraint. */
  lemma DifferenceSatisfies(lv: CpuRow, isFirst: bool, isLast: bool)
    requires lv.dstValue == Canon(lv.op1Value - lv.op2Value)
    ensures AllHold(Constraints(lv), isFirst, isLast)
  {
    var e := lv.op1Value - lv.op2Value;
    IsZeroCanon(lv.dstValue, e);
    IsZeroMulLeft(lv.dstValue - e, (lv.dstValue - (TWO_32 + e)) * lv.inst.ops.sub);
    assert (lv.dstValue - e) * ((lv.dstValue - (TWO_32 + e)) * lv.inst.ops.sub)
      == lv.inst.ops.sub * ((lv.dstValue - e) * (lv.dstValue - (TWO_32 + e)));
  }
}
