// AND, OR and XOR on the CPU table. The CPU sends its operands to the XOR
// table and reads back their xor; AND and OR are then field arithmetic on
// the half-adder identities a + b = (a ^ b) + 2 (a & b) and
// a | b = (a ^ b) + (a & b).

module CpuBitwise {
  import opened Field
  import opened Expr
  import opened CpuColumns
  import Bits

  /** The inverse of two in the field: 2 * INV_2 = P + 1. */
  const INV_2: Felt := (P + 1) / 2

  /** BinaryOp: the inputs and the output of a gadget, as field values. */
  datatype BinaryOp = BinaryOp(inputA: Felt, inputB: Felt, output: Felt)

  /** Division by two in the field. */
  function Half(x: int): (r: Felt)
    ensures IsZero(2 * r - x)
  {
    var r := Canon(x * INV_2);
    HalfCorrect(x, r);
    r
  }

  lemma HalfCorrect(x: int, r: Felt)
    requires r == Canon(x * INV_2)
    ensures IsZero(2 * r - x)
  {
    var q := (r - x * INV_2) / P;
    assert r - x * INV_2 == q * P;
    assert 2 * INV_2 == P + 1;
    assert 2 * r - x == (2 * q + x) * P;
    MulModZero(2 * q + x);
  }

  /** Halving twice n, for n below P, gives n back. */
  lemma HalfOfDouble(n: nat)
    requires n < P
    ensures Half(2 * n) == n
  {
    assert (2 * n) * INV_2 == n * (P + 1);
    assert n * (P + 1) == n + n * P;
    IsZeroShift(n, n);
  }

  /** and_gadget: the AND output is (a + b - xor) / 2. */
  function AndGadget(lv: CpuRow): (g: BinaryOp)
    ensures g.inputA == lv.xor.a && g.inputB == lv.xor.b
    ensures IsZero(2 * g.output - (lv.xor.a + lv.xor.b - lv.xor.out))
  {
    BinaryOp(lv.xor.a, lv.xor.b, Half(lv.xor.a + lv.xor.b - lv.xor.out))
  }

  /** or_gadget: the OR output is (a + b + xor) / 2. */
  function OrGadget(lv: CpuRow): (g: BinaryOp)
    ensures g.inputA == lv.xor.a && g.inputB == lv.xor.b
    ensures IsZero(2 * g.output - (lv.xor.a + lv.xor.b + lv.xor.out))
  {
    BinaryOp(lv.xor.a, lv.xor.b, Half(lv.xor.a + lv.xor.b + lv.xor.out))
  }

  /** xor_gadget: the XOR output is the XOR table's result itself. */
  function XorGadget(lv: CpuRow): (g: BinaryOp)
    ensures g.inputA == lv.xor.a && g.inputB == lv.xor.b && g.output == lv.xor.out
  {
    BinaryOp(lv.xor.a, lv.xor.b, lv.xor.out)
  }

  /** The three gated constraints of one (selector, gadget) pair. */
  function GadgetConstraints(selector: Felt, g: BinaryOp, lv: CpuRow): seq<Yield>
  {
    [ Yield(Always, selector * (g.inputA - lv.op1Value)),
      Yield(Always, selector * (g.inputB - lv.op2Value)),
      Yield(Always, selector * (g.output - lv.dstValue)) ]
  }

  /** constraints: AND, OR and XOR, in that order. */
  function Constraints(lv: CpuRow): seq<Yield>
  {
    GadgetConstraints(lv.inst.ops.and, AndGadget(lv), lv)
      + GadgetConstraints(lv.inst.ops.or, OrGadget(lv), lv)
      + GadgetConstraints(lv.inst.ops.xor, XorGadget(lv), lv)
  }

  // ---------------------------------------------------------------------
  // Meaning
  // ---------------------------------------------------------------------

  /** A gadget's constraints hold when its selector is off or it maps op1, op2 to dst. */
  predicate GadgetHolds(selector: Felt, g: BinaryOp, lv: CpuRow)
  {
    selector == 0 || (g.inputA == lv.op1Value && g.inputB == lv.op2Value && g.output == lv.dstValue)
  }

  lemma GadgetConstraintsMeaning(selector: Felt, g: BinaryOp, lv: CpuRow, isFirst: bool, isLast: bool)
    requires PrimeModulus()
    ensures AllHold(GadgetConstraints(selector, g, lv), isFirst, isLast) <==> GadgetHolds(selector, g, lv)
  {
    var ys := GadgetConstraints(selector, g, lv);
    GatedEq(selector, g.inputA, lv.op1Value);
    GatedEq(selector, g.inputB, lv.op2Value);
    GatedEq(selector, g.output, lv.dstValue);
    assert AllHold(ys, isFirst, isLast) <==>
      HoldsAt(ys[0], isFirst, isLast) && HoldsAt(ys[1], isFirst, isLast) && HoldsAt(ys[2], isFirst, isLast);
  }

  /**
   * The constraints hold exactly when every selected gadget reads op1 and
   * op2 as its inputs and produces dst; with no selector set they impose
   * nothing.
   */
  lemma ConstraintsMeaning(lv: CpuRow, isFirst: bool, isLast: bool)
    requires PrimeModulus()
    ensures AllHold(Constraints(lv), isFirst, isLast) <==>
      GadgetHolds(lv.inst.ops.and, AndGadget(lv), lv)
      && GadgetHolds(lv.inst.ops.or, OrGadget(lv), lv)
      && GadgetHolds(lv.inst.ops.xor, XorGadget(lv), lv)
  {
    var a := GadgetConstraints(lv.inst.ops.and, AndGadget(lv), lv);
    var o := GadgetConstraints(lv.inst.ops.or, OrGadget(lv), lv);
    var x := GadgetConstraints(lv.inst.ops.xor, XorGadget(lv), lv);
    AllHoldAppend(a + o, x, isFirst, isLast);
    AllHoldAppend(a, o, isFirst, isLast);
    GadgetConstraintsMeaning(lv.inst.ops.and, AndGadget(lv), lv, isFirst, isLast);
    GadgetConstraintsMeaning(lv.inst.ops.or, OrGadget(lv), lv, isFirst, isLast);
    GadgetConstraintsMeaning(lv.inst.ops.xor, XorGadget(lv), lv, isFirst, isLast);
  }

  /** When the XOR table returns a ^ b for u32 inputs, the AND gadget yields a & b. */
  lemma AndGadgetIsAnd(lv: CpuRow)
    requires lv.xor.a < TWO_32 && lv.xor.b < TWO_32
    requires lv.xor.out == Bits.Xor(lv.xor.a, lv.xor.b)
    ensures AndGadget(lv).output == Bits.And(lv.xor.a, lv.xor.b)
  {
    var a, b, x := lv.xor.a, lv.xor.b, lv.xor.out;
    var n := Bits.And(a, b);
    Bits.HalfAdder(a, b);
    assert a + b - x == 2 * n;
    HalfOfDouble(n);
  }

  /** When the XOR table returns a ^ b for u32 inputs, the OR gadget yields a | b. */
  lemma OrGadgetIsOr(lv: CpuRow)
    requires lv.xor.a < TWO_32 && lv.xor.b < TWO_32
    requires lv.xor.out == Bits.Xor(lv.xor.a, lv.xor.b)
    ensures OrGadget(lv).output == Bits.Or(lv.xor.a, lv.xor.b)
  {
    var a, b, x := lv.xor.a, lv.xor.b, lv.xor.out;
    var n := Bits.Or(a, b);
    Bits.HalfAdder(a, b);
    Bits.Pow2Is32();
    Bits.XorBound(a, b, 32);
    assert a + b + x == 2 * n;
    HalfOfDouble(n);
  }

  /**
   * Soundness of the gadgets: on a row whose constraints hold and whose
   * XOR view carries a correct u32 xor, each selected operation writes
   * op1 & op2, op1 | op2 or op1 ^ op2 to dst.
   */
  lemma ConstraintsSound(lv: CpuRow, isFirst: bool, isLast: bool)
    requires PrimeModulus()
    requires AllHold(Constraints(lv), isFirst, isLast)
    requires lv.xor.a < TWO_32 && lv.xor.b < TWO_32
    requires lv.xor.out == Bits.Xor(lv.xor.a, lv.xor.b)
    ensures lv.inst.ops.and != 0 ==> lv.dstValue == Bits.And(lv.op1Value, lv.op2Value)
    ensures lv.inst.ops.or != 0 ==> lv.dstValue == Bits.Or(lv.op1Value, lv.op2Value)
    ensures lv.inst.ops.xor != 0 ==> lv.dstValue == Bits.Xor(lv.op1Value, lv.op2Value)
  {
    ConstraintsMeaning(lv, isFirst, isLast);
    AndGadgetIsAnd(lv);
    OrGadgetIsOr(lv);
  }

  /**
   * Completeness: an AND, OR or XOR row on u32 operands, with the XOR view
   * filled from the operands and dst set to the operation's result,
   * satisfies the constraints.
   */
  lemma ConstraintsComplete(lv: CpuRow, isFirst: bool, isLast: bool)
    requires PrimeModulus()
    requires lv.op1Value < TWO_32 && lv.op2Value < TWO_32
    requires lv.xor.a == lv.op1Value && lv.xor.b == lv.op2Value
    requires lv.xor.out == Bits.Xor(lv.op1Value, lv.op2Value)
    requires lv.inst.ops.and != 0 ==> lv.dstValue == Bits.And(lv.op1Value, lv.op2Value)
    requires lv.inst.ops.or != 0 ==> lv.dstValue == Bits.Or(lv.op1Value, lv.op2Value)
    requires lv.inst.ops.xor != 0 ==> lv.dstValue == Bits.Xor(lv.op1Value, lv.op2Value)
    ensures AllHold(Constraints(lv), isFirst, isLast)
  {
    ConstraintsMeaning(lv, isFirst, isLast);
    AndGadgetIsAnd(lv);
    OrGadgetIsOr(lv);
  }
}
