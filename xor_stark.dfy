// The constraints of the XOR table: every limb is a bit, each of a, b and
// out is the binary number its limbs spell, and every out bit is
// a + b - 2ab of the input bits. Over the field they hold exactly on the
// rows that spell out a, b below 2^32 and out = a xor b.

module XorStark {
  import opened Field
  import opened Expr
  import Bits

  /** One bit limb per bit of a u32. */
  const NUM_LIMBS: nat := 32

  type BitLimbs = s: seq<Felt> | |s| == NUM_LIMBS witness seq(NUM_LIMBS, _ => 0)

  /** The XOR view of a row: the three values and their bit limbs. */
  datatype Triple<T> = Triple(a: T, b: T, out: T)
  datatype XorRow = XorRow(execution: Triple<Felt>, limbs: Triple<BitLimbs>)

  /** chain!(limbs.a, limbs.b, limbs.out): all 96 bit limbs in order. */
  function AllLimbs(lv: XorRow): (r: seq<Felt>)
    ensures |r| == 3 * NUM_LIMBS
  {
    lv.limbs.a + lv.limbs.b + lv.limbs.out
  }

  /** Every bit limb is binary. */
  function BinaryConstraints(lv: XorRow): (r: seq<Yield>)
    ensures |r| == 3 * NUM_LIMBS
  {
    var bits := AllLimbs(lv);
    seq(|bits|, i requires 0 <= i < |bits| => Yield(Always, IsBinaryTerm(bits[i])))
  }

  /** Each of a, b and out equals reduce_with_powers of its limbs in base 2. */
  function ReduceConstraints(lv: XorRow): seq<Yield>
  {
    [ Yield(Always, Bits.ReduceWithPowers(lv.limbs.a, 2) - lv.execution.a),
      Yield(Always, Bits.ReduceWithPowers(lv.limbs.b, 2) - lv.execution.b),
      Yield(Always, Bits.ReduceWithPowers(lv.limbs.out, 2) - lv.execution.out) ]
  }

  /** a + b - 2ab: the xor of two bits, written as a polynomial. */
  function BitXor(x: int, y: int): int
  {
    x + y - 2 * x * y
  }

  /** Each out bit is a + b - 2ab of the input bits at its position. */
  function XorBitConstraints(lv: XorRow): (r: seq<Yield>)
    ensures |r| == NUM_LIMBS
  {
    seq(NUM_LIMBS, k requires 0 <= k < NUM_LIMBS =>
      Yield(Always, BitXor(lv.limbs.a[k], lv.limbs.b[k]) - lv.limbs.out[k]))
  }

  /** generate_constraints: the three groups, in the order they are added. */
  function GenerateConstraints(lv: XorRow): seq<Yield>
  {
    BinaryConstraints(lv) + ReduceConstraints(lv) + XorBitConstraints(lv)
  }

  const CONSTRAINT_DEGREE: nat := 3

  // ---------------------------------------------------------------------
  // Meaning of the constraints
  // ---------------------------------------------------------------------

  /** Out bit k is the xor of the input bits, as the sum identity writes it. */
  predicate XorBit(lv: XorRow, k: nat)
    requires k < NUM_LIMBS
  {
    lv.limbs.out[k] as int == BitXor(lv.limbs.a[k], lv.limbs.b[k])
  }

  /**
   * What the constraints say, over the integers: the limbs are bits, each
   * value is the number they spell, and out's bits are the xor identity of
   * the input bits.
   */
  predicate WellFormed(lv: XorRow)
  {
    && Bits.AllBinary(lv.limbs.a) && Bits.AllBinary(lv.limbs.b) && Bits.AllBinary(lv.limbs.out)
    && lv.execution.a == Bits.FromBits(lv.limbs.a)
    && lv.execution.b == Bits.FromBits(lv.limbs.b)
    && lv.execution.out == Bits.FromBits(lv.limbs.out)
    && forall k :: 0 <= k < NUM_LIMBS ==> XorBit(lv, k)
  }

  lemma BinaryConstraintsMeaning(lv: XorRow, isFirst: bool, isLast: bool)
    requires PrimeModulus()
    ensures AllHold(BinaryConstraints(lv), isFirst, isLast) <==>
      Bits.AllBinary(lv.limbs.a) && Bits.AllBinary(lv.limbs.b) && Bits.AllBinary(lv.limbs.out)
  {
    var bits := AllLimbs(lv);
    var ys := BinaryConstraints(lv);
    forall i | 0 <= i < |bits|
      ensures HoldsAt(ys[i], isFirst, isLast) <==> bits[i] == 0 || bits[i] == 1
    {
      BinaryMeaning(bits[i]);
    }
    assert AllHold(ys, isFirst, isLast) <==> Bits.AllBinary(bits);
    assert bits == lv.limbs.a + lv.limbs.b + lv.limbs.out;
    BinaryAppend(lv.limbs.a + lv.limbs.b, lv.limbs.out);
    BinaryAppend(lv.limbs.a, lv.limbs.b);
  }

  lemma BinaryAppend(xs: seq<int>, ys: seq<int>)
    ensures Bits.AllBinary(xs + ys) <==> Bits.AllBinary(xs) && Bits.AllBinary(ys)
  {
    if Bits.AllBinary(xs + ys) {
      forall k | 0 <= k < |ys|
        ensures ys[k] == 0 || ys[k] == 1
      {
        assert ys[k] == (xs + ys)[|xs| + k];
      }
      forall k | 0 <= k < |xs|
        ensures xs[k] == 0 || xs[k] == 1
      {
        assert xs[k] == (xs + ys)[k];
      }
    }
  }

  /** A value spelt by 32 bits is a canonical field element. */
  lemma BitsBelowP(bs: seq<int>)
    requires |bs| == NUM_LIMBS && Bits.AllBinary(bs)
    ensures 0 <= Bits.FromBits(bs) < TWO_32 < P
  {
    Bits.FromBitsBound(bs);
    Bits.Pow2Is32();
  }

  /** A reduce constraint over bits holds exactly when the value equals the spelt number. */
  lemma ReduceMeaning(bs: seq<int>, v: Felt)
    requires PrimeModulus()
    requires |bs| == NUM_LIMBS && Bits.AllBinary(bs)
    ensures IsZero(Bits.ReduceWithPowers(bs, 2) - v) <==> v == Bits.FromBits(bs)
  {
    BitsBelowP(bs);
    IsZeroSmall(Bits.ReduceWithPowers(bs, 2) - v);
  }

  /** On bits, a sum-identity constraint holds exactly when the identity does. */
  lemma XorBitMeaning(lv: XorRow, k: nat)
    requires k < NUM_LIMBS
    requires Bits.AllBinary(lv.limbs.a) && Bits.AllBinary(lv.limbs.b) && Bits.AllBinary(lv.limbs.out)
    ensures IsZero(BitXor(lv.limbs.a[k], lv.limbs.b[k]) - lv.limbs.out[k]) <==> XorBit(lv, k)
  {
    IsZeroSmall(BitXor(lv.limbs.a[k], lv.limbs.b[k]) - lv.limbs.out[k]);
  }

  /** The constraints hold on a row exactly when it is well formed. */
  lemma ConstraintsMeaning(lv: XorRow, isFirst: bool, isLast: bool)
    requires PrimeModulus()
    ensures AllHold(GenerateConstraints(lv), isFirst, isLast) <==> WellFormed(lv)
  {
    var bin := BinaryConstraints(lv);
    var red := ReduceConstraints(lv);
    var xs := XorBitConstraints(lv);
    AllHoldAppend(bin + red, xs, isFirst, isLast);
    AllHoldAppend(bin, red, isFirst, isLast);
    BinaryConstraintsMeaning(lv, isFirst, isLast);
    var binary := Bits.AllBinary(lv.limbs.a) && Bits.AllBinary(lv.limbs.b) && Bits.AllBinary(lv.limbs.out);
    if binary {
      ReduceMeaning(lv.limbs.a, lv.execution.a);
      ReduceMeaning(lv.limbs.b, lv.execution.b);
      ReduceMeaning(lv.limbs.out, lv.execution.out);
      assert AllHold(red, isFirst, isLast) <==>
        HoldsAt(red[0], isFirst, isLast) && HoldsAt(red[1], isFirst, isLast) && HoldsAt(red[2], isFirst, isLast);
      forall k | 0 <= k < NUM_LIMBS
        ensures HoldsAt(xs[k], isFirst, isLast) <==> XorBit(lv, k)
      {
        XorBitMeaning(lv, k);
      }
    }
  }

  // ---------------------------------------------------------------------
  // Soundness and completeness
  // ---------------------------------------------------------------------

  /** A row satisfying the XOR constraints carries out = a xor b. */
  lemma RowSound(lv: XorRow, isFirst: bool, isLast: bool)
    requires PrimeModulus()
    requires AllHold(GenerateConstraints(lv), isFirst, isLast)
    ensures lv.execution.a < TWO_32 && lv.execution.b < TWO_32
    ensures lv.execution.out == Bits.Xor(lv.execution.a, lv.execution.b)
  {
    ConstraintsMeaning(lv, isFirst, isLast);
    BitsBelowP(lv.limbs.a);
    BitsBelowP(lv.limbs.b);
    forall k | 0 <= k < NUM_LIMBS
      ensures lv.limbs.out[k] == lv.limbs.a[k] + lv.limbs.b[k] - 2 * lv.limbs.a[k] as int * lv.limbs.b[k]
    {
      assert XorBit(lv, k);
    }
    Bits.XorOfBits(lv.limbs.a, lv.limbs.b, lv.limbs.out);
  }

  /** The bit limbs of a u32, as field elements. */
  function LimbsOf(v: nat): (r: BitLimbs)
    ensures r == Bits.BitsOf(v, NUM_LIMBS)
  {
    var bs := Bits.BitsOf(v, NUM_LIMBS);
    seq(NUM_LIMBS, k requires 0 <= k < NUM_LIMBS => bs[k] as Felt)
  }

  /** The row the XOR table holds for operands a and b. */
  function RowOf(a: nat, b: nat): (lv: XorRow)
    requires a < TWO_32 && b < TWO_32
  {
    Bits.Pow2Is32();
    Bits.XorBound(a, b, 32);
    var out := Bits.Xor(a, b);
    XorRow(Triple(a, b, out), Triple(LimbsOf(a), LimbsOf(b), LimbsOf(out)))
  }

  /** A well-formed row makes every constraint term exactly zero. */
  lemma WellFormedHolds(lv: XorRow, isFirst: bool, isLast: bool)
    requires WellFormed(lv)
    ensures AllHold(GenerateConstraints(lv), isFirst, isLast)
  {
    var bin := BinaryConstraints(lv);
    var red := ReduceConstraints(lv);
    var xs := XorBitConstraints(lv);
    AllHoldAppend(bin + red, xs, isFirst, isLast);
    AllHoldAppend(bin, red, isFirst, isLast);
    var bits := AllLimbs(lv);
    BinaryAppend(lv.limbs.a + lv.limbs.b, lv.limbs.out);
    BinaryAppend(lv.limbs.a, lv.limbs.b);
    forall i | 0 <= i < |bits|
      ensures bin[i].term == 0
    {
      assert bits[i] == 0 || bits[i] == 1;
    }
    forall k | 0 <= k < NUM_LIMBS
      ensures xs[k].term == 0
    {
      assert XorBit(lv, k);
    }
  }

  /** The row built from two u32 operands is well formed, with out = a xor b. */
  lemma RowOfWellFormed(a: nat, b: nat)
    requires a < TWO_32 && b < TWO_32
    ensures RowOf(a, b).execution.out == Bits.Xor(a, b)
    ensures WellFormed(RowOf(a, b))
  {
    var lv := RowOf(a, b);
    var out := Bits.Xor(a, b);
    Bits.Pow2Is32();
    Bits.XorBound(a, b, 32);
    Bits.BitsOfReduce(a, NUM_LIMBS);
    Bits.BitsOfReduce(b, NUM_LIMBS);
    Bits.BitsOfReduce(out, NUM_LIMBS);
    Bits.BitsOfXor(a, b, NUM_LIMBS);
    forall k | 0 <= k < NUM_LIMBS
      ensures XorBit(lv, k)
    {
    }
  }

  /** The row built from any two u32 operands satisfies the constraints. */
  lemma RowOfSatisfies(a: nat, b: nat, isFirst: bool, isLast: bool)
    requires a < TWO_32 && b < TWO_32
    ensures RowOf(a, b).execution.out == Bits.Xor(a, b)
    ensures AllHold(GenerateConstraints(RowOf(a, b)), isFirst, isLast)
  {
    RowOfWellFormed(a, b);
    WellFormedHolds(RowOf(a, b), isFirst, isLast);
  }

  /**
   * Exactly the rows RowOf(a, b) for u32 operands satisfy the constraints:
   * the bit limbs and out are determined by a and b.
   */
  lemma ConstraintsExact(lv: XorRow, isFirst: bool, isLast: bool)
    requires PrimeModulus()
    ensures AllHold(GenerateConstraints(lv), isFirst, isLast) <==>
      lv.execution.a < TWO_32 && lv.execution.b < TWO_32 && lv == RowOf(lv.execution.a, lv.execution.b)
  {
    if AllHold(GenerateConstraints(lv), isFirst, isLast) {
      RowSound(lv, isFirst, isLast);
      ConstraintsMeaning(lv, isFirst, isLast);
      Bits.FromBitsUnique(lv.limbs.a);
      Bits.FromBitsUnique(lv.limbs.b);
      Bits.FromBitsUnique(lv.limbs.out);
    }
    if lv.execution.a < TWO_32 && lv.execution.b < TWO_32 && lv == RowOf(lv.execution.a, lv.execution.b) {
      RowOfSatisfies(lv.execution.a, lv.execution.b, isFirst, isLast);
    }
  }
}
