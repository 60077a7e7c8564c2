// Conditional branches on the CPU table. A comparison gadget fixes
// `less_than` and `normalised_diff` from the signed difference of the two
// operands; BLT/BLTU, BGE/BGEU, BEQ and BNE then choose between the
// branch target (the immediate) and pc + 4 as the next row's pc.

module CpuBranches {
  import opened Field
  import opened Expr

  /** The columns of one row the branch gadgets read. */
  datatype BranchRow = BranchRow(
    lessThan: Felt, normalisedDiff: Felt, absDiff: Felt,
    signedDiff: Felt, cmpDiffInv: Felt,
    pc: Felt, immValue: Felt,
    blt: Felt, bge: Felt, beq: Felt, bne: Felt)

  /** comparison_constraints. */
  function ComparisonConstraints(lv: BranchRow): seq<Yield>
  {
    var lt := lv.lessThan;
    var nd := lv.normalisedDiff;
    var d := lv.signedDiff;
    [ Yield(Always, IsBinaryTerm(lt)),
      Yield(Always, (1 - lt) * (lv.absDiff - d)),
      Yield(Always, lt * (lv.absDiff + d)),
      Yield(Always, IsBinaryTerm(nd)),
      Yield(Always, d * (1 - nd)),
      Yield(Always, d * lv.cmpDiffInv - nd),
      Yield(Always, lt * (1 - nd)) ]
  }

  /** constraints: the next pc of each conditional branch. */
  function BranchConstraints(lv: BranchRow, nextPc: Felt): seq<Yield>
  {
    var lt := lv.lessThan;
    var nd := lv.normalisedDiff;
    var bumped := lv.pc + 4;
    var branched := lv.immValue;
    [ Yield(Always, lv.blt * lt * (nextPc - branched)),
      Yield(Always, lv.blt * (1 - lt) * (nextPc - bumped)),
      Yield(Always, lv.bge * lt * (nextPc - bumped)),
      Yield(Always, lv.bge * (1 - lt) * (nextPc - branched)),
      Yield(Always, lv.beq * (1 - nd) * (nextPc - branched)),
      Yield(Always, lv.beq * nd * (nextPc - bumped)),
      Yield(Always, lv.bne * nd * (nextPc - branched)),
      Yield(Always, lv.bne * (1 - nd) * (nextPc - bumped)) ]
  }

  // ---------------------------------------------------------------------
  // The comparison gadget
  // ---------------------------------------------------------------------

  predicate IsBit(x: int)
  {
    x == 0 || x == 1
  }

  /** What the comparison constraints say, column by column. */
  predicate ComparisonHolds(lv: BranchRow)
  {
    var lt := lv.lessThan;
    var nd := lv.normalisedDiff;
    var d: int := lv.signedDiff;
    IsBit(lt) && IsBit(nd)
    && (lt == 0 ==> lv.absDiff == d)
    && (lt == 1 ==> lv.absDiff == Canon(-d))
    && (d == 0 || nd == 1)
    && nd == Canon(d * lv.cmpDiffInv)
    && (lt == 0 || nd == 1)
  }

  lemma ComparisonConstraintsMeaning(lv: BranchRow, isFirst: bool, isLast: bool)
    requires PrimeModulus()
    ensures AllHold(ComparisonConstraints(lv), isFirst, isLast) <==> ComparisonHolds(lv)
  {
    var ys := ComparisonConstraints(lv);
    var lt := lv.lessThan;
    var nd := lv.normalisedDiff;
    var d: int := lv.signedDiff;
    BinaryMeaning(lt);
    BinaryMeaning(nd);
    if IsBit(lt) {
      GatedEq(1 - lt, lv.absDiff, d);
      GatedEq(lt, lv.absDiff, -d);
    }
    assert lv.absDiff - -d == lv.absDiff + d;
    assert d * (1 - nd) == -(d * (nd - 1));
    IsZeroNegIff(d * (nd - 1));
    GatedEq(d, nd, 1);
    assert d * lv.cmpDiffInv - nd == -(nd - d * lv.cmpDiffInv);
    IsZeroNegIff(nd - d * lv.cmpDiffInv);
    IsZeroCanon(nd, d * lv.cmpDiffInv);
    assert lt * (1 - nd) == -(lt * (nd - 1));
    IsZeroNegIff(lt * (nd - 1));
    GatedEq(lt, nd, 1);
    assert AllHold(ys, isFirst, isLast) <==>
      IsZero(ys[0].term) && IsZero(ys[1].term) && IsZero(ys[2].term) && IsZero(ys[3].term)
      && IsZero(ys[4].term) && IsZero(ys[5].term) && IsZero(ys[6].term);
  }

  /** normalised_diff is the indicator of a nonzero difference. */
  lemma NormalisedDiffIsIndicator(lv: BranchRow)
    requires ComparisonHolds(lv)
    ensures lv.normalisedDiff == if lv.signedDiff == 0 then 0 else 1
    ensures lv.signedDiff == 0 ==> lv.lessThan == 0
  {
  }

  /**
   * Soundness of the comparison: for operands a and b whose difference is
   * below 2^32 in size, with signed_diff their difference in the field and
   * abs_diff a u32, less_than is 1 exactly when a < b and
   * normalised_diff is 1 exactly when a != b.
   */
  lemma ComparisonSound(lv: BranchRow, a: int, b: int)
    requires ComparisonHolds(lv)
    requires -TWO_32 < a - b < TWO_32
    requires lv.signedDiff == Canon(a - b)
    requires lv.absDiff < TWO_32
    ensures lv.lessThan == 1 <==> a < b
    ensures lv.normalisedDiff == 1 <==> a != b
  {
    NormalisedDiffIsIndicator(lv);
    if a < b {
      assert lv.signedDiff == P + (a - b);
      assert lv.lessThan == 1;
    } else {
      assert lv.signedDiff == a - b;
      assert lv.signedDiff != 0 ==> Canon(-(lv.signedDiff as int)) == P - lv.signedDiff;
    }
  }

  /** The comparison row the trace generator fills in for operands a and b. */
  function ComparisonRow(a: int, b: int, pc: Felt, imm: Felt, blt: Felt, bge: Felt, beq: Felt, bne: Felt): (r: BranchRow)
    requires -TWO_32 < a - b < TWO_32
    ensures r.signedDiff == Canon(a - b) && r.absDiff < TWO_32
  {
    var d := Canon(a - b);
    BranchRow(
      if a < b then 1 else 0,
      if a != b then 1 else 0,
      if a < b then b - a else a - b,
      d, Inv(d), pc, imm, blt, bge, beq, bne)
  }

  /** Completeness: the generated comparison columns satisfy the constraints. */
  lemma ComparisonComplete(a: int, b: int, pc: Felt, imm: Felt, blt: Felt, bge: Felt, beq: Felt, bne: Felt)
    requires PrimeModulus()
    requires -TWO_32 < a - b < TWO_32
    ensures ComparisonHolds(ComparisonRow(a, b, pc, imm, blt, bge, beq, bne))
  {
    var r := ComparisonRow(a, b, pc, imm, blt, bge, beq, bne);
    AbsDiffOfRow(a, b, r);
    InvIndicator(r.signedDiff);
    assert r.normalisedDiff == Canon(r.signedDiff * r.cmpDiffInv);
  }

  lemma AbsDiffOfRow(a: int, b: int, r: BranchRow)
    requires -TWO_32 < a - b < TWO_32
    requires r.signedDiff == Canon(a - b)
    requires r.lessThan == (if a < b then 1 else 0)
    requires r.absDiff == (if a < b then b - a else a - b)
    ensures r.lessThan == 0 ==> r.absDiff == r.signedDiff
    ensures r.lessThan == 1 ==> r.absDiff == Canon(-(r.signedDiff as int))
  {
    if a < b {
      assert r.signedDiff == P + (a - b);
      assert -(r.signedDiff as int) == (b - a) - P;
    } else {
      assert r.signedDiff == a - b;
    }
  }

  /** d times its inverse is the indicator of d being nonzero. */
  lemma InvIndicator(d: Felt)
    requires PrimeModulus()
    ensures Canon(d * Inv(d)) == if d == 0 then 0 else 1
  {
    if d != 0 {
      InvIsInverse(d);
    }
  }

  // ---------------------------------------------------------------------
  // The branch decision
  // ---------------------------------------------------------------------

  datatype BranchOp = Blt | Bge | Beq | Bne

  /** Selector columns with exactly the given branch opcode set. */
  predicate SelectsOnly(lv: BranchRow, op: BranchOp)
  {
    lv.blt == (if op == Blt then 1 else 0)
    && lv.bge == (if op == Bge then 1 else 0)
    && lv.beq == (if op == Beq then 1 else 0)
    && lv.bne == (if op == Bne then 1 else 0)
  }

  /** Whether the branch is taken, read from less_than and normalised_diff. */
  predicate Taken(op: BranchOp, lt: Felt, nd: Felt)
  {
    match op
    case Blt => lt == 1
    case Bge => lt == 0
    case Beq => nd == 0
    case Bne => nd == 1
  }

  /** The pc the next row must carry: the target if taken, pc + 4 otherwise. */
  function NextPc(lv: BranchRow, op: BranchOp): Felt
  {
    if Taken(op, lv.lessThan, lv.normalisedDiff) then lv.immValue else Canon(lv.pc + 4)
  }

  /** A product of two bits gating an equality. */
  lemma BitGatedEq(s: Felt, t: int, x: Felt, y: int)
    requires PrimeModulus()
    requires IsBit(s) && IsBit(t)
    ensures IsZero(s * t * (x - y)) <==> s == 0 || t == 0 || x == Canon(y)
  {
    var st := s * t;
    assert st == 0 || st == 1;
    assert s * t * (x - y) == st * (x - y);
    GatedEq(st, x, y);
  }

  lemma BranchTermsMeaning(lv: BranchRow, nextPc: Felt)
    requires PrimeModulus()
    requires IsBit(lv.lessThan) && IsBit(lv.normalisedDiff)
    requires IsBit(lv.blt) && IsBit(lv.bge) && IsBit(lv.beq) && IsBit(lv.bne)
    ensures var ys := BranchConstraints(lv, nextPc);
      var lt := lv.lessThan;
      var nd := lv.normalisedDiff;
      (IsZero(ys[0].term) <==> lv.blt == 0 || lt == 0 || nextPc == lv.immValue)
      && (IsZero(ys[1].term) <==> lv.blt == 0 || lt == 1 || nextPc == Canon(lv.pc + 4))
      && (IsZero(ys[2].term) <==> lv.bge == 0 || lt == 0 || nextPc == Canon(lv.pc + 4))
      && (IsZero(ys[3].term) <==> lv.bge == 0 || lt == 1 || nextPc == lv.immValue)
      && (IsZero(ys[4].term) <==> lv.beq == 0 || nd == 1 || nextPc == lv.immValue)
      && (IsZero(ys[5].term) <==> lv.beq == 0 || nd == 0 || nextPc == Canon(lv.pc + 4))
      && (IsZero(ys[6].term) <==> lv.bne == 0 || nd == 0 || nextPc == lv.immValue)
      && (IsZero(ys[7].term) <==> lv.bne == 0 || nd == 1 || nextPc == Canon(lv.pc + 4))
  {
    var lt := lv.lessThan;
    var nd := lv.normalisedDiff;
    assert Canon(lv.immValue) == lv.immValue;
    BitGatedEq(lv.blt, lt, nextPc, lv.immValue);
    BitGatedEq(lv.blt, 1 - lt, nextPc, lv.pc + 4);
    BitGatedEq(lv.bge, lt, nextPc, lv.pc + 4);
    BitGatedEq(lv.bge, 1 - lt, nextPc, lv.immValue);
    BitGatedEq(lv.beq, 1 - nd, nextPc, lv.immValue);
    BitGatedEq(lv.beq, nd, nextPc, lv.pc + 4);
    BitGatedEq(lv.bne, nd, nextPc, lv.immValue);
    BitGatedEq(lv.bne, 1 - nd, nextPc, lv.pc + 4);
  }

  /**
   * With one branch opcode selected and the comparison bits in place, the
   * branch constraints hold exactly when the next pc is the taken target
   * or pc + 4 as the branch decides.
   */
  lemma BranchConstraintsMeaning(lv: BranchRow, op: BranchOp, nextPc: Felt, isFirst: bool, isLast: bool)
    requires PrimeModulus()
    requires SelectsOnly(lv, op)
    requires IsBit(lv.lessThan) && IsBit(lv.normalisedDiff)
    ensures AllHold(BranchConstraints(lv, nextPc), isFirst, isLast) <==> nextPc == NextPc(lv, op)
  {
    var ys := BranchConstraints(lv, nextPc);
    BranchTermsMeaning(lv, nextPc);
    assert AllHold(ys, isFirst, isLast) <==>
      IsZero(ys[0].term) && IsZero(ys[1].term) && IsZero(ys[2].term) && IsZero(ys[3].term)
      && IsZero(ys[4].term) && IsZero(ys[5].term) && IsZero(ys[6].term) && IsZero(ys[7].term);
  }

  /** With no branch opcode selected the branch constraints impose nothing. */
  lemma NoBranchNoConstraint(lv: BranchRow, nextPc: Felt, isFirst: bool, isLast: bool)
    requires lv.blt == 0 && lv.bge == 0 && lv.beq == 0 && lv.bne == 0
    ensures AllHold(BranchConstraints(lv, nextPc), isFirst, isLast)
  {
    var ys := BranchConstraints(lv, nextPc);
    forall k | 0 <= k < |ys|
      ensures HoldsAt(ys[k], isFirst, isLast)
    {
      assert ys[k].term == 0;
    }
  }

  /** The RISC-V decision: BLT(U) branches on a < b, BGE(U) on a >= b, BEQ on a == b, BNE on a != b. */
  predicate RiscvTaken(op: BranchOp, a: int, b: int)
  {
    match op
    case Blt => a < b
    case Bge => a >= b
    case Beq => a == b
    case Bne => a != b
  }

  /**
   * Soundness of a branch row: when both gadgets hold, the next pc is the
   * branch target exactly when the RISC-V comparison of a and b says so,
   * and pc + 4 otherwise.
   */
  lemma BranchSound(lv: BranchRow, op: BranchOp, nextPc: Felt, a: int, b: int, isFirst: bool, isLast: bool)
    requires PrimeModulus()
    requires SelectsOnly(lv, op)
    requires AllHold(ComparisonConstraints(lv), isFirst, isLast)
    requires AllHold(BranchConstraints(lv, nextPc), isFirst, isLast)
    requires -TWO_32 < a - b < TWO_32
    requires lv.signedDiff == Canon(a - b) && lv.absDiff < TWO_32
    ensures nextPc == if RiscvTaken(op, a, b) then lv.immValue else Canon(lv.pc + 4)
  {
    ComparisonConstraintsMeaning(lv, isFirst, isLast);
    ComparisonSound(lv, a, b);
    BranchConstraintsMeaning(lv, op, nextPc, isFirst, isLast);
  }

  /**
   * Completeness: the generated comparison row with the next pc set as
   * RISC-V decides satisfies both gadgets.
   */
  lemma BranchComplete(a: int, b: int, pc: Felt, imm: Felt, op: BranchOp, isFirst: bool, isLast: bool)
    requires PrimeModulus()
    requires -TWO_32 < a - b < TWO_32
    ensures var lv := ComparisonRow(a, b, pc, imm,
        if op == Blt then 1 else 0, if op == Bge then 1 else 0,
        if op == Beq then 1 else 0, if op == Bne then 1 else 0);
      var nextPc := if RiscvTaken(op, a, b) then imm else Canon(pc + 4);
      AllHold(ComparisonConstraints(lv), isFirst, isLast)
      && AllHold(BranchConstraints(lv, nextPc), isFirst, isLast)
  {
    var lv := ComparisonRow(a, b, pc, imm,
        if op == Blt then 1 else 0, if op == Bge then 1 else 0,
        if op == Beq then 1 else 0, if op == Bne then 1 else 0);
    var nextPc := if RiscvTaken(op, a, b) then imm else Canon(pc + 4);
    ComparisonComplete(a, b, pc, imm, lv.blt, lv.bge, lv.beq, lv.bne);
    ComparisonConstraintsMeaning(lv, isFirst, isLast);
    ComparisonSound(lv, a, b);
    BranchConstraintsMeaning(lv, op, nextPc, isFirst, isLast);
  }
}
