// The constraints of the bitwise table: each operand equals its byte limbs
// in base 256, each compress limb packs the byte triple of its limb index,
// and each permuted limb column looks up the permuted u8 or compress table
// beside it. Their meaning is stated over rows of field elements, and then
// over whole traces: the corrected generator's tables satisfy them, the
// generator as written does not, and a satisfying trace whose limbs are
// bytes carries op1 xor op2 in RES.

module BitwiseStark {
  import opened Field
  import opened Expr
  import opened Lookup
  import opened BitwiseGen
  import Bits
  import Sorting

  /** One row of the bitwise table. */
  type BitwiseRow = r: seq<Felt> | |r| == NUM_BITWISE_COL witness seq(NUM_BITWISE_COL, _ => 0)

  /** The four limbs starting at column col. */
  function Limbs(lv: BitwiseRow, col: nat): (r: seq<int>)
    requires col + 4 <= NUM_BITWISE_COL
    ensures |r| == 4 && forall k :: 0 <= k < 4 ==> r[k] == lv[col + k]
  {
    lv[col..col + 4]
  }

  /** OP1, OP2 and RES each equal their limbs as base-256 digits. */
  function LimbConstraints(lv: BitwiseRow): seq<Yield>
  {
    [ Yield(Always, Bits.ReduceWithPowers(Limbs(lv, OP1_LIMBS), 256) - lv[OP1]),
      Yield(Always, Bits.ReduceWithPowers(Limbs(lv, OP2_LIMBS), 256) - lv[OP2]),
      Yield(Always, Bits.ReduceWithPowers(Limbs(lv, RES_LIMBS), 256) - lv[RES]) ]
  }

  /** Compress limb k equals reduce_with_powers of the k-th op1, op2 and res limbs. */
  function CompressConstraints(lv: BitwiseRow): seq<Yield>
  {
    seq(4, k requires 0 <= k < 4 =>
      Yield(Always, Bits.ReduceWithPowers([lv[OP1_LIMBS + k], lv[OP2_LIMBS + k], lv[RES_LIMBS + k]], BASE) - lv[COMPRESS_LIMBS + k]))
  }

  /**
   * eval_lookups for pairs p.. of the sixteen: the twelve u8 pairs (op1,
   * op2 and res limbs, in that order), then the four compress pairs.
   */
  function LookupsFrom(lv: BitwiseRow, nv: BitwiseRow, p: nat): seq<Yield>
    requires p <= NUM_PAIRS
    decreases NUM_PAIRS - p
  {
    if p == NUM_PAIRS then []
    else EvalLookups(lv, nv, OP1_LIMBS_PERMUTED + p, FIX_RANGE_CHECK_U8_PERMUTED + p) + LookupsFrom(lv, nv, p + 1)
  }

  /** eval_packed_generic of the bitwise STARK. */
  function EvalPackedGeneric(lv: BitwiseRow, nv: BitwiseRow): seq<Yield>
  {
    LimbConstraints(lv) + CompressConstraints(lv) + LookupsFrom(lv, nv, 0)
  }

  const CONSTRAINT_DEGREE: nat := 3

  /**
   * permutation_pairs: each compress limb column with its permuted column,
   * and the fixed compress column with each of its four permuted copies.
   */
  function PermutationPairs(): seq<(nat, nat)>
  {
    seq(4, k requires 0 <= k < 4 => (COMPRESS_LIMBS + k, COMPRESS_PERMUTED + k))
      + seq(4, k requires 0 <= k < 4 => (FIX_COMPRESS, FIX_COMPRESS_PERMUTED + k))
  }

  /**
   * The permutation arguments tie both columns of every compress lookup to
   * their sources, and tie no operand, result or u8 limb column at all.
   */
  lemma PermutationPairsCover()
    ensures forall k :: 0 <= k < 4 ==> CompressTied(k)
    ensures forall pr :: pr in PermutationPairs() ==> pr.0 == FIX_COMPRESS || COMPRESS_LIMBS <= pr.0 < FIX_RANGE_CHECK_U8
  {
    var ps := PermutationPairs();
    forall k | 0 <= k < 4
      ensures CompressTied(k)
    {
      assert ps[k] == (COMPRESS_LIMBS + k, COMPRESS_PERMUTED + k);
      assert ps[4 + k] == (FIX_COMPRESS, FIX_COMPRESS_PERMUTED + k);
    }
  }

  /** Both columns of compress lookup k are tied to their sources. */
  predicate CompressTied(k: nat)
  {
    && (COMPRESS_LIMBS + k, COMPRESS_PERMUTED + k) in PermutationPairs()
    && (FIX_COMPRESS, FIX_COMPRESS_PERMUTED + k) in PermutationPairs()
  }

  // ---------------------------------------------------------------------
  // Meaning of the row constraints
  // ---------------------------------------------------------------------

  /** The limbs of a row are bytes: what the u8 lookups are there to ensure. */
  predicate LimbsAreBytes(lv: BitwiseRow)
  {
    && Bits.AllBytes(Limbs(lv, OP1_LIMBS))
    && Bits.AllBytes(Limbs(lv, OP2_LIMBS))
    && Bits.AllBytes(Limbs(lv, RES_LIMBS))
  }

  /** A reassembled u32 equals a field element exactly when it is congruent to it. */
  lemma ReducedEq(ls: seq<int>, x: Felt)
    requires Bits.AllBytes(ls) && |ls| == 4
    ensures IsZero(Bits.ReduceWithPowers(ls, 256) - x) <==> Bits.ReduceWithPowers(ls, 256) == x
  {
    Bits.BytesReduceBound(ls);
    assert Bits.Pow256(4) == TWO_32;
    IsZeroSmall(Bits.ReduceWithPowers(ls, 256) - x);
  }

  /** With byte limbs, the limb constraints say the values are their limbs in base 256. */
  lemma LimbConstraintsMeaning(lv: BitwiseRow, isFirst: bool, isLast: bool)
    requires LimbsAreBytes(lv)
    ensures AllHold(LimbConstraints(lv), isFirst, isLast) <==>
      && lv[OP1] == Bits.ReduceWithPowers(Limbs(lv, OP1_LIMBS), 256)
      && lv[OP2] == Bits.ReduceWithPowers(Limbs(lv, OP2_LIMBS), 256)
      && lv[RES] == Bits.ReduceWithPowers(Limbs(lv, RES_LIMBS), 256)
  {
    ReducedEq(Limbs(lv, OP1_LIMBS), lv[OP1]);
    ReducedEq(Limbs(lv, OP2_LIMBS), lv[OP2]);
    ReducedEq(Limbs(lv, RES_LIMBS), lv[RES]);
    var ys := LimbConstraints(lv);
    assert AllHold(ys, isFirst, isLast) <==> HoldsAt(ys[0], isFirst, isLast) && HoldsAt(ys[1], isFirst, isLast) && HoldsAt(ys[2], isFirst, isLast);
  }

  /** Compress limb k packs the k-th op1, op2 and res limbs. */
  predicate CompressedRow(lv: BitwiseRow, k: nat)
    requires k < 4
  {
    lv[COMPRESS_LIMBS + k] == Compress(lv[OP1_LIMBS + k], lv[OP2_LIMBS + k], lv[RES_LIMBS + k])
  }

  /** reduce_with_powers of a triple in base 256 is the compression. */
  lemma ReduceTriple(x: int, y: int, z: int)
    ensures Bits.ReduceWithPowers([x, y, z], BASE) == Compress(x, y, z)
  {
    assert [x, y, z][1..] == [y, z];
    assert [y, z][1..] == [z];
    assert [z][1..] == [];
    assert Bits.ReduceWithPowers([z], BASE) == z + BASE * Bits.ReduceWithPowers([], BASE);
    assert Bits.ReduceWithPowers([y, z], BASE) == y + BASE * Bits.ReduceWithPowers([z], BASE);
    assert Bits.ReduceWithPowers([x, y, z], BASE) == x + BASE * Bits.ReduceWithPowers([y, z], BASE);
  }

  lemma CompressConstraintMeaning(lv: BitwiseRow, k: nat)
    requires LimbsAreBytes(lv) && k < 4
    ensures IsZero(CompressConstraints(lv)[k].term) <==> CompressedRow(lv, k)
  {
    var x, y, z := lv[OP1_LIMBS + k], lv[OP2_LIMBS + k], lv[RES_LIMBS + k];
    assert Limbs(lv, OP1_LIMBS)[k] == x && Limbs(lv, OP2_LIMBS)[k] == y && Limbs(lv, RES_LIMBS)[k] == z;
    ReduceTriple(x, y, z);
    CompressBound(x, y, z);
    IsZeroSmall(Compress(x, y, z) - lv[COMPRESS_LIMBS + k]);
  }

  /** With byte limbs, the compress constraints say each compress limb packs its triple. */
  lemma CompressConstraintsMeaning(lv: BitwiseRow, isFirst: bool, isLast: bool)
    requires LimbsAreBytes(lv)
    ensures AllHold(CompressConstraints(lv), isFirst, isLast) <==> forall k :: 0 <= k < 4 ==> CompressedRow(lv, k)
  {
    var ys := CompressConstraints(lv);
    forall k | 0 <= k < 4
      ensures HoldsAt(ys[k], isFirst, isLast) <==> CompressedRow(lv, k)
    {
      CompressConstraintMeaning(lv, k);
    }
  }

  /** What eval_lookups demands of pair p on a row pair. */
  predicate PairStep(lv: BitwiseRow, nv: BitwiseRow, p: nat, isLast: bool)
    requires p < NUM_PAIRS
  {
    var a, s := OP1_LIMBS_PERMUTED + p, FIX_RANGE_CHECK_U8_PERMUTED + p;
    (nv[a] == lv[a] || nv[a] == nv[s]) && (isLast ==> nv[a] == nv[s])
  }

  lemma {:induction false} LookupsFromMeaning(lv: BitwiseRow, nv: BitwiseRow, p: nat, isFirst: bool, isLast: bool)
    requires PrimeModulus() && p <= NUM_PAIRS
    ensures AllHold(LookupsFrom(lv, nv, p), isFirst, isLast) <==>
      forall q :: p <= q < NUM_PAIRS ==> PairStep(lv, nv, q, isLast)
    decreases NUM_PAIRS - p
  {
    if p < NUM_PAIRS {
      var a, s := OP1_LIMBS_PERMUTED + p, FIX_RANGE_CHECK_U8_PERMUTED + p;
      LookupsFromMeaning(lv, nv, p + 1, isFirst, isLast);
      EvalLookupsMeaning(lv, nv, a, s, isFirst, isLast);
      assert AllHold(EvalLookups(lv, nv, a, s), isFirst, isLast) <==> PairStep(lv, nv, p, isLast);
      AllHoldAppend(EvalLookups(lv, nv, a, s), LookupsFrom(lv, nv, p + 1), isFirst, isLast);
      assert LookupsFrom(lv, nv, p) == EvalLookups(lv, nv, a, s) + LookupsFrom(lv, nv, p + 1);
    }
  }

  /** The lookup constraints of a row pair hold exactly when each pair steps correctly. */
  lemma LookupsMeaning(lv: BitwiseRow, nv: BitwiseRow, isFirst: bool, isLast: bool)
    requires PrimeModulus()
    ensures AllHold(LookupsFrom(lv, nv, 0), isFirst, isLast) <==>
      forall q :: 0 <= q < NUM_PAIRS ==> PairStep(lv, nv, q, isLast)
  {
    LookupsFromMeaning(lv, nv, 0, isFirst, isLast);
  }

  /** The whole row pair, split into its three groups. */
  lemma EvalPackedSplit(lv: BitwiseRow, nv: BitwiseRow, isFirst: bool, isLast: bool)
    ensures AllHold(EvalPackedGeneric(lv, nv), isFirst, isLast) <==>
      && AllHold(LimbConstraints(lv), isFirst, isLast)
      && AllHold(CompressConstraints(lv), isFirst, isLast)
      && AllHold(LookupsFrom(lv, nv, 0), isFirst, isLast)
  {
    AllHoldAppend(LimbConstraints(lv), CompressConstraints(lv), isFirst, isLast);
    AllHoldAppend(LimbConstraints(lv) + CompressConstraints(lv), LookupsFrom(lv, nv, 0), isFirst, isLast);
  }

  /** A value of the fixed compress table: a byte pair with its xor. */
  predicate InXorTable(v: int)
  {
    exists x: nat, y: nat :: x < 256 && y < 256 && v == Compress(x, y, Bits.Xor(x, y))
  }

  /** Compress limb k of the row is a row of the fixed xor table. */
  predicate CompressInTable(lv: BitwiseRow, k: nat)
    requires k < 4
  {
    InXorTable(lv[COMPRESS_LIMBS + k])
  }

  /** A compress limb packing bytes that is in the xor table has res limb = op1 limb xor op2 limb. */
  lemma LimbXor(lv: BitwiseRow, k: nat)
    requires LimbsAreBytes(lv) && k < 4 && CompressedRow(lv, k) && CompressInTable(lv, k)
    ensures lv[OP1_LIMBS + k] >= 0 && lv[OP2_LIMBS + k] >= 0
    ensures lv[RES_LIMBS + k] == Bits.Xor(lv[OP1_LIMBS + k], lv[OP2_LIMBS + k])
  {
    var x: nat, y: nat :| x < 256 && y < 256 && lv[COMPRESS_LIMBS + k] == Compress(x, y, Bits.Xor(x, y));
    XorOfBytes(x, y);
    assert Limbs(lv, OP1_LIMBS)[k] == lv[OP1_LIMBS + k];
    assert Limbs(lv, OP2_LIMBS)[k] == lv[OP2_LIMBS + k];
    assert Limbs(lv, RES_LIMBS)[k] == lv[RES_LIMBS + k];
    CompressInjective(lv[OP1_LIMBS + k], lv[OP2_LIMBS + k], lv[RES_LIMBS + k], x, y, Bits.Xor(x, y));
  }

  /**
   * One row: when its limbs are bytes, its limb and compress constraints
   * hold and every compress limb is a row of the fixed xor table, then RES
   * is op1 xor op2.
   */
  lemma RowSound(lv: BitwiseRow, isFirst: bool, isLast: bool)
    requires LimbsAreBytes(lv)
    requires AllHold(LimbConstraints(lv), isFirst, isLast) && AllHold(CompressConstraints(lv), isFirst, isLast)
    requires forall k :: 0 <= k < 4 ==> CompressInTable(lv, k)
    ensures lv[RES] == Bits.Xor(lv[OP1], lv[OP2])
  {
    LimbConstraintsMeaning(lv, isFirst, isLast);
    CompressConstraintsMeaning(lv, isFirst, isLast);
    var xs, ys, zs := Limbs(lv, OP1_LIMBS), Limbs(lv, OP2_LIMBS), Limbs(lv, RES_LIMBS);
    forall k | 0 <= k < 4
      ensures xs[k] >= 0 && ys[k] >= 0 && zs[k] == Bits.Xor(xs[k], ys[k])
    {
      LimbXor(lv, k);
    }
    Bits.XorOfLimbs(xs, ys, zs);
  }

  // ---------------------------------------------------------------------
  // Whole traces
  // ---------------------------------------------------------------------

  /** Every entry of the column table is a canonical field element. */
  predicate FeltEntries(t: seq<seq<int>>, n: nat)
    requires Shape(t, n)
  {
    forall c, i :: 0 <= c < NUM_BITWISE_COL && 0 <= i < n ==> 0 <= t[c][i] < P
  }

  /** Row i of a column table. */
  function RowOf(t: seq<seq<int>>, n: nat, i: nat): (r: BitwiseRow)
    requires Shape(t, n) && FeltEntries(t, n) && i < n
    ensures forall c :: 0 <= c < NUM_BITWISE_COL ==> r[c] == t[c][i]
  {
    seq(NUM_BITWISE_COL, c requires 0 <= c < NUM_BITWISE_COL => t[c][i] as Felt)
  }

  /** The rows of a column table, as the STARK sees them. */
  function Rows(t: seq<seq<int>>, n: nat): (r: seq<BitwiseRow>)
    requires Shape(t, n) && FeltEntries(t, n)
    ensures |r| == n && forall i :: 0 <= i < n ==> r[i] == RowOf(t, n, i)
  {
    seq(n, i requires 0 <= i < n => RowOf(t, n, i))
  }

  /** Pair p's lookup, read down the columns of the table. */
  predicate ColumnLookup(t: seq<seq<int>>, n: nat, p: nat)
    requires Shape(t, n) && p < NUM_PAIRS
  {
    LookupCondition(t[OP1_LIMBS_PERMUTED + p], t[FIX_RANGE_CHECK_U8_PERMUTED + p])
  }

  /** The lookup rows of a satisfying trace give the lookup condition on each pair of columns. */
  lemma TraceLookups(t: seq<seq<int>>, n: nat, p: nat)
    requires PrimeModulus() && Shape(t, n) && FeltEntries(t, n) && p < NUM_PAIRS
    requires TraceSatisfies(Rows(t, n), EvalPackedGeneric)
    ensures ColumnLookup(t, n, p)
  {
    var rows := Rows(t, n);
    var a, s := t[OP1_LIMBS_PERMUTED + p], t[FIX_RANGE_CHECK_U8_PERMUTED + p];
    forall k | 0 <= k < n
      ensures RowCondition(a, s, k)
    {
      var k' := (k + 1) % n;
      assert AllHold(EvalPackedGeneric(rows[k], NextRow(rows, k)), k == 0, k == n - 1);
      RowPairStep(rows[k], NextRow(rows, k), p, k == 0, k == n - 1);
      assert PairStep(rows[k], rows[k'], p, k == n - 1);
    }
    RowsGiveCondition(a, s);
  }

  /** A row pair that satisfies the constraints takes the lookup step of every pair. */
  lemma RowPairStep(lv: BitwiseRow, nv: BitwiseRow, p: nat, isFirst: bool, isLast: bool)
    requires PrimeModulus() && p < NUM_PAIRS
    requires AllHold(EvalPackedGeneric(lv, nv), isFirst, isLast)
    ensures PairStep(lv, nv, p, isLast)
  {
    EvalPackedSplit(lv, nv, isFirst, isLast);
    LookupsMeaning(lv, nv, isFirst, isLast);
  }

  /**
   * Soundness of the table: if every row pair satisfies the constraints,
   * the fixed columns are the generated ones, the permutation pairs hold
   * and the limbs are bytes, then every row carries RES = OP1 xor OP2.
   */
  lemma TraceSound(t: seq<seq<int>>, n: nat)
    requires PrimeModulus() && Shape(t, n) && FeltEntries(t, n)
    requires TraceSatisfies(Rows(t, n), EvalPackedGeneric)
    requires FixedTables(t, n) && CompressedTable(t, n)
    requires forall k :: 0 <= k < 4 ==> PermutationPairHolds(t, n, k)
    requires forall i :: 0 <= i < n ==> LimbsAreBytes(RowOf(t, n, i))
    ensures forall i :: 0 <= i < n ==> t[RES][i] == Bits.Xor(t[OP1][i], t[OP2][i])
  {
    var rows := Rows(t, n);
    forall i | 0 <= i < n
      ensures t[RES][i] == Bits.Xor(t[OP1][i], t[OP2][i])
    {
      var lv := rows[i];
      assert AllHold(EvalPackedGeneric(lv, NextRow(rows, i)), i == 0, i == n - 1);
      EvalPackedSplit(lv, NextRow(rows, i), i == 0, i == n - 1);
      forall k | 0 <= k < 4
        ensures CompressInTable(lv, k)
      {
        CompressLookedUp(t, n, k, i);
      }
      RowSound(lv, i == 0, i == n - 1);
    }
  }

  /** The permutation argument of compress limb k and of the fixed compress copy k. */
  predicate PermutationPairHolds(t: seq<seq<int>>, n: nat, k: nat)
    requires Shape(t, n) && k < 4
  {
    && multiset(t[COMPRESS_PERMUTED + k]) == multiset(t[COMPRESS_LIMBS + k])
    && multiset(t[FIX_COMPRESS_PERMUTED + k]) == multiset(t[FIX_COMPRESS])
  }

  /** A compress limb of a satisfying trace is a row of the fixed xor table. */
  lemma CompressLookedUp(t: seq<seq<int>>, n: nat, k: nat, i: nat)
    requires PrimeModulus() && Shape(t, n) && FeltEntries(t, n) && k < 4 && i < n
    requires TraceSatisfies(Rows(t, n), EvalPackedGeneric)
    requires FixedTables(t, n) && CompressedTable(t, n)
    requires PermutationPairHolds(t, n, k)
    ensures InXorTable(t[COMPRESS_LIMBS + k][i])
  {
    var p := 12 + k;
    TraceLookups(t, n, p);
    var a, s := t[OP1_LIMBS_PERMUTED + p], t[FIX_RANGE_CHECK_U8_PERMUTED + p];
    var v := t[COMPRESS_LIMBS + k][i];
    assert v in multiset(a);
    var j :| 0 <= j < |a| && a[j] == v;
    LookupConditionInTable(a, s, j);
    InPermutation(v, s, t[FIX_COMPRESS]);
    CompressTableEntries(t, n, v);
  }

  /**
   * Completeness: the table the corrected generator builds (RES the xor of
   * the operands) satisfies every constraint on every row pair.
   */
  lemma CorrectedTraceSatisfies(stepRows: seq<StepRow>, t: seq<seq<int>>)
    requires PrimeModulus()
    requires BitwiseTrace(CorrectedOperands(FilterBitwiseTrace(stepRows)), t)
    ensures var n := TraceLen(|FilterBitwiseTrace(stepRows)|);
      FeltEntries(t, n) && TraceSatisfies(Rows(t, n), EvalPackedGeneric)
  {
    var ops := CorrectedOperands(FilterBitwiseTrace(stepRows));
    var n := TraceLen(|ops|);
    assert |ops| == |FilterBitwiseTrace(stepRows)|;
    FeltsOf(ops, t);
    GenerateXorTraceLookups(stepRows, t);
    GeneratedSatisfies(ops, t);
  }

  lemma FeltsOf(ops: seq<Operands>, t: seq<seq<int>>)
    requires BitwiseTrace(ops, t)
    ensures FeltEntries(t, TraceLen(|ops|))
  {
    EntriesBounded(ops, t);
    var n := TraceLen(|ops|);
    forall c, i | 0 <= c < NUM_BITWISE_COL && 0 <= i < n
      ensures 0 <= t[c][i] < P
    {
      assert ColumnBounded(t[c]);
    }
  }

  /** A generated table whose sixteen lookups hold satisfies the STARK. */
  lemma GeneratedSatisfies(ops: seq<Operands>, t: seq<seq<int>>)
    requires PrimeModulus() && BitwiseTrace(ops, t)
    requires FeltEntries(t, TraceLen(|ops|))
    requires forall p :: 0 <= p < NUM_PAIRS ==> PairLookup(t, TraceLen(|ops|), p)
    ensures TraceSatisfies(Rows(t, TraceLen(|ops|)), EvalPackedGeneric)
  {
    var n := TraceLen(|ops|);
    var rows := Rows(t, n);
    forall k | 0 <= k < n
      ensures AllHold(EvalPackedGeneric(rows[k], NextRow(rows, k)), k == 0, k == n - 1)
    {
      var k' := (k + 1) % n;
      var lv, nv := rows[k], rows[k'];
      var last := k == n - 1;
      GeneratedRowBytes(ops, t, k);
      assert AllHold(LimbConstraints(lv), k == 0, last) by {
        GeneratedLimbs(ops, t, k);
        LimbConstraintsMeaning(lv, k == 0, last);
      }
      GeneratedRowCompressed(t, n, k);
      GeneratedRowLookups(t, n, k);
      EvalPackedSplit(lv, nv, k == 0, last);
    }
  }

  /** Row k of a table whose compress limbs are the compressions meets the compress constraints. */
  lemma GeneratedRowCompressed(t: seq<seq<int>>, n: nat, k: nat)
    requires Shape(t, n) && FeltEntries(t, n) && CompressedLimbs(t, n) && k < n
    requires LimbsAreBytes(RowOf(t, n, k))
    ensures AllHold(CompressConstraints(RowOf(t, n, k)), k == 0, k == n - 1)
  {
    var lv := RowOf(t, n, k);
    forall q | 0 <= q < 4
      ensures CompressedRow(lv, q)
    {
      assert CompressedAt(t, n, COMPRESS_LIMBS + q, k);
    }
    CompressConstraintsMeaning(lv, k == 0, k == n - 1);
  }

  /** Rows k and k + 1 of a table whose sixteen lookups hold meet the lookup constraints. */
  lemma GeneratedRowLookups(t: seq<seq<int>>, n: nat, k: nat)
    requires PrimeModulus() && Shape(t, n) && FeltEntries(t, n) && k < n
    requires forall p :: 0 <= p < NUM_PAIRS ==> PairLookup(t, n, p)
    ensures AllHold(LookupsFrom(RowOf(t, n, k), RowOf(t, n, (k + 1) % n), 0), k == 0, k == n - 1)
  {
    var lv, nv := RowOf(t, n, k), RowOf(t, n, (k + 1) % n);
    var last := k == n - 1;
    forall p | 0 <= p < NUM_PAIRS
      ensures PairStep(lv, nv, p, last)
    {
      assert PairLookup(t, n, p);
      ConditionGivesRows(t[OP1_LIMBS_PERMUTED + p], t[FIX_RANGE_CHECK_U8_PERMUTED + p]);
      assert RowCondition(t[OP1_LIMBS_PERMUTED + p], t[FIX_RANGE_CHECK_U8_PERMUTED + p], k);
    }
    LookupsMeaning(lv, nv, k == 0, k == n - 1);
  }

  lemma GeneratedRowBytes(ops: seq<Operands>, t: seq<seq<int>>, i: nat)
    requires BitwiseTrace(ops, t) && FeltEntries(t, TraceLen(|ops|)) && i < TraceLen(|ops|)
    ensures LimbsAreBytes(RowOf(t, TraceLen(|ops|), i))
  {
    var n := TraceLen(|ops|);
    var lv := RowOf(t, n, i);
    forall c | OP1_LIMBS <= c < COMPRESS_LIMBS
      ensures 0 <= lv[c] < 256
    {
      LimbIsByte(ops, t, c, i);
    }
    assert forall k :: 0 <= k < 4 ==> Limbs(lv, OP1_LIMBS)[k] == lv[OP1_LIMBS + k];
    assert forall k :: 0 <= k < 4 ==> Limbs(lv, OP2_LIMBS)[k] == lv[OP2_LIMBS + k];
    assert forall k :: 0 <= k < 4 ==> Limbs(lv, RES_LIMBS)[k] == lv[RES_LIMBS + k];
  }

  /** On a generated row each value is its limbs in base 256. */
  lemma GeneratedLimbs(ops: seq<Operands>, t: seq<seq<int>>, i: nat)
    requires BitwiseTrace(ops, t) && FeltEntries(t, TraceLen(|ops|)) && i < TraceLen(|ops|)
    ensures var lv := RowOf(t, TraceLen(|ops|), i);
      && lv[OP1] == Bits.ReduceWithPowers(Limbs(lv, OP1_LIMBS), 256)
      && lv[OP2] == Bits.ReduceWithPowers(Limbs(lv, OP2_LIMBS), 256)
      && lv[RES] == Bits.ReduceWithPowers(Limbs(lv, RES_LIMBS), 256)
  {
    var n := TraceLen(|ops|);
    var lv := RowOf(t, n, i);
    assert DataRows(ops, t, n);
    ValueIsLimbs(ops, t, i, OP1, OP1_LIMBS);
    ValueIsLimbs(ops, t, i, OP2, OP2_LIMBS);
    ValueIsLimbs(ops, t, i, RES, RES_LIMBS);
  }

  lemma ValueIsLimbs(ops: seq<Operands>, t: seq<seq<int>>, i: nat, col: nat, limbs: nat)
    requires Shape(t, TraceLen(|ops|)) && FeltEntries(t, TraceLen(|ops|)) && i < TraceLen(|ops|)
    requires DataRows(ops, t, TraceLen(|ops|))
    requires (col, limbs) == (OP1, OP1_LIMBS) || (col, limbs) == (OP2, OP2_LIMBS) || (col, limbs) == (RES, RES_LIMBS)
    ensures var lv := RowOf(t, TraceLen(|ops|), i);
      lv[col] == Bits.ReduceWithPowers(Limbs(lv, limbs), 256)
  {
    var n := TraceLen(|ops|);
    var lv := RowOf(t, n, i);
    var v: nat := if i < |ops| then RowEntry(ops[i], col) else 0;
    assert Limbs(lv, limbs) == Bits.LeBytes(v) by {
      forall k | 0 <= k < 4
        ensures Limbs(lv, limbs)[k] == Bits.LeBytes(v)[k]
      {
        if i < |ops| {
          assert t[limbs + k][i] == RowEntry(ops[i], limbs + k);
        } else {
          assert t[limbs + k][i] == 0;
        }
      }
    }
    assert lv[col] == v && v < Bits.Pow256(4) by {
      assert Bits.Pow256(4) == TWO_32;
      assert t[col][i] == v;
    }
    Bits.LeBytesReduce(v);
  }

  /**
   * The generator as written: the table for a single AND step 1 & 1 = 1
   * fails the constraints, whichever way it is arranged, because its
   * compress limb (1, 1, 1) is no row of the fixed xor table.
   */
  lemma AsWrittenAndTraceFails(t: seq<seq<int>>)
    requires PrimeModulus()
    requires BitwiseTrace(AsWrittenOperands(FilterBitwiseTrace([StepRow(And, 1, 1, 0, 1)])), t)
    ensures var n := TraceLen(1);
      FeltEntries(t, n) && !TraceSatisfies(Rows(t, n), EvalPackedGeneric)
  {
    var row := StepRow(And, 1, 1, 0, 1);
    var ops := AsWrittenOperands(FilterBitwiseTrace([row]));
    assert FilterBitwiseTrace([row]) == [row];
    var n := TraceLen(|ops|);
    FeltsOf(ops, t);
    if TraceSatisfies(Rows(t, n), EvalPackedGeneric) {
      var p := 12;
      TraceLookups(t, n, p);
      assert PairFrom(t, t, n, p);
      PermutedColumnsProps(t[COMPRESS_LIMBS], t[FIX_COMPRESS]);
      assert Sorting.Sort(t[FIX_COMPRESS])[..n] == Sorting.Sort(t[FIX_COMPRESS]);
      AndRowBreaksCompressLookup(t);
      assert false;
    }
  }
}
