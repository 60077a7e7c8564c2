// Bitwise trace generation: every AND/OR/XOR step of the CPU becomes one
// row holding its two operands, the result and their little-endian bytes;
// the table carries a fixed u8 column, a fixed table of all 2^16 byte pairs
// with their xor, "compressed" byte triples, and, for the lookup argument,
// each limb column permuted against its fixed column.
//
// The trace is built column-wise in place, like the source: an array of
// columns that each phase updates.

module BitwiseGen {
  import opened Field
  import Bits
  import opened Lookup
  import RangeCheckGen
  import Sorting

  const BASE: nat := 256
  /** 2^8 * 2^8 rows of the fixed bitwise table. */
  const BITWISE_U8_SIZE: nat := 0x1_0000
  const RANGE_U8_SIZE: nat := 256

  // Column layout of the bitwise table (the model's own order). Limb
  // groups occupy four consecutive columns, the permuted u8 table twelve
  // (op1 limbs, then op2, then res), the permuted compress table four.
  const OP1: nat := 0
  const OP2: nat := 1
  const RES: nat := 2
  const OP1_LIMBS: nat := 3
  const OP2_LIMBS: nat := 7
  const RES_LIMBS: nat := 11
  const COMPRESS_LIMBS: nat := 15
  const FIX_RANGE_CHECK_U8: nat := 19
  const FIX_BITWISE_OP1: nat := 20
  const FIX_BITWISE_OP2: nat := 21
  const FIX_BITWISE_RES: nat := 22
  const FIX_COMPRESS: nat := 23
  const OP1_LIMBS_PERMUTED: nat := 24
  const OP2_LIMBS_PERMUTED: nat := 28
  const RES_LIMBS_PERMUTED: nat := 32
  const COMPRESS_PERMUTED: nat := 36
  const FIX_RANGE_CHECK_U8_PERMUTED: nat := 40
  const FIX_COMPRESS_PERMUTED: nat := 52
  const NUM_BITWISE_COL: nat := 56

  /** The columns filled from the execution rows: OP1 .. RES_LIMBS. */
  const NUM_ROW_COLS: nat := 15

  type U32 = x: int | 0 <= x < TWO_32

  datatype Opcode = And | Or | Xor | Other

  /**
   * A CPU step as the generator reads it: the opcode, the values of rs1 and
   * rs2 in the step's register state, the immediate and aux.dst_val.
   */
  datatype StepRow = StepRow(op: Opcode, rs1Value: U32, rs2Value: U32, imm: U32, dstVal: U32)

  predicate IsBitwise(op: Opcode)
  {
    op == And || op == Or || op == Xor
  }

  // ---------------------------------------------------------------------
  // filter_bitwise_trace
  // ---------------------------------------------------------------------

  function FilterBitwiseTrace(rows: seq<StepRow>): (r: seq<StepRow>)
    ensures |r| <= |rows|
    ensures forall x :: x in r ==> IsBitwise(x.op)
  {
    if |rows| == 0 then []
    else (if IsBitwise(rows[0].op) then [rows[0]] else []) + FilterBitwiseTrace(rows[1..])
  }

  /** The filter keeps execution order: filtering a concatenation concatenates. */
  lemma {:induction false} FilterAppend(a: seq<StepRow>, b: seq<StepRow>)
    ensures FilterBitwiseTrace(a + b) == FilterBitwiseTrace(a) + FilterBitwiseTrace(b)
  {
    if |a| > 0 {
      assert (a + b)[1..] == a[1..] + b;
      FilterAppend(a[1..], b);
    } else {
      assert a + b == b;
    }
  }

  /** Every AND/OR/XOR step is kept, as often as it occurs; nothing else is. */
  lemma {:induction false} FilterCounts(rows: seq<StepRow>)
    ensures forall x :: multiset(FilterBitwiseTrace(rows))[x] == if IsBitwise(x.op) then multiset(rows)[x] else 0
  {
    if |rows| > 0 {
      FilterCounts(rows[1..]);
      assert rows == [rows[0]] + rows[1..];
    }
  }

  // ---------------------------------------------------------------------
  // Operands of a row
  // ---------------------------------------------------------------------

  /** The three values a bitwise row records. */
  datatype Operands = Operands(op1: U32, op2: U32, res: U32)

  /** u32::wrapping_add. */
  function WrappingAdd(a: U32, b: U32): (r: U32)
    ensures r == a + b || r == a + b - TWO_32
  {
    (a + b) % TWO_32
  }

  /** The operands as the generator writes them: RES is aux.dst_val. */
  function StepOperands(row: StepRow): (o: Operands)
    ensures o.op1 == row.rs1Value && o.res == row.dstVal
    ensures o.op2 == (row.rs2Value + row.imm) % TWO_32
  {
    Operands(row.rs1Value, WrappingAdd(row.rs2Value, row.imm), row.dstVal)
  }

  function AsWrittenOperands(rows: seq<StepRow>): (r: seq<Operands>)
    ensures |r| == |rows| && forall i :: 0 <= i < |rows| ==> r[i] == StepOperands(rows[i])
  {
    seq(|rows|, i requires 0 <= i < |rows| => StepOperands(rows[i]))
  }

  /** The operands of the corrected generator: RES is op1 xor op2. */
  function XorOperands(row: StepRow): (o: Operands)
    ensures o.op1 == row.rs1Value && o.op2 == WrappingAdd(row.rs2Value, row.imm)
    ensures o.res == Bits.Xor(o.op1, o.op2)
  {
    var op2 := WrappingAdd(row.rs2Value, row.imm);
    Bits.Pow2Is32();
    Bits.XorBound(row.rs1Value, op2, 32);
    Operands(row.rs1Value, op2, Bits.Xor(row.rs1Value, op2))
  }

  function CorrectedOperands(rows: seq<StepRow>): (r: seq<Operands>)
    ensures |r| == |rows| && forall i :: 0 <= i < |rows| ==> r[i] == XorOperands(rows[i])
  {
    seq(|rows|, i requires 0 <= i < |rows| => XorOperands(rows[i]))
  }

  // ---------------------------------------------------------------------
  // What the generated trace holds
  // ---------------------------------------------------------------------

  /** The padded height: a power of two, at least 2^16 and at least rows. */
  function TraceLen(rows: nat): (n: nat)
    ensures IsPow2(n) && n >= rows && n >= BITWISE_U8_SIZE
  {
    NextPow2(Max(rows, BITWISE_U8_SIZE))
  }

  predicate Shape(t: seq<seq<int>>, n: nat)
  {
    |t| == NUM_BITWISE_COL && forall c :: 0 <= c < NUM_BITWISE_COL ==> |t[c]| == n
  }

  /** The entry of column c (OP1 .. RES_LIMBS) on a data row. */
  function RowEntry(o: Operands, c: nat): int
    requires c < NUM_ROW_COLS
  {
    if c == OP1 then o.op1
    else if c == OP2 then o.op2
    else if c == RES then o.res
    else if c < OP2_LIMBS then Bits.Byte(o.op1, c - OP1_LIMBS)
    else if c < RES_LIMBS then Bits.Byte(o.op2, c - OP2_LIMBS)
    else Bits.Byte(o.res, c - RES_LIMBS)
  }

  /** Row i < |ops| holds ops[i] and its bytes; later rows are zero. */
  predicate DataRows(ops: seq<Operands>, t: seq<seq<int>>, n: nat)
    requires Shape(t, n)
  {
    forall c, i {:trigger t[c][i]} :: 0 <= c < NUM_ROW_COLS && 0 <= i < n ==>
      t[c][i] == if i < |ops| then RowEntry(ops[i], c) else 0
  }

  /**
   * The fixed columns at row i: the u8 range 0..255 (then zeros), and for
   * i < 2^16 the byte pair (i / 256, i % 256) of cartesian_product order
   * with its xor (then zeros).
   */
  function FixedEntry(c: nat, i: nat): int
    requires FIX_RANGE_CHECK_U8 <= c < FIX_COMPRESS
  {
    if c == FIX_RANGE_CHECK_U8 then (if i < RANGE_U8_SIZE then i else 0)
    else if i >= BITWISE_U8_SIZE then 0
    else if c == FIX_BITWISE_OP1 then i / BASE
    else if c == FIX_BITWISE_OP2 then i % BASE
    else Bits.Xor(i / BASE, i % BASE)
  }

  predicate FixedTables(t: seq<seq<int>>, n: nat)
    requires Shape(t, n)
  {
    forall c, i :: FIX_RANGE_CHECK_U8 <= c < FIX_COMPRESS && 0 <= i < n ==> t[c][i] == FixedEntry(c, i)
  }

  /** The compression of a byte triple: x + base * (y + base * z). */
  function Compress(x: int, y: int, z: int): int
  {
    x + BASE * (y + BASE * z)
  }

  /**
   * Compress limb column c (one of four) holds, row by row, the compression
   * of the op1, op2 and res limbs with the same limb index.
   */
  predicate CompressedAt(t: seq<seq<int>>, n: nat, c: nat, i: nat)
    requires Shape(t, n)
    requires COMPRESS_LIMBS <= c < FIX_RANGE_CHECK_U8 && i < n
  {
    t[c][i] == Compress(t[c - COMPRESS_LIMBS + OP1_LIMBS][i], t[c - COMPRESS_LIMBS + OP2_LIMBS][i], t[c - COMPRESS_LIMBS + RES_LIMBS][i])
  }

  predicate CompressedLimbs(t: seq<seq<int>>, n: nat)
    requires Shape(t, n)
  {
    forall c, i :: COMPRESS_LIMBS <= c < FIX_RANGE_CHECK_U8 && 0 <= i < n ==> CompressedAt(t, n, c, i)
  }

  predicate CompressedTable(t: seq<seq<int>>, n: nat)
    requires Shape(t, n)
  {
    forall i :: 0 <= i < n ==>
      t[FIX_COMPRESS][i] == Compress(t[FIX_BITWISE_OP1][i], t[FIX_BITWISE_OP2][i], t[FIX_BITWISE_RES][i])
  }

  /** (out, outTable) is permute_cols of (input, table). */
  predicate PermutedPair(input: seq<int>, table: seq<int>, out: seq<int>, outTable: seq<int>)
  {
    |input| <= |table| && (out, outTable) == PermutedColumns(input, table)
  }

  /**
   * The sixteen permute_cols pairs in the order the generator visits them:
   * op1 limbs 0..3, op2 limbs, res limbs (against the u8 column), then the
   * compress limbs (against the compress table). Pair p reads limb column
   * OP1_LIMBS + p and writes OP1_LIMBS_PERMUTED + p and
   * FIX_RANGE_CHECK_U8_PERMUTED + p.
   */
  const NUM_PAIRS: nat := 16

  function PairTable(p: nat): nat
  {
    if p < 12 then FIX_RANGE_CHECK_U8 else FIX_COMPRESS
  }

  /** Pair p of dst is permute_cols of the limb and table columns of src. */
  predicate PairFrom(src: seq<seq<int>>, dst: seq<seq<int>>, n: nat, p: nat)
    requires Shape(src, n) && Shape(dst, n) && p < NUM_PAIRS
  {
    PermutedPair(src[OP1_LIMBS + p], src[PairTable(p)], dst[OP1_LIMBS_PERMUTED + p], dst[FIX_RANGE_CHECK_U8_PERMUTED + p])
  }

  predicate PermutedLimbs(t: seq<seq<int>>, n: nat)
    requires Shape(t, n)
  {
    forall p :: 0 <= p < NUM_PAIRS ==> PairFrom(t, t, n, p)
  }

  /** The bitwise table generated from the operand rows ops. */
  predicate BitwiseTrace(ops: seq<Operands>, t: seq<seq<int>>)
  {
    var n := TraceLen(|ops|);
    && Shape(t, n)
    && DataRows(ops, t, n)
    && FixedTables(t, n)
    && CompressedLimbs(t, n)
    && CompressedTable(t, n)
    && PermutedLimbs(t, n)
  }

  // ---------------------------------------------------------------------
  // generate_bitwise_trace
  // ---------------------------------------------------------------------

  /**
   * generate_bitwise_trace as written: the AND/OR/XOR steps, with OP2 the
   * wrapping sum of rs2 and imm and RES the destination value.
   */
  method GenerateBitwiseTrace(stepRows: seq<StepRow>) returns (trace: seq<seq<int>>)
    ensures BitwiseTrace(AsWrittenOperands(FilterBitwiseTrace(stepRows)), trace)
  {
    var filtered := FilterBitwiseTrace(stepRows);
    trace := BuildBitwiseTrace(AsWrittenOperands(filtered));
  }

  /**
   * The generator with RES set to op1 xor op2, the value the fixed table
   * (and the CPU's xor_out column) holds for the pair.
   */
  method GenerateXorTrace(stepRows: seq<StepRow>) returns (trace: seq<seq<int>>)
    ensures BitwiseTrace(CorrectedOperands(FilterBitwiseTrace(stepRows)), trace)
  {
    var filtered := FilterBitwiseTrace(stepRows);
    trace := BuildBitwiseTrace(CorrectedOperands(filtered));
  }

  /** The body of the generator, phase by phase, over an array of columns. */
  method BuildBitwiseTrace(ops: seq<Operands>) returns (trace: seq<seq<int>>)
    ensures BitwiseTrace(ops, trace)
  {
    var n := TraceLen(|ops|);
    var t := new seq<int>[NUM_BITWISE_COL](_ => seq(n, _ => 0));
    FillRows(t, ops, n);
    ghost var rows := t[..];
    FillFixed(t, n);
    ghost var fixed := t[..];
    FillCompress(t, n);
    ghost var compressed := t[..];
    FillPermuted(t, n);
    trace := t[..];
    DataRowsFrame(ops, rows, fixed, n);
    DataRowsFrame(ops, fixed, compressed, n);
    DataRowsFrame(ops, compressed, trace, n);
    FixedFrame(fixed, compressed, n);
    FixedFrame(compressed, trace, n);
    CompressedFrame(compressed, trace, n);
  }

  lemma DataRowsFrame(ops: seq<Operands>, t: seq<seq<int>>, t': seq<seq<int>>, n: nat)
    requires Shape(t, n) && Shape(t', n) && DataRows(ops, t, n)
    requires forall c :: 0 <= c < NUM_ROW_COLS ==> t'[c] == t[c]
    ensures DataRows(ops, t', n)
  {
  }

  lemma FixedFrame(t: seq<seq<int>>, t': seq<seq<int>>, n: nat)
    requires Shape(t, n) && Shape(t', n) && FixedTables(t, n)
    requires forall c :: FIX_RANGE_CHECK_U8 <= c < FIX_COMPRESS ==> t'[c] == t[c]
    ensures FixedTables(t', n)
  {
  }

  lemma CompressedFrame(t: seq<seq<int>>, t': seq<seq<int>>, n: nat)
    requires Shape(t, n) && Shape(t', n) && CompressedLimbs(t, n) && CompressedTable(t, n)
    requires forall c :: 0 <= c < OP1_LIMBS_PERMUTED ==> t'[c] == t[c]
    ensures CompressedLimbs(t', n) && CompressedTable(t', n)
  {
    forall c, i | COMPRESS_LIMBS <= c < FIX_RANGE_CHECK_U8 && 0 <= i < n
      ensures CompressedAt(t', n, c, i)
    {
      assert CompressedAt(t, n, c, i);
      assert t'[c] == t[c];
      assert t'[c - COMPRESS_LIMBS + OP1_LIMBS] == t[c - COMPRESS_LIMBS + OP1_LIMBS];
      assert t'[c - COMPRESS_LIMBS + OP2_LIMBS] == t[c - COMPRESS_LIMBS + OP2_LIMBS];
      assert t'[c - COMPRESS_LIMBS + RES_LIMBS] == t[c - COMPRESS_LIMBS + RES_LIMBS];
    }
  }

  /** The loop over the filtered rows: operands and their bytes. */
  method FillRows(trace: array<seq<int>>, ops: seq<Operands>, n: nat)
    requires trace.Length == NUM_BITWISE_COL && n >= |ops|
    requires forall c :: 0 <= c < NUM_BITWISE_COL ==> |trace[c]| == n
    requires forall c, i :: 0 <= c < NUM_ROW_COLS && 0 <= i < n ==> trace[c][i] == 0
    modifies trace
    ensures Shape(trace[..], n)
    ensures forall c :: NUM_ROW_COLS <= c < NUM_BITWISE_COL ==> trace[c] == old(trace[c])
    ensures DataRows(ops, trace[..], n)
  {
    for i := 0 to |ops|
      invariant forall c :: 0 <= c < NUM_BITWISE_COL ==> |trace[c]| == n
      invariant forall c :: NUM_ROW_COLS <= c < NUM_BITWISE_COL ==> trace[c] == old(trace[c])
      invariant forall c, j {:trigger trace[c][j]} :: 0 <= c < NUM_ROW_COLS && 0 <= j < n ==>
        trace[c][j] == if j < i then RowEntry(ops[j], c) else 0
    {
      for c := 0 to NUM_ROW_COLS
        invariant forall c' :: 0 <= c' < NUM_BITWISE_COL ==> |trace[c']| == n
        invariant forall c' :: NUM_ROW_COLS <= c' < NUM_BITWISE_COL ==> trace[c'] == old(trace[c'])
        invariant forall c', j {:trigger trace[c'][j]} :: 0 <= c' < NUM_ROW_COLS && 0 <= j < n && j != i ==>
          trace[c'][j] == if j < i then RowEntry(ops[j], c') else 0
        invariant forall c' :: 0 <= c' < c ==> trace[c'][i] == RowEntry(ops[i], c')
        invariant forall c' :: c <= c' < NUM_ROW_COLS ==> trace[c'][i] == 0
      {
        trace[c] := trace[c][i := RowEntry(ops[i], c)];
      }
    }
  }

  /** The fixed u8 column and the fixed table of byte pairs with their xor. */
  method FillFixed(trace: array<seq<int>>, n: nat)
    requires trace.Length == NUM_BITWISE_COL && n >= BITWISE_U8_SIZE
    requires forall c :: 0 <= c < NUM_BITWISE_COL ==> |trace[c]| == n
    requires forall c, i :: FIX_BITWISE_OP1 <= c < FIX_COMPRESS && 0 <= i < n ==> trace[c][i] == 0
    modifies trace
    ensures Shape(trace[..], n)
    ensures forall c :: 0 <= c < NUM_BITWISE_COL && !(FIX_RANGE_CHECK_U8 <= c < FIX_COMPRESS) ==> trace[c] == old(trace[c])
    ensures FixedTables(trace[..], n)
  {
    trace[FIX_RANGE_CHECK_U8] := RangeCheckGen.Resize(seq(RANGE_U8_SIZE, x => x), n, 0);
    for index := 0 to BITWISE_U8_SIZE
      invariant forall c :: 0 <= c < NUM_BITWISE_COL ==> |trace[c]| == n
      invariant forall c :: 0 <= c < NUM_BITWISE_COL && !(FIX_RANGE_CHECK_U8 <= c < FIX_COMPRESS) ==> trace[c] == old(trace[c])
      invariant forall i :: 0 <= i < n ==> trace[FIX_RANGE_CHECK_U8][i] == FixedEntry(FIX_RANGE_CHECK_U8, i)
      invariant forall c, i :: FIX_BITWISE_OP1 <= c < FIX_COMPRESS && 0 <= i < n ==>
        trace[c][i] == if i < index then FixedEntry(c, i) else 0
    {
      var op1 := index / BASE;
      var op2 := index % BASE;
      trace[FIX_BITWISE_OP1] := trace[FIX_BITWISE_OP1][index := op1];
      trace[FIX_BITWISE_OP2] := trace[FIX_BITWISE_OP2][index := op2];
      trace[FIX_BITWISE_RES] := trace[FIX_BITWISE_RES][index := Bits.Xor(op1, op2)];
    }
  }

  /** The loop over all rows computing the compressed limbs and table. */
  method FillCompress(trace: array<seq<int>>, n: nat)
    requires trace.Length == NUM_BITWISE_COL
    requires forall c :: 0 <= c < NUM_BITWISE_COL ==> |trace[c]| == n
    modifies trace
    ensures Shape(trace[..], n)
    ensures forall c :: 0 <= c < NUM_BITWISE_COL && !(COMPRESS_LIMBS <= c < FIX_RANGE_CHECK_U8) && c != FIX_COMPRESS ==>
      trace[c] == old(trace[c])
    ensures CompressedLimbs(trace[..], n) && CompressedTable(trace[..], n)
  {
    for i := 0 to n
      invariant forall c :: 0 <= c < NUM_BITWISE_COL ==> |trace[c]| == n
      invariant forall c :: 0 <= c < NUM_BITWISE_COL && !(COMPRESS_LIMBS <= c < FIX_RANGE_CHECK_U8) && c != FIX_COMPRESS ==>
        trace[c] == old(trace[c])
      invariant forall c, j {:trigger trace[c][j]} :: COMPRESS_LIMBS <= c < FIX_RANGE_CHECK_U8 && 0 <= j < i ==>
        trace[c][j] == Compress(trace[c - COMPRESS_LIMBS + OP1_LIMBS][j], trace[c - COMPRESS_LIMBS + OP2_LIMBS][j], trace[c - COMPRESS_LIMBS + RES_LIMBS][j])
      invariant forall j {:trigger trace[FIX_COMPRESS][j]} :: 0 <= j < i ==>
        trace[FIX_COMPRESS][j] == Compress(trace[FIX_BITWISE_OP1][j], trace[FIX_BITWISE_OP2][j], trace[FIX_BITWISE_RES][j])
    {
      for c := COMPRESS_LIMBS to FIX_RANGE_CHECK_U8
        invariant forall c' :: 0 <= c' < NUM_BITWISE_COL ==> |trace[c']| == n
        invariant forall c' :: 0 <= c' < NUM_BITWISE_COL && !(COMPRESS_LIMBS <= c' < FIX_RANGE_CHECK_U8) && c' != FIX_COMPRESS ==>
          trace[c'] == old(trace[c'])
        invariant forall c', j {:trigger trace[c'][j]} :: COMPRESS_LIMBS <= c' < FIX_RANGE_CHECK_U8 && 0 <= j < i + (if c' < c then 1 else 0) ==>
          trace[c'][j] == Compress(trace[c' - COMPRESS_LIMBS + OP1_LIMBS][j], trace[c' - COMPRESS_LIMBS + OP2_LIMBS][j], trace[c' - COMPRESS_LIMBS + RES_LIMBS][j])
        invariant forall j {:trigger trace[FIX_COMPRESS][j]} :: 0 <= j < i ==>
          trace[FIX_COMPRESS][j] == Compress(trace[FIX_BITWISE_OP1][j], trace[FIX_BITWISE_OP2][j], trace[FIX_BITWISE_RES][j])
      {
        var k := c - COMPRESS_LIMBS;
        trace[c] := trace[c][i := Compress(trace[OP1_LIMBS + k][i], trace[OP2_LIMBS + k][i], trace[RES_LIMBS + k][i])];
      }
      trace[FIX_COMPRESS] := trace[FIX_COMPRESS][i :=
        Compress(trace[FIX_BITWISE_OP1][i], trace[FIX_BITWISE_OP2][i], trace[FIX_BITWISE_RES][i])];
    }
  }

  /** The permutation information: permute_cols of each limb column. */
  method FillPermuted(trace: array<seq<int>>, n: nat)
    requires trace.Length == NUM_BITWISE_COL
    requires forall c :: 0 <= c < NUM_BITWISE_COL ==> |trace[c]| == n
    modifies trace
    ensures Shape(trace[..], n)
    ensures forall c :: 0 <= c < OP1_LIMBS_PERMUTED ==> trace[c] == old(trace[c])
    ensures PermutedLimbs(trace[..], n)
  {
    ghost var t0 := trace[..];
    for p := 0 to NUM_PAIRS
      invariant Shape(trace[..], n)
      invariant forall c :: 0 <= c < OP1_LIMBS_PERMUTED ==> trace[c] == t0[c]
      invariant forall p' :: 0 <= p' < p ==> PairFrom(t0, trace[..], n, p')
    {
      PermutePair(trace, n, p, t0);
    }
    PairsFromSelf(t0, trace[..], n);
  }

  /** One round of the loop: pair p is written and the earlier pairs are kept. */
  method PermutePair(trace: array<seq<int>>, n: nat, p: nat, ghost t0: seq<seq<int>>)
    requires trace.Length == NUM_BITWISE_COL && p < NUM_PAIRS && Shape(t0, n)
    requires Shape(trace[..], n)
    requires forall c :: 0 <= c < OP1_LIMBS_PERMUTED ==> trace[c] == t0[c]
    requires forall p' :: 0 <= p' < p ==> PairFrom(t0, trace[..], n, p')
    modifies trace
    ensures Shape(trace[..], n)
    ensures forall c :: 0 <= c < OP1_LIMBS_PERMUTED ==> trace[c] == t0[c]
    ensures forall p' :: 0 <= p' <= p ==> PairFrom(t0, trace[..], n, p')
  {
    ghost var before := trace[..];
    assert before[OP1_LIMBS + p] == trace[OP1_LIMBS + p] && before[PairTable(p)] == trace[PairTable(p)];
    PermuteInto(trace, n, OP1_LIMBS + p, PairTable(p), OP1_LIMBS_PERMUTED + p, FIX_RANGE_CHECK_U8_PERMUTED + p);
    ghost var after := trace[..];
    PairsMoved(t0, before, after, n, p);
    forall c | 0 <= c < OP1_LIMBS_PERMUTED
      ensures trace[c] == t0[c]
    {
      assert trace[c] == after[c];
    }
  }

  /** After pair p is written, pairs 0..p hold against the initial columns. */
  lemma PairsMoved(t0: seq<seq<int>>, before: seq<seq<int>>, after: seq<seq<int>>, n: nat, p: nat)
    requires Shape(t0, n) && Shape(before, n) && Shape(after, n) && p < NUM_PAIRS
    requires forall c :: 0 <= c < OP1_LIMBS_PERMUTED ==> before[c] == t0[c]
    requires after == before[OP1_LIMBS_PERMUTED + p := after[OP1_LIMBS_PERMUTED + p]][FIX_RANGE_CHECK_U8_PERMUTED + p := after[FIX_RANGE_CHECK_U8_PERMUTED + p]]
    requires forall p' :: 0 <= p' < p ==> PairFrom(t0, before, n, p')
    requires PermutedPair(before[OP1_LIMBS + p], before[PairTable(p)], after[OP1_LIMBS_PERMUTED + p], after[FIX_RANGE_CHECK_U8_PERMUTED + p])
    ensures forall c :: 0 <= c < OP1_LIMBS_PERMUTED ==> after[c] == t0[c]
    ensures forall p' :: 0 <= p' <= p ==> PairFrom(t0, after, n, p')
  {
    forall p' | 0 <= p' <= p
      ensures PairFrom(t0, after, n, p')
    {
      PairMoved(t0, before, after, n, p, p');
    }
  }

  /** Once the source columns are carried over, the pairs hold within one trace. */
  lemma PairsFromSelf(t0: seq<seq<int>>, t: seq<seq<int>>, n: nat)
    requires Shape(t0, n) && Shape(t, n)
    requires forall c :: 0 <= c < OP1_LIMBS_PERMUTED ==> t[c] == t0[c]
    requires forall p :: 0 <= p < NUM_PAIRS ==> PairFrom(t0, t, n, p)
    ensures PermutedLimbs(t, n)
  {
    forall p | 0 <= p < NUM_PAIRS
      ensures PairFrom(t, t, n, p)
    {
      assert PairFrom(t0, t, n, p);
      assert t[OP1_LIMBS + p] == t0[OP1_LIMBS + p];
      assert t[PairTable(p)] == t0[PairTable(p)];
    }
  }

  /**
   * PairFrom survives when the source's limb and table columns and the
   * destination's columns of pair p' are carried over.
   */
  lemma PairMoved(t0: seq<seq<int>>, before: seq<seq<int>>, after: seq<seq<int>>, n: nat, p: nat, p': nat)
    requires Shape(t0, n) && Shape(before, n) && Shape(after, n) && p < NUM_PAIRS && p' <= p
    requires forall c :: 0 <= c < OP1_LIMBS_PERMUTED ==> before[c] == t0[c]
    requires after == before[OP1_LIMBS_PERMUTED + p := after[OP1_LIMBS_PERMUTED + p]][FIX_RANGE_CHECK_U8_PERMUTED + p := after[FIX_RANGE_CHECK_U8_PERMUTED + p]]
    requires p' < p ==> PairFrom(t0, before, n, p')
    requires p' == p ==> PermutedPair(before[OP1_LIMBS + p], before[PairTable(p)], after[OP1_LIMBS_PERMUTED + p], after[FIX_RANGE_CHECK_U8_PERMUTED + p])
    ensures PairFrom(t0, after, n, p')
  {
    if p' < p {
      assert after[OP1_LIMBS_PERMUTED + p'] == before[OP1_LIMBS_PERMUTED + p'];
      assert after[FIX_RANGE_CHECK_U8_PERMUTED + p'] == before[FIX_RANGE_CHECK_U8_PERMUTED + p'];
    } else {
      assert before[OP1_LIMBS + p] == t0[OP1_LIMBS + p];
      assert before[PairTable(p)] == t0[PairTable(p)];
    }
  }

  /** (trace[out], trace[outTable]) = permute_cols(trace[input], trace[table]). */
  method PermuteInto(trace: array<seq<int>>, n: nat, input: nat, table: nat, out: nat, outTable: nat)
    requires trace.Length == NUM_BITWISE_COL && Shape(trace[..], n)
    requires input < OP1_LIMBS_PERMUTED && table < OP1_LIMBS_PERMUTED
    requires OP1_LIMBS_PERMUTED <= out < NUM_BITWISE_COL && OP1_LIMBS_PERMUTED <= outTable < NUM_BITWISE_COL
    requires out != outTable
    modifies trace
    ensures trace[..] == old(trace[..])[out := trace[out]][outTable := trace[outTable]]
    ensures Shape(trace[..], n)
    ensures PermutedPair(old(trace[input]), old(trace[table]), trace[out], trace[outTable])
  {
    PermutedColumnsProps(trace[input], trace[table]);
    var a, s := PermuteCols(trace[input], trace[table]);
    ghost var t := trace[..];
    trace[out] := a;
    trace[outTable] := s;
    assert trace[..] == t[out := a][outTable := s];
  }

  // ---------------------------------------------------------------------
  // What the lookups of the bitwise table see
  // ---------------------------------------------------------------------

  /** The xor of two bytes is a byte. */
  lemma XorOfBytes(x: nat, y: nat)
    requires x < 256 && y < 256
    ensures Bits.Xor(x, y) < 256
  {
    assert Bits.Pow2(8) == 256;
    Bits.XorBound(x, y, 8);
  }

  /** Row x * 256 + y of the fixed compress column holds the triple (x, y, x xor y). */
  lemma CompressTableRow(t: seq<seq<int>>, n: nat, x: nat, y: nat)
    requires Shape(t, n) && n >= BITWISE_U8_SIZE && FixedTables(t, n) && CompressedTable(t, n)
    requires x < 256 && y < 256
    ensures Compress(x, y, Bits.Xor(x, y)) in t[FIX_COMPRESS]
  {
    var i := x * BASE + y;
    Bits.DivModUnique(i, BASE, x, y);
    assert t[FIX_COMPRESS][i] == Compress(x, y, Bits.Xor(x, y));
  }

  /** Every entry of the fixed compress column is a byte triple (x, y, x xor y). */
  lemma CompressTableEntries(t: seq<seq<int>>, n: nat, v: int)
    requires Shape(t, n) && FixedTables(t, n) && CompressedTable(t, n)
    requires v in t[FIX_COMPRESS]
    ensures exists x: nat, y: nat :: x < 256 && y < 256 && v == Compress(x, y, Bits.Xor(x, y))
  {
    var i :| 0 <= i < n && t[FIX_COMPRESS][i] == v;
    if i < BITWISE_U8_SIZE {
      var x, y := i / BASE, i % BASE;
      assert v == Compress(x, y, Bits.Xor(x, y));
    } else {
      assert v == Compress(0, 0, Bits.Xor(0, 0));
    }
  }

  /** Distinct byte triples compress to distinct values. */
  lemma CompressInjective(x: int, y: int, z: int, x': int, y': int, z': int)
    requires 0 <= x < 256 && 0 <= y < 256 && 0 <= z < 256
    requires 0 <= x' < 256 && 0 <= y' < 256 && 0 <= z' < 256
    requires Compress(x, y, z) == Compress(x', y', z')
    ensures x == x' && y == y' && z == z'
  {
    var v := Compress(x, y, z);
    Bits.DivModUnique(v, BASE, y + BASE * z, x);
    Bits.DivModUnique(v, BASE, y' + BASE * z', x');
    Bits.DivModUnique(y + BASE * z, BASE, z, y);
    Bits.DivModUnique(y' + BASE * z', BASE, z', y');
  }

  /** Byte values (and the zero of padding rows) are in the fixed u8 column. */
  lemma InRangeColumn(t: seq<seq<int>>, n: nat, v: int)
    requires Shape(t, n) && n >= BITWISE_U8_SIZE && FixedTables(t, n)
    requires 0 <= v < 256
    ensures v in t[FIX_RANGE_CHECK_U8]
  {
    assert t[FIX_RANGE_CHECK_U8][v] == v;
  }

  /**
   * In a table whose RES is the xor of the operands, every compress limb is
   * a row of the fixed compress table.
   */
  lemma CorrectedCompressInTable(ops: seq<Operands>, t: seq<seq<int>>, c: nat)
    requires BitwiseTrace(ops, t)
    requires forall i :: 0 <= i < |ops| ==> ops[i].res == Bits.Xor(ops[i].op1, ops[i].op2)
    requires COMPRESS_LIMBS <= c < FIX_RANGE_CHECK_U8
    ensures forall v :: v in t[c] ==> v in t[FIX_COMPRESS]
  {
    var n := TraceLen(|ops|);
    forall v | v in t[c]
      ensures v in t[FIX_COMPRESS]
    {
      var i :| 0 <= i < n && t[c][i] == v;
      CompressEntryInTable(ops, t, n, c, i);
    }
  }

  /** Entry i of compress limb column c is a row of the compress table. */
  lemma CompressEntryInTable(ops: seq<Operands>, t: seq<seq<int>>, n: nat, c: nat, i: nat)
    requires n == TraceLen(|ops|) && Shape(t, n) && DataRows(ops, t, n) && CompressedLimbs(t, n)
    requires FixedTables(t, n) && CompressedTable(t, n)
    requires forall i :: 0 <= i < |ops| ==> ops[i].res == Bits.Xor(ops[i].op1, ops[i].op2)
    requires COMPRESS_LIMBS <= c < FIX_RANGE_CHECK_U8 && i < n
    ensures t[c][i] in t[FIX_COMPRESS]
  {
    var x, y := CompressEntryBytes(ops, t, n, c, i);
    CompressTableRow(t, n, x, y);
  }

  /**
   * On a corrected table entry i of compress limb column c compresses two
   * bytes and their xor.
   */
  lemma CompressEntryBytes(ops: seq<Operands>, t: seq<seq<int>>, n: nat, c: nat, i: nat) returns (x: nat, y: nat)
    requires n == TraceLen(|ops|) && Shape(t, n) && DataRows(ops, t, n) && CompressedLimbs(t, n)
    requires forall i :: 0 <= i < |ops| ==> ops[i].res == Bits.Xor(ops[i].op1, ops[i].op2)
    requires COMPRESS_LIMBS <= c < FIX_RANGE_CHECK_U8 && i < n
    ensures x < 256 && y < 256 && t[c][i] == Compress(x, y, Bits.Xor(x, y))
  {
    var k := c - COMPRESS_LIMBS;
    if i < |ops| {
      var o := ops[i];
      x, y := Bits.Byte(o.op1, k), Bits.Byte(o.op2, k);
      assert t[OP1_LIMBS + k][i] == x && t[OP2_LIMBS + k][i] == y by {
        assert t[OP1_LIMBS + k][i] == RowEntry(o, OP1_LIMBS + k);
        assert t[OP2_LIMBS + k][i] == RowEntry(o, OP2_LIMBS + k);
      }
      assert t[RES_LIMBS + k][i] == Bits.Xor(x, y) by {
        Bits.XorByte(o.op1, o.op2, k);
        assert t[RES_LIMBS + k][i] == RowEntry(o, RES_LIMBS + k);
      }
    } else {
      x, y := 0, 0;
      assert t[OP1_LIMBS + k][i] == 0 && t[OP2_LIMBS + k][i] == 0 && t[RES_LIMBS + k][i] == 0;
      assert Bits.Xor(0, 0) == 0;
    }
    assert CompressedAt(t, n, c, i);
  }

  /** Every operand or result limb is a byte found in the fixed u8 column. */
  lemma LimbsInRange(ops: seq<Operands>, t: seq<seq<int>>, c: nat)
    requires BitwiseTrace(ops, t)
    requires OP1_LIMBS <= c < COMPRESS_LIMBS
    ensures forall v :: v in t[c] ==> v in t[FIX_RANGE_CHECK_U8]
  {
    var n := TraceLen(|ops|);
    forall v | v in t[c]
      ensures v in t[FIX_RANGE_CHECK_U8]
    {
      var i :| 0 <= i < n && t[c][i] == v;
      assert DataRows(ops, t, n);
      if i < |ops| {
        assert t[c][i] == RowEntry(ops[i], c);
      } else {
        assert t[c][i] == 0;
      }
      InRangeColumn(t, n, v);
    }
  }

  /**
   * With RES the xor of the operands, each of the sixteen permuted pairs
   * the generator writes is a permutation of its input and table columns
   * and meets the lookup condition row by row.
   */
  lemma CorrectedLookups(ops: seq<Operands>, t: seq<seq<int>>, p: nat)
    requires BitwiseTrace(ops, t)
    requires forall i :: 0 <= i < |ops| ==> ops[i].res == Bits.Xor(ops[i].op1, ops[i].op2)
    requires p < NUM_PAIRS
    ensures var a, s := t[OP1_LIMBS_PERMUTED + p], t[FIX_RANGE_CHECK_U8_PERMUTED + p];
      && |a| == |s|
      && multiset(a) == multiset(t[OP1_LIMBS + p])
      && multiset(s) == multiset(t[PairTable(p)])
      && LookupCondition(a, s)
  {
    var n := TraceLen(|ops|);
    assert PairFrom(t, t, n, p);
    if p < 12 {
      LimbsInRange(ops, t, OP1_LIMBS + p);
    } else {
      CorrectedCompressInTable(ops, t, OP1_LIMBS + p);
    }
    PermutedColumnsLookup(t[OP1_LIMBS + p], t[PairTable(p)]);
  }

  /** The permuted columns of pair p meet the lookup condition. */
  predicate PairLookup(t: seq<seq<int>>, n: nat, p: nat)
    requires Shape(t, n) && p < NUM_PAIRS
  {
    LookupCondition(t[OP1_LIMBS_PERMUTED + p], t[FIX_RANGE_CHECK_U8_PERMUTED + p])
  }

  /** The table GenerateXorTrace builds meets all sixteen lookups. */
  lemma GenerateXorTraceLookups(stepRows: seq<StepRow>, t: seq<seq<int>>)
    requires BitwiseTrace(CorrectedOperands(FilterBitwiseTrace(stepRows)), t)
    ensures var n := TraceLen(|FilterBitwiseTrace(stepRows)|);
      forall p :: 0 <= p < NUM_PAIRS ==> PairLookup(t, n, p)
  {
    var ops := CorrectedOperands(FilterBitwiseTrace(stepRows));
    var n := TraceLen(|ops|);
    forall p | 0 <= p < NUM_PAIRS
      ensures PairLookup(t, n, p)
    {
      CorrectedLookups(ops, t, p);
    }
  }

  lemma InPermutation(v: int, s: seq<int>, table: seq<int>)
    requires v in s && multiset(s) == multiset(table)
    ensures v in table
  {
    assert v in multiset(s);
  }

  /** A value of the input column that the table lacks defeats the lookup. */
  lemma MissingValueBreaksLookup(a: seq<int>, s: seq<int>, table: seq<int>, v: int)
    requires |a| == |s| && v in a && multiset(s) == multiset(table) && v !in table
    ensures !LookupCondition(a, s)
  {
    if LookupCondition(a, s) {
      var k :| 0 <= k < |a| && a[k] == v;
      LookupConditionInTable(a, s, k);
      InPermutation(v, s, table);
      assert false;
    }
  }

  /**
   * The generator as written puts dst_val in RES, so an AND step whose
   * result differs from the xor of its operands yields a compress limb that
   * is no row of the compress table: 1 AND 1 = 1 gives the limb
   * (1, 1, 1), while the table row for (1, 1) holds 1 xor 1 = 0. No
   * rearrangement of the two columns meets the lookup condition.
   */
  lemma AndRowBreaksCompressLookup(t: seq<seq<int>>)
    requires BitwiseTrace(AsWrittenOperands(FilterBitwiseTrace([StepRow(And, 1, 1, 0, 1)])), t)
    ensures forall a, s :: |a| == |s| && multiset(a) == multiset(t[COMPRESS_LIMBS]) && multiset(s) == multiset(t[FIX_COMPRESS]) ==>
      !LookupCondition(a, s)
  {
    var row := StepRow(And, 1, 1, 0, 1);
    var ops := AsWrittenOperands(FilterBitwiseTrace([row]));
    var n := TraceLen(|ops|);
    assert FilterBitwiseTrace([row]) == [row];
    assert ops[0] == Operands(1, 1, 1);
    Bits.DivModUnique(1, 256, 0, 1);
    assert Bits.Byte(1, 0) == 1;
    assert CompressedAt(t, n, COMPRESS_LIMBS, 0);
    var v := Compress(1, 1, 1);
    assert t[COMPRESS_LIMBS][0] == v;
    if v in t[FIX_COMPRESS] {
      CompressTableEntries(t, n, v);
      var x: nat, y: nat :| x < 256 && y < 256 && v == Compress(x, y, Bits.Xor(x, y));
      XorOfBytes(x, y);
      CompressInjective(1, 1, 1, x, y, Bits.Xor(x, y));
      assert false;
    }
    forall a, s | |a| == |s| && multiset(a) == multiset(t[COMPRESS_LIMBS]) && multiset(s) == multiset(t[FIX_COMPRESS])
      ensures !LookupCondition(a, s)
    {
      assert v in multiset(a);
      MissingValueBreaksLookup(a, s, t[FIX_COMPRESS], v);
    }
  }

  // ---------------------------------------------------------------------
  // Every entry is a u32
  // ---------------------------------------------------------------------

  predicate ColumnBounded(col: seq<int>)
  {
    forall i :: 0 <= i < |col| ==> 0 <= col[i] < TWO_32
  }

  /** Compressed byte triples stay below 2^24. */
  lemma CompressBound(x: int, y: int, z: int)
    requires 0 <= x < 256 && 0 <= y < 256 && 0 <= z < 256
    ensures 0 <= Compress(x, y, z) < 0x100_0000
  {
    assert 0 <= y + BASE * z <= 255 + 256 * 255;
    assert BASE * (y + BASE * z) <= 256 * (255 + 256 * 255);
  }

  /** Permuted columns take their values from the columns they permute. */
  lemma PermutedBounded(input: seq<int>, table: seq<int>)
    requires |input| <= |table| && ColumnBounded(input) && ColumnBounded(table)
    ensures ColumnBounded(PermutedColumns(input, table).0) && ColumnBounded(PermutedColumns(input, table).1)
  {
    PermutedColumnsProps(input, table);
    var r := PermutedColumns(input, table);
    var n := |input|;
    var st := Sorting.Sort(table);
    forall i | 0 <= i < |r.0|
      ensures 0 <= r.0[i] < TWO_32
    {
      assert r.0[i] in multiset(input);
    }
    forall i | 0 <= i < |r.1|
      ensures 0 <= r.1[i] < TWO_32
    {
      assert r.1[i] in multiset(st[..n]);
      var j :| 0 <= j < n && st[..n][j] == r.1[i];
      assert st[j] in multiset(table);
    }
  }

  lemma RowColumnsBounded(ops: seq<Operands>, t: seq<seq<int>>, c: nat)
    requires BitwiseTrace(ops, t) && c < NUM_ROW_COLS
    ensures ColumnBounded(t[c])
  {
    var n := TraceLen(|ops|);
    assert DataRows(ops, t, n);
    forall i | 0 <= i < n
      ensures 0 <= t[c][i] < TWO_32
    {
      if i < |ops| {
        assert t[c][i] == RowEntry(ops[i], c);
      } else {
        assert t[c][i] == 0;
      }
    }
  }

  lemma FixedColumnsBounded(ops: seq<Operands>, t: seq<seq<int>>, c: nat)
    requires BitwiseTrace(ops, t) && FIX_RANGE_CHECK_U8 <= c < FIX_COMPRESS
    ensures ColumnBounded(t[c])
    ensures forall i :: 0 <= i < |t[c]| ==> t[c][i] < 256
  {
    var n := TraceLen(|ops|);
    forall i | 0 <= i < n
      ensures 0 <= t[c][i] < 256
    {
      assert t[c][i] == FixedEntry(c, i);
      if i < BITWISE_U8_SIZE {
        XorOfBytes(i / BASE, i % BASE);
      }
    }
  }

  lemma CompressColumnsBounded(ops: seq<Operands>, t: seq<seq<int>>, c: nat)
    requires BitwiseTrace(ops, t) && (COMPRESS_LIMBS <= c < FIX_RANGE_CHECK_U8 || c == FIX_COMPRESS)
    ensures ColumnBounded(t[c])
  {
    var n := TraceLen(|ops|);
    if c == FIX_COMPRESS {
      FixedColumnsBounded(ops, t, FIX_BITWISE_OP1);
      FixedColumnsBounded(ops, t, FIX_BITWISE_OP2);
      FixedColumnsBounded(ops, t, FIX_BITWISE_RES);
      forall i | 0 <= i < n
        ensures 0 <= t[c][i] < TWO_32
      {
        CompressBound(t[FIX_BITWISE_OP1][i], t[FIX_BITWISE_OP2][i], t[FIX_BITWISE_RES][i]);
      }
    } else {
      var k := c - COMPRESS_LIMBS;
      RowColumnsBounded(ops, t, OP1_LIMBS + k);
      RowColumnsBounded(ops, t, OP2_LIMBS + k);
      RowColumnsBounded(ops, t, RES_LIMBS + k);
      forall i | 0 <= i < n
        ensures 0 <= t[c][i] < TWO_32
      {
        assert CompressedAt(t, n, c, i);
        LimbIsByte(ops, t, OP1_LIMBS + k, i);
        LimbIsByte(ops, t, OP2_LIMBS + k, i);
        LimbIsByte(ops, t, RES_LIMBS + k, i);
        CompressBound(t[OP1_LIMBS + k][i], t[OP2_LIMBS + k][i], t[RES_LIMBS + k][i]);
      }
    }
  }

  lemma LimbIsByte(ops: seq<Operands>, t: seq<seq<int>>, c: nat, i: nat)
    requires BitwiseTrace(ops, t) && OP1_LIMBS <= c < NUM_ROW_COLS && i < TraceLen(|ops|)
    ensures 0 <= t[c][i] < 256
  {
    var n := TraceLen(|ops|);
    assert DataRows(ops, t, n);
    if i < |ops| {
      assert t[c][i] == RowEntry(ops[i], c);
    } else {
      assert t[c][i] == 0;
    }
  }

  /** Every entry of a generated table is a u32 (so a canonical field element). */
  lemma EntriesBounded(ops: seq<Operands>, t: seq<seq<int>>)
    requires BitwiseTrace(ops, t)
    ensures forall c :: 0 <= c < NUM_BITWISE_COL ==> ColumnBounded(t[c])
  {
    var n := TraceLen(|ops|);
    forall c | 0 <= c < OP1_LIMBS_PERMUTED
      ensures ColumnBounded(t[c])
    {
      if c < COMPRESS_LIMBS {
        RowColumnsBounded(ops, t, c);
      } else if c < FIX_RANGE_CHECK_U8 || c == FIX_COMPRESS {
        CompressColumnsBounded(ops, t, c);
      } else {
        FixedColumnsBounded(ops, t, c);
      }
    }
    forall c | OP1_LIMBS_PERMUTED <= c < NUM_BITWISE_COL
      ensures ColumnBounded(t[c])
    {
      var p := if c < FIX_RANGE_CHECK_U8_PERMUTED then c - OP1_LIMBS_PERMUTED else c - FIX_RANGE_CHECK_U8_PERMUTED;
      PairBounded(ops, t, p);
    }
  }

  lemma PairBounded(ops: seq<Operands>, t: seq<seq<int>>, p: nat)
    requires BitwiseTrace(ops, t) && p < NUM_PAIRS
    requires forall c :: 0 <= c < OP1_LIMBS_PERMUTED ==> ColumnBounded(t[c])
    ensures ColumnBounded(t[OP1_LIMBS_PERMUTED + p]) && ColumnBounded(t[FIX_RANGE_CHECK_U8_PERMUTED + p])
  {
    var n := TraceLen(|ops|);
    assert PairFrom(t, t, n, p);
    PermutedBounded(t[OP1_LIMBS + p], t[PairTable(p)]);
  }
}
