// The CPU row as the constraint gadgets read it: opcode selectors,
// register selectors, operand and destination values, the register file,
// and the values the CPU hands to the XOR and shift-amount tables. Also
// the lookup projections and filters the CPU table exposes to the range
// check, bitwise and shift-amount tables.

module CpuColumns {
  import opened Field

  /** One selector per opcode, in declaration order. */
  datatype OpSelectors = OpSelectors(
    add: Felt, sub: Felt, xor: Felt, or: Felt, and: Felt,
    divu: Felt, remu: Felt, mul: Felt, mulhu: Felt,
    sll: Felt, slt: Felt, sltu: Felt, srl: Felt,
    jalr: Felt, beq: Felt, bne: Felt, ecall: Felt)

  const NUM_OPS: nat := 17

  /** Positions of the opcode selectors in OpList. */
  const OP_ADD: nat := 0
  const OP_SUB: nat := 1
  const OP_XOR: nat := 2
  const OP_OR: nat := 3
  const OP_AND: nat := 4
  const OP_DIVU: nat := 5
  const OP_REMU: nat := 6
  const OP_MUL: nat := 7
  const OP_MULHU: nat := 8
  const OP_SLL: nat := 9
  const OP_SLT: nat := 10
  const OP_SLTU: nat := 11
  const OP_SRL: nat := 12
  const OP_JALR: nat := 13
  const OP_BEQ: nat := 14
  const OP_BNE: nat := 15
  const OP_ECALL: nat := 16

  const NUM_REGS: nat := 32

  type Regs = s: seq<Felt> | |s| == NUM_REGS witness seq(NUM_REGS, _ => 0)

  /** InstructionView: the decoded instruction as selector columns. */
  datatype Instruction = Instruction(
    pc: Felt, ops: OpSelectors,
    rs1Select: Regs, rs2Select: Regs, rdSelect: Regs,
    immValue: Felt, branchTarget: Felt)

  /** The operands and result the CPU sends to the XOR table. */
  datatype XorView = XorView(a: Felt, b: Felt, out: Felt)

  /** The shift amount and its power of two sent to the shift-amount table. */
  datatype Bitshift = Bitshift(amount: Felt, multiplier: Felt)

  /** CpuColumnsView, restricted to the columns the modelled gadgets read. */
  datatype CpuRow = CpuRow(
    clk: Felt, inst: Instruction, halt: Felt,
    op1Value: Felt, op2Value: Felt, dstValue: Felt,
    regs: Regs, xor: XorView, bitshift: Bitshift)

  /** The selectors as the view iterates them. */
  function OpList(ops: OpSelectors): (r: seq<Felt>)
    ensures |r| == NUM_OPS
  {
    [ ops.add, ops.sub, ops.xor, ops.or, ops.and, ops.divu, ops.remu, ops.mul, ops.mulhu,
      ops.sll, ops.slt, ops.sltu, ops.srl, ops.jalr, ops.beq, ops.bne, ops.ecall ]
  }

  /** The sum of a sequence of field values, over the integers. */
  function Sum(s: seq<int>): int
  {
    if s == [] then 0 else s[0] + Sum(s[1..])
  }

  /** The sum of products s[k] * v[k]. */
  function Dot(s: seq<int>, v: seq<int>): int
    requires |s| == |v|
  {
    if s == [] then 0 else s[0] * v[0] + Dot(s[1..], v[1..])
  }

  // ---------------------------------------------------------------------
  // One-hot selector vectors
  // ---------------------------------------------------------------------

  /** The selector vector of length n with a single 1 at position i. */
  function OneHotAt(n: nat, i: nat): (r: seq<int>)
    ensures |r| == n
  {
    seq(n, j requires 0 <= j < n => if j == i then 1 else 0)
  }

  /** Exactly one selector is 1 and the others are 0. */
  predicate IsOneHot(s: seq<int>)
  {
    exists i :: 0 <= i < |s| && s == OneHotAt(|s|, i)
  }

  predicate AllBits(s: seq<int>)
  {
    forall k :: 0 <= k < |s| ==> s[k] == 0 || s[k] == 1
  }

  /** Bits sum to a count between 0 and their number; zero exactly when all are 0. */
  lemma {:induction false} BitsSumBounds(s: seq<int>)
    requires AllBits(s)
    ensures 0 <= Sum(s) <= |s|
    ensures Sum(s) == 0 <==> forall k :: 0 <= k < |s| ==> s[k] == 0
  {
    if s != [] {
      BitsSumBounds(s[1..]);
      if Sum(s) == 0 {
        forall k | 0 <= k < |s|
          ensures s[k] == 0
        {
          if k > 0 {
            assert s[k] == s[1..][k - 1];
          }
        }
      }
    }
  }

  /** Bits summing to one are a one-hot vector, and conversely. */
  lemma {:induction false} BitsSumOne(s: seq<int>)
    requires AllBits(s)
    ensures Sum(s) == 1 <==> IsOneHot(s)
  {
    if s == [] {
      return;
    }
    var t := s[1..];
    assert s == [s[0]] + t;
    BitsSumBounds(t);
    BitsSumOne(t);
    if Sum(s) == 1 {
      if s[0] == 1 {
        assert s == OneHotAt(|s|, 0);
      } else {
        var i :| 0 <= i < |t| && t == OneHotAt(|t|, i);
        assert s == OneHotAt(|s|, i + 1);
      }
    }
    if IsOneHot(s) {
      var i :| 0 <= i < |s| && s == OneHotAt(|s|, i);
      if i == 0 {
        assert forall k :: 0 <= k < |t| ==> t[k] == s[k + 1];
      } else {
        assert t == OneHotAt(|t|, i - 1);
      }
    }
  }

  lemma SumOfTwo(a: int, b: int)
    ensures Sum([a, b]) == a + b
  {
    assert [a, b][1..] == [b];
    assert [b][1..] == [];
    assert Sum([b]) == b;
  }

  lemma SumOfFive(a: int, b: int, c: int, d: int, e: int)
    ensures Sum([a, b, c, d, e]) == a + b + c + d + e
  {
    assert [a, b, c, d, e][1..] == [b, c, d, e];
    assert [b, c, d, e][1..] == [c, d, e];
    assert [c, d, e][1..] == [d, e];
    SumOfTwo(d, e);
    assert Sum([c, d, e]) == c + d + e;
    assert Sum([b, c, d, e]) == b + c + d + e;
  }

  /** Against a one-hot vector at i, the dot product picks out v[i]. */
  lemma {:induction false} DotOneHot(n: nat, i: nat, v: seq<int>)
    requires i < n == |v|
    ensures Dot(OneHotAt(n, i), v) == v[i]
    decreases n
  {
    var s := OneHotAt(n, i);
    if i == 0 {
      DotZeros(s[1..], v[1..]);
    } else {
      assert s[1..] == OneHotAt(n - 1, i - 1);
      DotOneHot(n - 1, i - 1, v[1..]);
    }
  }

  lemma {:induction false} DotZeros(s: seq<int>, v: seq<int>)
    requires |s| == |v| && forall k :: 0 <= k < |s| ==> s[k] == 0
    ensures Dot(s, v) == 0
  {
    if s != [] {
      DotZeros(s[1..], v[1..]);
    }
  }

  /** The opcode in force: the position of the one selector that is set. */
  predicate Selected(ops: OpSelectors, i: nat)
  {
    i < NUM_OPS && OpList(ops) == OneHotAt(NUM_OPS, i)
  }

  /** With selectors one-hot at i, each selector reads 1 exactly at i. */
  lemma SelectedValues(ops: OpSelectors, i: nat)
    requires Selected(ops, i)
    ensures forall j :: 0 <= j < NUM_OPS ==> OpList(ops)[j] == (if j == i then 1 else 0)
  {
  }

  // ---------------------------------------------------------------------
  // Lookup projections
  // ---------------------------------------------------------------------

  /** ops_that_use_xor: the opcodes the XOR table serves. */
  function OpsThatUseXor(ops: OpSelectors): seq<Felt>
  {
    [ops.xor, ops.or, ops.and, ops.srl, ops.sll]
  }

  /** ops_that_shift: the opcodes the shift-amount table serves. */
  function OpsThatShift(ops: OpSelectors): seq<Felt>
  {
    [ops.sll, ops.srl]
  }

  /** filter_for_rangecheck: the ADD selector. */
  function FilterForRangecheck(row: CpuRow): int
  {
    row.inst.ops.add
  }

  /** data_for_rangecheck: the destination value alone. */
  function DataForRangecheck(row: CpuRow): seq<int>
  {
    [row.dstValue]
  }

  /** data_for_bitwise: the XOR view's three columns. */
  function DataForBitwise(row: CpuRow): seq<int>
  {
    [row.xor.a, row.xor.b, row.xor.out]
  }

  /** filter_for_bitwise: the sum of the selectors that use the XOR table. */
  function FilterForBitwise(row: CpuRow): int
  {
    Sum(OpsThatUseXor(row.inst.ops))
  }

  /** data_for_shift_amount: the bitshift view's two columns. */
  function DataForShiftAmount(row: CpuRow): seq<int>
  {
    [row.bitshift.amount, row.bitshift.multiplier]
  }

  /** filter_for_shift_amount: the sum of the shift selectors. */
  function FilterForShiftAmount(row: CpuRow): int
  {
    Sum(OpsThatShift(row.inst.ops))
  }

  /** Every shifting opcode is among those that use the XOR table. */
  lemma ShiftOpsUseXor(ops: OpSelectors)
    ensures forall k :: 0 <= k < |OpsThatShift(ops)| ==> OpsThatShift(ops)[k] in OpsThatUseXor(ops)
    ensures multiset(OpsThatShift(ops)) <= multiset(OpsThatUseXor(ops))
  {
    assert OpsThatUseXor(ops) == [ops.xor, ops.or, ops.and] + OpsThatShift(ops)[1..] + OpsThatShift(ops)[..1];
  }

  /**
   * Under one-hot opcode selectors the filters are bits: the range check
   * sees ADD rows, the bitwise table XOR, OR, AND, SRL and SLL rows, and the
   * shift-amount table SLL and SRL rows.
   */
  lemma FiltersOfSelected(row: CpuRow, i: nat)
    requires Selected(row.inst.ops, i)
    ensures FilterForRangecheck(row) == (if i == OP_ADD then 1 else 0)
    ensures FilterForBitwise(row) == (if i in {OP_XOR, OP_OR, OP_AND, OP_SRL, OP_SLL} then 1 else 0)
    ensures FilterForShiftAmount(row) == (if i in {OP_SLL, OP_SRL} then 1 else 0)
  {
    SelectedValues(row.inst.ops, i);
    var ops := row.inst.ops;
    assert ops.add == OpList(ops)[OP_ADD];
    assert ops.xor == OpList(ops)[OP_XOR] && ops.or == OpList(ops)[OP_OR] && ops.and == OpList(ops)[OP_AND];
    assert ops.srl == OpList(ops)[OP_SRL] && ops.sll == OpList(ops)[OP_SLL];
    SumOfFive(ops.xor, ops.or, ops.and, ops.srl, ops.sll);
    SumOfTwo(ops.sll, ops.srl);
  }

  /** A row the shift-amount table sees is also seen by the bitwise table. */
  lemma ShiftFilterImpliesBitwise(row: CpuRow, i: nat)
    requires Selected(row.inst.ops, i)
    requires FilterForShiftAmount(row) == 1
    ensures FilterForBitwise(row) == 1
  {
    FiltersOfSelected(row, i);
  }
}
