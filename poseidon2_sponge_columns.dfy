// Columns of the Poseidon2 sponge table and the lookups it takes part in:
// the CPU's ECALL, the Poseidon2 permutation table, the output-bytes table
// and the memory table (one lookup per preimage limb read from memory).

module Poseidon2SpongeColumns {
  import opened Field
  import MemoryIoColumns

  /** The Poseidon2 state width of plonky2 (WIDTH). */
  const WIDTH: nat := 12
  /** The number of field elements in a hash output (NUM_HASH_OUT_ELTS). */
  const NUM_HASH_OUT_ELTS: nat := 4
  /** The number of preimage limbs read from memory per permutation. */
  const INPUT_LIMBS: nat := 8

  type State = s: seq<Felt> | |s| == WIDTH witness seq(12, _ => 0)

  datatype Ops = Ops(isInitPermute: Felt, isPermute: Felt)

  /** Poseidon2Sponge: one row of the sponge table. */
  datatype Poseidon2Sponge = Poseidon2Sponge(
    clk: Felt, ops: Ops, inputAddr: Felt, outputAddr: Felt, inputLen: Felt,
    preimage: State, output: State, genOutput: Felt)

  /** A table's contribution to one lookup on one row: the tuple and its filter. */
  datatype Lookup<T> = Lookup(data: T, filter: Felt)

  datatype Poseidon2SpongeCtl = Poseidon2SpongeCtl(clk: Felt, inputAddr: Felt, inputLen: Felt)
  datatype Poseidon2StateCtl = Poseidon2StateCtl(input: State, output: State)
  datatype Poseidon2OutputBytesCtl = Poseidon2OutputBytesCtl(clk: Felt, outputAddr: Felt, outputFields: seq<Felt>)

  /** is_executed: the sum of the two operation flags, in the field. */
  function IsExecuted(row: Poseidon2Sponge): Felt
  {
    Canon(row.ops.isInitPermute + row.ops.isPermute)
  }

  /** lookup_for_cpu: (clk, input_addr, input_len) on the rows that start a sponge. */
  function LookupForCpu(row: Poseidon2Sponge): Lookup<Poseidon2SpongeCtl>
  {
    Lookup(Poseidon2SpongeCtl(row.clk, row.inputAddr, row.inputLen), row.ops.isInitPermute)
  }

  /** lookup_for_poseidon2: the permutation's input and output on executed rows. */
  function LookupForPoseidon2(row: Poseidon2Sponge): Lookup<Poseidon2StateCtl>
  {
    Lookup(Poseidon2StateCtl(row.preimage, row.output), IsExecuted(row))
  }

  /** lookup_for_poseidon2_output_bytes: the first hash-out elements, when output is generated. */
  function LookupForOutputBytes(row: Poseidon2Sponge): Lookup<Poseidon2OutputBytesCtl>
  {
    Lookup(Poseidon2OutputBytesCtl(row.clk, row.outputAddr, row.output[..NUM_HASH_OUT_ELTS]), row.genOutput)
  }

  /**
   * lookup_for_input_memory: a load of preimage limb limbIndex from
   * input_addr + limbIndex on executed rows; the source asserts
   * limbIndex < 8.
   */
  function LookupForInputMemory(row: Poseidon2Sponge, limbIndex: nat): Lookup<MemoryIoColumns.MemoryCtl>
    requires limbIndex < INPUT_LIMBS
  {
    Lookup(DataForInputMemory(row, limbIndex), FilterForInputMemory(row))
  }

  function DataForInputMemory(row: Poseidon2Sponge, limbIndex: nat): MemoryIoColumns.MemoryCtl
    requires limbIndex < INPUT_LIMBS
  {
    MemoryIoColumns.MemoryCtl(row.clk, 0, 1, row.preimage[limbIndex], Canon(row.inputAddr + limbIndex))
  }

  function FilterForInputMemory(row: Poseidon2Sponge): Felt
  {
    Canon(row.ops.isInitPermute + row.ops.isPermute)
  }

  /** The operation flags are bits and at most one is set. */
  predicate OpsOneHotOrNone(row: Poseidon2Sponge)
  {
    row.ops.isInitPermute in {0, 1} && row.ops.isPermute in {0, 1}
    && row.ops.isInitPermute + row.ops.isPermute <= 1
  }

  /**
   * With one-hot-or-zero flags, is_executed is a bit, every row the CPU
   * looks up is executed, and the executed rows are exactly those that feed
   * the permutation table and the memory loads.
   */
  lemma ExecutedRows(row: Poseidon2Sponge)
    requires OpsOneHotOrNone(row)
    ensures IsExecuted(row) in {0, 1}
    ensures LookupForCpu(row).filter == 1 ==> IsExecuted(row) == 1
    ensures LookupForPoseidon2(row).filter == FilterForInputMemory(row) == IsExecuted(row)
    ensures IsExecuted(row) == 1 <==> row.ops.isInitPermute == 1 || row.ops.isPermute == 1
  {
  }

  /**
   * The eight memory loads of a row read the first eight preimage limbs
   * from eight consecutive addresses, and never store.
   */
  lemma InputMemoryReads(row: Poseidon2Sponge)
    ensures seq(INPUT_LIMBS, i requires 0 <= i < INPUT_LIMBS => LookupForInputMemory(row, i).data.value) == row.preimage[..INPUT_LIMBS]
    ensures forall i :: 0 <= i < INPUT_LIMBS ==>
      && LookupForInputMemory(row, i).data.addr == Canon(row.inputAddr + i)
      && LookupForInputMemory(row, i).data.isLoad == 1
      && LookupForInputMemory(row, i).data.isStore == 0
      && LookupForInputMemory(row, i).data.clk == row.clk
  {
  }

  /**
   * The addresses of the eight loads are pairwise distinct in the field:
   * no limb is read twice.
   */
  lemma InputAddressesDistinct(row: Poseidon2Sponge, i: nat, j: nat)
    requires i < INPUT_LIMBS && j < INPUT_LIMBS && i != j
    ensures DataForInputMemory(row, i).addr != DataForInputMemory(row, j).addr
  {
    var a := row.inputAddr as int;
    if i < j {
      DistinctShift(a, i, j);
    } else {
      DistinctShift(a, j, i);
    }
  }

  lemma DistinctShift(a: int, i: nat, j: nat)
    requires 0 <= a < P && i < j < INPUT_LIMBS
    ensures Canon(a + i) != Canon(a + j)
  {
    var x := Canon(a + i);
    IsZeroCanon(x, a + i);
    IsZeroCanon(x, a + j);
    IsZeroSub(x - (a + i), x - (a + j));
    IsZeroSmall(j - i);
  }

  lemma IsZeroSub(u: int, v: int)
    ensures IsZero(u) && IsZero(v) ==> IsZero(u - v)
  {
    if IsZero(u) && IsZero(v) {
      IsZeroNeg(v);
      IsZeroAdd(u, -v);
    }
  }

  /** The output-bytes lookup carries exactly the first four output elements. */
  lemma OutputBytesFields(row: Poseidon2Sponge)
    ensures |LookupForOutputBytes(row).data.outputFields| == NUM_HASH_OUT_ELTS
    ensures forall k :: 0 <= k < NUM_HASH_OUT_ELTS ==> LookupForOutputBytes(row).data.outputFields[k] == row.output[k]
    ensures LookupForOutputBytes(row).filter == row.genOutput
  {
  }
}
