// Columns of the I/O-memory table and the two projections it offers to
// cross-table lookups: one to the CPU (the header row of each I/O event)
// and one to the memory table (each stored byte).

module MemoryIoColumns {
  import opened Field

  /** The one-hot operation flags of a row. */
  datatype Ops = Ops(isMemoryStore: Felt, isIoStore: Felt)

  /** InputOutputMemory: one row of the I/O-memory table. */
  datatype InputOutputMemory = InputOutputMemory(
    clk: Felt, addr: Felt, size: Felt, value: Felt, ops: Ops,
    isLvAndNvAreMemoryRows: Felt)

  /** InputOutputMemory::default: every column zero. */
  const DEFAULT_ROW: InputOutputMemory := InputOutputMemory(0, 0, 0, 0, Ops(0, 0), 0)

  /** The tuple the CPU looks up. */
  datatype InputOutputMemoryCtl = InputOutputMemoryCtl(clk: Felt, addr: Felt, size: Felt, isIoStore: Felt)

  /** The tuple the memory table looks up (MemoryCtl). */
  datatype MemoryCtl = MemoryCtl(clk: Felt, isStore: Felt, isLoad: Felt, value: Felt, addr: Felt)

  function IsIo(row: InputOutputMemory): Felt
  {
    row.ops.isIoStore
  }

  function IsMemory(row: InputOutputMemory): Felt
  {
    row.ops.isMemoryStore
  }

  /** is_executed: the sum of the two flags, in the field. */
  function IsExecuted(row: InputOutputMemory): Felt
  {
    Canon(row.ops.isIoStore + row.ops.isMemoryStore)
  }

  function DataForCpu(row: InputOutputMemory): InputOutputMemoryCtl
  {
    InputOutputMemoryCtl(row.clk, row.addr, row.size, row.ops.isIoStore)
  }

  function FilterForCpu(row: InputOutputMemory): Felt
  {
    IsIo(row)
  }

  function DataForMemory(row: InputOutputMemory): MemoryCtl
  {
    MemoryCtl(row.clk, row.ops.isMemoryStore, 0, row.value, row.addr)
  }

  function FilterForMemory(row: InputOutputMemory): Felt
  {
    IsMemory(row)
  }

  /** The flags are bits and at most one of them is set. */
  predicate OpsOneHotOrNone(row: InputOutputMemory)
  {
    row.ops.isIoStore in {0, 1} && row.ops.isMemoryStore in {0, 1}
    && row.ops.isIoStore + row.ops.isMemoryStore <= 1
  }

  /**
   * On a row whose flags are one-hot or zero, is_executed is the bit that
   * says the row takes part in exactly one of the two lookups, never both.
   */
  lemma ExecutedIsOneLookup(row: InputOutputMemory)
    requires OpsOneHotOrNone(row)
    ensures IsExecuted(row) in {0, 1}
    ensures IsExecuted(row) == FilterForCpu(row) + FilterForMemory(row)
    ensures !(FilterForCpu(row) == 1 && FilterForMemory(row) == 1)
    ensures IsExecuted(row) == 0 <==> FilterForCpu(row) == 0 && FilterForMemory(row) == 0
  {
  }

  /**
   * The memory lookup never reports a load, reports a store exactly when
   * its filter is set, and carries the row's clock, address and byte.
   */
  lemma MemoryProjection(row: InputOutputMemory)
    requires OpsOneHotOrNone(row)
    ensures DataForMemory(row).isLoad == 0
    ensures DataForMemory(row).isStore == 1 <==> FilterForMemory(row) == 1
    ensures (DataForMemory(row).clk, DataForMemory(row).addr, DataForMemory(row).value) == (row.clk, row.addr, row.value)
  {
  }

  /** The CPU lookup of a filtered row always marks it as an I/O store. */
  lemma CpuProjection(row: InputOutputMemory)
    requires FilterForCpu(row) == 1
    ensures DataForCpu(row).isIoStore == 1
    ensures (DataForCpu(row).clk, DataForCpu(row).addr, DataForCpu(row).size) == (row.clk, row.addr, row.size)
  {
  }

  /** The default row takes part in no lookup. */
  lemma DefaultRowInert()
    ensures OpsOneHotOrNone(DEFAULT_ROW)
    ensures IsExecuted(DEFAULT_ROW) == 0 && FilterForCpu(DEFAULT_ROW) == 0 && FilterForMemory(DEFAULT_ROW) == 0
  {
  }
}
