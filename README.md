# mozak-vm trace generation and constraints, modelled in Dafny

This project models the core of the mozak-vm prover. mozak-vm is a RISC-V
virtual machine whose executions are proved with STARKs over the Goldilocks
field (P = 2^64 - 2^32 + 1). The model covers two halves of the prover.

The first half is trace generation: the functions that turn an execution
record into the columns of each table.
- The memory table: init rows from the program image, access rows from the
  execution, a merge, address and clock differences, and padding.
- The range-check table, with its 16-bit limbs and their permuted columns.
- The bitwise (XOR) table, with its u8 limbs, the compress columns and the
  fixed lookup tables.
- The shift-amount table.
- The I/O memory tables: the private and public tapes.
- The program ROM.
- The Halo2-style lookup helpers `permute_cols` and `permute_cols_`.
- Padding to powers of two.

The second half is the constraints those tables must satisfy.
- The starky constraint consumer: first-row, last-row, transition and
  every-row constraints.
- The `Expr` constraint builder.
- The lookup constraints `eval_lookups`.
- The CPU table (`cpu/stark.rs` and the older flat `cpu/cpu_stark.rs`):
  one-hot selectors, clock, pc, register file, op1/op2, halt, the permuted
  program columns, and the SUB, AND/OR/XOR, branch and JALR gadgets. The
  ADD gadget modelled is the flat table's (`cpu/add.rs`, in CpuFlat), not
  the `add::constraints` that `cpu/stark.rs` calls.
- The XOR and bitwise STARKs.
- The cross-table columns of the CPU, the I/O memory and Poseidon2 sponge
  tables.
- The quotient-degree defaults of a STARK and the trace-to-polynomial
  helpers.

The native SDK's identity stack is also modelled.

Field elements are integers in 0..P-1 (`Field.Felt`). A constraint term is
computed over the integers. It "holds" when it is 0 modulo P: `Field.IsZero`,
`Expr.HoldsAt`. Lemmas that need P to be prime take `Field.PrimeModulus()` as
a hypothesis. Division by P's non-zero residues is derived from that
hypothesis, with an explicit inverse (`Field.Inv`).

For each table, the constraints are related to an independent meaning:
- "the constraints hold on a row pair exactly when ..." lemmas, both
  directions;
- soundness ("a satisfying trace computes xor / the RISC-V branch decision");
- completeness ("the generated trace satisfies the constraints").

Each generator is a method or function proved equal to a specification
function. The properties the source relies on are proved about those
functions: sortedness, permutation, lengths, padding, row layouts and lookup
conditions.

Where the specification and the code disagree, the model follows the code.
- Padding rows of the memory trace carry `is_init = 0`, as
  `generation/memory.rs:15` writes. The expected table of the memory test
  shows `is_init = 1` on padding rows (`generation/memory.rs:176-177`).
- `circular_tuple_windows` pairs row k with row k + 1, and the last row with
  the first (`generation/rangecheck.rs:56`). The model keeps that pairing and
  order.

## Model

| member | source | states |
|---|---|---|
| Expr.MapConstraint | circuits/src/expr.rs:87-97 | mapping a constraint transforms only its term and keeps its kind and location |
| Expr.ConstraintBuilder.constructor | circuits/src/expr.rs:111-117 | a default builder holds no constraints |
| Expr.ConstraintBuilder.FromVec | circuits/src/expr.rs:119-121 | a builder made from a list holds exactly that list |
| Expr.ConstraintBuilder.AddConstraint | circuits/src/expr.rs:125-131 | a constraint is appended after all earlier ones with its kind, location and term |
| Expr.ConstraintBuilder.FirstRow | circuits/src/expr.rs:133-136 | appends one first-row constraint |
| Expr.ConstraintBuilder.LastRow | circuits/src/expr.rs:138-141 | appends one last-row constraint |
| Expr.ConstraintBuilder.Always | circuits/src/expr.rs:143-144 | appends one every-row constraint; Always is also ConstraintType's `#[default]` kind (expr.rs:102), but no builder path takes that default implicitly, since every method names its kind |
| Expr.ConstraintBuilder.Transition | circuits/src/expr.rs:146-149 | appends one transition constraint |
| Expr.EvalPackedIsIntValue | circuits/src/expr.rs:63-78 | evaluating an expression with field operations gives the field image of its integer value |
| Expr.BuildPacked | circuits/src/expr.rs:173-204 | every built constraint reaches the consumer once, in insertion order, with its kind, evaluated in the field |
| Expr.BuiltConstraintsHold | circuits/src/expr.rs:173-204 | the consumer enforces exactly that each built constraint polynomial vanishes modulo P |
| Lookup.EvalLookupsMeaning | circuits/src/lookup.rs:20-46 | the lookup constraints hold at a row exactly when the next A' repeats the current one or equals the next S', and on the last row (whose next row is the first) the first A' and S' agree |
| Lookup.LookupTraceMeaning | circuits/src/lookup.rs:20-46 | a two-column trace satisfies eval_lookups on every row exactly under the lookup condition |
| Lookup.LookupSound | circuits/src/lookup.rs:20-46 | if (A', S') satisfy the lookup condition and are permutations of the input and the table, every input value is in the table |
| Lookup.PermutedColumnsProps | circuits/src/lookup.rs:85-177 | permute_cols: A' is the sorted input; S' has one entry per input row, is a permutation of the n smallest table values, and every row that starts a run of A' carries that value in S' when it is among them |
| Lookup.PermutedColumnsLookup | circuits/src/lookup.rs:85-177 | with a table as long as the input and holding every input value, S' is a permutation of the table and (A', S') satisfy the lookup condition |
| Lookup.PermuteCols | circuits/src/lookup.rs:85-177 | the while loop, the queue extension and the zip_eq fill compute PermutedColumns |
| Lookup.PermuteLoop | circuits/src/lookup.rs:112-160 | the while loop over both sorted columns, writing into the pre-sized column, ends in the state the walk function describes |
| Lookup.FillQueued | circuits/src/lookup.rs:163-175 | each queued value is written at its queued row, in order |
| Lookup.MergeFinal | circuits/src/lookup.rs:213-234 | after the for_each the queues are empty exactly when input and table have equal length, and then S' is a permutation of the table with every run start matched |
| Lookup.PermutedColumnsMergeProps | circuits/src/lookup.rs:180-237 | permute_cols_: its final assertions pass exactly for equal lengths; then A' is the sorted input, S' a permutation of the table, and run starts present in the table are matched |
| Lookup.PermuteColsMerge | circuits/src/lookup.rs:180-237 | merge_join_by followed by the for_each with two queues computes PermutedColumnsMerge, None where the assertions would panic |
| Lookup.OracleExactColumnsDiffer | circuits/src/lookup.rs:254-266 | on input [1, 3] and table [2, 4] the two routines give different permuted table columns, so the exact comparison of the property test fails |
| Lookup.OracleSortedColumnsAgree | circuits/src/lookup.rs:254-269 | for every input and table of equal length both routines give the same A' and the same S' once sorted |
| Sorting.SortByProps | circuits/src/generation/memory.rs:53 | the key sort returns a key-sorted permutation of its input |
| Sorting.SortByStable | circuits/src/generation/memory.rs:53 | the key sort is stable: the elements with one key keep their input order |
| Sorting.Sort | circuits/src/lookup.rs:97-106 | sorting values gives a sorted permutation of the input |
| Sorting.SortedUnique | circuits/src/lookup.rs:97-106 | two sorted sequences with the same elements are equal, so an unstable sort by value is determined |
| Itertools.MergeJoinNext | circuits/src/generation/bitshift.rs:29 | one step of merge_join_by: Left takes the smaller head of a, Right that of b, Both two equal heads |
| Itertools.MergeJoinProps | circuits/src/generation/bitshift.rs:29 | on sorted inputs merge_join_by yields all of a as left values, all of b as right values, and non-decreasing carried values |
| Itertools.MergeByPermutation | circuits/src/generation/memory.rs:93-106 | merge_by keeps every element of both inputs |
| Itertools.MergeBySorted | circuits/src/generation/memory.rs:93-106 | merge_by of two key-sorted inputs with a predicate that agrees with the keys is key-sorted |
| MemoryGen.ImageRows | circuits/src/generation/memory.rs:62-81 | one init row per image entry, with its address and byte, executed, init, clock 0, op 0 and the given writability |
| MemoryGen.InitRowsProps | circuits/src/generation/memory.rs:62-81 | init rows are address-sorted, one per read-only entry (is_writable 0) and per read-write entry (is_writable 1), each an init row |
| MemoryGen.InitRowsStable | circuits/src/generation/memory.rs:62-81 | at one address the read-only rows come before the read-write rows, each in image order |
| MemoryGen.AccessRow | circuits/src/generation/memory.rs:37-51 | the access row of a memory step: executed, not init, writable iff its address is in rw memory, with the step's clock, op and value |
| MemoryGen.MemorySteps | circuits/src/generation/memory.rs:34-36 | the filter keeps exactly the steps with a memory address |
| MemoryGen.AccessRowsOfMemorySteps | circuits/src/generation/memory.rs:30-54 | the access rows are the access row of each memory step, in execution order |
| MemoryGen.ExecutionRowsProps | circuits/src/generation/memory.rs:30-54 | execution rows are address-sorted, one per memory step, each an access row |
| MemoryGen.ExecutionRowsStable | circuits/src/generation/memory.rs:53 | accesses to one address keep their execution order |
| MemoryGen.MergeInitFirst | circuits/src/generation/memory.rs:95-105 | merging sorted init rows with sorted access rows puts, at each address, no init row after an access row |
| MemoryGen.MergedProps | circuits/src/generation/memory.rs:93-106 | the merged trace is address-sorted, holds every init and access row, and puts init rows first at each address |
| MemoryGen.FillDiffs | circuits/src/generation/memory.rs:110-119 | the in-place loop fills every row's address difference, its inverse and the clock difference |
| MemoryGen.DiffAddrTelescopes | circuits/src/generation/memory.rs:113 | the address differences telescope: their running sum is each row's address, modulo P |
| MemoryGen.DiffAddrInvMeaning | circuits/src/generation/memory.rs:114 | diff_addr times diff_addr_inv is 1 exactly when the address changed, else 0 |
| MemoryGen.SortedDiffs | circuits/src/generation/memory.rs:112-119 | on a sorted trace diff_addr is the plain address difference, and diff_clk the clock difference when the address repeats |
| MemoryGen.PaddingRow | circuits/src/generation/memory.rs:12-21 | the padding row is the last row (or the default) with is_executed, is_init and the three difference columns zeroed |
| MemoryGen.PadMemTrace | circuits/src/generation/memory.rs:11-23 | padding keeps the rows, extends with padding rows to the next power of two, and leaves a power-of-two trace alone |
| MemoryGen.GenerateMemoryTrace | circuits/src/generation/memory.rs:89-124 | generate_memory_trace is merge, difference fill and padding |
| MemoryGen.WithDiffsKeepsAddr | circuits/src/generation/memory.rs:112-119 | the difference pass changes only the difference columns and keeps sortedness |
| MemoryGen.MemoryTraceProps | circuits/src/generation/memory.rs:89-124 | the memory trace has power-of-two length; its first rows are the address-sorted merge (init first per address) with differences; the rest are neither executed nor init |
| RangeCheckGen.PadRcTrace | circuits/src/generation/rangecheck.rs:24-30 | every column is resized with zeros to the padded height of the first column, keeping its entries |
| RangeCheckGen.PaddedHeight | circuits/src/generation/rangecheck.rs:25 | the padded height is a power of two, at least 2^16 and at least the row count |
| RangeCheckGen.LimbsFromU32 | circuits/src/generation/rangecheck.rs:33-38 | the two limbs are 16-bit and spell the value as hi * 2^16 + lo |
| RangeCheckGen.LimbsUnique | circuits/src/generation/rangecheck.rs:33-38 | the limbs are the only 16-bit decomposition of the value |
| RangeCheckGen.RangeCheckRow | circuits/src/generation/rangecheck.rs:97-103 | a pushed row carries the value, its limbs and cpu_filter 1, and zeros elsewhere |
| RangeCheckGen.PushRangecheckRow | circuits/src/generation/rangecheck.rs:40-47 | entry i of the row is appended to column i and other columns are unchanged |
| RangeCheckGen.SelectedFrom | circuits/src/generation/rangecheck.rs:53-63 | the windows whose filter is one, in increasing row order, and no others |
| RangeCheckGen.Extract | circuits/src/generation/rangecheck.rs:50-68 | extract refuses (panics on) a lookup of more than one column |
| RangeCheckGen.ExtractMeaning | circuits/src/generation/rangecheck.rs:50-68 | extract returns the column value of every window whose filter is one, and only such values |
| RangeCheckGen.CollectValues | circuits/src/generation/rangecheck.rs:86-106 | collection succeeds exactly when every looking table is accepted, and every collected value fits in 32 bits |
| RangeCheckGen.CollectErrPersists | circuits/src/generation/rangecheck.rs:86-106 | once a table fails, the whole generation fails the same way |
| RangeCheckGen.GenerateRangecheckTrace | circuits/src/generation/rangecheck.rs:80-141 | generation fails exactly as collection fails, and otherwise builds the padded table with fixed and permuted columns |
| RangeCheckGen.ExtractTable | circuits/src/generation/rangecheck.rs:87-91 | CPU tables are extracted from the CPU trace, memory tables from the memory trace, other kinds refused |
| RangeCheckGen.PushValues | circuits/src/generation/rangecheck.rs:93-105 | one row per value is pushed, and a value beyond 32 bits stops generation |
| RangeCheckGen.FixedColumn | circuits/src/generation/rangecheck.rs:114-118 | the fixed column is 0..65535 followed by 65535 up to the height |
| RangeCheckGen.PermuteLimb | circuits/src/generation/rangecheck.rs:122-134 | one limb column and the fixed column are replaced by permute_cols of them; other columns are unchanged |
| RangeCheckGen.LimbsInRange | circuits/src/generation/rangecheck.rs:93-109 | every limb, real or padding, is in 0..65535 |
| RangeCheckGen.InFixedColumn | circuits/src/generation/rangecheck.rs:111-118 | every limb value occurs in the fixed column |
| RangeCheckGen.RangeCheckLookups | circuits/src/generation/rangecheck.rs:120-134 | the permuted limb and fixed columns are permutations of their sources and satisfy the lookup condition |
| BitwiseGen.FilterBitwiseTrace | circuits/src/generation/bitwise.rs:11-21 | the filter keeps only AND, OR and XOR steps |
| BitwiseGen.FilterCounts | circuits/src/generation/bitwise.rs:11-21 | each AND, OR or XOR step is kept as often as it occurs, and every other step dropped |
| BitwiseGen.WrappingAdd | circuits/src/generation/bitwise.rs:34 | the u32 wrapping sum is the sum or the sum minus 2^32 |
| BitwiseGen.StepOperands | circuits/src/generation/bitwise.rs:31-38 | as written the row takes op1 = rs1, op2 = rs2 + imm wrapped, and res = the step's destination value |
| BitwiseGen.XorOperands | circuits/src/generation/bitwise.rs:31-38 | the corrected row takes res = op1 xor op2 |
| BitwiseGen.TraceLen | circuits/src/generation/bitwise.rs:28 | the trace length is a power of two, at least 2^16 and at least the row count |
| BitwiseGen.GenerateBitwiseTrace | circuits/src/generation/bitwise.rs:25-127 | generate_bitwise_trace builds the table of the filtered steps as written |
| BitwiseGen.GenerateXorTrace | circuits/src/generation/bitwise.rs:25-127 | the corrected generator builds the table with res the xor of the operands |
| BitwiseGen.BuildBitwiseTrace | circuits/src/generation/bitwise.rs:28-116 | rows, fixed tables, compress columns and permuted pairs are all filled as the table predicate describes |
| BitwiseGen.FillRows | circuits/src/generation/bitwise.rs:30-48 | each step row writes op1, op2, res and their little-endian byte limbs, leaving other columns alone |
| BitwiseGen.FillFixed | circuits/src/generation/bitwise.rs:50-59 | the fixed columns hold 0..255 and every byte pair with its xor |
| BitwiseGen.FillCompress | circuits/src/generation/bitwise.rs:68-81 | every compress column packs its op1, op2 and res limbs in base 256, and the fixed compress column packs the fixed triple |
| BitwiseGen.FillPermuted | circuits/src/generation/bitwise.rs:83-116 | each of the sixteen permuted pairs is permute_cols of its limb column against its table column |
| BitwiseGen.CompressTableEntries | circuits/src/generation/bitwise.rs:55-80 | every fixed compress value is a byte pair packed with its xor |
| BitwiseGen.CompressInjective | circuits/src/generation/bitwise.rs:75-80 | compressing bytes is injective |
| BitwiseGen.CorrectedLookups | circuits/src/generation/bitwise.rs:83-116 | with res the xor, every permuted pair is a permutation of its sources satisfying the lookup condition |
| BitwiseGen.GenerateXorTraceLookups | circuits/src/generation/bitwise.rs:83-116 | the corrected table satisfies all sixteen lookups |
| BitwiseGen.MissingValueBreaksLookup | circuits/src/lookup.rs:20-46 | an input value missing from the table makes the lookup condition fail for any permuted columns |
| BitwiseGen.AndRowBreaksCompressLookup | circuits/src/generation/bitwise.rs:38 | as written, an AND of 1 and 1 puts a compress value outside the fixed table, so no arrangement satisfies the compress lookup |
| BitwiseStark.LimbConstraintsMeaning | circuits/src/bitwise/stark.rs:37-47 | with byte limbs, OP1, OP2 and RES equal their limbs read in base 256 |
| BitwiseStark.CompressConstraintsMeaning | circuits/src/bitwise/stark.rs:49-57 | with byte limbs, each compress limb packs its op1, op2 and res limbs |
| BitwiseStark.LookupsMeaning | circuits/src/bitwise/stark.rs:59-82 | the lookup constraints of a row pair hold exactly when each of the sixteen pairs steps as eval_lookups demands |
| BitwiseStark.EvalPackedSplit | circuits/src/bitwise/stark.rs:28-83 | the constraints are the limb, compress and lookup groups together |
| BitwiseStark.PermutationPairsCover | circuits/src/bitwise/stark.rs:87-95 | the permutation pairs tie both columns of each compress lookup and no u8 limb column |
| BitwiseStark.RowSound | circuits/src/bitwise/stark.rs:28-57 | a row with byte limbs, holding constraints and compress limbs in the xor table carries RES = OP1 xor OP2 |
| BitwiseStark.TraceLookups | circuits/src/bitwise/stark.rs:59-82 | a satisfying trace gives the lookup condition on every pair of columns |
| BitwiseStark.CompressLookedUp | circuits/src/bitwise/stark.rs:76-95 | in a satisfying trace every compress limb is a row of the fixed xor table |
| BitwiseStark.TraceSound | circuits/src/bitwise/stark.rs:28-95 | a satisfying trace with generated fixed columns, holding permutation pairs and byte limbs has RES = OP1 xor OP2 on every row |
| BitwiseStark.CorrectedTraceSatisfies | circuits/src/bitwise/stark.rs:28-83 | the table of the corrected generator satisfies every constraint on every row pair |
| BitwiseStark.GeneratedSatisfies | circuits/src/bitwise/stark.rs:28-83 | a generated table whose sixteen lookups hold satisfies the STARK |
| BitwiseStark.GeneratedLimbs | circuits/src/generation/bitwise.rs:36-47 | on a generated row each value is its limbs in base 256 |
| BitwiseStark.AsWrittenAndTraceFails | circuits/src/bitwise/stark.rs:28-83 | as written, the table for one AND step 1 & 1 = 1 fails the constraints however it is arranged |
| XorStark.BinaryConstraintsMeaning | circuits/src/xor/stark.rs:43-46 | the binary constraints hold exactly when every limb of a, b and out is a bit |
| XorStark.ReduceMeaning | circuits/src/xor/stark.rs:48-51 | a reduce constraint over 32 bits holds exactly when the value is the number they spell |
| XorStark.XorBitMeaning | circuits/src/xor/stark.rs:53-61 | on bits, a + b - 2ab - out vanishes exactly when out is the xor bit |
| XorStark.ConstraintsMeaning | circuits/src/xor/stark.rs:34-64 | the XOR constraints hold on a row exactly when it is well formed |
| XorStark.RowSound | circuits/src/xor/stark.rs:34-64 | a satisfying row has u32 operands and out = a xor b |
| XorStark.RowOfSatisfies | circuits/src/xor/stark.rs:34-64 | the row built from any two u32 operands satisfies the constraints and carries their xor |
| XorStark.ConstraintsExact | circuits/src/xor/stark.rs:34-64 | exactly the rows built from two u32 operands satisfy the constraints |
| CpuColumns.BitsSumOne | circuits/src/cpu/stark.rs:67-80 | bits summing to one form a one-hot vector, and conversely |
| CpuColumns.ShiftOpsUseXor | circuits/src/cpu/columns.rs:113-119 | every shifting opcode is among those that use the XOR table |
| CpuColumns.FiltersOfSelected | circuits/src/cpu/columns.rs:94-134 | under one-hot selectors the range check sees ADD rows, the bitwise table XOR, OR, AND, SRL and SLL rows, the shift table SLL and SRL rows |
| CpuColumns.ShiftFilterImpliesBitwise | circuits/src/cpu/columns.rs:109-134 | a row the shift-amount table sees is also seen by the bitwise table |
| CpuStark.OneHotMeaning | circuits/src/cpu/stark.rs:67-80 | one_hot holds exactly on one-hot selector vectors |
| CpuStark.OneHotsMeaning | circuits/src/cpu/stark.rs:60-65 | the opcode and three register selector groups are each one-hot |
| CpuStark.OneHotsDecode | circuits/src/cpu/stark.rs:60-80 | the selectors satisfy one_hots exactly when they decode to an opcode and three registers |
| CpuStark.ClockTicksMeaning | circuits/src/cpu/stark.rs:83-91 | on every row but the last the next clock is clk + 1 - halt |
| CpuStark.StraightlineOfSelected | circuits/src/cpu/stark.rs:28-42 | under one-hot selectors is_straightline is 1 except for the jumping opcodes |
| CpuStark.PcTicksUpMeaning | circuits/src/cpu/stark.rs:45-54 | a straight-line opcode moves the pc to pc + 4 on every row but the last |
| CpuStark.R0Meaning | circuits/src/cpu/stark.rs:94-96 | register 0 reads 0 |
| CpuStark.OnlyRdChangesMeaning | circuits/src/cpu/stark.rs:118-130 | a register not selected as rd keeps its value on the next row |
| CpuStark.RdActuallyChangesMeaning | circuits/src/cpu/stark.rs:132-143 | a selected rd other than register 0 takes dst on the next row |
| CpuStark.RegisterWriteMeaning | circuits/src/cpu/stark.rs:118-143 | the register constraints hold exactly when the next register file is this one with dst written to rd (writes to register 0 dropped) |
| CpuStark.WriteReg | circuits/src/cpu/stark.rs:118-143 | the register file after a write changes only rd, and never register 0 |
| CpuStark.PopulateOp1Meaning | circuits/src/cpu/stark.rs:145-159 | op1 is the register rs1 selects |
| CpuStark.PopulateOp2Meaning | circuits/src/cpu/stark.rs:161-173 | op2 is the register rs2 selects plus the immediate, in the field |
| CpuStark.HaltMeaning | circuits/src/cpu/stark.rs:221 | the last row is HALT |
| CpuStark.FilterConstraintsMeaning | circuits/src/cpu/stark.rs:108-109 | the program filter is a bit and 1 on the first row |
| CpuStark.RepeatConstraintsMeaning | circuits/src/cpu/stark.rs:110-113 | a row followed by filter 0 repeats its instruction columns |
| CpuStark.CheckPermutedMeaning | circuits/src/cpu/stark.rs:103-114 | the permuted program constraints hold exactly under the filter and repeat conditions |
| CpuStark.CoreConstraintsMeaning | circuits/src/cpu/stark.rs:180-205 | one CPU step for a decoded instruction: clock, pc, register 0, op1, op2 and the register write together |
| CpuStark.EvalPackedGenericParts | circuits/src/cpu/stark.rs:180-221 | eval_packed_generic holds exactly when each of its modelled groups holds: permuted columns, clock, pc, one-hots, registers, op1/op2, SUB, AND/OR/XOR and the last-row HALT (ADD, ECALL, MUL, DIV and signed comparison left out, branches and JALR stated separately) |
| CpuStark.RowBoundaries | circuits/src/cpu/stark.rs:180-221 | a row pair fixes filter 1 on the first row, halt on the last, and register 0 |
| CpuStark.TraceBoundaries | circuits/src/cpu/stark.rs:180-221 | on a satisfying trace the filter starts at 1, the last row halts, and register 0 reads 0 on every row |
| CpuSub.WrappingSub | circuits/src/cpu/sub.rs:7-15 | u32 wrapping subtraction stays below 2^32 |
| CpuSub.ConstraintsMeaning | circuits/src/cpu/sub.rs:7-15 | in the field, SUB leaves dst the two candidates op1 - op2 and op1 - op2 + 2^32 |
| CpuSub.U32Meaning | circuits/src/cpu/sub.rs:7-15 | for u32 values a SUB row satisfies the constraint exactly when dst is the wrapping difference |
| CpuSub.DifferenceSatisfies | circuits/src/cpu/sub.rs:44 | the exact field difference always satisfies the constraint |
| CpuBitwise.Half | circuits/src/cpu/bitwise.rs:34-60 | halving in the field: twice the result is the input |
| CpuBitwise.AndGadget | circuits/src/cpu/bitwise.rs:34-46 | the AND output is (a + b - xor) / 2 over the XOR view's inputs |
| CpuBitwise.OrGadget | circuits/src/cpu/bitwise.rs:48-60 | the OR output is (a + b + xor) / 2 over the XOR view's inputs |
| CpuBitwise.XorGadget | circuits/src/cpu/bitwise.rs:62-71 | the XOR output is the XOR view's result |
| CpuBitwise.ConstraintsMeaning | circuits/src/cpu/bitwise.rs:75-92 | the constraints hold exactly when each selected gadget maps op1 and op2 to dst |
| CpuBitwise.AndGadgetIsAnd | circuits/src/cpu/bitwise.rs:34-46 | with a correct u32 xor, the AND gadget yields a & b |
| CpuBitwise.OrGadgetIsOr | circuits/src/cpu/bitwise.rs:48-60 | with a correct u32 xor, the OR gadget yields a &#124; b |
| CpuBitwise.ConstraintsSound | circuits/src/cpu/bitwise.rs:75-92 | each selected operation writes op1 & op2, op1 &#124; op2 or op1 ^ op2 to dst |
| CpuBitwise.ConstraintsComplete | circuits/src/cpu/bitwise.rs:75-92 | a correct AND, OR or XOR row on u32 operands satisfies the constraints |
| CpuBranches.ComparisonConstraintsMeaning | circuits/src/cpu/branches.rs:19-47 | the comparison constraints hold exactly as the column conditions say |
| CpuBranches.NormalisedDiffIsIndicator | circuits/src/cpu/branches.rs:19-47 | normalised_diff is the indicator of a non-zero difference |
| CpuBranches.ComparisonSound | circuits/src/cpu/branches.rs:19-47 | less_than is 1 exactly when a < b, normalised_diff is 1 exactly when a != b |
| CpuBranches.ComparisonRow | circuits/src/cpu/branches.rs:19-47 | the generated comparison row has the field difference and a u32 absolute difference |
| CpuBranches.ComparisonComplete | circuits/src/cpu/branches.rs:19-47 | the generated comparison columns satisfy the constraints |
| CpuBranches.BranchConstraintsMeaning | circuits/src/cpu/branches.rs:50-82 | with one branch opcode selected, the constraints hold exactly when the next pc is the taken target or pc + 4 |
| CpuBranches.NoBranchNoConstraint | circuits/src/cpu/branches.rs:50-82 | with no branch opcode the branch constraints impose nothing |
| CpuBranches.BranchSound | circuits/src/cpu/branches.rs:19-82 | the next pc is the target exactly when the RISC-V comparison says the branch is taken, else pc + 4 |
| CpuBranches.BranchComplete | circuits/src/cpu/branches.rs:19-82 | the generated row with the RISC-V next pc satisfies both gadgets |
| CpuJalr.ConstraintsMeaning | circuits/src/cpu/jalr.rs:7-30 | with JALR selected dst is pc + 4 up to 2^32, and the next pc is imm + op1 up to 2^32 |
| CpuJalr.U32Meaning | circuits/src/cpu/jalr.rs:7-30 | on u32 values the constraints are the RISC-V wrapping arithmetic for dst and the next pc |
| CpuJalr.JumpsToEight | circuits/src/cpu/jalr.rs:150-180 | with imm = 8 - rs1, JALR from pc 0 lands on 8 and writes 4, whatever rs1 holds |
| CpuFlat.CpuStarkState.constructor | circuits/src/cpu/cpu_stark.rs:15-18 | a new CPU STARK has no compress challenge |
| CpuFlat.CpuStarkState.SetCompressChallenge | circuits/src/cpu/cpu_stark.rs:21-25 | the challenge is set, once, and Ok is returned |
| CpuFlat.CpuStarkState.GetCompressChallenge | circuits/src/cpu/cpu_stark.rs:26-28 | returns the stored challenge, None when unset |
| CpuFlat.OpcodeOneHotMeaning | circuits/src/cpu/cpu_stark.rs:36-50 | exactly one of the ADD and HALT selectors is set |
| CpuFlat.OnlyRdChangesMeaning | circuits/src/cpu/cpu_stark.rs:65-80 | every register is kept unless rd indexes it |
| CpuFlat.AddMeaning | circuits/src/cpu/add.rs:11-16 | as written, a selected ADD forces dst = op1 + op2 and next pc = pc - 4 |
| CpuFlat.AsWrittenAddRejectsStep | circuits/src/cpu/add.rs:16 | the as-written ADD gadget rejects the step from pc 0 to pc 4 |
| CpuFlat.AddCorrectedMeaning | circuits/src/cpu/add.rs:11-16 | with the sign corrected, a selected ADD forces dst = op1 + op2 and next pc = pc + 4 |
| CpuFlat.CorrectedAddAcceptsStep | circuits/src/cpu/add.rs:16 | the corrected ADD gadget accepts the step from pc 0 to pc 4 |
| CpuFlat.AddDoesNotWrap | circuits/src/cpu/add.rs:11-16 | the ADD gadget does not wrap: dst is the plain sum, below 2^32 |
| CpuFlat.ClockStep | circuits/src/cpu/cpu_stark.rs:53-62 | the clock constraint holds exactly when the next clock is one more (every row as written, all but the last corrected) |
| CpuFlat.ClockCorrectedMeaning | circuits/src/cpu/cpu_stark.rs:53-62 | the corrected clock constraint holds on a trace exactly when the clock counts up by one from the first row |
| CpuFlat.AsWrittenClockUnsatisfiable | circuits/src/cpu/cpu_stark.rs:61 | as written no trace of 1 to P - 1 rows satisfies the table, since the clock would also step from the last row to the first |
| CpuFlat.WrapAroundBreaks | circuits/src/cpu/cpu_stark.rs:61 | a clock counting up over fewer than P rows cannot step from the last row back to the first |
| CpuFlat.EvalCorrectedParts | circuits/src/cpu/cpu_stark.rs:87-112 | the corrected table holds exactly when each of its groups holds |
| CpuFlat.CorrectedAddStep | circuits/src/cpu/cpu_stark.rs:87-112 | an ADD row of the corrected table steps clock and pc, writes op1 + op2, and changes only rd |
| StarkDegree.QuotientDegreeFactor | circuits/src/stark/stark.rs:23-25 | the factor is max(1, degree - 1), and none for degree 0 |
| StarkDegree.NumQuotientPoly | circuits/src/stark/stark.rs:26-28 | the number of quotient polynomials is the factor times the challenges |
| StarkDegree.QuotientDegreeFactorIsLeast | circuits/src/stark/stark.rs:23-25 | the factor is the least k >= 1 with degree - 1 <= k |
| StarkDegree.TableFactors | circuits/src/stark/stark.rs:23-28 | the degree-3 tables need factor 2, the degree-2 flat CPU table factor 1 |
| StarkUtils.TraceToPolyValues | circuits/src/stark/utils.rs:6-10 | one polynomial per column |
| StarkUtils.TraceToPolyValuesKeepsColumns | circuits/src/stark/utils.rs:6-10 | the polynomial values are the trace's columns, unchanged |
| StarkUtils.TraceRowsToPolyValuesMeaning | circuits/src/stark/utils.rs:16-28 | one polynomial per row entry; value r of polynomial c is entry c of row r |
| StarkUtils.TransposeRoundTrip | circuits/src/stark/utils.rs:16-28 | transposing the polynomials back gives the rows |
| ProgramGen.GenerateProgramRomTrace | circuits/src/program/generation.rs:10-24 | the ROM rows are the decodable entries' rows sorted by pc |
| ProgramGen.RomRowsProps | circuits/src/program/generation.rs:14-21 | one row per decodable entry, each with filter 1 and an image pc |
| ProgramGen.RomRowsOfEntries | circuits/src/program/generation.rs:14-21 | every decodable entry's row is in the ROM |
| ProgramGen.ProgramRomTraceProps | circuits/src/program/generation.rs:10-24 | the ROM is pc-sorted, a permutation of the decodable rows, one per decodable entry, all with filter 1 |
| ProgramGen.RomRowsOnce | circuits/src/program/generation.rs:11-21 | with distinct pcs no row occurs twice |
| ProgramGen.SamePcSameRow | circuits/src/program/generation.rs:11-21 | two ROM rows with the same pc are the same row |
| ProgramGen.PcsStrictlyIncrease | circuits/src/program/generation.rs:24 | the ROM's pcs strictly increase |
| BitshiftGen.AllAmounts | circuits/src/generation/bitshift.rs:29 | the fixed amounts are 0..31 |
| BitshiftGen.FilterShiftTraceAppend | circuits/src/generation/bitshift.rs:7-14 | the filter distributes over concatenation |
| BitshiftGen.FilterShiftTraceSingle | circuits/src/generation/bitshift.rs:7-14 | a shifting row contributes its amount, any other row nothing |
| BitshiftGen.ShiftRowsAreShifts | circuits/src/generation/bitshift.rs:10 | under one-hot selectors the shifting rows are exactly SLL and SRL rows |
| BitshiftGen.Padded | circuits/src/generation/bitshift.rs:16-19 | the padded trace has power-of-two length, the next from the input |
| BitshiftGen.PadTrace | circuits/src/generation/bitshift.rs:16-19 | pad_trace resizes in place to the padded trace |
| BitshiftGen.PaddedProps | circuits/src/generation/bitshift.rs:16-19 | padding keeps the prefix, fills with the default, and leaves a power of two alone |
| BitshiftGen.MapRows | circuits/src/generation/bitshift.rs:30-37 | one row per merged item |
| BitshiftGen.GenerateShiftAmountTrace | circuits/src/generation/bitshift.rs:23-44 | generate_shift_amount_trace is filter, sort, merge-join with 0..32, map and pad |
| BitshiftGen.ShiftAmountTraceShape | circuits/src/generation/bitshift.rs:23-44 | the executed column is non-decreasing, covers 0..31, and the padded trace has power-of-two length at least 32 with (0, 31) padding |
| BitshiftGen.CorrectedExecutedAreLeft | circuits/src/generation/bitshift.rs:32-33 | with the correction the executed rows carry the CPU's amounts in order |
| BitshiftGen.AsWrittenExecutedNone | circuits/src/generation/bitshift.rs:32 | as written only Left items are marked executed |
| BitshiftGen.CoveredHasNoLeft | circuits/src/generation/bitshift.rs:29 | when the left values are distinct and all among the right ones, merge_join_by yields no Left item |
| BitshiftGen.AsWrittenMarksNothing | circuits/src/generation/bitshift.rs:28-42 | as written, distinct shift amounts below 32 give a table with no row marked executed |
| BitshiftGen.CorrectedMarksExecuted | circuits/src/generation/bitshift.rs:28-42 | with the correction the executed rows list exactly the CPU's sorted shift amounts |
| BitshiftGen.SllRow | circuits/src/cpu/columns.rs:132-134 | a CPU row executing SLL is a shifting row with its amount |
| BitshiftGen.SingleShiftExample | circuits/src/generation/bitshift.rs:32 | one SLL by 3: looked up once, marked by no row as written, by one corrected |
| MemoryIoColumns.ExecutedIsOneLookup | circuits/src/memory_io/columns.rs:41-99 | with one-hot-or-zero flags is_executed is a bit, the sum of the two lookup filters, never both |
| MemoryIoColumns.MemoryProjection | circuits/src/memory_io/columns.rs:85-99 | the memory lookup never loads, stores exactly when its filter is set, and carries clock, address and byte |
| MemoryIoColumns.CpuProjection | circuits/src/memory_io/columns.rs:68-80 | the CPU lookup marks an I/O store and carries clock, address and size |
| MemoryIoColumns.DefaultRowInert | circuits/src/memory_io/columns.rs:41-99 | the default row takes part in no lookup |
| IoMemoryGen.FilterAppend | circuits/src/generation/io_memory.rs:24-32 | the filter distributes over concatenation |
| IoMemoryGen.FilterSingle | circuits/src/generation/io_memory.rs:24-32 | a step is kept exactly when it is an ECALL on the requested tape |
| IoMemoryGen.FilterSelected | circuits/src/generation/io_memory.rs:24-32 | every kept step is an ECALL on the requested tape |
| IoMemoryGen.EventRows | circuits/src/generation/io_memory.rs:42-80 | an event yields one header row and one row per byte |
| IoMemoryGen.PaddedLength | circuits/src/generation/io_memory.rs:13-21 | the padded length is a power of two, at least the rows and the minimum |
| IoMemoryGen.PadIoMemTrace | circuits/src/generation/io_memory.rs:13-21 | padding resizes in place with default rows |
| IoMemoryGen.GenerateIoMemoryTrace | circuits/src/generation/io_memory.rs:35-83 | the loop builds the rows of the selected events and pads them |
| IoMemoryGen.GenerateIoMemoryPrivateTrace | circuits/src/generation/io_memory.rs:86-90 | the private trace is the trace of the private tape |
| IoMemoryGen.GenerateIoMemoryPublicTrace | circuits/src/generation/io_memory.rs:93-97 | the public trace is the trace of the public tape |
| IoMemoryGen.RowsAppend | circuits/src/generation/io_memory.rs:42-80 | the rows of events laid end to end |
| IoMemoryGen.RowsLength | circuits/src/generation/io_memory.rs:42-80 | each event yields exactly 1 + len rows |
| IoMemoryGen.EventLayout | circuits/src/generation/io_memory.rs:46-78 | header announces the size and is an I/O store iff the tape stores; byte i sits at addr + i mod 2^32, announces the bytes left and carries the byte; the helper marks all byte rows but the last |
| IoMemoryGen.EventBytesRoundTrip | circuits/src/generation/io_memory.rs:61-78 | the byte rows give back the event's data |
| IoMemoryGen.RowsOneHot | circuits/src/generation/io_memory.rs:46-78 | every generated row has one-hot-or-zero flags |
| IoMemoryGen.IoMemoryTraceProps | circuits/src/generation/io_memory.rs:35-83 | the trace has the padded length, begins with the selected events' rows, ends in default rows, and every row is in at most one lookup |
| IoMemoryGen.ShortTraceHasMinimumLength | circuits/src/generation/io_memory.rs:13-21 | events fitting in a power-of-two minimum give exactly the minimum length |
| IoMemoryGen.TapesAreSeparate | circuits/src/generation/io_memory.rs:86-97 | the private trace holds only private events and the public trace only public ones |
| IoMemoryGen.TwoByteWriteWraps | circuits/src/generation/io_memory.rs:62 | a two-byte write at 2^32 - 1 yields three rows whose second byte wraps to address 0 |
| Poseidon2SpongeColumns.ExecutedRows | circuits/src/poseidon2_sponge/columns.rs:42-131 | with one-hot-or-zero flags, is_executed is a bit, CPU-looked rows are executed, and executed rows feed the permutation and memory lookups |
| Poseidon2SpongeColumns.InputMemoryReads | circuits/src/poseidon2_sponge/columns.rs:98-125 | the eight loads read the first eight preimage limbs from consecutive addresses at the row's clock and never store |
| Poseidon2SpongeColumns.InputAddressesDistinct | circuits/src/poseidon2_sponge/columns.rs:115-125 | the eight load addresses are pairwise distinct in the field |
| Poseidon2SpongeColumns.OutputBytesFields | circuits/src/poseidon2_sponge/columns.rs:85-95 | the output-bytes lookup carries exactly the first four output elements, filtered by gen_output |
| NativeHelpers.IdentityStack.constructor | sdk/src/native/helpers.rs:13-14 | the default stack is empty |
| NativeHelpers.IdentityStack.AddIdentity | sdk/src/native/helpers.rs:17 | the identifier is pushed on top |
| NativeHelpers.IdentityStack.TopIdentity | sdk/src/native/helpers.rs:19 | the top identifier, or the default when empty |
| NativeHelpers.IdentityStack.RmIdentity | sdk/src/native/helpers.rs:21 | the top is removed, saturating on the empty stack |
| NativeHelpers.Saturating | sdk/src/native/helpers.rs:21 | saturating decrement: 0 stays 0, otherwise one less |
| NativeHelpers.Pop | sdk/src/native/helpers.rs:21 | removing from an empty stack gives empty; otherwise the stack minus its top |
| NativeHelpers.PushThenPop | sdk/src/native/helpers.rs:17-21 | a push then a removal restores the stack, and the top after a push is the pushed id |
| NativeHelpers.CallAndReturn | sdk/src/native/helpers.rs:17-21 | during a call the identity is the callee, and after return the stack and identity are restored |
| Field.NextPow2 | circuits/src/generation/memory.rs:12 | next_power_of_two: the least power of two at least n, 1 for 0 |
| Field.NextPow2OfPow2 | circuits/src/generation/memory.rs:12 | a power of two is its own next power of two |
| Field.Inv | circuits/src/generation/memory.rs:114 | try_inverse with unwrap_or_default: the default 0 for 0 |
| Field.InvIsInverse | circuits/src/generation/memory.rs:114 | for a nonzero x, the product of x and its inverse is 1 modulo P |
| Sorting.SortOfPermutation | circuits/src/lookup.rs:97-106 | the sorted column depends only on the multiset of its values |
| Lookup.LookupRowMeaning | circuits/src/lookup.rs:20-46 | the constraints at row k of a two-column trace hold exactly when the lookup condition holds there |
| Lookup.LookupConditionInTable | circuits/src/lookup.rs:20-46 | under the lookup condition every A' value occurs in S' |
| Lookup.WhileLoopExample | circuits/src/lookup.rs:85-177 | permute_cols of input [1, 3] and table [2, 4] gives the table column [4, 2] |
| Lookup.MergeJoinExample | circuits/src/lookup.rs:180-237 | permute_cols_ of input [1, 3] and table [2, 4] gives ([1, 3], [2, 4]) |
| MemoryGen.ImageRowsAreInit | circuits/src/generation/memory.rs:62-81 | every image row is an init row with the given writability |
| MemoryGen.AccessRowsAreAccess | circuits/src/generation/memory.rs:37-51 | every access row is executed and not init |
| MemoryGen.WithDiffs | circuits/src/generation/memory.rs:110-119 | the difference pass keeps the length and gives each row its difference row |
| MemoryGen.PaddedDiffsProps | circuits/src/generation/memory.rs:108-124 | filling and padding an address-sorted trace: power-of-two length, sorted difference rows first, then rows neither executed nor init |
| RangeCheckGen.Resize | circuits/src/generation/rangecheck.rs:27 | Vec::resize: the new length, the old entries kept, fill values after them |
| RangeCheckGen.CollectStep | circuits/src/generation/rangecheck.rs:86-106 | an accepted table appends its values to those collected so far; a refused one makes the whole collection fail with its error |
| RangeCheckGen.PadAndFill | circuits/src/generation/rangecheck.rs:108-134 | padding then filling the fixed and permuted columns gives the range-check table of the values |
| RangeCheckGen.FillTables | circuits/src/generation/rangecheck.rs:111-134 | on the padded trace, the fixed and permuted columns complete the range-check table |
| RangeCheckGen.FilledRows | circuits/src/generation/rangecheck.rs:24-47 | the padded rows are the real rows followed by zero rows |
| BitwiseGen.FilterAppend | circuits/src/generation/bitwise.rs:11-21 | the filter keeps execution order across a concatenation |
| BitwiseGen.AsWrittenOperands | circuits/src/generation/bitwise.rs:30-38 | one operand row per step, each as the as-written generator fills it |
| BitwiseGen.CorrectedOperands | circuits/src/generation/bitwise.rs:30-38 | one operand row per step, each with RES the xor of the operands |
| BitwiseGen.PermuteInto | circuits/src/generation/bitwise.rs:113-114 | the output pair becomes permute_cols of the input and table columns; no other column changes |
| BitwiseGen.CompressTableRow | circuits/src/generation/bitwise.rs:55-80 | every byte pair, packed with its xor, is a row of the fixed compress column |
| BitwiseGen.CorrectedCompressInTable | circuits/src/generation/bitwise.rs:68-81 | with RES the xor, every compress limb is a row of the fixed compress column |
| BitwiseGen.LimbsInRange | circuits/src/generation/bitwise.rs:39-53 | every operand and result limb is a byte of the fixed u8 column |
| BitwiseGen.EntriesBounded | circuits/src/generation/bitwise.rs:36-81 | every entry of a generated table is a u32, so a canonical field element |
| BitwiseStark.Limbs | circuits/src/bitwise/stark.rs:39-43 | the four limbs of a value, in column order |
| BitwiseStark.CompressConstraintMeaning | circuits/src/bitwise/stark.rs:54-56 | with byte limbs, compress constraint k holds exactly when compress limb k packs its triple |
| BitwiseStark.LookupsFromMeaning | circuits/src/bitwise/stark.rs:59-82 | the lookups from pair p on hold exactly when each of those pairs steps as eval_lookups demands |
| BitwiseStark.LimbXor | circuits/src/bitwise/stark.rs:49-57 | a compress limb of bytes found in the xor table has res limb = op1 limb xor op2 limb |
| BitwiseStark.RowOf | circuits/src/bitwise/stark.rs:28-35 | row i of the table reads entry i of every column |
| BitwiseStark.Rows | circuits/src/bitwise/stark.rs:28-35 | the rows the STARK sees, one per table row |
| XorStark.AllLimbs | circuits/src/xor/stark.rs:44 | all 96 bit limbs: a, then b, then out |
| XorStark.BinaryConstraints | circuits/src/xor/stark.rs:43-46 | one binary constraint per bit limb |
| XorStark.XorBitConstraints | circuits/src/xor/stark.rs:53-61 | one xor constraint per bit position |
| XorStark.LimbsOf | circuits/src/xor/stark.rs:34-64 | the bit limbs of a u32, least significant first |
| XorStark.RowOfWellFormed | circuits/src/xor/stark.rs:34-64 | the row built from two u32 operands is well formed with out = a xor b |
| XorStark.WellFormedHolds | circuits/src/xor/stark.rs:34-64 | a well-formed row satisfies every constraint |
| CpuColumns.BitsSumBounds | circuits/src/cpu/stark.rs:67-80 | bits sum to between 0 and their number, and to 0 exactly when all are 0 |
| CpuColumns.DotOneHot | circuits/src/cpu/stark.rs:145-173 | a one-hot selector at i picks out entry i of the register file |
| CpuStark.OneHot | circuits/src/cpu/stark.rs:67-80 | one binary constraint per selector plus one for their sum |
| CpuStark.BinaryPart | circuits/src/cpu/stark.rs:75 | the binary constraints hold exactly when every selector is a bit |
| CpuStark.OnlyRdChanges | circuits/src/cpu/stark.rs:118-130 | one constraint per register |
| CpuStark.RdActuallyChanges | circuits/src/cpu/stark.rs:132-143 | one constraint per register from 1 up |
| CpuStark.RepeatConstraints | circuits/src/cpu/stark.rs:110-113 | one constraint per paired instruction column |
| CpuBitwise.HalfOfDouble | circuits/src/cpu/bitwise.rs:34-60 | halving twice n, for n below P, gives n back |
| CpuBitwise.GadgetConstraintsMeaning | circuits/src/cpu/bitwise.rs:75-92 | one gadget's constraint holds exactly when its selector is 0 or its output is dst with its inputs op1 and op2 |
| CpuBranches.InvIndicator | circuits/src/cpu/branches.rs:19-47 | d times its inverse is 0 for d = 0 and 1 otherwise |
| CpuBranches.BranchTermsMeaning | circuits/src/cpu/branches.rs:50-82 | each branch constraint holds exactly when its opcode is off, its comparison goes the other way, or the next pc is its target |
| CpuFlat.OnlyRdChanges | circuits/src/cpu/cpu_stark.rs:65-80 | one constraint per register |
| CpuFlat.AddAtZero | circuits/src/cpu/add.rs:11-16 | an ADD row at pc 0 followed by a row at pc 4 |
| CpuFlat.AsWrittenClockStep | circuits/src/cpu/cpu_stark.rs:61 | any row pair satisfying the as-written table has the next clock one more, the last row included |
| CpuFlat.ClockCorrectedSteps | circuits/src/cpu/cpu_stark.rs:53-62 | the corrected clock constraint holds on a trace exactly when the clock steps by one between consecutive rows |
| CpuFlat.ClockStepsCount | circuits/src/cpu/cpu_stark.rs:53-62 | stepping by one between rows is counting up from the first row's clock |
| IoMemoryGen.PadIo | circuits/src/generation/io_memory.rs:13-21 | the padded trace has the padded length |
| IoMemoryGen.RowsSingle | circuits/src/generation/io_memory.rs:42-80 | the rows of one event are its event rows |
| NativeHelpers.PopEmpty | sdk/src/native/helpers.rs:19-21 | removing from the empty stack leaves it empty, and its top is the default |

## Left out

- Circuit builders: `eval_ext_circuit`, `build_ext` and the recursive constraint consumers. They build the same constraints over extension targets.
- The recursive proof, prover, polynomial and serialisation files. They are outside the trace and constraint core.
- Floating point, logging and the `MOZAK_STARK_DEBUG` diagnostics of `build_packed`, and the `println!` output of `permute_cols`.
- The Goldilocks field arithmetic of plonky2. Elements are integers in 0..P-1. Primality of P is a hypothesis (`Field.PrimeModulus`), not proved.
- The extension field and packed fields. Constraints are evaluated in the base field, one row pair at a time.
- Column layouts of the range-check, bitwise, XOR, CPU and Poseidon2 tables. These views are not part of this model, so the model fixes its own column order.
- Inferred constants: BASE = 256 and BITWISE_U8_SIZE = 2^16. WIDTH = 12 and NUM_HASH_OUT_ELTS = 4 are the plonky2 Poseidon2 constants.
- `MIN_TRACE_LENGTH` is a parameter of the I/O generators, since its value is not part of this model.
- `get_memory_inst_clk` and the other VM accessors are fields of the step records.
- `ProgramIdentifier` is an integer with default 0.
- The I/O tape opcodes have a stand-in `NoIo` for events on no tape.
- `pad_trace_with_default` (`program/generation.rs:26`) is not part of this model. The ROM trace is modelled up to the sort.
- `sort_by_key` and `sorted_unstable_by_key` are modelled as a stable insertion sort on values. For plain values an unstable sort gives the same result (`Sorting.SortedUnique`).
- `plonky2::util::transpose` is not part of this model. `StarkUtils.Transpose` of an empty trace gives no columns.
- Panics are modelled as preconditions or as `Result`/`Option` errors:
  - a second `set_compress_challenge` (precondition);
  - `limb_index < 8` in the Poseidon2 lookups (precondition);
  - the `u32::try_from` of an I/O byte offset (`IoMemoryGen.OffsetsFitU32`);
  - the range check's u32 cast and its tuple refusal (`RangeCheckGen.RangeCheckError`);
  - the queue assertions of `permute_cols_` (None);
  - `permute_cols` on a table shorter than the input (precondition of Lookup.PermutedColumns, Lookup.PermutedColumnsProps and Lookup.PermuteCols).
- StarkDegree.QuotientDegreeFactor: a constraint degree of 0 underflows the usize subtraction; it is reported as None rather than as a panic.
- The HALT gadget of `cpu/cpu_stark.rs` (`halt::eval_packed_generic`) is not part of this model. Neither are these gadgets that `cpu/stark.rs` calls: ADD (`add::constraints`, cpu/stark.rs:208, not the flat `cpu/add.rs` that CpuFlat models; its source is not part of this model), ECALL, MUL, DIV and signed comparison.
- EvalPackedGenericParts: the conjunction covers the permuted-column checks, the clock, pc, one-hot, register and operand groups, SUB, AND/OR/XOR and the last-row HALT. It leaves out the ADD, ECALL, MUL, DIV and signed comparison gadgets named above. The branch and JALR gadgets are modelled on their own row records (CpuBranches, CpuJalr), not inside this conjunction.
- CpuFlat.AddDoesNotWrap: ADD has no wrap-around in the flat table, as written. The model does not add one.
- CpuJalr.ConstraintsMeaning: the constraints do not clear bit 0 of the jump target, and neither does the model.
- The CPU row type is one snapshot that mixes the columns `cpu/stark.rs`, `cpu/bitwise.rs`, `cpu/sub.rs` and the column helpers read. Branch and JALR rows are separate records.
- BitwiseStark.PermutationPairsCover: the permutation pairs tie the compress lookups only, not the u8 limb lookups. The model states that gap and does not close it.
- The rest of `sdk/src/native/helpers.rs`: tape bundles, hashing and file output.
- The shift-amount table's lookup intent (each executed amount marked once) is inferred from the CPU's lookup filter, not stated in the source.

## Findings

| source | as written | input that shows it | evidently intended | confidence | as-written member | corrected member |
|---|---|---|---|---|---|---|
| circuits/src/lookup.rs:266 | the property test compares the permuted table columns of `permute_cols` and `permute_cols_` exactly | input [1, 3], table [2, 4]: the while loop gives S' = [4, 2], the merge join [2, 4] | compare them after sorting, as lines 267-269 do | not executed | Lookup.OracleExactColumnsDiffer | Lookup.OracleSortedColumnsAgree |
| circuits/src/generation/bitwise.rs:38 | RES is the step's destination value for AND and OR too, while the fixed compress table only holds xor triples | one AND step with rs1 = 1, rs2 = 1, imm = 0 and destination 1 | RES = op1 xor op2, which the CPU's AND/OR gadgets then turn into and/or | not executed | BitwiseStark.AsWrittenAndTraceFails | BitwiseStark.CorrectedTraceSatisfies |
| circuits/src/cpu/cpu_stark.rs:61 | the clock step is an every-row constraint, so it also ties the last row to the first | any trace of 1 to P - 1 rows | a transition constraint, on every row but the last | not executed | CpuFlat.AsWrittenClockUnsatisfiable | CpuFlat.ClockCorrectedMeaning |
| circuits/src/cpu/add.rs:16 | the pc term makes the next pc pc - 4 | an ADD at pc 0 followed by pc 4 | the next pc is pc + 4 | not executed | CpuFlat.AsWrittenAddRejectsStep | CpuFlat.CorrectedAddAcceptsStep |
| circuits/src/generation/bitshift.rs:32 | is_executed is `is_left`, which is false for Both items, which the first copy of every executed amount below 32 yields, so each amount's first execution goes unmarked | one SLL by 3 | is_executed set for every executed amount (every item but Right) | not executed | BitshiftGen.AsWrittenMarksNothing | BitshiftGen.CorrectedMarksExecuted |
