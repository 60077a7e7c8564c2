// Memory trace generation: one init row per byte of the program's read-only
// and read-write images, one access row per executed step that touches
// memory, merged by address with init rows first; then one pass fills the
// address and clock differences, and the trace is padded to a power of two.

module MemoryGen {
  import opened Field
  import opened Sorting
  import opened Itertools
  import opened Wrappers

  type U32 = x: int | 0 <= x < TWO_32
  type U8 = x: int | 0 <= x < 0x100

  /** One row of the memory table. */
  datatype Memory = Memory(
    isExecuted: Felt,
    isWritable: Felt,
    isInit: Felt,
    addr: Felt,
    clk: Felt,
    op: Felt,
    value: Felt,
    diffAddr: Felt,
    diffAddrInv: Felt,
    diffClk: Felt)

  /** Memory::default: every column zero. */
  const DEFAULT_ROW: Memory := Memory(0, 0, 0, 0, 0, 0, 0, 0, 0, 0)

  /**
   * The memory images of a program, as (address, byte) entries in the order
   * the hash map yields them.
   */
  datatype Program = Program(roMemory: seq<(U32, U8)>, rwMemory: seq<(U32, U8)>)

  /**
   * What the generator reads from one executed step: the memory address it
   * touches (if any), and the clock, opcode and destination value of the
   * access.
   */
  datatype StepRow = StepRow(memAddr: Option<U32>, clk: Felt, op: Felt, dstVal: U32)

  function AddrKey(m: Memory): int
  {
    m.addr
  }

  predicate ContainsAddr(entries: seq<(U32, U8)>, addr: int)
  {
    exists i :: 0 <= i < |entries| && entries[i].0 == addr
  }

  // ---------------------------------------------------------------------
  // Init rows
  // ---------------------------------------------------------------------

  /** The init rows of one memory image, in map order. */
  function ImageRows(entries: seq<(U32, U8)>, isWritable: Felt): (r: seq<Memory>)
    ensures |r| == |entries|
    ensures forall k :: 0 <= k < |r| ==>
      r[k] == Memory(1, isWritable, 1, entries[k].0, 0, 0, entries[k].1, 0, 0, 0)
  {
    seq(|entries|, k requires 0 <= k < |entries| =>
      Memory(1, isWritable, 1, entries[k].0, 0, 0, entries[k].1, 0, 0, 0))
  }

  /** generate_memory_init_trace_from_program: read-only then read-write rows, stably sorted by address. */
  function InitRows(program: Program): seq<Memory>
  {
    SortBy(ImageRows(program.roMemory, 0) + ImageRows(program.rwMemory, 1), AddrKey)
  }

  predicate IsInitRow(m: Memory)
  {
    m.isExecuted == 1 && m.isInit == 1 && m.clk == 0 && m.op == 0 &&
    m.diffAddr == 0 && m.diffAddrInv == 0 && m.diffClk == 0
  }

  lemma ImageRowsAreInit(entries: seq<(U32, U8)>, isWritable: Felt)
    ensures forall m :: m in ImageRows(entries, isWritable) ==> IsInitRow(m) && m.isWritable == isWritable
  {
  }

  /**
   * Init rows: sorted by address, one per image entry (read-only entries
   * with is_writable = 0, read-write with 1), each executed, init, at clock
   * 0 with op 0; at one address the read-only rows come first.
   */
  lemma InitRowsProps(program: Program)
    ensures var rows := InitRows(program);
      && SortedBy(rows, AddrKey)
      && multiset(rows) == multiset(ImageRows(program.roMemory, 0)) + multiset(ImageRows(program.rwMemory, 1))
      && (forall k :: 0 <= k < |rows| ==> IsInitRow(rows[k]))
  {
    var ro := ImageRows(program.roMemory, 0);
    var rw := ImageRows(program.rwMemory, 1);
    var rows := InitRows(program);
    SortByProps(ro + rw, AddrKey);
    ImageRowsAreInit(program.roMemory, 0);
    ImageRowsAreInit(program.rwMemory, 1);
    forall k | 0 <= k < |rows|
      ensures IsInitRow(rows[k])
    {
      assert rows[k] in multiset(ro + rw);
      assert rows[k] in ro + rw;
    }
  }

  /** At one address the init rows keep image order: read-only entries, then read-write. */
  lemma InitRowsStable(program: Program, v: int)
    ensures WithKey(InitRows(program), AddrKey, v) ==
      WithKey(ImageRows(program.roMemory, 0), AddrKey, v) + WithKey(ImageRows(program.rwMemory, 1), AddrKey, v)
  {
    var ro := ImageRows(program.roMemory, 0);
    var rw := ImageRows(program.rwMemory, 1);
    SortByStable(ro + rw, AddrKey, v);
    WithKeyAppend(ro, rw, AddrKey, v);
  }

  // ---------------------------------------------------------------------
  // Access rows
  // ---------------------------------------------------------------------

  /** The access row of a step that touches memory. */
  function AccessRow(program: Program, row: StepRow): (m: Memory)
    requires row.memAddr.Some?
    ensures m.isExecuted == 1 && m.isInit == 0 && m.addr == row.memAddr.value
    ensures m.isWritable == (if ContainsAddr(program.rwMemory, row.memAddr.value) then 1 else 0)
    ensures m.clk == row.clk && m.op == row.op && m.value == row.dstVal
    ensures m.diffAddr == 0 && m.diffAddrInv == 0 && m.diffClk == 0
  {
    Memory(1, if ContainsAddr(program.rwMemory, row.memAddr.value) then 1 else 0, 0,
      row.memAddr.value, row.clk, row.op, row.dstVal, 0, 0, 0)
  }

  /** The steps with a memory address, as access rows, in execution order. */
  function AccessRows(program: Program, steps: seq<StepRow>): (r: seq<Memory>)
    ensures |r| <= |steps|
  {
    if steps == [] then []
    else (if steps[0].memAddr.Some? then [AccessRow(program, steps[0])] else []) + AccessRows(program, steps[1..])
  }

  /** The steps that touch memory. */
  function MemorySteps(steps: seq<StepRow>): (r: seq<StepRow>)
    ensures forall k :: 0 <= k < |r| ==> r[k].memAddr.Some?
    ensures forall s :: s in r <==> s in steps && s.memAddr.Some?
  {
    if steps == [] then []
    else (if steps[0].memAddr.Some? then [steps[0]] else []) + MemorySteps(steps[1..])
  }

  /** AccessRows is the access row of each memory step, in order. */
  lemma {:induction false} AccessRowsOfMemorySteps(program: Program, steps: seq<StepRow>)
    ensures var ms := MemorySteps(steps);
      |AccessRows(program, steps)| == |ms| &&
      forall k :: 0 <= k < |ms| ==> AccessRows(program, steps)[k] == AccessRow(program, ms[k])
  {
    if steps != [] {
      AccessRowsOfMemorySteps(program, steps[1..]);
      var ms := MemorySteps(steps);
      var rest := MemorySteps(steps[1..]);
      var rows := AccessRows(program, steps);
      if steps[0].memAddr.Some? {
        forall k | 0 <= k < |ms|
          ensures rows[k] == AccessRow(program, ms[k])
        {
          if k > 0 {
            assert ms[k] == rest[k - 1];
            assert rows[k] == AccessRows(program, steps[1..])[k - 1];
          }
        }
      } else {
        assert ms == rest && rows == AccessRows(program, steps[1..]);
      }
    }
  }

  /** generate_memory_trace_from_execution: the access rows stably sorted by address. */
  function ExecutionRows(program: Program, steps: seq<StepRow>): seq<Memory>
  {
    SortBy(AccessRows(program, steps), AddrKey)
  }

  predicate IsAccessRow(m: Memory)
  {
    m.isExecuted == 1 && m.isInit == 0 && m.diffAddr == 0 && m.diffAddrInv == 0 && m.diffClk == 0
  }

  lemma {:induction false} AccessRowsAreAccess(program: Program, steps: seq<StepRow>)
    ensures forall m :: m in AccessRows(program, steps) ==> IsAccessRow(m)
  {
    if steps != [] {
      AccessRowsAreAccess(program, steps[1..]);
    }
  }

  /**
   * Access rows: sorted by address, one per memory step, each executed and
   * not init, and the accesses to one address keep their execution order.
   */
  lemma ExecutionRowsProps(program: Program, steps: seq<StepRow>)
    ensures var rows := ExecutionRows(program, steps);
      && SortedBy(rows, AddrKey)
      && multiset(rows) == multiset(AccessRows(program, steps))
      && |rows| == |MemorySteps(steps)|
      && (forall k :: 0 <= k < |rows| ==> IsAccessRow(rows[k]))
  {
    var acc := AccessRows(program, steps);
    var rows := ExecutionRows(program, steps);
    SortByProps(acc, AddrKey);
    AccessRowsOfMemorySteps(program, steps);
    AccessRowsAreAccess(program, steps);
    forall k | 0 <= k < |rows|
      ensures IsAccessRow(rows[k])
    {
      assert rows[k] in multiset(acc);
    }
  }

  /** The accesses to one address keep their execution order. */
  lemma ExecutionRowsStable(program: Program, steps: seq<StepRow>, v: int)
    ensures WithKey(ExecutionRows(program, steps), AddrKey, v) == WithKey(AccessRows(program, steps), AddrKey, v)
  {
    SortByStable(AccessRows(program, steps), AddrKey, v);
  }

  // ---------------------------------------------------------------------
  // Merge
  // ---------------------------------------------------------------------

  /** The merge_by predicate: at one address the left row goes first if it is an init row. */
  predicate TakeLeft(x: Memory, y: Memory)
  {
    if x.addr == y.addr then x.isInit == 1 else x.addr < y.addr
  }

  function Merged(program: Program, steps: seq<StepRow>): seq<Memory>
  {
    MergeBy(InitRows(program), ExecutionRows(program, steps), TakeLeft)
  }

  /** At any address, no init row follows a row that is not an init row. */
  predicate InitFirst(m: seq<Memory>)
  {
    forall i, j :: 0 <= i < j < |m| && m[i].addr == m[j].addr && m[j].isInit == 1 ==> m[i].isInit == 1
  }

  /**
   * A sorted run of init rows merged with a sorted run of access rows: at
   * any address, no init row follows an access row.
   */
  lemma {:induction false} MergeInitFirst(a: seq<Memory>, b: seq<Memory>)
    requires SortedBy(a, AddrKey) && SortedBy(b, AddrKey)
    requires forall k :: 0 <= k < |a| ==> a[k].isInit == 1
    requires forall k :: 0 <= k < |b| ==> b[k].isInit == 0
    ensures InitFirst(MergeBy(a, b, TakeLeft))
    decreases |a| + |b|
  {
    var m := MergeBy(a, b, TakeLeft);
    if a == [] || b == [] {
      var s := if a == [] then b else a;
      assert m == s;
    } else if TakeLeft(a[0], b[0]) {
      SortedByTail(a, AddrKey);
      MergeInitFirst(a[1..], b);
      var rest := MergeBy(a[1..], b, TakeLeft);
      assert InitFirst(rest);
      assert m == [a[0]] + rest;
      forall i, j | 0 <= i < j < |m| && m[i].addr == m[j].addr && m[j].isInit == 1
        ensures m[i].isInit == 1
      {
        if i > 0 {
          assert m[i] == rest[i - 1] && m[j] == rest[j - 1];
          assert rest[i - 1].addr == rest[j - 1].addr && rest[j - 1].isInit == 1;
          assert 0 <= i - 1 < j - 1 < |rest|;
          assert rest[i - 1].isInit == 1;
        } else {
          assert m[0] == a[0];
        }
      }
    } else {
      SortedByTail(b, AddrKey);
      MergeInitFirst(a, b[1..]);
      MergeByPermutation(a, b[1..], TakeLeft);
      var rest := MergeBy(a, b[1..], TakeLeft);
      assert m == [b[0]] + rest;
      assert b[0].addr < a[0].addr;
      forall x | x in rest
        ensures x.isInit == 1 ==> x.addr > b[0].addr
      {
        assert x in multiset(a) + multiset(b[1..]);
        if x in multiset(a) {
          var k :| 0 <= k < |a| && a[k] == x;
          assert k == 0 || a[0].addr <= a[k].addr;
        } else {
          var k :| 0 <= k < |b[1..]| && b[1..][k] == x;
          assert b[k + 1].isInit == 0;
        }
      }
      assert InitFirst(rest);
      forall i, j | 0 <= i < j < |m| && m[i].addr == m[j].addr && m[j].isInit == 1
        ensures m[i].isInit == 1
      {
        assert m[j] == rest[j - 1];
        if i > 0 {
          assert m[i] == rest[i - 1];
        }
      }
    }
  }

  /**
   * The merged trace is sorted by address, holds every init and access row,
   * and at each address the init rows come before the access rows.
   */
  lemma MergedProps(program: Program, steps: seq<StepRow>)
    ensures var m := Merged(program, steps);
      && SortedBy(m, AddrKey)
      && multiset(m) == multiset(InitRows(program)) + multiset(ExecutionRows(program, steps))
      && InitFirst(m)
  {
    InitRowsProps(program);
    ExecutionRowsProps(program, steps);
    var a := InitRows(program);
    var b := ExecutionRows(program, steps);
    MergeByPermutation(a, b, TakeLeft);
    MergeBySorted(a, b, TakeLeft, AddrKey);
    MergeInitFirst(a, b);
  }

  // ---------------------------------------------------------------------
  // The difference columns
  // ---------------------------------------------------------------------

  /** The address the pass remembers before row k (0 before the first row). */
  function PrevAddr(rows: seq<Memory>, k: nat): Felt
    requires k <= |rows|
  {
    if k == 0 then 0 else rows[k - 1].addr
  }

  function PrevClk(rows: seq<Memory>, k: nat): Felt
    requires k <= |rows|
  {
    if k == 0 then 0 else rows[k - 1].clk
  }

  /** Row k after the pass: address difference, its inverse, and the clock difference at an unchanged address. */
  function DiffRow(rows: seq<Memory>, k: nat): Memory
    requires k < |rows|
  {
    var m := rows[k];
    var d := Canon(m.addr - PrevAddr(rows, k));
    m.(diffAddr := d, diffAddrInv := Inv(d),
       diffClk := if m.addr == PrevAddr(rows, k) then Canon(m.clk - PrevClk(rows, k)) else m.diffClk)
  }

  function WithDiffs(rows: seq<Memory>): (r: seq<Memory>)
    ensures |r| == |rows| && forall k :: 0 <= k < |rows| ==> r[k] == DiffRow(rows, k)
  {
    seq(|rows|, k requires 0 <= k < |rows| => DiffRow(rows, k))
  }

  /** The for loop over the merged trace, updating each row in place. */
  method FillDiffs(trace: array<Memory>)
    modifies trace
    ensures trace[..] == WithDiffs(old(trace[..]))
  {
    ghost var rows := trace[..];
    ghost var target := WithDiffs(rows);
    var lastClk: Felt := 0;
    var lastAddr: Felt := 0;
    for k := 0 to trace.Length
      invariant lastAddr == PrevAddr(rows, k) && lastClk == PrevClk(rows, k)
      invariant trace[..k] == target[..k]
      invariant trace[k..] == rows[k..]
    {
      var mem := trace[k];
      var diffAddr := Canon(mem.addr - lastAddr);
      mem := mem.(diffAddr := diffAddr, diffAddrInv := Inv(diffAddr));
      if mem.addr == lastAddr {
        mem := mem.(diffClk := Canon(mem.clk - lastClk));
      }
      assert mem == target[k];
      assert trace[k..][1..] == rows[k + 1..];
      trace[k] := mem;
      lastClk, lastAddr := mem.clk, mem.addr;
    }
  }

  /** Sum of the first n entries of diff_addr. */
  function DiffSum(rows: seq<Memory>, n: nat): int
    requires n <= |rows|
  {
    if n == 0 then 0 else DiffSum(rows, n - 1) + rows[n - 1].diffAddr
  }

  /** One step of the running sum: adding the canonical difference moves it to the next address. */
  lemma TelescopeStep(s: int, prev: Felt, cur: Felt)
    requires s % P == prev
    ensures (s + Canon(cur - prev)) % P == cur
  {
    var d := cur - prev;
    var q := s / P;
    var e := d / P;
    assert s == q * P + prev;
    assert d == e * P + Canon(d);
    assert s + Canon(d) == cur + (q - e) * P;
    ModShift(cur, q - e);
  }

  /** The address differences telescope: their running sum is the address. */
  lemma DiffAddrTelescopes(rows: seq<Memory>, k: nat)
    requires k < |rows|
    ensures DiffSum(WithDiffs(rows), k + 1) % P == rows[k].addr
  {
    var w := WithDiffs(rows);
    forall i | 0 <= i < |w|
      ensures w[i].diffAddr == Canon(rows[i].addr - PrevAddr(rows, i))
    {
      DiffAddrAt(rows, i);
    }
    SumTelescopes(w, rows, k);
  }

  /** Any column of canonical address differences sums to the address, modulo P. */
  lemma {:induction false} SumTelescopes(w: seq<Memory>, rows: seq<Memory>, k: nat)
    requires k < |rows| == |w|
    requires forall i :: 0 <= i < |w| ==> w[i].diffAddr == Canon(rows[i].addr - PrevAddr(rows, i))
    ensures DiffSum(w, k + 1) % P == rows[k].addr
  {
    var s, d := DiffSum(w, k), w[k].diffAddr;
    var prev: int, cur: int := PrevAddr(rows, k), rows[k].addr;
    assert DiffSum(w, k + 1) == s + d;
    assert d == Canon(cur - prev);
    if k > 0 {
      SumTelescopes(w, rows, k - 1);
      assert s % P == prev;
    } else {
      assert s == 0 && prev == 0;
    }
    TelescopeStep(s, prev, cur);
  }

  /** Row k's diff_addr is the canonical difference from the remembered address. */
  lemma DiffAddrAt(rows: seq<Memory>, k: nat)
    requires k < |rows|
    ensures WithDiffs(rows)[k].diffAddr == Canon(rows[k].addr - PrevAddr(rows, k))
  {
    assert WithDiffs(rows)[k] == DiffRow(rows, k);
  }

  lemma ModShift(v: int, k: int)
    ensures (v + k * P) % P == v % P
  {
  }

  /**
   * diff_addr_inv is the inverse of a non-zero diff_addr and 0 for a zero
   * one, so their product is 1 exactly when the address changed.
   */
  lemma DiffAddrInvMeaning(rows: seq<Memory>, k: nat)
    requires PrimeModulus()
    requires k < |rows|
    ensures var m := WithDiffs(rows)[k];
      (m.diffAddr * m.diffAddrInv) % P == (if rows[k].addr == PrevAddr(rows, k) then 0 else 1)
  {
    var m := WithDiffs(rows)[k];
    var d := rows[k].addr - PrevAddr(rows, k);
    assert m.diffAddr == Canon(d);
    if d != 0 {
      assert -P < d < P;
      assert Canon(d) != 0;
      InvIsInverse(Canon(d));
    }
  }

  /**
   * On an address-sorted trace diff_addr is the plain difference of
   * consecutive addresses, and diff_clk the clock difference when the
   * address repeats.
   */
  lemma SortedDiffs(rows: seq<Memory>, k: nat)
    requires SortedBy(rows, AddrKey)
    requires k < |rows|
    ensures WithDiffs(rows)[k].diffAddr == rows[k].addr - PrevAddr(rows, k)
    ensures rows[k].addr == PrevAddr(rows, k) ==>
      Eq(WithDiffs(rows)[k].diffClk, rows[k].clk - PrevClk(rows, k))
    ensures rows[k].addr != PrevAddr(rows, k) ==> WithDiffs(rows)[k].diffClk == rows[k].diffClk
  {
    var m := WithDiffs(rows)[k];
    assert m == DiffRow(rows, k);
    var prev: int, cur: int := PrevAddr(rows, k), rows[k].addr;
    if k > 0 {
      assert AddrKey(rows[k - 1]) <= AddrKey(rows[k]);
    }
    assert 0 <= cur - prev < P;
    assert m.diffAddr == Canon(cur - prev);
    if cur == prev {
      var c: int := rows[k].clk - PrevClk(rows, k);
      assert m.diffClk == Canon(c);
    }
  }

  // ---------------------------------------------------------------------
  // Padding and the whole generator
  // ---------------------------------------------------------------------

  /** The padding row: the last row (or the default row) with the five special columns zeroed. */
  function PaddingRow(trace: seq<Memory>): (r: Memory)
    ensures r.isExecuted == 0 && r.isInit == 0 && r.diffAddr == 0 && r.diffAddrInv == 0 && r.diffClk == 0
    ensures trace != [] ==>
      (r.isWritable == trace[|trace| - 1].isWritable && r.addr == trace[|trace| - 1].addr &&
       r.clk == trace[|trace| - 1].clk && r.op == trace[|trace| - 1].op && r.value == trace[|trace| - 1].value)
    ensures trace == [] ==> r == DEFAULT_ROW
  {
    var last := if trace == [] then DEFAULT_ROW else trace[|trace| - 1];
    last.(isExecuted := 0, isInit := 0, diffAddr := 0, diffAddrInv := 0, diffClk := 0)
  }

  /**
   * pad_mem_trace: the trace keeps its rows and is extended with padding
   * rows to the next power of two; a power-of-two length is left alone.
   */
  function PadMemTrace(trace: seq<Memory>): (r: seq<Memory>)
    ensures |r| == NextPow2(|trace|) && IsPow2(|r|)
    ensures r[..|trace|] == trace
    ensures forall k :: |trace| <= k < |r| ==> r[k] == PaddingRow(trace)
    ensures IsPow2(|trace|) ==> r == trace
  {
    NextPow2OfPow2(|trace|);
    trace + seq(NextPow2(|trace|) - |trace|, _ => PaddingRow(trace))
  }

  /** generate_memory_trace: merge, fill the differences in place, pad. */
  method GenerateMemoryTrace(program: Program, steps: seq<StepRow>) returns (trace: seq<Memory>)
    ensures trace == PadMemTrace(WithDiffs(Merged(program, steps)))
  {
    var merged := MergeBy(InitRows(program), ExecutionRows(program, steps), TakeLeft);
    var a := new Memory[|merged|](k requires 0 <= k < |merged| => merged[k]);
    assert a[..] == merged;
    FillDiffs(a);
    trace := PadMemTrace(a[..]);
  }

  /** The pass changes only the difference columns. */
  lemma WithDiffsKeepsAddr(rows: seq<Memory>)
    ensures forall k :: 0 <= k < |rows| ==> WithDiffs(rows)[k].addr == rows[k].addr
    ensures forall k :: 0 <= k < |rows| ==> WithDiffs(rows)[k].isInit == rows[k].isInit
    ensures SortedBy(rows, AddrKey) ==> SortedBy(WithDiffs(rows), AddrKey)
  {
    var w := WithDiffs(rows);
    if SortedBy(rows, AddrKey) {
      forall i, j | 0 <= i < j < |w|
        ensures AddrKey(w[i]) <= AddrKey(w[j])
      {
        assert AddrKey(rows[i]) <= AddrKey(rows[j]);
      }
    }
  }

  /** Filling and padding an address-sorted trace. */
  lemma PaddedDiffsProps(m: seq<Memory>)
    requires SortedBy(m, AddrKey)
    ensures var trace := PadMemTrace(WithDiffs(m));
      && IsPow2(|trace|) && |trace| == NextPow2(|m|)
      && SortedBy(trace[..|m|], AddrKey)
      && (forall k :: 0 <= k < |m| ==> trace[k] == DiffRow(m, k))
      && (forall k :: |m| <= k < |trace| ==> trace[k].isExecuted == 0 && trace[k].isInit == 0)
  {
    var w := WithDiffs(m);
    WithDiffsKeepsAddr(m);
    var trace := PadMemTrace(w);
    assert trace[..|m|] == w;
    forall k | 0 <= k < |m|
      ensures trace[k] == DiffRow(m, k)
    {
      assert trace[k] == trace[..|m|][k];
    }
  }

  /**
   * The generated trace: a power of two long, its first rows are the
   * address-sorted merge (init rows first at each address) with
   * differences filled in, and the rest are padding rows that are neither
   * executed nor init.
   */
  lemma MemoryTraceProps(program: Program, steps: seq<StepRow>)
    ensures var m := Merged(program, steps);
      var trace := PadMemTrace(WithDiffs(m));
      && IsPow2(|trace|) && |trace| == NextPow2(|InitRows(program)| + |ExecutionRows(program, steps)|)
      && SortedBy(trace[..|m|], AddrKey)
      && InitFirst(m)
      && (forall k :: 0 <= k < |m| ==> trace[k] == DiffRow(m, k))
      && (forall k :: |m| <= k < |trace| ==> trace[k].isExecuted == 0 && trace[k].isInit == 0)
  {
    var m := Merged(program, steps);
    MergedProps(program, steps);
    MergeByPermutation(InitRows(program), ExecutionRows(program, steps), TakeLeft);
    PaddedDiffsProps(m);
  }
}
