// The I/O-memory trace: for every ECALL that moved a chunk of an I/O tape,
// a header row followed by one row per byte, padded to a power of two no
// smaller than the minimum trace length.

module IoMemoryGen {
  import opened Field
  import opened Wrappers
  import opened MemoryIoColumns

  type U32 = x: int | 0 <= x < TWO_32
  type U8 = x: int | 0 <= x < 0x100

  /**
   * IoOpcode: the two tapes the generator serves; every other value of the
   * runner's opcode is represented by NoIo.
   */
  datatype IoOpcode = NoIo | StorePrivate | StorePublic

  /** IoEntry: the tape, the bytes moved and the start address. */
  datatype IoEntry = IoEntry(op: IoOpcode, data: seq<U8>, addr: U32)

  /** IoEntry::default. */
  const DEFAULT_ENTRY: IoEntry := IoEntry(NoIo, [], 0)

  /**
   * What the generator reads from one executed step: whether its opcode is
   * ECALL, its I/O event if any, and the clock of its memory access
   * (get_memory_inst_clk).
   */
  datatype IoStep = IoStep(isEcall: bool, io: Option<IoEntry>, memClk: Felt)

  /** The filter's test: an ECALL whose I/O event uses the requested tape. */
  predicate IsIoStepOf(s: IoStep, tape: IoOpcode)
  {
    s.isEcall && s.io.Some? && s.io.value.op == tape
  }

  /** filter: the selected steps, in order. */
  function Filter(steps: seq<IoStep>, tape: IoOpcode): seq<IoStep>
  {
    if steps == [] then []
    else (if IsIoStepOf(steps[0], tape) then [steps[0]] else []) + Filter(steps[1..], tape)
  }

  /**
   * The filter keeps exactly the selected steps: it distributes over
   * concatenation and keeps a single step iff it is selected.
   */
  lemma {:induction false} FilterAppend(a: seq<IoStep>, b: seq<IoStep>, tape: IoOpcode)
    ensures Filter(a + b, tape) == Filter(a, tape) + Filter(b, tape)
  {
    if a != [] {
      assert (a + b)[1..] == a[1..] + b;
      FilterAppend(a[1..], b, tape);
    } else {
      assert a + b == b;
    }
  }

  lemma FilterSingle(s: IoStep, tape: IoOpcode)
    ensures Filter([s], tape) == if IsIoStepOf(s, tape) then [s] else []
  {
    assert [s][1..] == [];
  }

  /** Every step the filter keeps is an ECALL on the requested tape. */
  lemma {:induction false} FilterSelected(steps: seq<IoStep>, tape: IoOpcode)
    ensures forall k :: 0 <= k < |Filter(steps, tape)| ==> IsIoStepOf(Filter(steps, tape)[k], tape)
    ensures |Filter(steps, tape)| <= |steps|
  {
    if steps != [] {
      FilterSelected(steps[1..], tape);
    }
  }

  predicate IsStore(op: IoOpcode)
  {
    op == StorePrivate || op == StorePublic
  }

  function Bool(b: bool): Felt
  {
    if b then 1 else 0
  }

  /** The entry of a step, or the default entry (unwrap_or_default). */
  function EntryOf(s: IoStep): IoEntry
  {
    if s.io.Some? then s.io.value else DEFAULT_ENTRY
  }

  /** The initial io-element of an event. */
  function HeaderRow(s: IoStep): InputOutputMemory
  {
    var e := EntryOf(s);
    InputOutputMemory(s.memClk, e.addr, Canon(|e.data|), 0,
      Ops(0, Bool(IsStore(e.op))), 0)
  }

  /** The extended memory element for byte i of an event. */
  function ByteRow(s: IoStep, i: nat): InputOutputMemory
    requires i < |EntryOf(s).data|
  {
    var e := EntryOf(s);
    InputOutputMemory(s.memClk, (e.addr + i) % TWO_32, Canon(|e.data| - i - 1), e.data[i],
      Ops(Bool(IsStore(e.op)), 0), Bool(i + 1 != |e.data|))
  }

  /** All rows of one event: the header, then the bytes in order. */
  function EventRows(s: IoStep): (r: seq<InputOutputMemory>)
    ensures |r| == 1 + |EntryOf(s).data|
  {
    [HeaderRow(s)] + seq(|EntryOf(s).data|, i requires 0 <= i < |EntryOf(s).data| => ByteRow(s, i))
  }

  /** The flat_map over the selected steps. */
  function Rows(events: seq<IoStep>): seq<InputOutputMemory>
  {
    if events == [] then [] else EventRows(events[0]) + Rows(events[1..])
  }

  /** The number of rows the events produce: one per event plus one per byte. */
  function RowCount(events: seq<IoStep>): nat
  {
    if events == [] then 0 else 1 + |EntryOf(events[0]).data| + RowCount(events[1..])
  }

  /** The length pad_io_mem_trace resizes to. */
  function PaddedLength(n: nat, minLen: nat): (r: nat)
    ensures IsPow2(r) && r >= n && r >= minLen
  {
    NextPow2(Max(n, minLen))
  }

  function PadIo(trace: seq<InputOutputMemory>, minLen: nat): (r: seq<InputOutputMemory>)
    ensures |r| == PaddedLength(|trace|, minLen)
  {
    trace + seq(PaddedLength(|trace|, minLen) - |trace|, _ => DEFAULT_ROW)
  }

  /** The trace generate_io_memory_trace returns for the tape. */
  function IoMemoryTrace(steps: seq<IoStep>, tape: IoOpcode, minLen: nat): seq<InputOutputMemory>
  {
    PadIo(Rows(Filter(steps, tape)), minLen)
  }

  /** pad_io_mem_trace: resize with default rows, in place. */
  method PadIoMemTrace(trace: seq<InputOutputMemory>, minLen: nat) returns (r: seq<InputOutputMemory>)
    ensures r == PadIo(trace, minLen)
  {
    r := trace;
    var target := NextPow2(Max(|trace|, minLen));
    while |r| < target
      invariant |trace| <= |r| <= target
      invariant r == trace + seq(|r| - |trace|, _ => DEFAULT_ROW)
      decreases target - |r|
    {
      r := r + [DEFAULT_ROW];
    }
  }

  /** Byte offsets are converted with u32::try_from(i).unwrap(). */
  predicate OffsetsFitU32(steps: seq<IoStep>, tape: IoOpcode)
  {
    forall k :: 0 <= k < |steps| && IsIoStepOf(steps[k], tape) ==> |steps[k].io.value.data| <= TWO_32
  }

  /** generate_io_memory_trace, with MIN_TRACE_LENGTH as minLen. */
  method GenerateIoMemoryTrace(steps: seq<IoStep>, tape: IoOpcode, minLen: nat) returns (trace: seq<InputOutputMemory>)
    requires OffsetsFitU32(steps, tape)
    ensures trace == IoMemoryTrace(steps, tape, minLen)
  {
    var events := Filter(steps, tape);
    var rows: seq<InputOutputMemory> := [];
    var k := 0;
    while k < |events|
      invariant 0 <= k <= |events|
      invariant rows == Rows(events[..k])
    {
      assert events[..k + 1] == events[..k] + [events[k]];
      RowsAppend(events[..k], [events[k]]);
      RowsSingle(events[k]);
      rows := rows + EventRows(events[k]);
      k := k + 1;
    }
    assert events[..k] == events;
    trace := PadIoMemTrace(rows, minLen);
  }

  /** generate_io_memory_private_trace. */
  method GenerateIoMemoryPrivateTrace(steps: seq<IoStep>, minLen: nat) returns (trace: seq<InputOutputMemory>)
    requires OffsetsFitU32(steps, StorePrivate)
    ensures trace == IoMemoryTrace(steps, StorePrivate, minLen)
  {
    trace := GenerateIoMemoryTrace(steps, StorePrivate, minLen);
  }

  /** generate_io_memory_public_trace. */
  method GenerateIoMemoryPublicTrace(steps: seq<IoStep>, minLen: nat) returns (trace: seq<InputOutputMemory>)
    requires OffsetsFitU32(steps, StorePublic)
    ensures trace == IoMemoryTrace(steps, StorePublic, minLen)
  {
    trace := GenerateIoMemoryTrace(steps, StorePublic, minLen);
  }

  // ---------------------------------------------------------------------
  // Properties
  // ---------------------------------------------------------------------

  /** The rows of the events laid end to end: the flat_map is a homomorphism. */
  lemma {:induction false} RowsAppend(a: seq<IoStep>, b: seq<IoStep>)
    ensures Rows(a + b) == Rows(a) + Rows(b)
    ensures RowCount(a + b) == RowCount(a) + RowCount(b)
  {
    if a != [] {
      assert (a + b)[1..] == a[1..] + b;
      RowsAppend(a[1..], b);
    } else {
      assert a + b == b;
    }
  }

  lemma RowsSingle(s: IoStep)
    ensures Rows([s]) == EventRows(s)
  {
    assert [s][1..] == [];
  }

  /** Each event yields exactly 1 + len rows. */
  lemma {:induction false} RowsLength(events: seq<IoStep>)
    ensures |Rows(events)| == RowCount(events)
  {
    if events != [] {
      RowsLength(events[1..]);
    }
  }

  /**
   * The layout of one store or load event: the header announces the size,
   * is an I/O store iff the tape is a store tape and never a memory row;
   * byte i sits at start + i modulo 2^32, announces the bytes still to come
   * and carries the byte; the helper is set on all byte rows but the last.
   */
  lemma EventLayout(s: IoStep)
    ensures var e := EntryOf(s); var r := EventRows(s);
      && r[0].size == Canon(|e.data|) && r[0].addr == e.addr && r[0].clk == s.memClk
      && r[0].ops.isMemoryStore == 0 && r[0].isLvAndNvAreMemoryRows == 0
      && (r[0].ops.isIoStore == 1 <==> IsStore(e.op))
      && forall i :: 0 <= i < |e.data| ==>
           && r[i + 1].addr == (e.addr + i) % TWO_32
           && r[i + 1].size == Canon(|e.data| - 1 - i)
           && r[i + 1].value == e.data[i]
           && r[i + 1].clk == s.memClk
           && r[i + 1].ops.isIoStore == 0
           && (r[i + 1].ops.isMemoryStore == 1 <==> IsStore(e.op))
           && (r[i + 1].isLvAndNvAreMemoryRows == 1 <==> i + 1 < |e.data|)
  {
  }

  /** The byte values of an event's rows give back the data it moved. */
  lemma EventBytesRoundTrip(s: IoStep)
    ensures seq(|EntryOf(s).data|, i requires 0 <= i < |EntryOf(s).data| => EventRows(s)[i + 1].value) == EntryOf(s).data
  {
  }

  /** Every generated row has one-hot-or-zero flags. */
  lemma {:induction false} RowsOneHot(events: seq<IoStep>)
    ensures forall k :: 0 <= k < |Rows(events)| ==> OpsOneHotOrNone(Rows(events)[k])
  {
    if events != [] {
      RowsOneHot(events[1..]);
      var head := EventRows(events[0]);
      forall k | 0 <= k < |Rows(events)|
        ensures OpsOneHotOrNone(Rows(events)[k])
      {
        if k >= |head| {
          assert Rows(events)[k] == Rows(events[1..])[k - |head|];
        }
      }
    }
  }

  /**
   * The whole trace: its length is the next power of two at least the row
   * count and the minimum, it begins with the rows of the selected events,
   * the rest are default rows, and every row takes part in at most one
   * lookup.
   */
  lemma IoMemoryTraceProps(steps: seq<IoStep>, tape: IoOpcode, minLen: nat)
    ensures var events := Filter(steps, tape); var t := IoMemoryTrace(steps, tape, minLen);
      && |t| == NextPow2(Max(RowCount(events), minLen))
      && IsPow2(|t|) && |t| >= minLen
      && t[..RowCount(events)] == Rows(events)
      && (forall k :: RowCount(events) <= k < |t| ==> t[k] == DEFAULT_ROW)
      && (forall k :: 0 <= k < |t| ==> OpsOneHotOrNone(t[k]))
  {
    var events := Filter(steps, tape);
    var t := IoMemoryTrace(steps, tape, minLen);
    RowsLength(events);
    RowsOneHot(events);
    forall k | 0 <= k < |t|
      ensures OpsOneHotOrNone(t[k])
    {
      if k < |Rows(events)| {
        assert t[k] == Rows(events)[k];
      } else {
        DefaultRowInert();
      }
    }
  }

  /**
   * When the minimum is already a power of two and the events fit in it,
   * the trace has exactly the minimum length.
   */
  lemma ShortTraceHasMinimumLength(steps: seq<IoStep>, tape: IoOpcode, minLen: nat)
    requires IsPow2(minLen) && RowCount(Filter(steps, tape)) <= minLen
    ensures |IoMemoryTrace(steps, tape, minLen)| == minLen
  {
    RowsLength(Filter(steps, tape));
    NextPow2OfPow2(minLen);
  }

  /** The private trace only holds events of the private tape, and likewise for the public one. */
  lemma {:induction false} TapesAreSeparate(steps: seq<IoStep>)
    ensures forall k :: 0 <= k < |Filter(steps, StorePrivate)| ==> EntryOf(Filter(steps, StorePrivate)[k]).op == StorePrivate
    ensures forall k :: 0 <= k < |Filter(steps, StorePublic)| ==> EntryOf(Filter(steps, StorePublic)[k]).op == StorePublic
  {
    FilterSelected(steps, StorePrivate);
    FilterSelected(steps, StorePublic);
  }

  /**
   * A single private write of two bytes at the top of the address space:
   * three rows whose byte addresses wrap around to 0.
   */
  lemma TwoByteWriteWraps()
    ensures var s := IoStep(true, Some(IoEntry(StorePrivate, [7, 9], TWO_32 - 1)), 5);
      var rows := Rows(Filter([s], StorePrivate));
      && |rows| == 3
      && rows[0].size == 2 && rows[0].ops.isIoStore == 1
      && rows[1].addr == TWO_32 - 1 && rows[1].value == 7 && rows[1].size == 1 && rows[1].isLvAndNvAreMemoryRows == 1
      && rows[2].addr == 0 && rows[2].value == 9 && rows[2].size == 0 && rows[2].isLvAndNvAreMemoryRows == 0
  {
    var s := IoStep(true, Some(IoEntry(StorePrivate, [7, 9], TWO_32 - 1)), 5);
    FilterSingle(s, StorePrivate);
    assert Rows([s]) == EventRows(s) + Rows([]);
    EventLayout(s);
  }
}
