// Range-check trace generation: every value that the CPU or memory table
// asks to range check becomes one row holding the value and its two 16-bit
// limbs; the trace is padded to a power of two of at least 2^16 rows, gets a
// fixed column 0, 1, .., 65535 (then 65535 repeated), and each limb column is
// permuted against that fixed column for the lookup argument.

module RangeCheckGen {
  import opened Field
  import opened Expr
  import opened Lookup
  import opened Wrappers

  const RANGE_CHECK_U16_SIZE: nat := 0x1_0000
  const U16_MAX: int := 0xFFFF

  // Column layout of the range-check table (the model's own order).
  const VAL: nat := 0
  const LIMB_LO: nat := 1
  const LIMB_HI: nat := 2
  const CPU_FILTER: nat := 3
  const FIXED_RANGE_CHECK_U16: nat := 4
  const LIMB_LO_PERMUTED: nat := 5
  const LIMB_HI_PERMUTED: nat := 6
  const FIXED_RANGE_CHECK_U16_PERMUTED_LO: nat := 7
  const FIXED_RANGE_CHECK_U16_PERMUTED_HI: nat := 8
  const NUM_RC_COLS: nat := 9

  // ---------------------------------------------------------------------
  // Vec::resize and padding
  // ---------------------------------------------------------------------

  /** Vec::resize: truncate to len, or extend with copies of fill. */
  function Resize(c: seq<int>, len: nat, fill: int): (r: seq<int>)
    ensures |r| == len
    ensures forall k :: 0 <= k < len && k < |c| ==> r[k] == c[k]
    ensures forall k :: |c| <= k < len ==> r[k] == fill
  {
    if |c| >= len then c[..len] else c + seq(len - |c|, _ => fill)
  }

  /** The padded height: a power of two, at least 2^16 and at least rows. */
  function PaddedHeight(rows: nat): (n: nat)
    ensures IsPow2(n) && n >= rows && n >= RANGE_CHECK_U16_SIZE
  {
    NextPow2(Max(rows, RANGE_CHECK_U16_SIZE))
  }

  /**
   * pad_rc_trace: every column resized with zeros to the padded height of
   * the first column.
   */
  function PadRcTrace(trace: seq<seq<int>>): (r: seq<seq<int>>)
    requires |trace| > 0
    ensures |r| == |trace|
    ensures forall c :: 0 <= c < |r| ==> |r[c]| == PaddedHeight(|trace[0]|)
    ensures forall c, k :: 0 <= c < |r| && 0 <= k < |trace[c]| && k < |r[c]| ==> r[c][k] == trace[c][k]
    ensures forall c, k :: 0 <= c < |r| && |trace[c]| <= k < |r[c]| ==> r[c][k] == 0
  {
    var len := PaddedHeight(|trace[0]|);
    seq(|trace|, c requires 0 <= c < |trace| => Resize(trace[c], len, 0))
  }

  // ---------------------------------------------------------------------
  // Limbs and rows
  // ---------------------------------------------------------------------

  /** limbs_from_u32: (value >> 16, value & 0xffff). */
  function LimbsFromU32(value: nat): (r: (int, int))
    requires value < TWO_32
    ensures 0 <= r.0 < RANGE_CHECK_U16_SIZE && 0 <= r.1 < RANGE_CHECK_U16_SIZE
    ensures r.0 * RANGE_CHECK_U16_SIZE + r.1 == value
  {
    (value / RANGE_CHECK_U16_SIZE, value % RANGE_CHECK_U16_SIZE)
  }

  /** The two limbs are the only 16-bit decomposition of the value. */
  lemma LimbsUnique(value: nat, hi: int, lo: int)
    requires value < TWO_32
    requires 0 <= hi < RANGE_CHECK_U16_SIZE && 0 <= lo < RANGE_CHECK_U16_SIZE
    requires hi * RANGE_CHECK_U16_SIZE + lo == value
    ensures LimbsFromU32(value) == (hi, lo)
  {
    var (h, l) := LimbsFromU32(value);
    assert (h - hi) * RANGE_CHECK_U16_SIZE == lo - l;
  }

  /** The row pushed for a value: val, its limbs and cpu_filter = 1, all else 0. */
  function RangeCheckRow(val: Felt): (row: seq<int>)
    requires val < TWO_32
    ensures |row| == NUM_RC_COLS
    ensures row[VAL] == val && row[CPU_FILTER] == 1
    ensures 0 <= row[LIMB_LO] < RANGE_CHECK_U16_SIZE && 0 <= row[LIMB_HI] < RANGE_CHECK_U16_SIZE
    ensures row[LIMB_HI] * RANGE_CHECK_U16_SIZE + row[LIMB_LO] == val
    ensures forall c :: FIXED_RANGE_CHECK_U16 <= c < NUM_RC_COLS ==> row[c] == 0
  {
    var (limbHi, limbLo) := LimbsFromU32(val);
    [val, limbLo, limbHi, 1, 0, 0, 0, 0, 0]
  }

  /** push_rangecheck_row: entry i of the row is appended to column i. */
  method PushRangecheckRow(trace: array<seq<int>>, row: seq<int>)
    requires |row| <= trace.Length
    modifies trace
    ensures forall c :: 0 <= c < |row| ==> trace[c] == old(trace[c]) + [row[c]]
    ensures forall c :: |row| <= c < trace.Length ==> trace[c] == old(trace[c])
  {
    for i := 0 to |row|
      invariant forall c :: 0 <= c < i ==> trace[c] == old(trace[c]) + [row[c]]
      invariant forall c :: i <= c < trace.Length ==> trace[c] == old(trace[c])
    {
      trace[i] := trace[i] + [row[i]];
    }
  }

  // ---------------------------------------------------------------------
  // extract
  // ---------------------------------------------------------------------

  /**
   * A looking table as far as extract sees it: the projected columns and
   * the filter, each evaluated on a window (row, following row).
   */
  datatype LookingTable<!R> = LookingTable(columns: seq<(R, R) -> Felt>, filterColumn: (R, R) -> Felt)

  /**
   * The windows of circular_tuple_windows, from index k on, whose filter
   * evaluates to one: strictly increasing, and containing exactly those
   * windows.
   */
  function SelectedFrom<R>(rows: seq<R>, filter: (R, R) -> Felt, k: nat): (r: seq<nat>)
    requires k <= |rows|
    ensures forall i :: 0 <= i < |r| ==> k <= r[i] < |rows|
    ensures Increasing(r)
    ensures forall m :: k <= m < |rows| ==> (m in r <==> filter(rows[m], NextRow(rows, m)) == 1)
    decreases |rows| - k
  {
    if k == |rows| then []
    else
      var rest := SelectedFrom(rows, filter, k + 1);
      if filter(rows[k], NextRow(rows, k)) == 1 then [k] + rest else rest
  }

  /**
   * extract: the column value of every window whose filter is one, in row
   * order; a lookup of more than one column is refused (None).
   */
  function Extract<R>(rows: seq<R>, table: LookingTable<R>): (r: Option<seq<Felt>>)
    ensures r.Some? <==> |table.columns| == 1
  {
    if |table.columns| == 1 then
      var sel := SelectedFrom(rows, table.filterColumn, 0);
      Some(seq(|sel|, i requires 0 <= i < |sel| => table.columns[0](rows[sel[i]], NextRow(rows, sel[i]))))
    else None
  }

  /** v is the column value of some window whose filter is one. */
  predicate FromSelectedWindow<R>(rows: seq<R>, table: LookingTable<R>, v: Felt)
    requires |table.columns| == 1
  {
    exists m :: 0 <= m < |rows| && table.filterColumn(rows[m], NextRow(rows, m)) == 1 &&
      v == table.columns[0](rows[m], NextRow(rows, m))
  }

  /**
   * Extract's values are those of the selected windows: a window whose
   * filter is one contributes its column value, and every value comes from
   * such a window.
   */
  lemma ExtractMeaning<R>(rows: seq<R>, table: LookingTable<R>)
    requires |table.columns| == 1
    ensures var vs := Extract(rows, table).value;
      && (forall m :: 0 <= m < |rows| && table.filterColumn(rows[m], NextRow(rows, m)) == 1 ==>
            table.columns[0](rows[m], NextRow(rows, m)) in vs)
      && (forall i :: 0 <= i < |vs| ==> FromSelectedWindow(rows, table, vs[i]))
  {
    var sel := SelectedFrom(rows, table.filterColumn, 0);
    var vs := Extract(rows, table).value;
    forall m | 0 <= m < |rows| && table.filterColumn(rows[m], NextRow(rows, m)) == 1
      ensures table.columns[0](rows[m], NextRow(rows, m)) in vs
    {
      var i :| 0 <= i < |sel| && sel[i] == m;
      assert vs[i] == table.columns[0](rows[m], NextRow(rows, m));
    }
    forall i | 0 <= i < |vs|
      ensures FromSelectedWindow(rows, table, vs[i])
    {
      assert sel[i] in sel;
    }
  }

  // ---------------------------------------------------------------------
  // generate_rangecheck_trace
  // ---------------------------------------------------------------------

  /** Which trace a looking table reads; only CPU and memory are supported. */
  datatype Looking<!C, !M> =
    | FromCpu(cpu: LookingTable<C>)
    | FromMemory(memory: LookingTable<M>)
    | FromOther

  /** Why generation panics. */
  datatype RangeCheckError = UnsupportedTable | TupleLookup | NotU32

  /** The values one looking table contributes, or why it is refused. */
  function TableValues<C, M>(cpuTrace: seq<C>, memoryTrace: seq<M>, t: Looking<C, M>): Result<seq<Felt>, RangeCheckError>
  {
    match t
    case FromCpu(tab) => if |tab.columns| == 1 then Ok(Extract(cpuTrace, tab).value) else Err(TupleLookup)
    case FromMemory(tab) => if |tab.columns| == 1 then Ok(Extract(memoryTrace, tab).value) else Err(TupleLookup)
    case FromOther => Err(UnsupportedTable)
  }

  predicate FitsU32(vs: seq<Felt>)
  {
    forall i :: 0 <= i < |vs| ==> vs[i] < TWO_32
  }

  /** A looking table generation accepts. */
  predicate TableOk<C, M>(cpuTrace: seq<C>, memoryTrace: seq<M>, t: Looking<C, M>)
  {
    TableValues(cpuTrace, memoryTrace, t).Ok? && FitsU32(TableValues(cpuTrace, memoryTrace, t).value)
  }

  /**
   * All values to range check, table after table, or the first reason to
   * panic: every value fits in 32 bits, and the collection succeeds exactly
   * when every table is accepted.
   */
  function CollectValues<C, M>(cpuTrace: seq<C>, memoryTrace: seq<M>, tables: seq<Looking<C, M>>): (r: Result<seq<Felt>, RangeCheckError>)
    ensures r.Ok? ==> FitsU32(r.value)
    ensures r.Ok? <==> forall i :: 0 <= i < |tables| ==> TableOk(cpuTrace, memoryTrace, tables[i])
  {
    if tables == [] then Ok([])
    else
      var init := tables[..|tables| - 1];
      var last := tables[|tables| - 1];
      assert forall i :: 0 <= i < |init| ==> init[i] == tables[i];
      match CollectValues(cpuTrace, memoryTrace, init)
      case Err(e) => Err(e)
      case Ok(prev) =>
        match TableValues(cpuTrace, memoryTrace, last)
        case Err(e) => Err(e)
        case Ok(vs) => if FitsU32(vs) then Ok(prev + vs) else Err(NotU32)
  }

  /** Once a prefix of the tables fails, the whole collection fails the same way. */
  lemma {:induction false} CollectErrPersists<C, M>(cpuTrace: seq<C>, memoryTrace: seq<M>, tables: seq<Looking<C, M>>, t: nat)
    requires t <= |tables|
    requires CollectValues(cpuTrace, memoryTrace, tables[..t]).Err?
    ensures CollectValues(cpuTrace, memoryTrace, tables) == CollectValues(cpuTrace, memoryTrace, tables[..t])
    decreases |tables| - t
  {
    if t < |tables| {
      assert tables[..t + 1][..t] == tables[..t];
      CollectErrPersists(cpuTrace, memoryTrace, tables, t + 1);
    } else {
      assert tables[..t] == tables;
    }
  }

  /** Why a table that is not accepted makes generation panic. */
  function TableError<C, M>(cpuTrace: seq<C>, memoryTrace: seq<M>, t: Looking<C, M>): RangeCheckError
    requires !TableOk(cpuTrace, memoryTrace, t)
  {
    if TableValues(cpuTrace, memoryTrace, t).Err? then TableValues(cpuTrace, memoryTrace, t).error else NotU32
  }

  lemma CollectStep<C, M>(cpuTrace: seq<C>, memoryTrace: seq<M>, tables: seq<Looking<C, M>>, t: nat, before: seq<Felt>)
    requires t < |tables| && CollectValues(cpuTrace, memoryTrace, tables[..t]) == Ok(before)
    ensures TableOk(cpuTrace, memoryTrace, tables[t]) ==>
      CollectValues(cpuTrace, memoryTrace, tables[..t + 1]) == Ok(before + TableValues(cpuTrace, memoryTrace, tables[t]).value)
    ensures !TableOk(cpuTrace, memoryTrace, tables[t]) ==>
      CollectValues(cpuTrace, memoryTrace, tables) == Err(TableError(cpuTrace, memoryTrace, tables[t]))
  {
    var prefix := tables[..t + 1];
    assert prefix[..|prefix| - 1] == tables[..t];
    assert prefix[|prefix| - 1] == tables[t];
    if !TableOk(cpuTrace, memoryTrace, tables[t]) {
      CollectErrPersists(cpuTrace, memoryTrace, tables, t + 1);
    }
  }

  /**
   * What generation produces from the collected values: all nine columns
   * of the padded height; real rows carry the value, its limbs and
   * cpu_filter = 1; later rows are zero; the fixed column counts 0..65535
   * and then repeats 65535; the permuted columns are permute_cols of each
   * limb column against the fixed column.
   */
  predicate RangeCheckTrace(vals: seq<Felt>, trace: seq<seq<int>>)
  {
    && TraceShape(|vals|, trace)
    && RealRows(vals, trace)
    && PaddingRows(|vals|, trace)
    && FixedColumnAt(trace)
    && PermutedLimbs(trace)
  }

  predicate TraceShape(rows: nat, trace: seq<seq<int>>)
  {
    |trace| == NUM_RC_COLS && forall c :: 0 <= c < NUM_RC_COLS ==> |trace[c]| == PaddedHeight(rows)
  }

  predicate RealRows(vals: seq<Felt>, trace: seq<seq<int>>)
    requires TraceShape(|vals|, trace)
  {
    forall k :: 0 <= k < |vals| ==>
      && trace[VAL][k] == vals[k]
      && 0 <= trace[LIMB_LO][k] < RANGE_CHECK_U16_SIZE
      && 0 <= trace[LIMB_HI][k] < RANGE_CHECK_U16_SIZE
      && trace[LIMB_HI][k] * RANGE_CHECK_U16_SIZE + trace[LIMB_LO][k] == vals[k]
      && trace[CPU_FILTER][k] == 1
  }

  predicate PaddingRows(rows: nat, trace: seq<seq<int>>)
    requires TraceShape(rows, trace)
  {
    forall k :: rows <= k < PaddedHeight(rows) ==>
      trace[VAL][k] == 0 && trace[LIMB_LO][k] == 0 && trace[LIMB_HI][k] == 0 && trace[CPU_FILTER][k] == 0
  }

  predicate FixedColumnAt(trace: seq<seq<int>>)
    requires |trace| == NUM_RC_COLS
  {
    forall k :: 0 <= k < |trace[FIXED_RANGE_CHECK_U16]| ==>
      trace[FIXED_RANGE_CHECK_U16][k] == if k < RANGE_CHECK_U16_SIZE then k else U16_MAX
  }

  predicate PermutedLimbs(trace: seq<seq<int>>)
    requires |trace| == NUM_RC_COLS
  {
    && |trace[LIMB_LO]| == |trace[LIMB_HI]| == |trace[FIXED_RANGE_CHECK_U16]|
    && (trace[LIMB_LO_PERMUTED], trace[FIXED_RANGE_CHECK_U16_PERMUTED_LO])
       == PermutedColumns(trace[LIMB_LO], trace[FIXED_RANGE_CHECK_U16])
    && (trace[LIMB_HI_PERMUTED], trace[FIXED_RANGE_CHECK_U16_PERMUTED_HI])
       == PermutedColumns(trace[LIMB_HI], trace[FIXED_RANGE_CHECK_U16])
  }

  /** The rows built so far: column c of row k is entry c of the row for vals[k]. */
  predicate RowsBuilt(vals: seq<Felt>, trace: seq<seq<int>>)
    requires FitsU32(vals)
  {
    && |trace| == NUM_RC_COLS
    && (forall c :: 0 <= c < NUM_RC_COLS ==> |trace[c]| == |vals|)
    && (forall c, k :: 0 <= c < NUM_RC_COLS && 0 <= k < |vals| ==> trace[c][k] == RangeCheckRow(vals[k])[c])
  }

  /**
   * generate_rangecheck_trace over the given looking tables: fails exactly
   * as the collection of values fails, and otherwise returns the trace
   * RangeCheckTrace describes.
   */
  method GenerateRangecheckTrace<C, M>(cpuTrace: seq<C>, memoryTrace: seq<M>, lookingTables: seq<Looking<C, M>>)
    returns (r: Result<seq<seq<int>>, RangeCheckError>)
    ensures CollectValues(cpuTrace, memoryTrace, lookingTables).Err? ==>
      r == Err(CollectValues(cpuTrace, memoryTrace, lookingTables).error)
    ensures CollectValues(cpuTrace, memoryTrace, lookingTables).Ok? ==>
      r.Ok? && RangeCheckTrace(CollectValues(cpuTrace, memoryTrace, lookingTables).value, r.value)
  {
    var trace := new seq<int>[NUM_RC_COLS](_ => []);
    ghost var vals: seq<Felt> := [];
    for t := 0 to |lookingTables|
      invariant CollectValues(cpuTrace, memoryTrace, lookingTables[..t]) == Ok(vals)
      invariant RowsBuilt(vals, trace[..])
    {
      CollectStep(cpuTrace, memoryTrace, lookingTables, t, vals);
      var values := ExtractTable(cpuTrace, memoryTrace, lookingTables[t]);
      if values.Err? {
        return Err(values.error);
      }
      var ok := PushValues(trace, values.value, vals);
      if !ok {
        return Err(NotU32);
      }
      vals := vals + values.value;
    }
    assert lookingTables[..|lookingTables|] == lookingTables;
    PadAndFill(trace, vals);
    r := Ok(trace[..]);
  }

  /** The match on the table kind: extract from the CPU or the memory trace. */
  method ExtractTable<C, M>(cpuTrace: seq<C>, memoryTrace: seq<M>, t: Looking<C, M>) returns (r: Result<seq<Felt>, RangeCheckError>)
    ensures r == TableValues(cpuTrace, memoryTrace, t)
  {
    match t
    case FromCpu(tab) =>
      var e := Extract(cpuTrace, tab);
      if e.None? {
        return Err(TupleLookup);
      }
      return Ok(e.value);
    case FromMemory(tab) =>
      var e := Extract(memoryTrace, tab);
      if e.None? {
        return Err(TupleLookup);
      }
      return Ok(e.value);
    case FromOther =>
      return Err(UnsupportedTable);
  }

  /** Padding, then the fixed and permuted columns. */
  method PadAndFill(trace: array<seq<int>>, ghost vals: seq<Felt>)
    requires FitsU32(vals) && RowsBuilt(vals, trace[..])
    modifies trace
    ensures RangeCheckTrace(vals, trace[..])
  {
    ghost var built := trace[..];
    var padded := PadRcTrace(trace[..]);
    forall c | 0 <= c < NUM_RC_COLS {
      trace[c] := padded[c];
    }
    assert trace[..] == padded;
    FillTables(trace, vals, built);
  }

  /**
   * The inner loop over one table's values: push one row per value; a value
   * that does not fit in 32 bits stops it (false).
   */
  method PushValues(trace: array<seq<int>>, values: seq<Felt>, ghost vals: seq<Felt>) returns (ok: bool)
    requires FitsU32(vals) && RowsBuilt(vals, trace[..])
    modifies trace
    ensures ok <==> FitsU32(values)
    ensures ok ==> FitsU32(vals + values) && RowsBuilt(vals + values, trace[..])
  {
    ghost var acc := vals;
    for i := 0 to |values|
      invariant acc == vals + values[..i]
      invariant FitsU32(acc) && RowsBuilt(acc, trace[..])
      invariant FitsU32(values[..i])
    {
      var val := values[i];
      if val >= TWO_32 {
        return false;
      }
      ghost var prev := trace[..];
      PushRangecheckRow(trace, RangeCheckRow(val));
      acc := acc + [val];
      assert values[..i + 1] == values[..i] + [val];
      forall c, k | 0 <= c < NUM_RC_COLS && 0 <= k < |acc|
        ensures trace[c][k] == RangeCheckRow(acc[k])[c]
      {
        if k < |acc| - 1 {
          assert trace[c][k] == prev[c][k];
        }
      }
    }
    assert values[..|values|] == values;
    return true;
  }

  /** The fixed column: 0, 1, .., 65535, then 65535 up to numRows. */
  function FixedColumn(numRows: nat): (r: seq<int>)
    ensures |r| == numRows
    ensures forall k :: 0 <= k < numRows ==> r[k] == if k < RANGE_CHECK_U16_SIZE then k else U16_MAX
  {
    Resize(seq(RANGE_CHECK_U16_SIZE, k requires 0 <= k < RANGE_CHECK_U16_SIZE => k), numRows, U16_MAX)
  }

  /** The fixed column and the permuted limb columns, on the padded trace. */
  method FillTables(trace: array<seq<int>>, ghost vals: seq<Felt>, ghost built: seq<seq<int>>)
    requires FitsU32(vals) && RowsBuilt(vals, built)
    requires trace.Length == NUM_RC_COLS && trace[..] == PadRcTrace(built)
    modifies trace
    ensures RangeCheckTrace(vals, trace[..])
  {
    ghost var padded := trace[..];
    assert |padded[LIMB_LO]| == |padded[LIMB_HI]| == |padded[VAL]|;
    var numRows := |trace[VAL]|;
    ghost var fixed := FixedColumn(numRows);
    trace[FIXED_RANGE_CHECK_U16] := FixedColumn(numRows);
    assert trace[..] == padded[FIXED_RANGE_CHECK_U16 := fixed];
    PermuteLimb(trace, LIMB_LO, LIMB_LO_PERMUTED, FIXED_RANGE_CHECK_U16_PERMUTED_LO);
    PermuteLimb(trace, LIMB_HI, LIMB_HI_PERMUTED, FIXED_RANGE_CHECK_U16_PERMUTED_HI);
    assert trace[..] == WithTables(padded);
    TablesFilled(vals, built, padded, trace[..]);
  }

  /** The padded trace with the fixed column and the four permuted columns filled in. */
  function WithTables(padded: seq<seq<int>>): seq<seq<int>>
    requires |padded| == NUM_RC_COLS && |padded[LIMB_LO]| == |padded[LIMB_HI]| == |padded[VAL]|
  {
    var fixed := FixedColumn(|padded[VAL]|);
    var lo := PermutedColumns(padded[LIMB_LO], fixed);
    var hi := PermutedColumns(padded[LIMB_HI], fixed);
    padded[FIXED_RANGE_CHECK_U16 := fixed]
      [LIMB_LO_PERMUTED := lo.0][FIXED_RANGE_CHECK_U16_PERMUTED_LO := lo.1]
      [LIMB_HI_PERMUTED := hi.0][FIXED_RANGE_CHECK_U16_PERMUTED_HI := hi.1]
  }

  /** Filling the tables of the padded rows gives the range-check trace of vals. */
  lemma TablesFilled(vals: seq<Felt>, built: seq<seq<int>>, padded: seq<seq<int>>, t: seq<seq<int>>)
    requires FitsU32(vals) && RowsBuilt(vals, built)
    requires padded == PadRcTrace(built)
    requires |padded[LIMB_LO]| == |padded[LIMB_HI]| == |padded[VAL]|
    requires t == WithTables(padded)
    ensures RangeCheckTrace(vals, t)
  {
    var n := PaddedHeight(|vals|);
    assert |padded| == NUM_RC_COLS && forall c :: 0 <= c < NUM_RC_COLS ==> |padded[c]| == n;
    WithTablesProps(padded, n);
    FilledRows(vals, built, t);
  }

  /**
   * Filling the tables keeps the column heights and the four data columns,
   * and leaves the fixed column and the two permuted pairs in place.
   */
  lemma WithTablesProps(padded: seq<seq<int>>, n: nat)
    requires |padded| == NUM_RC_COLS && forall c :: 0 <= c < NUM_RC_COLS ==> |padded[c]| == n
    ensures var t := WithTables(padded);
      && |t| == NUM_RC_COLS && (forall c :: 0 <= c < NUM_RC_COLS ==> |t[c]| == n)
      && t[VAL] == padded[VAL] && t[LIMB_LO] == padded[LIMB_LO]
      && t[LIMB_HI] == padded[LIMB_HI] && t[CPU_FILTER] == padded[CPU_FILTER]
      && FixedColumnAt(t) && PermutedLimbs(t)
  {
    var fixed := FixedColumn(n);
    var lo := PermutedColumns(padded[LIMB_LO], fixed);
    var hi := PermutedColumns(padded[LIMB_HI], fixed);
    assert |lo.0| == n && |lo.1| == n by {
      PermutedColumnsProps(padded[LIMB_LO], fixed);
    }
    assert |hi.0| == n && |hi.1| == n by {
      PermutedColumnsProps(padded[LIMB_HI], fixed);
    }
    var t := padded[FIXED_RANGE_CHECK_U16 := fixed]
      [LIMB_LO_PERMUTED := lo.0][FIXED_RANGE_CHECK_U16_PERMUTED_LO := lo.1]
      [LIMB_HI_PERMUTED := hi.0][FIXED_RANGE_CHECK_U16_PERMUTED_HI := hi.1];
    assert WithTables(padded) == t;
  }

  /** (trace[out], trace[outTable]) := permute_cols(trace[input], fixed column). */
  method PermuteLimb(trace: array<seq<int>>, input: nat, out: nat, outTable: nat)
    requires trace.Length == NUM_RC_COLS && input < FIXED_RANGE_CHECK_U16
    requires FIXED_RANGE_CHECK_U16 < out < NUM_RC_COLS && FIXED_RANGE_CHECK_U16 < outTable < NUM_RC_COLS && out != outTable
    requires |trace[input]| == |trace[FIXED_RANGE_CHECK_U16]|
    modifies trace
    ensures var cols := PermutedColumns(old(trace[input]), old(trace[FIXED_RANGE_CHECK_U16]));
      trace[..] == old(trace[..])[out := cols.0][outTable := cols.1]
    ensures |trace[out]| == |trace[outTable]| == |trace[input]|
  {
    PermutedColumnsProps(trace[input], trace[FIXED_RANGE_CHECK_U16]);
    var colInputPermuted, colTablePermuted := PermuteCols(trace[input], trace[FIXED_RANGE_CHECK_U16]);
    trace[out] := colInputPermuted;
    trace[outTable] := colTablePermuted;
  }

  /** The padded rows of the trace are the real rows followed by zeros. */
  lemma FilledRows(vals: seq<Felt>, built: seq<seq<int>>, t: seq<seq<int>>)
    requires FitsU32(vals) && RowsBuilt(vals, built)
    requires TraceShape(|vals|, t)
    requires t[VAL] == PadRcTrace(built)[VAL] && t[LIMB_LO] == PadRcTrace(built)[LIMB_LO]
    requires t[LIMB_HI] == PadRcTrace(built)[LIMB_HI] && t[CPU_FILTER] == PadRcTrace(built)[CPU_FILTER]
    ensures RealRows(vals, t) && PaddingRows(|vals|, t)
  {
    forall k | 0 <= k < |vals|
      ensures t[VAL][k] == vals[k] && t[CPU_FILTER][k] == 1
      ensures 0 <= t[LIMB_LO][k] < RANGE_CHECK_U16_SIZE && 0 <= t[LIMB_HI][k] < RANGE_CHECK_U16_SIZE
      ensures t[LIMB_HI][k] * RANGE_CHECK_U16_SIZE + t[LIMB_LO][k] == vals[k]
    {
      var row := RangeCheckRow(vals[k]);
      assert t[VAL][k] == built[VAL][k] == row[VAL];
      assert t[CPU_FILTER][k] == built[CPU_FILTER][k] == row[CPU_FILTER];
      assert t[LIMB_HI][k] == built[LIMB_HI][k] == row[LIMB_HI];
      assert t[LIMB_LO][k] == built[LIMB_LO][k] == row[LIMB_LO];
    }
  }

  // ---------------------------------------------------------------------
  // What the range-check table guarantees
  // ---------------------------------------------------------------------

  /** Every limb, real or padding, is in 0..65535. */
  lemma LimbsInRange(vals: seq<Felt>, trace: seq<seq<int>>)
    requires RangeCheckTrace(vals, trace)
    ensures forall k :: 0 <= k < |trace[LIMB_LO]| ==> 0 <= trace[LIMB_LO][k] < RANGE_CHECK_U16_SIZE
    ensures forall k :: 0 <= k < |trace[LIMB_HI]| ==> 0 <= trace[LIMB_HI][k] < RANGE_CHECK_U16_SIZE
  {
  }

  /** A column whose entries are all 16-bit values all lie in the fixed column. */
  lemma InFixedColumn(vals: seq<Felt>, trace: seq<seq<int>>, c: nat)
    requires RangeCheckTrace(vals, trace)
    requires c == LIMB_LO || c == LIMB_HI
    ensures forall x :: x in trace[c] ==> x in trace[FIXED_RANGE_CHECK_U16]
  {
    LimbsInRange(vals, trace);
    forall x | x in trace[c]
      ensures x in trace[FIXED_RANGE_CHECK_U16]
    {
      var k :| 0 <= k < |trace[c]| && trace[c][k] == x;
      assert trace[FIXED_RANGE_CHECK_U16][x] == x;
    }
  }

  /**
   * The permuted limb columns are permutations of the limb columns, the
   * permuted fixed columns are permutations of the fixed column, and each
   * pair satisfies the lookup condition the lookup constraints enforce.
   */
  lemma RangeCheckLookups(vals: seq<Felt>, trace: seq<seq<int>>)
    requires RangeCheckTrace(vals, trace)
    ensures multiset(trace[LIMB_LO_PERMUTED]) == multiset(trace[LIMB_LO])
    ensures multiset(trace[FIXED_RANGE_CHECK_U16_PERMUTED_LO]) == multiset(trace[FIXED_RANGE_CHECK_U16])
    ensures LookupCondition(trace[LIMB_LO_PERMUTED], trace[FIXED_RANGE_CHECK_U16_PERMUTED_LO])
    ensures multiset(trace[LIMB_HI_PERMUTED]) == multiset(trace[LIMB_HI])
    ensures multiset(trace[FIXED_RANGE_CHECK_U16_PERMUTED_HI]) == multiset(trace[FIXED_RANGE_CHECK_U16])
    ensures LookupCondition(trace[LIMB_HI_PERMUTED], trace[FIXED_RANGE_CHECK_U16_PERMUTED_HI])
  {
    InFixedColumn(vals, trace, LIMB_LO);
    InFixedColumn(vals, trace, LIMB_HI);
    PermutedColumnsLookup(trace[LIMB_LO], trace[FIXED_RANGE_CHECK_U16]);
    PermutedColumnsLookup(trace[LIMB_HI], trace[FIXED_RANGE_CHECK_U16]);
  }
}
