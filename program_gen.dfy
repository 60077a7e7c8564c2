// The program ROM trace: one row per decodable instruction of the code
// image, each with filter 1, sorted by pc.

module ProgramGen {
  import opened Field
  import opened Wrappers
  import opened Sorting

  type U32 = x: int | 0 <= x < TWO_32

  /**
   * One entry of the program's code image: its pc and the outcome of
   * decoding the word there, as the decoded instruction's u32 fields
   * (None when decoding failed).
   */
  datatype CodeEntry = CodeEntry(pc: U32, decoded: Option<seq<U32>>)

  /** InstructionRow: the instruction's pc and fields as field elements. */
  datatype InstructionRow = InstructionRow(pc: Felt, fields: seq<Felt>)

  /** ProgramRom: one row of the ROM table. */
  datatype ProgramRom = ProgramRom(filter: Felt, inst: InstructionRow)

  /** The row of a decoded entry; every u32 field is already a canonical field element. */
  function RomRow(pc: U32, fields: seq<U32>): ProgramRom
  {
    ProgramRom(1, InstructionRow(pc, fields))
  }

  /** The filter_map: undecodable entries are dropped. */
  function RomRows(code: seq<CodeEntry>): seq<ProgramRom>
  {
    if code == [] then []
    else
      (match code[0].decoded
       case None => []
       case Some(fields) => [RomRow(code[0].pc, fields)])
      + RomRows(code[1..])
  }

  function PcKey(row: ProgramRom): int
  {
    row.inst.pc
  }

  /** The trace generate_program_rom_trace returns, before pad_trace_with_default. */
  function ProgramRomTrace(code: seq<CodeEntry>): seq<ProgramRom>
  {
    SortBy(RomRows(code), PcKey)
  }

  /** generate_program_rom_trace, up to the final padding. */
  method GenerateProgramRomTrace(code: seq<CodeEntry>) returns (roms: seq<ProgramRom>)
    ensures roms == ProgramRomTrace(code)
  {
    roms := [];
    var k := 0;
    while k < |code|
      invariant 0 <= k <= |code|
      invariant roms + RomRows(code[k..]) == RomRows(code)
    {
      assert code[k..][1..] == code[k + 1..];
      match code[k].decoded {
        case None =>
          assert RomRows(code[k..]) == RomRows(code[k + 1..]);
        case Some(fields) =>
          assert RomRows(code[k..]) == [RomRow(code[k].pc, fields)] + RomRows(code[k + 1..]);
          roms := roms + [RomRow(code[k].pc, fields)];
      }
      k := k + 1;
    }
    assert code[k..] == [];
    assert roms == RomRows(code);
    roms := SortBy(roms, PcKey);
  }

  // ---------------------------------------------------------------------
  // Properties
  // ---------------------------------------------------------------------

  /** The number of entries that decode. */
  function DecodableCount(code: seq<CodeEntry>): nat
  {
    if code == [] then 0 else (if code[0].decoded.Some? then 1 else 0) + DecodableCount(code[1..])
  }

  /** The pcs of the code image, in order. */
  function Pcs(code: seq<CodeEntry>): seq<int>
  {
    seq(|code|, i requires 0 <= i < |code| => code[i].pc)
  }

  /**
   * There is one row per decodable entry, each with filter 1 and the pc of
   * an entry of the image.
   */
  lemma {:induction false} RomRowsProps(code: seq<CodeEntry>)
    ensures |RomRows(code)| == DecodableCount(code)
    ensures forall k :: 0 <= k < |RomRows(code)| ==> RomRows(code)[k].filter == 1
    ensures forall k :: 0 <= k < |RomRows(code)| ==> RomRows(code)[k].inst.pc in Pcs(code)
  {
    if code != [] {
      var rest := code[1..];
      RomRowsProps(rest);
      var rows := RomRows(code);
      var head := rows[..|rows| - |RomRows(rest)|];
      forall k | 0 <= k < |rows|
        ensures rows[k].inst.pc in Pcs(code)
      {
        if k < |rows| - |RomRows(rest)| {
          assert rows[k].inst.pc == code[0].pc == Pcs(code)[0];
        } else {
          var k' := k - (|rows| - |RomRows(rest)|);
          assert rows[k] == RomRows(rest)[k'];
          var i :| 0 <= i < |rest| && Pcs(rest)[i] == rows[k].inst.pc;
          assert Pcs(code)[i + 1] == Pcs(rest)[i];
        }
      }
    }
  }

  /** A decodable entry's row is in the trace; an undecodable one adds nothing. */
  lemma {:induction false} RomRowsOfEntries(code: seq<CodeEntry>, i: nat)
    requires i < |code| && code[i].decoded.Some?
    ensures RomRow(code[i].pc, code[i].decoded.value) in RomRows(code)
  {
    if i > 0 {
      RomRowsOfEntries(code[1..], i - 1);
    }
  }

  /**
   * The ROM rows are the decodable entries' rows, each once, sorted by pc
   * with every filter 1.
   */
  lemma ProgramRomTraceProps(code: seq<CodeEntry>)
    ensures SortedBy(ProgramRomTrace(code), PcKey)
    ensures multiset(ProgramRomTrace(code)) == multiset(RomRows(code))
    ensures |ProgramRomTrace(code)| == DecodableCount(code)
    ensures forall k :: 0 <= k < |ProgramRomTrace(code)| ==> ProgramRomTrace(code)[k].filter == 1
    ensures forall i :: 0 <= i < |code| && code[i].decoded.Some? ==>
      RomRow(code[i].pc, code[i].decoded.value) in ProgramRomTrace(code)
  {
    var rows := RomRows(code);
    var t := ProgramRomTrace(code);
    SortByProps(rows, PcKey);
    RomRowsProps(code);
    forall k | 0 <= k < |t|
      ensures t[k].filter == 1
    {
      assert t[k] in multiset(rows);
    }
    forall i | 0 <= i < |code| && code[i].decoded.Some?
      ensures RomRow(code[i].pc, code[i].decoded.value) in t
    {
      RomRowsOfEntries(code, i);
      assert RomRow(code[i].pc, code[i].decoded.value) in multiset(t);
    }
  }

  /** The pcs of a code image are distinct, as the keys of a map are. */
  predicate DistinctPcs(code: seq<CodeEntry>)
  {
    forall i, j :: 0 <= i < j < |code| ==> code[i].pc != code[j].pc
  }

  /** With distinct pcs, no row occurs twice. */
  lemma {:induction false} RomRowsOnce(code: seq<CodeEntry>, x: ProgramRom)
    requires DistinctPcs(code)
    ensures multiset(RomRows(code))[x] <= 1
  {
    if code != [] {
      var rest := code[1..];
      assert DistinctPcs(rest) by {
        forall i, j | 0 <= i < j < |rest|
          ensures rest[i].pc != rest[j].pc
        {
          assert rest[i] == code[i + 1] && rest[j] == code[j + 1];
        }
      }
      RomRowsOnce(rest, x);
      RomRowsProps(rest);
      PcNotInRest(code, rest);
      var head := if code[0].decoded.Some? then [RomRow(code[0].pc, code[0].decoded.value)] else [];
      assert RomRows(code) == head + RomRows(rest);
    }
  }

  lemma CountTwo(s: seq<ProgramRom>, i: nat, j: nat)
    requires i < j < |s|
    ensures s[i] == s[j] ==> multiset(s)[s[i]] >= 2
  {
    assert s == s[..i] + [s[i]] + s[i + 1..j] + [s[j]] + s[j + 1..];
  }

  /**
   * Since the code image is keyed by pc, the ROM's pcs strictly increase:
   * every pc appears at most once.
   */
  lemma PcsStrictlyIncrease(code: seq<CodeEntry>)
    requires DistinctPcs(code)
    ensures forall i, j :: 0 <= i < j < |ProgramRomTrace(code)| ==>
      ProgramRomTrace(code)[i].inst.pc < ProgramRomTrace(code)[j].inst.pc
  {
    var rows := RomRows(code);
    var t := ProgramRomTrace(code);
    ProgramRomTraceProps(code);
    forall i, j | 0 <= i < j < |t|
      ensures t[i].inst.pc < t[j].inst.pc
    {
      assert t[i] in multiset(rows) && t[j] in multiset(rows);
      SamePcSameRow(code, t[i], t[j]);
      CountTwo(t, i, j);
      RomRowsOnce(code, t[i]);
    }
  }

  /** Two rows of the trace with the same pc are the same row. */
  lemma {:induction false} SamePcSameRow(code: seq<CodeEntry>, x: ProgramRom, y: ProgramRom)
    requires DistinctPcs(code)
    requires x in RomRows(code) && y in RomRows(code)
    ensures x.inst.pc == y.inst.pc ==> x == y
  {
    var rest := code[1..];
    assert DistinctPcs(rest) by {
      forall i, j | 0 <= i < j < |rest|
        ensures rest[i].pc != rest[j].pc
      {
        assert rest[i] == code[i + 1] && rest[j] == code[j + 1];
      }
    }
    RomRowsProps(rest);
    var head := if code[0].decoded.Some? then [RomRow(code[0].pc, code[0].decoded.value)] else [];
    assert RomRows(code) == head + RomRows(rest);
    if x in RomRows(rest) && y in RomRows(rest) {
      SamePcSameRow(rest, x, y);
    } else {
      PcNotInRest(code, rest);
    }
  }

  lemma PcNotInRest(code: seq<CodeEntry>, rest: seq<CodeEntry>)
    requires DistinctPcs(code) && code != [] && rest == code[1..]
    ensures code[0].pc !in Pcs(rest)
  {
    forall i | 0 <= i < |rest|
      ensures Pcs(rest)[i] != code[0].pc
    {
      assert rest[i] == code[i + 1];
    }
  }
}
