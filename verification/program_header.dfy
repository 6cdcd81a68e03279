/** The program header table: `count` segment entries read back to back
    right after the file header, `count` taken from that header. Every entry
    uses the 64-bit field order (flags second) whatever the width. */
module ElfProgramHeader {
  import opened Bytes
  import opened Errors
  import opened Parsing
  import opened Shared
  import opened ElfParsing
  import opened Tables
  import ElfFileHeader

  // Segment type.

  datatype EntryType =
    | Null | Load | Dynamic | Interpreter | Auxillary | Reserved | ProgramHeader
    | ThreadLocalStorage | Loos | Hios | Loproc | Hiproc

  /** The accepted segment-type codes: eight plain types and four range markers. */
  predicate IsEntryTypeCode(c: U32)
  {
    c <= 7 || c == 0x6000_0000 || c == 0x6FFF_FFFF || c == 0x7000_0000 || c == 0x7FFF_FFFF
  }

  function EntryTypeCode(t: EntryType): U32
  {
    match t
    case Null => 0
    case Load => 1
    case Dynamic => 2
    case Interpreter => 3
    case Auxillary => 4
    case Reserved => 5
    case ProgramHeader => 6
    case ThreadLocalStorage => 7
    case Loos => 0x6000_0000
    case Hios => 0x6FFF_FFFF
    case Loproc => 0x7000_0000
    case Hiproc => 0x7FFF_FFFF
  }

  /** The decoding table for segment-type codes. */
  function EntryTypeOf(c: U32): Option<EntryType>
  {
    match c
    case 0 => Some(Null)
    case 1 => Some(Load)
    case 2 => Some(Dynamic)
    case 3 => Some(Interpreter)
    case 4 => Some(Auxillary)
    case 5 => Some(Reserved)
    case 6 => Some(EntryType.ProgramHeader)
    case 7 => Some(ThreadLocalStorage)
    case 0x6000_0000 => Some(Loos)
    case 0x6FFF_FFFF => Some(Hios)
    case 0x7000_0000 => Some(Loproc)
    case 0x7FFF_FFFF => Some(Hiproc)
    case _ => Option.None
  }

  lemma EntryTypeTable(c: U32, t: EntryType)
    ensures EntryTypeOf(c).Some? <==> IsEntryTypeCode(c)
    ensures EntryTypeOf(c).Some? ==> EntryTypeCode(EntryTypeOf(c).value) == c
    ensures EntryTypeOf(EntryTypeCode(t)) == Some(t)
  {
  }

  /** `EntryType::parse_from_endianess`: a 32-bit code in the file's byte
      order; an unknown code fails carrying the four raw bytes. */
  function ParseEntryType(input: seq<Byte>, e: Endianess): (r: Result<EntryType>)
    ensures |input| < 4 ==> r == Err(MissingData, [])
    ensures |input| >= 4 ==> r.rest == input[4..]
    ensures r.Ok? <==> |input| >= 4 && IsEntryTypeCode(ValueOf(input[..4], e))
    ensures r.Ok? ==> To4Bytes(EntryTypeCode(r.value), e) == input[..4]
    ensures |input| >= 4 && r.Err? ==> r.error == InvalidValue(input[..4])
  {
    var code :- ParseU32(input, e);
    EntryTypeTable(code.value, Null);
    match EntryTypeOf(code.value)
    case Some(t) => Ok(t, code.rest)
    case _ => Err(InvalidValue(To4Bytes(code.value, e)), code.rest)
  }

  // Entries.

  datatype Entry = Entry(
    entryType: EntryType,
    flags: U32,
    offset: NativeInteger,
    virtualAddress: NativeInteger,
    physicalAddress: NativeInteger,
    segmentFileSize: NativeInteger,
    segmentMemSize: NativeInteger,
    alignment: NativeInteger)

  /** Bytes one entry occupies: type and flags, then six native integers. */
  function EntrySize(w: ArchitectureWidth): nat
  {
    8 + 6 * WidthBytes(w)
  }

  /** Every native field of the entry is tagged with the width. */
  predicate EntryHasWidth(entry: Entry, w: ArchitectureWidth)
  {
    && HasWidth(entry.offset, w)
    && HasWidth(entry.virtualAddress, w)
    && HasWidth(entry.physicalAddress, w)
    && HasWidth(entry.segmentFileSize, w)
    && HasWidth(entry.segmentMemSize, w)
    && HasWidth(entry.alignment, w)
  }

  /** `Entry::parse_from_context`: type, flags, offset, virtual and physical
      address, file and memory size, alignment. */
  function ParseEntry(input: seq<Byte>, e: Endianess, w: ArchitectureWidth): (r: Result<Entry>)
    ensures r.Err? && ParseEntryType(input, e).Ok? ==> r == Err(MissingData, [])
    ensures r.Ok? ==> |input| >= EntrySize(w) && r.rest == input[EntrySize(w)..]
  {
    var entryType :- ParseEntryType(input, e);
    var flags :- ParseU32(entryType.rest, e);
    var offset :- ParseNativeInteger(flags.rest, e, w);
    var virtualAddress :- ParseNativeInteger(offset.rest, e, w);
    var physicalAddress :- ParseNativeInteger(virtualAddress.rest, e, w);
    var segmentFileSize :- ParseNativeInteger(physicalAddress.rest, e, w);
    var segmentMemSize :- ParseNativeInteger(segmentFileSize.rest, e, w);
    var alignment :- ParseNativeInteger(segmentMemSize.rest, e, w);
    Ok(Entry(entryType.value, flags.value, offset.value, virtualAddress.value, physicalAddress.value,
             segmentFileSize.value, segmentMemSize.value, alignment.value),
       alignment.rest)
  }

  /** A whole entry with a known segment type at the start of the input. */
  predicate IsEntryAt(input: seq<Byte>, e: Endianess, w: ArchitectureWidth)
  {
    |input| >= EntrySize(w) && IsEntryTypeCode(U32At(input, 0, e))
  }

  /** The entry read straight from its field offsets. */
  function EntryAt(input: seq<Byte>, e: Endianess, w: ArchitectureWidth): Entry
    requires IsEntryAt(input, e, w)
  {
    var n := WidthBytes(w);
    EntryTypeTable(U32At(input, 0, e), Null);
    Entry(EntryTypeOf(U32At(input, 0, e)).value, U32At(input, 4, e),
          NativeAt(input, 8, e, w), NativeAt(input, 8 + n, e, w), NativeAt(input, 8 + 2 * n, e, w),
          NativeAt(input, 8 + 3 * n, e, w), NativeAt(input, 8 + 4 * n, e, w), NativeAt(input, 8 + 5 * n, e, w))
  }

  /** Decoding a whole entry field by field reads the fields at their offsets. */
  lemma ParseEntryAt(input: seq<Byte>, e: Endianess, w: ArchitectureWidth)
    requires IsEntryAt(input, e, w)
    ensures ParseEntry(input, e, w) == Ok(EntryAt(input, e, w), input[EntrySize(w)..])
  {
    ProgramHeadFieldsAt(input, e, w);
    ProgramTailFieldsAt(input, e, w);
  }

  /** The type and the flags, each decoded where the previous field ends,
      are the fields at offsets 0 and 4. */
  lemma ProgramHeadFieldsAt(input: seq<Byte>, e: Endianess, w: ArchitectureWidth)
    requires IsEntryAt(input, e, w)
    ensures ParseEntryType(input, e) == Ok(EntryTypeOf(U32At(input, 0, e)).value, input[4..])
    ensures ParseU32(input[4..], e) == Ok(U32At(input, 4, e), input[8..])
  {
    assert input[..4] == input[0..4];
    EntryTypeTable(U32At(input, 0, e), Null);
    ParseU32At(input, 4, e);
  }

  /** The six native integers, each decoded where the previous field ends,
      are the fields at offsets 8, 8 + n, …, 8 + 5n. */
  lemma ProgramTailFieldsAt(input: seq<Byte>, e: Endianess, w: ArchitectureWidth)
    requires |input| >= EntrySize(w)
    ensures var n := WidthBytes(w);
      && ParseNativeInteger(input[8..], e, w) == Ok(NativeAt(input, 8, e, w), input[8 + n..])
      && ParseNativeInteger(input[8 + n..], e, w) == Ok(NativeAt(input, 8 + n, e, w), input[8 + 2 * n..])
      && ParseNativeInteger(input[8 + 2 * n..], e, w) == Ok(NativeAt(input, 8 + 2 * n, e, w), input[8 + 3 * n..])
      && ParseNativeInteger(input[8 + 3 * n..], e, w) == Ok(NativeAt(input, 8 + 3 * n, e, w), input[8 + 4 * n..])
      && ParseNativeInteger(input[8 + 4 * n..], e, w) == Ok(NativeAt(input, 8 + 4 * n, e, w), input[8 + 5 * n..])
      && ParseNativeInteger(input[8 + 5 * n..], e, w) == Ok(NativeAt(input, 8 + 5 * n, e, w), input[EntrySize(w)..])
  {
    var n := WidthBytes(w);
    ParseNativeAt(input, 8, e, w);
    ParseNativeAt(input, 8 + n, e, w);
    ParseNativeAt(input, 8 + 2 * n, e, w);
    ParseNativeAt(input, 8 + 3 * n, e, w);
    ParseNativeAt(input, 8 + 4 * n, e, w);
    ParseNativeAt(input, 8 + 5 * n, e, w);
  }

  /** Where an entry decode can fail on the type word: fewer than four
      bytes is missing data, and an unknown type fails with its four raw
      bytes and the stream left after them. */
  lemma EntryPrefix(input: seq<Byte>, e: Endianess, w: ArchitectureWidth)
    ensures |input| < 4 ==> ParseEntry(input, e, w) == Err(MissingData, [])
    ensures |input| >= 4 && !IsEntryTypeCode(U32At(input, 0, e)) ==>
      ParseEntry(input, e, w) == Err(InvalidValue(input[..4]), input[4..])
    ensures ParseEntry(input, e, w).Ok? ==> |input| >= 4 && IsEntryTypeCode(U32At(input, 0, e))
  {
    if |input| >= 4 {
      assert input[..4] == input[0..4];
    }
  }

  /** An entry decodes exactly when the input holds a whole entry with a
      known segment type, and then it is the entry at the field offsets.
      Otherwise a short input is missing data and an unknown type fails with
      its four raw bytes, the stream left after the type word. */
  lemma EntryLayout(input: seq<Byte>, e: Endianess, w: ArchitectureWidth)
    ensures ParseEntry(input, e, w).Ok? <==> IsEntryAt(input, e, w)
    ensures IsEntryAt(input, e, w) ==> ParseEntry(input, e, w) == Ok(EntryAt(input, e, w), input[EntrySize(w)..])
    ensures |input| < 4 ==> ParseEntry(input, e, w) == Err(MissingData, [])
    ensures |input| >= 4 && !IsEntryTypeCode(U32At(input, 0, e)) ==>
      ParseEntry(input, e, w) == Err(InvalidValue(input[..4]), input[4..])
    ensures |input| >= 4 && IsEntryTypeCode(U32At(input, 0, e)) && |input| < EntrySize(w) ==>
      ParseEntry(input, e, w) == Err(MissingData, [])
  {
    EntryPrefix(input, e, w);
    if IsEntryAt(input, e, w) {
      ParseEntryAt(input, e, w);
    } else if |input| >= 4 && IsEntryTypeCode(U32At(input, 0, e)) {
      assert input[..4] == input[0..4];
    }
  }

  /** Every native field of a decoded entry carries the width it was read with. */
  lemma ParsedEntryHasWidth(input: seq<Byte>, e: Endianess, w: ArchitectureWidth)
    requires ParseEntry(input, e, w).Ok?
    ensures EntryHasWidth(ParseEntry(input, e, w).value, w)
  {
    EntryLayout(input, e, w);
  }

  /** Every successful entry decode consumes exactly one entry's bytes. */
  lemma EntryFixedSize(e: Endianess, w: ArchitectureWidth)
    ensures FixedSize(ParseEntry, e, w, EntrySize(w))
  {
  }

  // The table.

  datatype ProgramHeader = ProgramHeader(entries: seq<Entry>)

  /** `ProgramHeader::add_entry`: the entry goes at the end. */
  function AddEntry(table: ProgramHeader, entry: Entry): (r: ProgramHeader)
    ensures |r.entries| == |table.entries| + 1
    ensures r.entries[..|table.entries|] == table.entries
    ensures r.entries[|table.entries|] == entry
  {
    ProgramHeader.ProgramHeader(table.entries + [entry])
  }

  /** Adding entries one at a time, in order. */
  function AddEntries(table: ProgramHeader, entries: seq<Entry>): ProgramHeader
    decreases |entries|
  {
    if |entries| == 0 then table else AddEntries(AddEntry(table, entries[0]), entries[1..])
  }

  /** Adding entries one by one extends the table by exactly those entries,
      in order; so the decoded table is the empty table with each decoded
      entry added in turn. */
  lemma {:induction false} AddEntriesAppends(table: ProgramHeader, entries: seq<Entry>)
    ensures AddEntries(table, entries).entries == table.entries + entries
    decreases |entries|
  {
    if |entries| > 0 {
      var next := AddEntry(table, entries[0]);
      AddEntriesAppends(next, entries[1..]);
      assert next.entries == table.entries + [entries[0]];
      assert entries == [entries[0]] + entries[1..];
    }
  }

  /** `ProgramHeader::parse_from_working_context`: as many entries as the
      file header's program-entry count, collected in stream order. Nothing
      else of the file header is consulted. */
  function ParseProgramHeader(input: seq<Byte>, e: Endianess, w: ArchitectureWidth, header: ElfFileHeader.FileHeader)
    : (r: Result<ProgramHeader>)
    ensures r.Ok? ==> |r.value.entries| == header.programHeaderEntryCount
    ensures r.Ok? ==> forall i :: 0 <= i < |r.value.entries| ==> EntryHasWidth(r.value.entries[i], w)
    ensures r.Ok? ==>
      var consumed := header.programHeaderEntryCount * EntrySize(w);
      |input| >= consumed && r.rest == input[consumed..]
    ensures header.programHeaderEntryCount == 0 ==> r == Ok(ProgramHeader.ProgramHeader([]), input)
  {
    var count := header.programHeaderEntryCount as nat;
    var entries :- Collect(Items(ParseEntry, input, e, w, count), input);
    CollectedEntries(input, e, w, count);
    Ok(ProgramHeader.ProgramHeader(entries.value), entries.rest)
  }

  /** Only the program-entry count of the file header is consulted. */
  lemma ProgramHeaderUsesCount(
    input: seq<Byte>, e: Endianess, w: ArchitectureWidth, h1: ElfFileHeader.FileHeader, h2: ElfFileHeader.FileHeader)
    requires h1.programHeaderEntryCount == h2.programHeaderEntryCount
    ensures ParseProgramHeader(input, e, w, h1) == ParseProgramHeader(input, e, w, h2)
  {
  }

  /** A complete collection of `count` entries holds `count` entries and
      fills `count` whole entry slots. */
  lemma CollectedEntries(input: seq<Byte>, e: Endianess, w: ArchitectureWidth, count: nat)
    requires Collect(Items(ParseEntry, input, e, w, count), input).Ok?
    ensures |Collect(Items(ParseEntry, input, e, w, count), input).value| == count
    ensures 0 <= count * EntrySize(w) <= |input|
    ensures Collect(Items(ParseEntry, input, e, w, count), input).rest == input[count * EntrySize(w)..]
    ensures forall i :: 0 <= i < count ==> EntryHasWidth(Collect(Items(ParseEntry, input, e, w, count), input).value[i], w)
  {
    var size := EntrySize(w);
    EntryFixedSize(e, w);
    TableValues(ParseEntry, input, e, w, count, size);
    OffsetIsProduct(count, size);
    CollectedEntriesHaveWidth(input, e, w, count);
  }

  /** Every collected entry carries the file's width. */
  lemma CollectedEntriesHaveWidth(input: seq<Byte>, e: Endianess, w: ArchitectureWidth, count: nat)
    requires Collect(Items(ParseEntry, input, e, w, count), input).Ok?
    ensures forall i :: 0 <= i < count ==> EntryHasWidth(Collect(Items(ParseEntry, input, e, w, count), input).value[i], w)
  {
    EntryFixedSize(e, w);
    forall s | ParseEntry(s, e, w).Ok?
      ensures EntryHasWidth(ParseEntry(s, e, w).value, w)
    {
      ParsedEntryHasWidth(s, e, w);
    }
    TableKeeps(ParseEntry, input, e, w, count, EntrySize(w), (x: Entry) => EntryHasWidth(x, w));
  }

  /** The table decode is all or nothing over the slots: it succeeds exactly
      when every slot holds an entry, and then the entries are the slots'
      in stream order. */
  lemma ProgramHeaderSlots(input: seq<Byte>, e: Endianess, w: ArchitectureWidth, header: ElfFileHeader.FileHeader)
    ensures var r, count := ParseProgramHeader(input, e, w, header), header.programHeaderEntryCount;
      r.Ok? <==> forall i :: 0 <= i < count ==> Slot(ParseEntry, input, e, w, EntrySize(w), i).Ok?
    ensures var r, count := ParseProgramHeader(input, e, w, header), header.programHeaderEntryCount;
      r.Ok? ==> forall i :: 0 <= i < count ==> r.value.entries[i] == Slot(ParseEntry, input, e, w, EntrySize(w), i).value
  {
    var count := header.programHeaderEntryCount as nat;
    EntryFixedSize(e, w);
    TableOkIffSlotsOk(ParseEntry, input, e, w, count, EntrySize(w));
    if ParseProgramHeader(input, e, w, header).Ok? {
      TableValues(ParseEntry, input, e, w, count, EntrySize(w));
    }
  }

  /** A failed table decode is the failure of its first bad slot, returned
      unchanged; no later entry is read. */
  lemma ProgramHeaderFirstFailure(input: seq<Byte>, e: Endianess, w: ArchitectureWidth, header: ElfFileHeader.FileHeader)
    requires ParseProgramHeader(input, e, w, header).Err?
    ensures var r := ParseProgramHeader(input, e, w, header);
      exists k :: (&& 0 <= k < header.programHeaderEntryCount
                   && (forall i :: 0 <= i < k ==> Slot(ParseEntry, input, e, w, EntrySize(w), i).Ok?)
                   && Slot(ParseEntry, input, e, w, EntrySize(w), k) == Err(r.error, r.rest))
  {
    var count := header.programHeaderEntryCount as nat;
    EntryFixedSize(e, w);
    TableFirstFailure(ParseEntry, input, e, w, count, EntrySize(w));
  }
}
