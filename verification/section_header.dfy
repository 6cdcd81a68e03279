/** The section header table: `count` section entries read back to back
    right after the program header table, `count` taken from the file
    header. */
module ElfSectionHeader {
  import opened Bytes
  import opened Errors
  import opened Parsing
  import opened Shared
  import opened ElfParsing
  import opened Tables
  import ElfFileHeader

  // Section type.

  datatype EntryType =
    | Null | ProgramData | SymbolTable | StringTable | RelocationEntriesWithAddens
    | SymbolHashTable | DynamicLinkingInformation | Notes | ProgramSpaceNoData
    | RelocationEntriesNoAddens | Reserved | DynamicLinkerSymbolTable
    | ArrayOfConstructors | ArrayOfDestructors | ArrayOfPreConstructors
    | SectionGroup | ExtendedSectionIndices | NumberOfDefinedTypes | StartOsSpecific

  /** The accepted section-type codes. 0x0C and 0x0D are not among them. */
  predicate IsEntryTypeCode(c: U32)
  {
    c <= 0x0B || 0x0E <= c <= 0x13 || c == 0x6000_0000
  }

  function EntryTypeCode(t: EntryType): U32
  {
    match t
    case Null => 0x00
    case ProgramData => 0x01
    case SymbolTable => 0x02
    case StringTable => 0x03
    case RelocationEntriesWithAddens => 0x04
    case SymbolHashTable => 0x05
    case DynamicLinkingInformation => 0x06
    case Notes => 0x07
    case ProgramSpaceNoData => 0x08
    case RelocationEntriesNoAddens => 0x09
    case Reserved => 0x0A
    case DynamicLinkerSymbolTable => 0x0B
    case ArrayOfConstructors => 0x0E
    case ArrayOfDestructors => 0x0F
    case ArrayOfPreConstructors => 0x10
    case SectionGroup => 0x11
    case ExtendedSectionIndices => 0x12
    case NumberOfDefinedTypes => 0x13
    case StartOsSpecific => 0x6000_0000
  }

  /** The decoding table for section-type codes. */
  function EntryTypeOf(c: U32): Option<EntryType>
  {
    match c
    case 0x00 => Some(Null)
    case 0x01 => Some(ProgramData)
    case 0x02 => Some(SymbolTable)
    case 0x03 => Some(StringTable)
    case 0x04 => Some(RelocationEntriesWithAddens)
    case 0x05 => Some(SymbolHashTable)
    case 0x06 => Some(DynamicLinkingInformation)
    case 0x07 => Some(Notes)
    case 0x08 => Some(ProgramSpaceNoData)
    case 0x09 => Some(RelocationEntriesNoAddens)
    case 0x0A => Some(Reserved)
    case 0x0B => Some(DynamicLinkerSymbolTable)
    case 0x0E => Some(ArrayOfConstructors)
    case 0x0F => Some(ArrayOfDestructors)
    case 0x10 => Some(ArrayOfPreConstructors)
    case 0x11 => Some(SectionGroup)
    case 0x12 => Some(ExtendedSectionIndices)
    case 0x13 => Some(NumberOfDefinedTypes)
    case 0x6000_0000 => Some(StartOsSpecific)
    case _ => Option.None
  }

  lemma EntryTypeTable(c: U32, t: EntryType)
    ensures EntryTypeOf(c).Some? <==> IsEntryTypeCode(c)
    ensures EntryTypeOf(c).Some? ==> EntryTypeCode(EntryTypeOf(c).value) == c
    ensures EntryTypeOf(EntryTypeCode(t)) == Some(t)
  {
  }

  /** `EntryType::parse_from_endianess`: a 32-bit code in the file's byte
      order; an unknown code fails carrying the four raw bytes in that order. */
  function ParseEntryType(input: seq<Byte>, e: Endianess): (r: Result<EntryType>)
    ensures |input| < 4 ==> r == Err(MissingData, [])
    ensures |input| >= 4 ==> r.rest == input[4..]
    ensures r.Ok? <==> |input| >= 4 && IsEntryTypeCode(ValueOf(input[..4], e))
    ensures r.Ok? ==> To4Bytes(EntryTypeCode(r.value), e) == input[..4]
    ensures |input| >= 4 && r.Err? ==> r.error == InvalidValue(input[..4])
  {
    var code :- ParseU32(input, e);
    EntryTypeTable(code.value, Null);
    match EntryTypeOf(code.value)
    case Some(t) => Ok(t, code.rest)
    case _ => Err(InvalidValue(To4Bytes(code.value, e)), code.rest)
  }

  // Flags.

  /** The section flags: a native integer, kept as read. */
  datatype Flags = Flags(bits: NativeInteger)

  /** `Flags::parse_from_context`: the native integer, wrapped unchanged. */
  function ParseFlags(input: seq<Byte>, e: Endianess, w: ArchitectureWidth): (r: Result<Flags>)
    ensures r.Ok? <==> |input| >= WidthBytes(w)
    ensures r.Ok? ==> HasWidth(r.value.bits, w) && r.rest == input[WidthBytes(w)..]
    ensures r.Ok? ==> r.value.bits == ParseNativeInteger(input, e, w).value
    ensures r.Err? ==> r == Err(MissingData, [])
  {
    var bits :- ParseNativeInteger(input, e, w);
    Ok(Flags(bits.value), bits.rest)
  }

  // Entries.

  datatype SectionHeaderEntry = SectionHeaderEntry(
    nameOffset: U32,
    entryType: EntryType,
    flags: Flags,
    addr: NativeInteger,
    offset: NativeInteger,
    size: NativeInteger,
    associatedSection: U32,
    sectionInfo: U32,
    alignment: NativeInteger,
    entrySize: NativeInteger)

  /** Bytes one entry occupies: four 32-bit words and six native integers. */
  function EntrySize(w: ArchitectureWidth): nat
  {
    16 + 6 * WidthBytes(w)
  }

  /** Every native field of the entry, the flags included, is tagged with the width. */
  predicate EntryHasWidth(entry: SectionHeaderEntry, w: ArchitectureWidth)
  {
    && HasWidth(entry.flags.bits, w)
    && HasWidth(entry.addr, w)
    && HasWidth(entry.offset, w)
    && HasWidth(entry.size, w)
    && HasWidth(entry.alignment, w)
    && HasWidth(entry.entrySize, w)
  }

  /** `SectionHeaderEntry::parse_from_context`. The 32-bit words and the
      type go through the blanket lift that drops the width, so they are
      their byte-order decoders here (see `FromContextIgnoresWidth`). */
  function ParseSectionEntry(input: seq<Byte>, e: Endianess, w: ArchitectureWidth): (r: Result<SectionHeaderEntry>)
    ensures r.Err? && |input| >= 4 && ParseEntryType(input[4..], e).Ok? ==> r == Err(MissingData, [])
    ensures r.Ok? ==> |input| >= EntrySize(w) && r.rest == input[EntrySize(w)..]
  {
    var nameOffset :- ParseU32(input, e);
    var entryType :- ParseEntryType(nameOffset.rest, e);
    var flags :- ParseFlags(entryType.rest, e, w);
    var addr :- ParseNativeInteger(flags.rest, e, w);
    var offset :- ParseNativeInteger(addr.rest, e, w);
    var size :- ParseNativeInteger(offset.rest, e, w);
    var associatedSection :- ParseU32(size.rest, e);
    var sectionInfo :- ParseU32(associatedSection.rest, e);
    var alignment :- ParseNativeInteger(sectionInfo.rest, e, w);
    var entrySize :- ParseNativeInteger(alignment.rest, e, w);
    Ok(SectionHeaderEntry(nameOffset.value, entryType.value, flags.value, addr.value, offset.value, size.value,
                          associatedSection.value, sectionInfo.value, alignment.value, entrySize.value),
       entrySize.rest)
  }

  /** A whole entry with a known section type in the input. */
  predicate IsEntryAt(input: seq<Byte>, e: Endianess, w: ArchitectureWidth)
  {
    |input| >= EntrySize(w) && IsEntryTypeCode(U32At(input, 4, e))
  }

  /** The entry read straight from its field offsets. */
  function EntryAt(input: seq<Byte>, e: Endianess, w: ArchitectureWidth): SectionHeaderEntry
    requires IsEntryAt(input, e, w)
  {
    var n := WidthBytes(w);
    EntryTypeTable(U32At(input, 4, e), Null);
    SectionHeaderEntry(
      U32At(input, 0, e), EntryTypeOf(U32At(input, 4, e)).value, Flags(NativeAt(input, 8, e, w)),
      NativeAt(input, 8 + n, e, w), NativeAt(input, 8 + 2 * n, e, w), NativeAt(input, 8 + 3 * n, e, w),
      U32At(input, 8 + 4 * n, e), U32At(input, 12 + 4 * n, e),
      NativeAt(input, 16 + 4 * n, e, w), NativeAt(input, 16 + 5 * n, e, w))
  }

  /** The name offset, the type and the flags, each decoded where the
      previous field ends, are the fields at offsets 0, 4 and 8. */
  lemma SectionHeadFieldsAt(input: seq<Byte>, e: Endianess, w: ArchitectureWidth)
    requires IsEntryAt(input, e, w)
    ensures var n := WidthBytes(w);
      && ParseU32(input, e) == Ok(U32At(input, 0, e), input[4..])
      && ParseEntryType(input[4..], e) == Ok(EntryTypeOf(U32At(input, 4, e)).value, input[8..])
      && ParseFlags(input[8..], e, w) == Ok(Flags(NativeAt(input, 8, e, w)), input[8 + n..])
  {
    ParseU32At(input, 0, e);
    assert input[0..] == input;
    assert input[4..][..4] == input[4..8];
    EntryTypeTable(U32At(input, 4, e), Null);
    ParseNativeAt(input, 8, e, w);
  }

  /** The seven fields after the flags, each decoded where the previous
      field ends, are the fields at their offsets. */
  lemma SectionTailFieldsAt(input: seq<Byte>, e: Endianess, w: ArchitectureWidth)
    requires |input| >= EntrySize(w)
    ensures var n := WidthBytes(w);
      && ParseNativeInteger(input[8 + n..], e, w) == Ok(NativeAt(input, 8 + n, e, w), input[8 + 2 * n..])
      && ParseNativeInteger(input[8 + 2 * n..], e, w) == Ok(NativeAt(input, 8 + 2 * n, e, w), input[8 + 3 * n..])
      && ParseNativeInteger(input[8 + 3 * n..], e, w) == Ok(NativeAt(input, 8 + 3 * n, e, w), input[8 + 4 * n..])
      && ParseU32(input[8 + 4 * n..], e) == Ok(U32At(input, 8 + 4 * n, e), input[12 + 4 * n..])
      && ParseU32(input[12 + 4 * n..], e) == Ok(U32At(input, 12 + 4 * n, e), input[16 + 4 * n..])
      && ParseNativeInteger(input[16 + 4 * n..], e, w) == Ok(NativeAt(input, 16 + 4 * n, e, w), input[16 + 5 * n..])
      && ParseNativeInteger(input[16 + 5 * n..], e, w) == Ok(NativeAt(input, 16 + 5 * n, e, w), input[EntrySize(w)..])
  {
    var n := WidthBytes(w);
    ParseNativeAt(input, 8 + n, e, w);
    ParseNativeAt(input, 8 + 2 * n, e, w);
    ParseNativeAt(input, 8 + 3 * n, e, w);
    ParseU32At(input, 8 + 4 * n, e);
    ParseU32At(input, 12 + 4 * n, e);
    ParseNativeAt(input, 16 + 4 * n, e, w);
    ParseNativeAt(input, 16 + 5 * n, e, w);
  }

  /** Decoding a whole entry field by field reads the fields at their offsets. */
  lemma ParseSectionEntryAt(input: seq<Byte>, e: Endianess, w: ArchitectureWidth)
    requires IsEntryAt(input, e, w)
    ensures ParseSectionEntry(input, e, w) == Ok(EntryAt(input, e, w), input[EntrySize(w)..])
  {
    SectionHeadFieldsAt(input, e, w);
    SectionTailFieldsAt(input, e, w);
  }

  /** Whether the input holds the name offset and a known section type. */
  lemma SectionEntryPrefix(input: seq<Byte>, e: Endianess, w: ArchitectureWidth)
    ensures |input| < 8 ==> ParseSectionEntry(input, e, w) == Err(MissingData, [])
    ensures |input| >= 8 && !IsEntryTypeCode(U32At(input, 4, e)) ==>
      ParseSectionEntry(input, e, w) == Err(InvalidValue(input[4..8]), input[8..])
    ensures ParseSectionEntry(input, e, w).Ok? ==> |input| >= 8 && IsEntryTypeCode(U32At(input, 4, e))
  {
    if |input| >= 8 {
      assert input[4..][..4] == input[4..8];
      assert input[4..][4..] == input[8..];
    }
  }

  /** An entry decodes exactly when the input holds a whole entry with a
      known section type, and then it is the entry at the field offsets. A
      short input is missing data, whether it ends before the type word or
      after a known type; an unknown type fails with its four raw bytes, the
      stream left after the type word. */
  lemma EntryLayout(input: seq<Byte>, e: Endianess, w: ArchitectureWidth)
    ensures ParseSectionEntry(input, e, w).Ok? <==> IsEntryAt(input, e, w)
    ensures IsEntryAt(input, e, w) ==>
      ParseSectionEntry(input, e, w) == Ok(EntryAt(input, e, w), input[EntrySize(w)..])
    ensures |input| < 8 ==> ParseSectionEntry(input, e, w) == Err(MissingData, [])
    ensures |input| >= 8 && !IsEntryTypeCode(U32At(input, 4, e)) ==>
      ParseSectionEntry(input, e, w) == Err(InvalidValue(input[4..8]), input[8..])
    ensures |input| >= 8 && IsEntryTypeCode(U32At(input, 4, e)) && |input| < EntrySize(w) ==>
      ParseSectionEntry(input, e, w) == Err(MissingData, [])
  {
    SectionEntryPrefix(input, e, w);
    if IsEntryAt(input, e, w) {
      ParseSectionEntryAt(input, e, w);
    } else if |input| >= 8 && IsEntryTypeCode(U32At(input, 4, e)) {
      assert input[4..][..4] == input[4..8];
    }
  }

  /** Every native field of a decoded entry carries the width it was read with. */
  lemma ParsedEntryHasWidth(input: seq<Byte>, e: Endianess, w: ArchitectureWidth)
    requires ParseSectionEntry(input, e, w).Ok?
    ensures EntryHasWidth(ParseSectionEntry(input, e, w).value, w)
  {
    EntryLayout(input, e, w);
  }

  /** Every successful entry decode consumes exactly one entry's bytes. */
  lemma EntryFixedSize(e: Endianess, w: ArchitectureWidth)
    ensures FixedSize(ParseSectionEntry, e, w, EntrySize(w))
  {
  }

  // The table.

  datatype SectionHeader = SectionHeader(entries: seq<SectionHeaderEntry>)

  /** `SectionHeader::parse_entries`: one result per counted entry, each
      decoded from where the previous one left the stream. */
  function ParseEntries(input: seq<Byte>, e: Endianess, w: ArchitectureWidth, header: ElfFileHeader.FileHeader)
    : (r: seq<Result<SectionHeaderEntry>>)
    ensures |r| == header.sectionHeaderEntryCount
    ensures |r| > 0 ==> r[0] == ParseSectionEntry(input, e, w)
  {
    Items(ParseSectionEntry, input, e, w, header.sectionHeaderEntryCount)
  }

  /** Each later item is decoded from the stream its predecessor left. */
  lemma ParseEntriesThreadTheStream(
    input: seq<Byte>, e: Endianess, w: ArchitectureWidth, header: ElfFileHeader.FileHeader, i: nat)
    requires 0 < i < header.sectionHeaderEntryCount
    ensures var items := ParseEntries(input, e, w, header);
      items[i] == ParseSectionEntry(items[i - 1].rest, e, w)
  {
    ItemsThreadTheStream(ParseSectionEntry, input, e, w, header.sectionHeaderEntryCount, i);
  }

  /** `SectionHeader::parse_from_working_context`: the items collected. */
  function ParseSectionHeader(input: seq<Byte>, e: Endianess, w: ArchitectureWidth, header: ElfFileHeader.FileHeader)
    : (r: Result<SectionHeader>)
    ensures r.Ok? ==> |r.value.entries| == header.sectionHeaderEntryCount
    ensures r.Ok? ==> forall i :: 0 <= i < |r.value.entries| ==> EntryHasWidth(r.value.entries[i], w)
    ensures r.Ok? ==>
      var consumed := header.sectionHeaderEntryCount * EntrySize(w);
      |input| >= consumed && r.rest == input[consumed..]
    ensures header.sectionHeaderEntryCount == 0 ==> r == Ok(SectionHeader([]), input)
  {
    var entries :- Collect(ParseEntries(input, e, w, header), input);
    CollectedEntries(input, e, w, header.sectionHeaderEntryCount as nat);
    Ok(SectionHeader(entries.value), entries.rest)
  }

  /** Only the section-entry count of the file header is consulted. */
  lemma SectionHeaderUsesCount(
    input: seq<Byte>, e: Endianess, w: ArchitectureWidth, h1: ElfFileHeader.FileHeader, h2: ElfFileHeader.FileHeader)
    requires h1.sectionHeaderEntryCount == h2.sectionHeaderEntryCount
    ensures ParseSectionHeader(input, e, w, h1) == ParseSectionHeader(input, e, w, h2)
  {
  }

  /** A complete collection of `count` entries holds `count` entries and
      fills `count` whole entry slots. */
  lemma CollectedEntries(input: seq<Byte>, e: Endianess, w: ArchitectureWidth, count: nat)
    requires Collect(Items(ParseSectionEntry, input, e, w, count), input).Ok?
    ensures |Collect(Items(ParseSectionEntry, input, e, w, count), input).value| == count
    ensures 0 <= count * EntrySize(w) <= |input|
    ensures Collect(Items(ParseSectionEntry, input, e, w, count), input).rest == input[count * EntrySize(w)..]
    ensures forall i :: 0 <= i < count ==>
      EntryHasWidth(Collect(Items(ParseSectionEntry, input, e, w, count), input).value[i], w)
  {
    var size := EntrySize(w);
    EntryFixedSize(e, w);
    TableValues(ParseSectionEntry, input, e, w, count, size);
    OffsetIsProduct(count, size);
    CollectedEntriesHaveWidth(input, e, w, count);
  }

  /** Every collected entry carries the file's width. */
  lemma CollectedEntriesHaveWidth(input: seq<Byte>, e: Endianess, w: ArchitectureWidth, count: nat)
    requires Collect(Items(ParseSectionEntry, input, e, w, count), input).Ok?
    ensures forall i :: 0 <= i < count ==>
      EntryHasWidth(Collect(Items(ParseSectionEntry, input, e, w, count), input).value[i], w)
  {
    EntryFixedSize(e, w);
    forall s | ParseSectionEntry(s, e, w).Ok?
      ensures EntryHasWidth(ParseSectionEntry(s, e, w).value, w)
    {
      ParsedEntryHasWidth(s, e, w);
    }
    TableKeeps(ParseSectionEntry, input, e, w, count, EntrySize(w), (x: SectionHeaderEntry) => EntryHasWidth(x, w));
  }

  /** The table decode is all or nothing over the slots: it succeeds exactly
      when every slot holds an entry, and then the entries are the slots'
      in stream order. */
  lemma SectionHeaderSlots(input: seq<Byte>, e: Endianess, w: ArchitectureWidth, header: ElfFileHeader.FileHeader)
    ensures var r, count := ParseSectionHeader(input, e, w, header), header.sectionHeaderEntryCount;
      r.Ok? <==> forall i :: 0 <= i < count ==> Slot(ParseSectionEntry, input, e, w, EntrySize(w), i).Ok?
    ensures var r, count := ParseSectionHeader(input, e, w, header), header.sectionHeaderEntryCount;
      r.Ok? ==> forall i :: 0 <= i < count ==>
        r.value.entries[i] == Slot(ParseSectionEntry, input, e, w, EntrySize(w), i).value
  {
    var count := header.sectionHeaderEntryCount as nat;
    EntryFixedSize(e, w);
    TableOkIffSlotsOk(ParseSectionEntry, input, e, w, count, EntrySize(w));
    if ParseSectionHeader(input, e, w, header).Ok? {
      TableValues(ParseSectionEntry, input, e, w, count, EntrySize(w));
    }
  }

  /** A failed table decode is the failure of its first bad slot, returned
      unchanged; no later entry is read. */
  lemma SectionHeaderFirstFailure(input: seq<Byte>, e: Endianess, w: ArchitectureWidth, header: ElfFileHeader.FileHeader)
    requires ParseSectionHeader(input, e, w, header).Err?
    ensures var r := ParseSectionHeader(input, e, w, header);
      exists k :: (&& 0 <= k < header.sectionHeaderEntryCount
                   && (forall i :: 0 <= i < k ==> Slot(ParseSectionEntry, input, e, w, EntrySize(w), i).Ok?)
                   && Slot(ParseSectionEntry, input, e, w, EntrySize(w), k) == Err(r.error, r.rest))
  {
    var count := header.sectionHeaderEntryCount as nat;
    EntryFixedSize(e, w);
    TableFirstFailure(ParseSectionEntry, input, e, w, count, EntrySize(w));
  }
}
