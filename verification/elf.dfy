/** The whole object file as the decoder sees it: the file header, then the
    program header table and the section header table read straight after
    it, both in the header's byte order and width. */
module Elf {
  import opened Bytes
  import opened Errors
  import opened Shared
  import opened ElfParsing
  import ElfFileHeader
  import ElfProgramHeader
  import ElfSectionHeader

  datatype ElfDescriptor = ElfDescriptor(
    fileHeader: ElfFileHeader.FileHeader,
    programHeader: ElfProgramHeader.ProgramHeader,
    sectionHeader: ElfSectionHeader.SectionHeader)

  /** Bytes the program header table occupies, per the header's count. */
  function ProgramTableLength(h: ElfFileHeader.FileHeader): nat
  {
    h.programHeaderEntryCount * ElfProgramHeader.EntrySize(h.width)
  }

  /** Bytes the section header table occupies, per the header's count. */
  function SectionTableLength(h: ElfFileHeader.FileHeader): nat
  {
    h.sectionHeaderEntryCount * ElfSectionHeader.EntrySize(h.width)
  }

  /** Bytes a whole descriptor occupies: header, then both tables. */
  function DescriptorLength(h: ElfFileHeader.FileHeader): nat
  {
    ElfFileHeader.HeaderLength(h.width) + ProgramTableLength(h) + SectionTableLength(h)
  }

  /** Every native integer in the descriptor carries the file's width. */
  predicate DescriptorHasWidth(d: ElfDescriptor)
  {
    var w := d.fileHeader.width;
    && ElfFileHeader.TagsMatchWidth(d.fileHeader)
    && (forall i :: 0 <= i < |d.programHeader.entries| ==> ElfProgramHeader.EntryHasWidth(d.programHeader.entries[i], w))
    && (forall i :: 0 <= i < |d.sectionHeader.entries| ==> ElfSectionHeader.EntryHasWidth(d.sectionHeader.entries[i], w))
  }

  /** `ElfDescriptor::parse`: the file header, then as many program entries
      and section entries as it counts, each table in the header's byte
      order and width, the first failure returned as it is. */
  function ParseElfDescriptor(input: seq<Byte>): (r: Result<ElfDescriptor>)
    ensures r.Ok? ==>
      && |r.value.programHeader.entries| == r.value.fileHeader.programHeaderEntryCount
      && |r.value.sectionHeader.entries| == r.value.fileHeader.sectionHeaderEntryCount
    ensures r.Ok? ==> DescriptorHasWidth(r.value)
    ensures r.Ok? ==>
      |input| >= DescriptorLength(r.value.fileHeader) && r.rest == input[DescriptorLength(r.value.fileHeader)..]
  {
    var fileHeader :- ElfFileHeader.ParseFileHeader(input);
    var h := fileHeader.value;
    var programHeader :- ElfProgramHeader.ParseProgramHeader(fileHeader.rest, h.endianess, h.width, h);
    var sectionHeader :- ElfSectionHeader.ParseSectionHeader(programHeader.rest, h.endianess, h.width, h);
    DescriptorRest(input, fileHeader.rest, programHeader.rest, sectionHeader.rest, h);
    Ok(ElfDescriptor(h, programHeader.value, sectionHeader.value), sectionHeader.rest)
  }

  /** Three stages that each consume their own length consume the sum. */
  lemma DescriptorRest(
    input: seq<Byte>, afterHeader: seq<Byte>, afterPrograms: seq<Byte>, afterSections: seq<Byte>,
    h: ElfFileHeader.FileHeader)
    requires var n := ElfFileHeader.HeaderLength(h.width);
      |input| >= n && afterHeader == input[n..]
    requires |afterHeader| >= ProgramTableLength(h) && afterPrograms == afterHeader[ProgramTableLength(h)..]
    requires |afterPrograms| >= SectionTableLength(h) && afterSections == afterPrograms[SectionTableLength(h)..]
    ensures |input| >= DescriptorLength(h) && afterSections == input[DescriptorLength(h)..]
  {
  }

  /** The stages in order, each failure returned unchanged: a bad header is
      the descriptor's failure; with a good header, a bad program table is;
      with both good, a bad section table is. The descriptor is decoded
      exactly when all three are. */
  lemma DescriptorStages(input: seq<Byte>)
    ensures var fr := ElfFileHeader.ParseFileHeader(input);
      fr.Err? ==> ParseElfDescriptor(input) == Err(fr.error, fr.rest)
    ensures var fr := ElfFileHeader.ParseFileHeader(input);
      fr.Ok? ==>
      var h := fr.value;
      var pr := ElfProgramHeader.ParseProgramHeader(fr.rest, h.endianess, h.width, h);
      && (pr.Err? ==> ParseElfDescriptor(input) == Err(pr.error, pr.rest))
      && (pr.Ok? ==>
          var sr := ElfSectionHeader.ParseSectionHeader(pr.rest, h.endianess, h.width, h);
          && (sr.Err? ==> ParseElfDescriptor(input) == Err(sr.error, sr.rest))
          && (sr.Ok? ==> ParseElfDescriptor(input) == Ok(ElfDescriptor(h, pr.value, sr.value), sr.rest)))
  {
  }

  /** The tables are read from the bytes right after the header, the
      section table right after the program table, whatever the header's
      program and section offset fields say: two headers that differ only
      in those fields read the same tables from the same bytes. */
  lemma TablesFollowHeader(input: seq<Byte>, x: NativeInteger, y: NativeInteger)
    requires ParseElfDescriptor(input).Ok?
    ensures var d := ParseElfDescriptor(input).value;
      var h := d.fileHeader;
      var h' := h.(programHeader := x, sectionHeader := y);
      var tables := input[ElfFileHeader.HeaderLength(h.width)..];
      && ElfProgramHeader.ParseProgramHeader(tables, h.endianess, h.width, h')
         == Ok(d.programHeader, tables[ProgramTableLength(h)..])
      && ElfSectionHeader.ParseSectionHeader(tables[ProgramTableLength(h)..], h.endianess, h.width, h').Ok?
      && ElfSectionHeader.ParseSectionHeader(tables[ProgramTableLength(h)..], h.endianess, h.width, h').value
         == d.sectionHeader
  {
    DescriptorStages(input);
    var fr := ElfFileHeader.ParseFileHeader(input);
    var h := fr.value;
    var h' := h.(programHeader := x, sectionHeader := y);
    var pr := ElfProgramHeader.ParseProgramHeader(fr.rest, h.endianess, h.width, h);
    var sr := ElfSectionHeader.ParseSectionHeader(pr.rest, h.endianess, h.width, h);
    assert fr.Ok? && pr.Ok? && sr.Ok?;
    ElfProgramHeader.ProgramHeaderUsesCount(fr.rest, h.endianess, h.width, h, h');
    ElfSectionHeader.SectionHeaderUsesCount(pr.rest, h.endianess, h.width, h, h');
  }
}
