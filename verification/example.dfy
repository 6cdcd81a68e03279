/** A concrete object file and what the whole decoder yields for it. */
module ElfExample {
  import opened Bytes
  import opened Errors
  import opened Shared
  import opened ElfParsing
  import ElfFileHeader
  import ElfProgramHeader
  import ElfSectionHeader
  import opened Elf

  /** A smallest 64-bit little-endian executable for x86-64 with no entries:
      the magic number, twenty unread bytes, the codes 2, 1, 1, 0 at offsets
      24 to 27, then object type 2 and machine 0x3E, and zeros. The decoder
      reads 72 bytes, not the 64 of a standard ELF64 header. */
  const MinimalExecutable: seq<Byte> :=
    [0x7F, 0x45, 0x4C, 0x46] + seq(20, _ => 0) + [2, 1, 1, 0] + [2, 0, 0x3E, 0] + seq(40, _ => 0)

  /** The header those 72 bytes hold. */
  const MinimalHeader: ElfFileHeader.FileHeader :=
    ElfFileHeader.FileHeader(
      ArchitectureWidth.SixtyFour, Little, ElfFileHeader.One, ElfFileHeader.SystemV,
      ElfFileHeader.Exec, ElfFileHeader.Amd64,
      NativeInteger.SixtyFour(0), NativeInteger.SixtyFour(0), NativeInteger.SixtyFour(0),
      0, 0, 0, 0, 0, 0, 0)

  /** The example decodes to that header with empty tables, using every byte. */
  lemma MinimalExecutableDecodes()
    ensures ParseElfDescriptor(MinimalExecutable) == Ok(
      ElfDescriptor(
        MinimalHeader,
        ElfProgramHeader.ProgramHeader.ProgramHeader([]),
        ElfSectionHeader.SectionHeader([])),
      [])
  {
    MinimalExecutableHeader();
    DescriptorStages(MinimalExecutable);
  }

  lemma MinimalExecutableHeader()
    ensures ElfFileHeader.ParseFileHeader(MinimalExecutable) == Ok(MinimalHeader, [])
  {
    var input := MinimalExecutable;
    assert |input| == 72;
    assert input[..4] == ElfFileHeader.Magic;
    assert input[24..32] == [2, 1, 1, 0, 2, 0, 0x3E, 0];
    assert forall k :: 32 <= k < 72 ==> input[k] == 0;
    assert MinimalHeaderBytes(input);
    MinimalHeaderOfBytes(input);
  }

  /** The bytes the example header depends on. */
  predicate MinimalHeaderBytes(input: seq<Byte>)
  {
    && |input| == 72 && input[..4] == ElfFileHeader.Magic
    && input[24..32] == [2, 1, 1, 0, 2, 0, 0x3E, 0]
    && forall k :: 32 <= k < 72 ==> input[k] == 0
  }

  /** Any 72 bytes with the magic, these codes and zeros after them hold the
      example's header, whatever the twenty bytes after the magic are. */
  lemma MinimalHeaderOfBytes(input: seq<Byte>)
    requires MinimalHeaderBytes(input)
    ensures ElfFileHeader.ParseFileHeader(input) == Ok(MinimalHeader, [])
  {
    MinimalCodes(input);
    ElfFileHeader.ParseFileHeaderLayout(input);
    MinimalFields(input);
    assert input[72..] == [];
  }

  /** The codes at offsets 24 to 31 make the bytes a well-formed header. */
  lemma MinimalCodes(input: seq<Byte>)
    requires MinimalHeaderBytes(input)
    ensures ElfFileHeader.WellFormedHeader(input)
    ensures U16At(input, 28, Little) == 2 && U16At(input, 30, Little) == 0x3E
  {
    var codes := input[24..32];
    assert codes[0] == 2 && codes[1] == 1 && codes[2] == 1 && codes[3] == 0;
    assert codes[4] == 2 && codes[5] == 0 && codes[6] == 0x3E && codes[7] == 0;
    assert input[28..30] == [2, 0];
    assert input[30..32] == [0x3E, 0];
    SmallValue(input[28..30], 2);
    SmallValue(input[30..32], 0x3E);
    ElfFileHeader.OsAbiTable(0, ElfFileHeader.SystemV);
    ElfFileHeader.ObjectFileTypeTable(2, ElfFileHeader.Exec);
    assert ElfFileHeader.InstructionSetArchOf(0x3E) == Some(ElfFileHeader.Amd64);
  }

  /** Every field of the header those bytes hold. */
  lemma MinimalFields(input: seq<Byte>)
    requires MinimalHeaderBytes(input) && ElfFileHeader.WellFormedHeader(input)
    requires U16At(input, 28, Little) == 2 && U16At(input, 30, Little) == 0x3E
    ensures ElfFileHeader.HeaderAt(input) == MinimalHeader
  {
    assert ElfFileHeader.InstructionSetArchOf(0x3E) == Some(ElfFileHeader.Amd64);
    assert ElfFileHeader.ObjectFileTypeOf(2) == Some(ElfFileHeader.Exec);
    assert ElfFileHeader.OsAbiOf(0) == Some(ElfFileHeader.SystemV);
    assert input[24] == 2 && input[25] == 1 && input[27] == 0;
    ZeroFields(input);
  }

  /** Zero bytes read as zero fields. */
  lemma ZeroFields(input: seq<Byte>)
    requires |input| == 72 && forall k :: 32 <= k < 72 ==> input[k] == 0
    ensures NativeAt(input, 32, Little, ArchitectureWidth.SixtyFour) == NativeInteger.SixtyFour(0)
    ensures NativeAt(input, 40, Little, ArchitectureWidth.SixtyFour) == NativeInteger.SixtyFour(0)
    ensures NativeAt(input, 48, Little, ArchitectureWidth.SixtyFour) == NativeInteger.SixtyFour(0)
    ensures U32At(input, 56, Little) == 0
    ensures U16At(input, 60, Little) == 0 && U16At(input, 62, Little) == 0 && U16At(input, 64, Little) == 0
    ensures U16At(input, 66, Little) == 0 && U16At(input, 68, Little) == 0 && U16At(input, 70, Little) == 0
  {
    ZeroValue(input[32..40]);
    ZeroValue(input[40..48]);
    ZeroValue(input[48..56]);
    ZeroValue(input[56..60]);
    ZeroValue(input[60..62]);
    ZeroValue(input[62..64]);
    ZeroValue(input[64..66]);
    ZeroValue(input[66..68]);
    ZeroValue(input[68..70]);
    ZeroValue(input[70..72]);
  }

  /** A low byte followed by a zero byte reads as that byte, little-endian. */
  lemma SmallValue(bs: seq<Byte>, b: Byte)
    requires bs == [b, 0]
    ensures LeValue(bs) == b
  {
    assert bs[1..] == [0];
    assert bs[1..][1..] == [];
  }

  lemma {:induction false} ZeroValue(bs: seq<Byte>)
    requires forall k :: 0 <= k < |bs| ==> bs[k] == 0
    ensures LeValue(bs) == 0
    decreases |bs|
  {
    if |bs| > 0 {
      ZeroValue(bs[1..]);
    }
  }
}
