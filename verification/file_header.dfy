/** The ELF file header: identification, classification, the three
    native-width offsets and the table sizes. Its byte order and width are
    the context every later field is decoded in. */
module ElfFileHeader {
  import opened Bytes
  import opened Errors
  import opened Parsing
  import opened Shared
  import opened ElfParsing

  // ELF format version.

  datatype ElfVersion = One

  /** `ElfVersion::parse`: only version 1 is known. */
  function ParseElfVersion(input: seq<Byte>): (r: Result<ElfVersion>)
    ensures |input| == 0 ==> r == Err(MissingData, [])
    ensures |input| > 0 ==> r.rest == input[1..]
    ensures r.Ok? <==> |input| > 0 && input[0] == 1
    ensures |input| > 0 && r.Err? ==> r.error == InvalidValue([input[0]])
  {
    var version :- ParseU8(input);
    if version.value == 1 then Ok(One, version.rest)
    else Err(InvalidValue([version.value]), version.rest)
  }

  // OS/ABI.

  datatype OsAbi =
    | SystemV | HpUx | NetBsd | Linux | GnuHurd | Solaris | Aix | Irix | FreeBsd
    | Tru64 | NovellModesto | OpenBsd | OpenVms | NonStopKernel | Aros | FenixOs
    | CloudAbi | StratusTechnologiesOpenVos

  /** The OS/ABI codes the decoder accepts: everything up to 0x12 except 0x05. */
  predicate IsOsAbiCode(c: Byte)
  {
    c <= 0x04 || 0x06 <= c <= 0x12
  }

  /** The code of each OS/ABI. */
  function OsAbiCode(a: OsAbi): Byte
  {
    match a
    case SystemV => 0x00
    case HpUx => 0x01
    case NetBsd => 0x02
    case Linux => 0x03
    case GnuHurd => 0x04
    case Solaris => 0x06
    case Aix => 0x07
    case Irix => 0x08
    case FreeBsd => 0x09
    case Tru64 => 0x0A
    case NovellModesto => 0x0B
    case OpenBsd => 0x0C
    case OpenVms => 0x0D
    case NonStopKernel => 0x0E
    case Aros => 0x0F
    case FenixOs => 0x10
    case CloudAbi => 0x11
    case StratusTechnologiesOpenVos => 0x12
  }

  /** The decoding table for OS/ABI codes. */
  function OsAbiOf(c: Byte): Option<OsAbi>
  {
    match c
    case 0x00 => Some(SystemV)
    case 0x01 => Some(HpUx)
    case 0x02 => Some(NetBsd)
    case 0x03 => Some(Linux)
    case 0x04 => Some(GnuHurd)
    case 0x06 => Some(Solaris)
    case 0x07 => Some(Aix)
    case 0x08 => Some(Irix)
    case 0x09 => Some(FreeBsd)
    case 0x0A => Some(Tru64)
    case 0x0B => Some(NovellModesto)
    case 0x0C => Some(OpenBsd)
    case 0x0D => Some(OpenVms)
    case 0x0E => Some(NonStopKernel)
    case 0x0F => Some(Aros)
    case 0x10 => Some(FenixOs)
    case 0x11 => Some(CloudAbi)
    case 0x12 => Some(StratusTechnologiesOpenVos)
    case _ => Option.None
  }

  /** The table is a bijection between the accepted codes and the variants. */
  lemma OsAbiTable(c: Byte, a: OsAbi)
    ensures OsAbiOf(c).Some? <==> IsOsAbiCode(c)
    ensures OsAbiOf(c).Some? ==> OsAbiCode(OsAbiOf(c).value) == c
    ensures OsAbiOf(OsAbiCode(a)) == Some(a)
  {
  }

  /** `OsAbi::parse`: one code byte; an unknown code fails carrying that byte. */
  function ParseOsAbi(input: seq<Byte>): (r: Result<OsAbi>)
    ensures |input| == 0 ==> r == Err(MissingData, [])
    ensures |input| > 0 ==> r.rest == input[1..]
    ensures r.Ok? <==> |input| > 0 && IsOsAbiCode(input[0])
    ensures r.Ok? ==> OsAbiCode(r.value) == input[0]
    ensures |input| > 0 && r.Err? ==> r.error == InvalidValue([input[0]])
  {
    var code :- ParseU8(input);
    OsAbiTable(code.value, SystemV);
    match OsAbiOf(code.value)
    case Some(a) => Ok(a, code.rest)
    case None => Err(InvalidValue([code.value]), code.rest)
  }

  // Object file type.

  datatype ObjectFileType = None | Rel | Exec | Dyn | Core | Loos | Hios | Loproc | Hiproc

  /** The accepted object-type codes: five plain types and four range markers. */
  predicate IsObjectFileTypeCode(c: U16)
  {
    c <= 0x04 || c == 0xFE00 || c == 0xFEFF || c == 0xFF00 || c == 0xFFFF
  }

  function ObjectFileTypeCode(t: ObjectFileType): U16
  {
    match t
    case None => 0x00
    case Rel => 0x01
    case Exec => 0x02
    case Dyn => 0x03
    case Core => 0x04
    case Loos => 0xFE00
    case Hios => 0xFEFF
    case Loproc => 0xFF00
    case Hiproc => 0xFFFF
  }

  /** The decoding table for object-type codes. */
  function ObjectFileTypeOf(c: U16): Option<ObjectFileType>
  {
    match c
    case 0x00 => Some(ObjectFileType.None)
    case 0x01 => Some(Rel)
    case 0x02 => Some(Exec)
    case 0x03 => Some(Dyn)
    case 0x04 => Some(Core)
    case 0xFE00 => Some(Loos)
    case 0xFEFF => Some(Hios)
    case 0xFF00 => Some(Loproc)
    case 0xFFFF => Some(Hiproc)
    case _ => Option.None
  }

  lemma ObjectFileTypeTable(c: U16, t: ObjectFileType)
    ensures ObjectFileTypeOf(c).Some? <==> IsObjectFileTypeCode(c)
    ensures ObjectFileTypeOf(c).Some? ==> ObjectFileTypeCode(ObjectFileTypeOf(c).value) == c
    ensures ObjectFileTypeOf(ObjectFileTypeCode(t)) == Some(t)
  {
  }

  /** `ObjectFileType::parse_from_endianess`: a 16-bit code in the file's
      byte order; an unknown code fails carrying the two raw bytes. */
  function ParseObjectFileType(input: seq<Byte>, e: Endianess): (r: Result<ObjectFileType>)
    ensures |input| < 2 ==> r == Err(MissingData, [])
    ensures |input| >= 2 ==> r.rest == input[2..]
    ensures r.Ok? <==> |input| >= 2 && IsObjectFileTypeCode(ValueOf(input[..2], e))
    ensures r.Ok? ==> To2Bytes(ObjectFileTypeCode(r.value), e) == input[..2]
    ensures |input| >= 2 && r.Err? ==> r.error == InvalidValue(input[..2])
  {
    var code :- ParseU16(input, e);
    ObjectFileTypeTable(code.value, ObjectFileType.None);
    match ObjectFileTypeOf(code.value)
    case Some(t) => Ok(t, code.rest)
    case _ => Err(InvalidValue(To2Bytes(code.value, e)), code.rest)
  }

  // Instruction set architecture.

  datatype InstructionSetArch =
    | NoSpecific | AttWe32100 | Sparc | X86 | Motorolla68000 | Motorolla88000
    | IntelMcu | Intel80860 | Mips | IbmSystem370 | MipsRs3000LittleEndian
    | Reserved | HewlettPackardPaRisc | Intel80960 | PowerPc | PowerPc64 | S390
    | Arm | SuperH | IA64 | Amd64 | Tms320C6000 | Arm64 | RiscV

  /** The accepted machine codes. 0x10..0x12 are not among them. */
  predicate IsInstructionSetCode(c: U16)
  {
    || c <= 0x0F
    || 0x13 <= c <= 0x16
    || c == 0x28 || c == 0x2A || c == 0x32 || c == 0x3E
    || c == 0x8C || c == 0xB7 || c == 0xF3
  }

  /** The codes that decode to each machine: four for `Reserved`, one for
      every other variant. */
  function InstructionSetCodes(a: InstructionSetArch): set<U16>
  {
    match a
    case NoSpecific => {0x00}
    case AttWe32100 => {0x01}
    case Sparc => {0x02}
    case X86 => {0x03}
    case Motorolla68000 => {0x04}
    case Motorolla88000 => {0x05}
    case IntelMcu => {0x06}
    case Intel80860 => {0x07}
    case Mips => {0x08}
    case IbmSystem370 => {0x09}
    case MipsRs3000LittleEndian => {0x0A}
    case Reserved => {0x0B, 0x0C, 0x0D, 0x0F}
    case HewlettPackardPaRisc => {0x0E}
    case Intel80960 => {0x13}
    case PowerPc => {0x14}
    case PowerPc64 => {0x15}
    case S390 => {0x16}
    case Arm => {0x28}
    case SuperH => {0x2A}
    case IA64 => {0x32}
    case Amd64 => {0x3E}
    case Tms320C6000 => {0x8C}
    case Arm64 => {0xB7}
    case RiscV => {0xF3}
  }

  /** The decoding table for machine codes. */
  function InstructionSetArchOf(c: U16): Option<InstructionSetArch>
  {
    match c
    case 0x00 => Some(NoSpecific)
    case 0x01 => Some(AttWe32100)
    case 0x02 => Some(Sparc)
    case 0x03 => Some(X86)
    case 0x04 => Some(Motorolla68000)
    case 0x05 => Some(Motorolla88000)
    case 0x06 => Some(IntelMcu)
    case 0x07 => Some(Intel80860)
    case 0x08 => Some(Mips)
    case 0x09 => Some(IbmSystem370)
    case 0x0A => Some(MipsRs3000LittleEndian)
    case 0x0B => Some(Reserved)
    case 0x0C => Some(Reserved)
    case 0x0D => Some(Reserved)
    case 0x0E => Some(HewlettPackardPaRisc)
    case 0x0F => Some(Reserved)
    case 0x13 => Some(Intel80960)
    case 0x14 => Some(PowerPc)
    case 0x15 => Some(PowerPc64)
    case 0x16 => Some(S390)
    case 0x28 => Some(Arm)
    case 0x2A => Some(SuperH)
    case 0x32 => Some(IA64)
    case 0x3E => Some(Amd64)
    case 0x8C => Some(Tms320C6000)
    case 0xB7 => Some(Arm64)
    case 0xF3 => Some(RiscV)
    case _ => Option.None
  }

  /** A code decodes to a machine exactly when it is one of that machine's codes. */
  lemma InstructionSetTable(c: U16, a: InstructionSetArch)
    ensures InstructionSetArchOf(c).Some? <==> IsInstructionSetCode(c)
    ensures InstructionSetArchOf(c) == Some(a) <==> c in InstructionSetCodes(a)
  {
  }

  /** `InstructionSetArch::parse_from_endianess`: a 16-bit code in the
      file's byte order; an unknown code fails carrying the two raw bytes. */
  function ParseInstructionSetArch(input: seq<Byte>, e: Endianess): (r: Result<InstructionSetArch>)
    ensures |input| < 2 ==> r == Err(MissingData, [])
    ensures |input| >= 2 ==> r.rest == input[2..]
    ensures r.Ok? <==> |input| >= 2 && IsInstructionSetCode(ValueOf(input[..2], e))
    ensures r.Ok? ==> ValueOf(input[..2], e) in InstructionSetCodes(r.value)
    ensures |input| >= 2 && r.Err? ==> r.error == InvalidValue(input[..2])
  {
    var code :- ParseU16(input, e);
    InstructionSetTable(code.value, NoSpecific);
    match InstructionSetArchOf(code.value)
    case Some(a) =>
      InstructionSetTable(code.value, a);
      Ok(a, code.rest)
    case None => Err(InvalidValue(To2Bytes(code.value, e)), code.rest)
  }

  // The header.

  datatype FileHeader = FileHeader(
    width: ArchitectureWidth,
    endianess: Endianess,
    elfVersion: ElfVersion,
    osAbi: OsAbi,
    objectFileType: ObjectFileType,
    instructionSetArch: InstructionSetArch,
    entryPoint: NativeInteger,
    programHeader: NativeInteger,
    sectionHeader: NativeInteger,
    flags: U32,
    fileHeaderSize: U16,
    programHeaderEntrySize: U16,
    programHeaderEntryCount: U16,
    sectionHeaderEntrySize: U16,
    sectionHeaderEntryCount: U16,
    sectionNamesEntryIndex: U16)

  /** The three groups of fields the header decoder reads in turn: the four
      identification codes, the classification with the three native
      offsets, and the flags with the six 16-bit sizes. */
  datatype Identification = Identification(
    width: ArchitectureWidth, endianess: Endianess, elfVersion: ElfVersion, osAbi: OsAbi)

  datatype Classification = Classification(
    objectFileType: ObjectFileType, instructionSetArch: InstructionSetArch,
    entryPoint: NativeInteger, programHeader: NativeInteger, sectionHeader: NativeInteger)

  datatype Sizes = Sizes(
    flags: U32, fileHeaderSize: U16, programHeaderEntrySize: U16, programHeaderEntryCount: U16,
    sectionHeaderEntrySize: U16, sectionHeaderEntryCount: U16, sectionNamesEntryIndex: U16)

  /** 0x7F 'E' 'L' 'F'. */
  const Magic: seq<Byte> := [0x7F, 0x45, 0x4C, 0x46]

  function WidthOfCode(c: Byte): ArchitectureWidth
    requires c == 1 || c == 2
  {
    if c == 1 then ArchitectureWidth.ThirtyTwo else ArchitectureWidth.SixtyFour
  }

  function EndianessOfCode(c: Byte): Endianess
    requires c == 1 || c == 2
  {
    if c == 1 then Little else Big
  }

  /** The four identification codes are all accepted: a width, a byte
      order, version 1 and a known OS/ABI. */
  predicate GoodIdentification(codes: seq<Byte>)
  {
    && |codes| >= 4
    && (codes[0] == 1 || codes[0] == 2)
    && (codes[1] == 1 || codes[1] == 2)
    && codes[2] == 1
    && IsOsAbiCode(codes[3])
  }

  /** Width, byte order, version and OS/ABI: four single-byte codes. */
  function ParseIdentification(input: seq<Byte>): (r: Result<Identification>)
    ensures r.Ok? <==> GoodIdentification(input)
    ensures r.Ok? ==>
      && r.rest == input[4..]
      && r.value.width == WidthOfCode(input[0])
      && r.value.endianess == EndianessOfCode(input[1])
      && OsAbiCode(r.value.osAbi) == input[3]
  {
    var width :- ParseArchitectureWidth(input);
    var endianess :- ParseEndianess(width.rest);
    var elfVersion :- ParseElfVersion(endianess.rest);
    var osAbi :- ParseOsAbi(elfVersion.rest);
    assert input[1..][1..] == input[2..] && input[2..][1..] == input[3..] && input[3..][1..] == input[4..];
    Ok(Identification(width.value, endianess.value, elfVersion.value, osAbi.value), osAbi.rest)
  }

  /** The first bad identification code is the failure, carrying that one
      byte, with the stream left just after it; input that runs out before
      any bad code is missing data. */
  lemma IdentificationErrors(input: seq<Byte>)
    ensures |input| >= 1 && input[0] != 1 && input[0] != 2 ==>
      ParseIdentification(input) == Err(InvalidValue([input[0]]), input[1..])
    ensures |input| >= 2 && (input[0] == 1 || input[0] == 2) && input[1] != 1 && input[1] != 2 ==>
      ParseIdentification(input) == Err(InvalidValue([input[1]]), input[2..])
    ensures |input| >= 3 && (input[0] == 1 || input[0] == 2) && (input[1] == 1 || input[1] == 2) && input[2] != 1 ==>
      ParseIdentification(input) == Err(InvalidValue([input[2]]), input[3..])
    ensures |input| >= 4 && (input[0] == 1 || input[0] == 2) && (input[1] == 1 || input[1] == 2) && input[2] == 1
            && !IsOsAbiCode(input[3]) ==>
      ParseIdentification(input) == Err(InvalidValue([input[3]]), input[4..])
    ensures |input| < 4
            && (|input| < 1 || input[0] == 1 || input[0] == 2)
            && (|input| < 2 || input[1] == 1 || input[1] == 2)
            && (|input| < 3 || input[2] == 1) ==>
      ParseIdentification(input) == Err(MissingData, [])
  {
    if |input| >= 2 { assert input[1..][0] == input[1] && input[1..][1..] == input[2..]; }
    if |input| >= 3 { assert input[2..][0] == input[2] && input[2..][1..] == input[3..]; }
    if |input| >= 4 { assert input[3..][0] == input[3] && input[3..][1..] == input[4..]; }
  }

  /** Where each classification field sits, for inputs long enough to hold it. */
  lemma ClassificationFieldsAt(input: seq<Byte>, e: Endianess, w: ArchitectureWidth)
    ensures |input| >= 2 ==> ParseU16(input, e) == Ok(U16At(input, 0, e), input[2..])
    ensures |input| >= 4 ==> ParseU16(input[2..], e) == Ok(U16At(input, 2, e), input[4..])
    ensures |input| >= 4 + WidthBytes(w) ==>
      ParseNativeInteger(input[4..], e, w) == Ok(NativeAt(input, 4, e, w), input[4 + WidthBytes(w)..])
    ensures |input| >= 4 + 2 * WidthBytes(w) ==>
      ParseNativeInteger(input[4 + WidthBytes(w)..], e, w)
        == Ok(NativeAt(input, 4 + WidthBytes(w), e, w), input[4 + 2 * WidthBytes(w)..])
    ensures |input| >= 4 + 3 * WidthBytes(w) ==>
      ParseNativeInteger(input[4 + 2 * WidthBytes(w)..], e, w)
        == Ok(NativeAt(input, 4 + 2 * WidthBytes(w), e, w), input[4 + 3 * WidthBytes(w)..])
  {
    var n := WidthBytes(w);
    if |input| >= 2 {
      ParseU16At(input, 0, e);
      assert input[0..] == input;
    }
    if |input| >= 4 {
      ParseU16At(input, 2, e);
    }
    if |input| >= 4 + n {
      ParseNativeAt(input, 4, e, w);
    }
    if |input| >= 4 + 2 * n {
      ParseNativeAt(input, 4 + n, e, w);
    }
    if |input| >= 4 + 3 * n {
      ParseNativeAt(input, 4 + 2 * n, e, w);
    }
  }

  /** Object type, machine and the three native offsets, in the file's byte
      order and width. An unknown object type or machine fails with its two
      raw bytes and the reader past them; once both codes are accepted, any
      failure is missing data. */
  function ParseClassification(input: seq<Byte>, e: Endianess, w: ArchitectureWidth): (r: Result<Classification>)
    ensures |input| < 2 ==> r == Err(MissingData, [])
    ensures |input| >= 2 && !IsObjectFileTypeCode(U16At(input, 0, e)) ==>
      r == Err(InvalidValue(input[..2]), input[2..])
    ensures |input| >= 4 && IsObjectFileTypeCode(U16At(input, 0, e)) && !IsInstructionSetCode(U16At(input, 2, e)) ==>
      r == Err(InvalidValue(input[2..4]), input[4..])
    ensures r.Err? && |input| >= 2 && IsObjectFileTypeCode(U16At(input, 0, e))
            && (|input| < 4 || IsInstructionSetCode(U16At(input, 2, e))) ==>
      r == Err(MissingData, [])
    ensures r.Ok? ==> |input| >= 4 + 3 * WidthBytes(w) && r.rest == input[4 + 3 * WidthBytes(w)..]
  {
    assert |input| >= 2 ==> input[..2] == input[0..2];
    assert |input| >= 4 ==> input[2..][..2] == input[2..4];
    var objectFileType :- ParseObjectFileType(input, e);
    var instructionSetArch :- ParseInstructionSetArch(objectFileType.rest, e);
    var entryPoint :- ParseNativeInteger(instructionSetArch.rest, e, w);
    var programHeader :- ParseNativeInteger(entryPoint.rest, e, w);
    var sectionHeader :- ParseNativeInteger(programHeader.rest, e, w);
    Ok(Classification(objectFileType.value, instructionSetArch.value,
                      entryPoint.value, programHeader.value, sectionHeader.value),
       sectionHeader.rest)
  }

  /** The classification succeeds when the input holds it and both codes are
      known, and then holds the fields at their offsets. */
  lemma ClassificationLayout(input: seq<Byte>, e: Endianess, w: ArchitectureWidth)
    ensures ParseClassification(input, e, w).Ok? <==>
      && |input| >= 4 + 3 * WidthBytes(w)
      && IsObjectFileTypeCode(U16At(input, 0, e))
      && IsInstructionSetCode(U16At(input, 2, e))
    ensures var r := ParseClassification(input, e, w);
      r.Ok? ==>
      var n := WidthBytes(w);
      && ObjectFileTypeCode(r.value.objectFileType) == U16At(input, 0, e)
      && U16At(input, 2, e) in InstructionSetCodes(r.value.instructionSetArch)
      && r.value.entryPoint == NativeAt(input, 4, e, w)
      && r.value.programHeader == NativeAt(input, 4 + n, e, w)
      && r.value.sectionHeader == NativeAt(input, 4 + 2 * n, e, w)
  {
    ClassificationFieldsAt(input, e, w);
  }

  /** Where each size field sits, for inputs long enough to hold it. */
  lemma SizesFieldsAt(input: seq<Byte>, e: Endianess)
    ensures |input| >= 4 ==> ParseU32(input, e) == Ok(U32At(input, 0, e), input[4..])
    ensures |input| >= 6 ==> ParseU16(input[4..], e) == Ok(U16At(input, 4, e), input[6..])
    ensures |input| >= 8 ==> ParseU16(input[6..], e) == Ok(U16At(input, 6, e), input[8..])
    ensures |input| >= 10 ==> ParseU16(input[8..], e) == Ok(U16At(input, 8, e), input[10..])
    ensures |input| >= 12 ==> ParseU16(input[10..], e) == Ok(U16At(input, 10, e), input[12..])
    ensures |input| >= 14 ==> ParseU16(input[12..], e) == Ok(U16At(input, 12, e), input[14..])
    ensures |input| >= 16 ==> ParseU16(input[14..], e) == Ok(U16At(input, 14, e), input[16..])
  {
    if |input| >= 4 {
      ParseU32At(input, 0, e);
      assert input[0..] == input;
    }
    if |input| >= 6 { ParseU16At(input, 4, e); }
    if |input| >= 8 { ParseU16At(input, 6, e); }
    if |input| >= 10 { ParseU16At(input, 8, e); }
    if |input| >= 12 { ParseU16At(input, 10, e); }
    if |input| >= 14 { ParseU16At(input, 12, e); }
    if |input| >= 16 { ParseU16At(input, 14, e); }
  }

  /** The flags word and the six 16-bit size, count and index fields. */
  function ParseSizes(input: seq<Byte>, e: Endianess): (r: Result<Sizes>)
    ensures r.Ok? <==> |input| >= 16
    ensures r.Ok? ==> r.rest == input[16..]
    ensures r.Err? ==> r == Err(MissingData, [])
  {
    var flags :- ParseU32(input, e);
    var fileHeaderSize :- ParseU16(flags.rest, e);
    var programHeaderEntrySize :- ParseU16(fileHeaderSize.rest, e);
    var programHeaderEntryCount :- ParseU16(programHeaderEntrySize.rest, e);
    var sectionHeaderEntrySize :- ParseU16(programHeaderEntryCount.rest, e);
    var sectionHeaderEntryCount :- ParseU16(sectionHeaderEntrySize.rest, e);
    var sectionNamesEntryIndex :- ParseU16(sectionHeaderEntryCount.rest, e);
    Ok(Sizes(flags.value, fileHeaderSize.value, programHeaderEntrySize.value, programHeaderEntryCount.value,
             sectionHeaderEntrySize.value, sectionHeaderEntryCount.value, sectionNamesEntryIndex.value),
       sectionNamesEntryIndex.rest)
  }

  /** Bytes a successful header decode consumes: the 24-byte prefix, four
      identification bytes, two 16-bit codes, three native integers, the
      flags word and six 16-bit fields. */
  function HeaderLength(w: ArchitectureWidth): nat
  {
    48 + 3 * WidthBytes(w)
  }

  /** The three native fields carry the header's width. */
  predicate TagsMatchWidth(h: FileHeader)
  {
    && HasWidth(h.entryPoint, h.width)
    && HasWidth(h.programHeader, h.width)
    && HasWidth(h.sectionHeader, h.width)
  }

  /** The inputs the header decoder accepts, by absolute offset: the magic
      at 0, width at 24, byte order at 25, version at 26, OS/ABI at 27,
      object type at 28 and machine at 30, and room for the whole header.
      Bytes 4 to 23 are not constrained. */
  predicate WellFormedHeader(input: seq<Byte>)
  {
    && |input| >= 28
    && input[..4] == Magic
    && GoodIdentification(input[24..])
    && |input| >= HeaderLength(WidthOfCode(input[24]))
    && IsObjectFileTypeCode(U16At(input, 28, EndianessOfCode(input[25])))
    && IsInstructionSetCode(U16At(input, 30, EndianessOfCode(input[25])))
  }

  /** The header a well-formed input holds, each field read at its offset. */
  function HeaderAt(input: seq<Byte>): FileHeader
    requires WellFormedHeader(input)
  {
    var w, e := WidthOfCode(input[24]), EndianessOfCode(input[25]);
    var n := WidthBytes(w);
    OsAbiTable(input[27], SystemV);
    ObjectFileTypeTable(U16At(input, 28, e), ObjectFileType.None);
    InstructionSetTable(U16At(input, 30, e), NoSpecific);
    FileHeader(
      w, e, One,
      OsAbiOf(input[27]).value,
      ObjectFileTypeOf(U16At(input, 28, e)).value,
      InstructionSetArchOf(U16At(input, 30, e)).value,
      NativeAt(input, 32, e, w),
      NativeAt(input, 32 + n, e, w),
      NativeAt(input, 32 + 2 * n, e, w),
      U32At(input, 32 + 3 * n, e),
      U16At(input, 36 + 3 * n, e),
      U16At(input, 38 + 3 * n, e),
      U16At(input, 40 + 3 * n, e),
      U16At(input, 42 + 3 * n, e),
      U16At(input, 44 + 3 * n, e),
      U16At(input, 46 + 3 * n, e))
  }

  /** The classification fields, read relative to offset 28, are the
      fields at their absolute offsets. */
  lemma ClassificationShift(input: seq<Byte>, e: Endianess, w: ArchitectureWidth)
    requires |input| >= 28
    ensures |input| >= 30 ==> U16At(input[28..], 0, e) == U16At(input, 28, e)
    ensures |input| >= 32 ==> U16At(input[28..], 2, e) == U16At(input, 30, e)
    ensures |input| >= HeaderLength(w) ==>
      var n := WidthBytes(w);
      && NativeAt(input[28..], 4, e, w) == NativeAt(input, 32, e, w)
      && NativeAt(input[28..], 4 + n, e, w) == NativeAt(input, 32 + n, e, w)
      && NativeAt(input[28..], 4 + 2 * n, e, w) == NativeAt(input, 32 + 2 * n, e, w)
  {
    var n := WidthBytes(w);
    if |input| >= 30 { U16Shift(input, 28, 0, e); }
    if |input| >= 32 { U16Shift(input, 28, 2, e); }
    if |input| >= HeaderLength(w) {
      NativeShift(input, 28, 4, e, w);
      NativeShift(input, 28, 4 + n, e, w);
      NativeShift(input, 28, 4 + 2 * n, e, w);
    }
  }

  /** The size fields, read relative to where they start, are the fields at
      their absolute offsets. */
  lemma SizesShift(input: seq<Byte>, e: Endianess, w: ArchitectureWidth)
    requires |input| >= HeaderLength(w)
    ensures
      var k := 32 + 3 * WidthBytes(w);
      && U32At(input[k..], 0, e) == U32At(input, k, e)
      && U16At(input[k..], 4, e) == U16At(input, k + 4, e)
      && U16At(input[k..], 6, e) == U16At(input, k + 6, e)
      && U16At(input[k..], 8, e) == U16At(input, k + 8, e)
      && U16At(input[k..], 10, e) == U16At(input, k + 10, e)
      && U16At(input[k..], 12, e) == U16At(input, k + 12, e)
      && U16At(input[k..], 14, e) == U16At(input, k + 14, e)
  {
    var k := 32 + 3 * WidthBytes(w);
    U32Shift(input, k, 0, e);
    U16Shift(input, k, 4, e);
    U16Shift(input, k, 6, e);
    U16Shift(input, k, 8, e);
    U16Shift(input, k, 10, e);
    U16Shift(input, k, 12, e);
    U16Shift(input, k, 14, e);
  }

  /** `FileHeader::parse`. A 24-byte prefix is read and only its first four
      bytes are checked (a mismatch is reported as missing data); the rest of
      the header is read from the stream after the prefix. There a bad
      identification code fails as `ParseIdentification` reports it, an
      unknown object type or machine fails with its two raw bytes, and once
      every code is accepted any failure is missing data. */
  function ParseFileHeader(input: seq<Byte>): (r: Result<FileHeader>)
    ensures |input| < 24 ==> r == Err(MissingData, [])
    ensures |input| >= 24 && input[..4] != Magic ==> r == Err(MissingData, input[24..])
    ensures |input| >= 24 && input[..4] == Magic && !GoodIdentification(input[24..]) ==>
      r == Err(ParseIdentification(input[24..]).error, ParseIdentification(input[24..]).rest)
    ensures |input| >= 24 && input[..4] == Magic && GoodIdentification(input[24..]) ==>
      var e := EndianessOfCode(input[25]);
      && (|input| >= 30 && !IsObjectFileTypeCode(U16At(input, 28, e)) ==>
            r == Err(InvalidValue(input[28..30]), input[30..]))
      && (|input| >= 32 && IsObjectFileTypeCode(U16At(input, 28, e)) && !IsInstructionSetCode(U16At(input, 30, e)) ==>
            r == Err(InvalidValue(input[30..32]), input[32..]))
      && (r.Err? && (|input| < 30 || IsObjectFileTypeCode(U16At(input, 28, e)))
                 && (|input| < 32 || IsInstructionSetCode(U16At(input, 30, e))) ==>
            r == Err(MissingData, []))
    ensures r.Ok? ==> TagsMatchWidth(r.value)
    ensures r.Ok? ==> |input| >= HeaderLength(r.value.width) && r.rest == input[HeaderLength(r.value.width)..]
  {
    var prefix :- ReadBytes(24, input);
    if prefix.value[..4] != Magic then Err(MissingData, prefix.rest)
    else
      assert |input| >= 28 ==> input[24..][4..] == input[28..] && input[24..][1] == input[25] && input[24..][0] == input[24];
      assert |input| >= 30 ==> input[28..][..2] == input[28..30] && input[28..][2..] == input[30..];
      assert |input| >= 32 ==> input[28..][2..4] == input[30..32] && input[28..][4..] == input[32..];
      assert GoodIdentification(input[24..]) ==>
        var e := EndianessOfCode(input[25]);
        && (|input| >= 30 ==> U16At(input[28..], 0, e) == U16At(input, 28, e))
        && (|input| >= 32 ==> U16At(input[28..], 2, e) == U16At(input, 30, e))
      by {
        if GoodIdentification(input[24..]) {
          ClassificationShift(input, EndianessOfCode(input[25]), ArchitectureWidth.ThirtyTwo);
        }
      }
      var r := ParseHeaderBody(prefix.rest);
      assert r.Ok? ==> input[24..][HeaderLength(r.value.width) - 24..] == input[HeaderLength(r.value.width)..];
      r
  }

  /** The identification codes, the classification and the sizes, in that
      order, from the stream after the prefix. A bad identification code or
      a bad classification is the failure as those decoders report it; once
      both are read, any failure is missing data. */
  function ParseHeaderBody(input: seq<Byte>): (r: Result<FileHeader>)
    ensures !GoodIdentification(input) ==>
      r == Err(ParseIdentification(input).error, ParseIdentification(input).rest)
    ensures GoodIdentification(input) ==>
      var cr := ParseClassification(input[4..], EndianessOfCode(input[1]), WidthOfCode(input[0]));
      && (cr.Err? ==> r == Err(cr.error, cr.rest))
      && (cr.Ok? && r.Err? ==> r == Err(MissingData, []))
    ensures r.Ok? ==> TagsMatchWidth(r.value)
    ensures r.Ok? ==> |input| >= HeaderLength(r.value.width) - 24 && r.rest == input[HeaderLength(r.value.width) - 24..]
  {
    var ident :- ParseIdentification(input);
    var classification :- ParseClassification(ident.rest, ident.value.endianess, ident.value.width);
    ClassificationLayout(ident.rest, ident.value.endianess, ident.value.width);
    var sizes :- ParseSizes(classification.rest, ident.value.endianess);
    Ok(Assemble(ident.value, classification.value, sizes.value), sizes.rest)
  }

  /** The header made of its three groups of fields. */
  function Assemble(i: Identification, c: Classification, z: Sizes): FileHeader
  {
    FileHeader(
      i.width, i.endianess, i.elfVersion, i.osAbi,
      c.objectFileType, c.instructionSetArch, c.entryPoint, c.programHeader, c.sectionHeader,
      z.flags, z.fileHeaderSize, z.programHeaderEntrySize, z.programHeaderEntryCount,
      z.sectionHeaderEntrySize, z.sectionHeaderEntryCount, z.sectionNamesEntryIndex)
  }

  /** Groups of fields that agree with the absolute offsets assemble into
      the header found there. */
  lemma AssembleAt(input: seq<Byte>, i: Identification, c: Classification, z: Sizes)
    requires WellFormedHeader(input)
    requires i.width == WidthOfCode(input[24]) && i.endianess == EndianessOfCode(input[25])
    requires OsAbiCode(i.osAbi) == input[27]
    requires ObjectFileTypeCode(c.objectFileType) == U16At(input, 28, i.endianess)
    requires U16At(input, 30, i.endianess) in InstructionSetCodes(c.instructionSetArch)
    requires var n, e, w := WidthBytes(i.width), i.endianess, i.width;
      && c.entryPoint == NativeAt(input, 32, e, w)
      && c.programHeader == NativeAt(input, 32 + n, e, w)
      && c.sectionHeader == NativeAt(input, 32 + 2 * n, e, w)
      && z == Sizes(U32At(input, 32 + 3 * n, e), U16At(input, 36 + 3 * n, e), U16At(input, 38 + 3 * n, e),
                    U16At(input, 40 + 3 * n, e), U16At(input, 42 + 3 * n, e), U16At(input, 44 + 3 * n, e),
                    U16At(input, 46 + 3 * n, e))
    ensures Assemble(i, c, z) == HeaderAt(input)
  {
    var e := i.endianess;
    OsAbiTable(input[27], i.osAbi);
    ObjectFileTypeTable(U16At(input, 28, e), c.objectFileType);
    InstructionSetTable(U16At(input, 30, e), c.instructionSetArch);
    var h := HeaderAt(input);
    assert h.osAbi == i.osAbi;
    assert h.objectFileType == c.objectFileType;
    assert h.instructionSetArch == c.instructionSetArch;
  }

  /** The sizes hold the fields at their offsets. */
  lemma SizesLayout(input: seq<Byte>, e: Endianess)
    requires |input| >= 16
    ensures ParseSizes(input, e).value
      == Sizes(U32At(input, 0, e), U16At(input, 4, e), U16At(input, 6, e), U16At(input, 8, e),
               U16At(input, 10, e), U16At(input, 12, e), U16At(input, 14, e))
  {
    SizesFieldsAt(input, e);
  }

  /** On a well-formed input each stage succeeds on the fields at their
      absolute offsets. */
  lemma IdentificationAt(input: seq<Byte>)
    requires WellFormedHeader(input)
    ensures var ir := ParseIdentification(input[24..]);
      && ir.Ok? && ir.rest == input[28..]
      && ir.value.width == WidthOfCode(input[24]) && ir.value.endianess == EndianessOfCode(input[25])
      && OsAbiCode(ir.value.osAbi) == input[27]
  {
    var s := input[24..];
    assert s[0] == input[24] && s[1] == input[25] && s[2] == input[26] && s[3] == input[27];
  }

  lemma ClassificationAt(input: seq<Byte>)
    requires WellFormedHeader(input)
    ensures var w, e := WidthOfCode(input[24]), EndianessOfCode(input[25]);
      var n := WidthBytes(w);
      var cr := ParseClassification(input[28..], e, w);
      && cr.Ok? && cr.rest == input[32 + 3 * n..]
      && ObjectFileTypeCode(cr.value.objectFileType) == U16At(input, 28, e)
      && U16At(input, 30, e) in InstructionSetCodes(cr.value.instructionSetArch)
      && cr.value.entryPoint == NativeAt(input, 32, e, w)
      && cr.value.programHeader == NativeAt(input, 32 + n, e, w)
      && cr.value.sectionHeader == NativeAt(input, 32 + 2 * n, e, w)
  {
    var w, e := WidthOfCode(input[24]), EndianessOfCode(input[25]);
    var n := WidthBytes(w);
    ClassificationShift(input, e, w);
    ClassificationLayout(input[28..], e, w);
    assert input[28..][4 + 3 * n..] == input[32 + 3 * n..];
  }

  lemma SizesAt(input: seq<Byte>, e: Endianess, w: ArchitectureWidth)
    requires |input| >= HeaderLength(w)
    ensures var n := WidthBytes(w);
      var zr := ParseSizes(input[32 + 3 * n..], e);
      && zr.Ok? && zr.rest == input[HeaderLength(w)..]
      && zr.value == Sizes(U32At(input, 32 + 3 * n, e), U16At(input, 36 + 3 * n, e), U16At(input, 38 + 3 * n, e),
                           U16At(input, 40 + 3 * n, e), U16At(input, 42 + 3 * n, e), U16At(input, 44 + 3 * n, e),
                           U16At(input, 46 + 3 * n, e))
  {
    var n := WidthBytes(w);
    SizesShift(input, e, w);
    SizesLayout(input[32 + 3 * n..], e);
    assert input[32 + 3 * n..][16..] == input[HeaderLength(w)..];
  }

  /** The decoder is its three stages in sequence after the prefix. */
  lemma HeaderFromStages(input: seq<Byte>, i: Identification, c: Classification, z: Sizes,
                         rest1: seq<Byte>, rest2: seq<Byte>, rest3: seq<Byte>)
    requires |input| >= 24 && input[..4] == Magic
    requires ParseIdentification(input[24..]) == Ok(i, rest1)
    requires ParseClassification(rest1, i.endianess, i.width) == Ok(c, rest2)
    requires ParseSizes(rest2, i.endianess) == Ok(z, rest3)
    ensures ParseFileHeader(input) == Ok(Assemble(i, c, z), rest3)
  {
    BodyFromStages(input[24..], i, c, z, rest1, rest2, rest3);
    PrefixThenBody(input);
  }

  /** After a matching magic number the decoder is the body decoder on the
      stream after the prefix. */
  lemma PrefixThenBody(input: seq<Byte>)
    requires |input| >= 24 && input[..4] == Magic
    ensures ParseFileHeader(input) == ParseHeaderBody(input[24..])
  {
    assert ReadBytes(24, input) == Ok(input[..24], input[24..]);
    assert input[..24][..4] == input[..4];
  }

  lemma BodyFromStages(input: seq<Byte>, i: Identification, c: Classification, z: Sizes,
                       rest1: seq<Byte>, rest2: seq<Byte>, rest3: seq<Byte>)
    requires ParseIdentification(input) == Ok(i, rest1)
    requires ParseClassification(rest1, i.endianess, i.width) == Ok(c, rest2)
    requires ParseSizes(rest2, i.endianess) == Ok(z, rest3)
    ensures ParseHeaderBody(input) == Ok(Assemble(i, c, z), rest3)
  {
  }

  /** A header whose magic number and codes are all accepted but whose
      bytes end before the last size field is missing data. */
  lemma HeaderShortBody(input: seq<Byte>)
    requires |input| >= 32 && input[..4] == Magic && GoodIdentification(input[24..])
    requires var e := EndianessOfCode(input[25]);
      && IsObjectFileTypeCode(U16At(input, 28, e))
      && IsInstructionSetCode(U16At(input, 30, e))
    requires |input| < HeaderLength(WidthOfCode(input[24]))
    ensures ParseFileHeader(input) == Err(MissingData, [])
  {
    ParseFileHeaderLayout(input);
  }

  /** Bytes 4 to 23 are consumed but never looked at: two inputs that agree
      everywhere else decode alike. */
  lemma HeaderIgnoresPadding(a: seq<Byte>, b: seq<Byte>)
    requires |a| >= 24 && |b| >= 24
    requires a[..4] == b[..4] && a[24..] == b[24..]
    ensures ParseFileHeader(a) == ParseFileHeader(b)
  {
    if a[..4] == Magic {
      PrefixThenBody(a);
      PrefixThenBody(b);
    }
  }

  /** On a well-formed input the decoder yields the header found at the
      absolute offsets and stops right after it. */
  lemma ParseWellFormedHeader(input: seq<Byte>)
    requires WellFormedHeader(input)
    ensures ParseFileHeader(input) == Ok(HeaderAt(input), input[HeaderLength(HeaderAt(input).width)..])
  {
    IdentificationAt(input);
    ClassificationAt(input);
    var w, e := WidthOfCode(input[24]), EndianessOfCode(input[25]);
    SizesAt(input, e, w);
    var n := WidthBytes(w);
    var ir := ParseIdentification(input[24..]);
    var cr := ParseClassification(input[28..], e, w);
    var zr := ParseSizes(input[32 + 3 * n..], e);
    AssembleAt(input, ir.value, cr.value, zr.value);
    HeaderFromStages(input, ir.value, cr.value, zr.value, ir.rest, cr.rest, zr.rest);
  }

  /** The decoder succeeds only on a well-formed input. */
  lemma ParsedHeaderIsWellFormed(input: seq<Byte>)
    requires ParseFileHeader(input).Ok?
    ensures WellFormedHeader(input)
  {
    var s := input[24..];
    assert ReadBytes(24, input) == Ok(input[..24], s);
    assert input[..24][..4] == input[..4];
    var ir := ParseIdentification(s);
    assert ir.Ok?;
    assert s[0] == input[24] && s[1] == input[25] && s[2] == input[26] && s[3] == input[27];
    var w, e := ir.value.width, ir.value.endianess;
    ClassificationShift(input, e, w);
    assert ParseClassification(input[28..], e, w).Ok?;
    ClassificationLayout(input[28..], e, w);
  }

  /** The sequential decoder reads exactly the offset layout: it succeeds on
      the well-formed inputs and only on them, and then yields the header
      found at those offsets and stops right after it. */
  lemma ParseFileHeaderLayout(input: seq<Byte>)
    ensures ParseFileHeader(input).Ok? <==> WellFormedHeader(input)
    ensures WellFormedHeader(input) ==>
      ParseFileHeader(input) == Ok(HeaderAt(input), input[HeaderLength(HeaderAt(input).width)..])
  {
    if WellFormedHeader(input) {
      ParseWellFormedHeader(input);
    }
    if ParseFileHeader(input).Ok? {
      ParsedHeaderIsWellFormed(input);
    }
  }
}
