# ELF descriptor decoder, modelled in Dafny

This project models the decoding core of `dolls`, a Rust library that reads an
ELF object file into an `ElfDescriptor`. The descriptor holds the file header,
the program header table and the section header table. The Rust code pulls
bytes from an `std::io::Read`. Here the reader is the sequence of bytes still
unread. Every decoder returns `Ok(value, rest)` or `Err(error, rest)`, where
`rest` is what the reader still holds afterwards. A short read gives
`MissingData` and leaves nothing behind. An unknown code gives `InvalidValue`
carrying the raw bytes of the code. Both errors propagate unchanged through
`?` (Dafny's `:-`).

Modules follow the source files:

- `Bytes` holds bytes, fixed-width integers, little- and big-endian values, and
  the `Endianess` type.
- `Errors` holds `ParseError` and the result type.
- `Parsing` models `src/parsing.rs`.
- `Shared` models `src/shared.rs`.
- `ElfParsing` models `src/elf/parsing.rs` and `ArchitectureWidth` from
  `src/elf.rs`.
- `ElfFileHeader` models `src/elf/file_header.rs`.
- `Tables` holds the read-`count`-entries-then-collect pattern that both tables
  share.
- `ElfProgramHeader` and `ElfSectionHeader` model the two tables.
- `Elf` models `ElfDescriptor::parse`.
- `ElfExample` decodes one concrete 72-byte file.

The Rust trait dispatch (`Parse`, `ParseFromEndianess`, `ParseFromContext`,
`ParseFromWorkingContext`) becomes plain functions. The blanket impls become
the lifts `FromEndianess`, `FromContext` and `FromWorkingContext`, which drop
the context they do not use.

Each decoder's error cases and the bytes it consumes are stated in its own
contract. Where a composite decoder's own contract states only part of its
failures, a lemma next to it states the rest: `IdentificationErrors`,
`EntryLayout` for both entry kinds, the tables' `…FirstFailure` lemmas and
`DescriptorStages`. A partner lemma ties each decoder to a second,
independent description:

- the value's re-encoding for integers (`To2Bytes`, …);
- a code table proved to be a bijection for enumerations;
- field-at-offset reference functions (`HeaderAt`, `EntryAt`) for whole
  records. The sequential decoder is proved to succeed exactly when the
  layout predicate holds, and then to yield the reference value.

The two tables are proved all-or-nothing over fixed-size slots: a table
succeeds exactly when every slot at `i * size` decodes. A failed table returns
the first bad slot's error.

The model follows what the code does, which differs from the ELF layout the
format defines:

- The header decoder reads a 24-byte prefix and checks only its first four
  bytes, the magic number. A wrong magic number is reported as `MissingData`.
  The width, byte-order, version and OS/ABI codes are then read at offsets
  24 to 27, not 4 to 7.
- A header therefore consumes 60 bytes (32-bit) or 72 bytes (64-bit), not 52
  or 64. `ElfExample.MinimalExecutableDecodes` shows a 64-bit header with no
  entries consuming 72 bytes.
- A program header entry is read in the 64-bit field order (type, flags, then
  six native integers) for both widths.
- Both tables are read straight after the header, one after the other. The
  header's program and section offsets are decoded but never used to position
  the reader.

## Model

| member | source | states |
|---|---|---|
| Bytes.RoundTrip | src/elf/parsing.rs:16-53 | decoding a number's n-byte encoding in one byte order returns the number, for every number that fits in n bytes |
| Bytes.BytesOfValue | src/elf/parsing.rs:16-53 | encoding the value of a buffer in the same byte order returns the buffer, so every byte pattern is some value's encoding |
| Bytes.BeValueIsLeValueOfReverse | src/elf/parsing.rs:22-25 | reading a buffer big-endian is reading its reversal little-endian |
| Bytes.BeBytesIsReverse | src/parsing.rs:31-64 | the big-endian bytes of a number are its little-endian bytes reversed |
| Bytes.LeValueOfLeBytes | src/elf/parsing.rs:21-25 | the little-endian value of the little-endian bytes of a number below 256^n is that number |
| Bytes.LeBytesOfLeValue | src/elf/parsing.rs:21-25 | the little-endian bytes of a buffer's little-endian value are the buffer |
| Bytes.ReverseReverse | src/parsing.rs:31-64 | reversing a byte order twice gives it back |
| Parsing.ReadBytes | src/parsing.rs:66-75 | succeeds exactly when n bytes remain, returning the first n and leaving the rest; otherwise MissingData with the reader drained |
| Parsing.ParseU8 | src/parsing.rs:10-15 | one byte when any remains, the byte and the rest making up the input; MissingData on empty input |
| Parsing.ToByte | src/parsing.rs:21-25 | the one-byte encoding holds exactly the byte |
| Parsing.To2Bytes | src/parsing.rs:31-38 | two bytes that read back, in the same order, as the number; low byte first when little-endian, last when big-endian |
| Parsing.To4Bytes | src/parsing.rs:44-51 | four bytes that read back as the number, the low byte at the end the byte order names |
| Parsing.To8Bytes | src/parsing.rs:57-64 | eight bytes that read back as the number, the low byte at the end the byte order names |
| Parsing.ParseU8OfToByte | src/parsing.rs:10-25 | decoding a byte's encoding returns the byte and leaves what followed |
| Parsing.BigIsReversedLittle | src/parsing.rs:31-64 | for 16, 32 and 64 bits the big-endian encoding is the little-endian one reversed |
| Shared.FromU32 | src/shared.rs:10-14 | a 32-bit value becomes a 32-bit-tagged native integer of the same value |
| Shared.FromU64 | src/shared.rs:16-20 | a 64-bit value becomes a 64-bit-tagged native integer of the same value |
| Shared.ParseEndianess | src/shared.rs:28-44 | code 1 or 2 gives a byte order whose code is that byte; any other byte fails carrying it; empty input is MissingData; one byte is consumed |
| Shared.ParseEndianessOfCode | src/shared.rs:28-44 | decoding a byte order's code returns it |
| ElfParsing.ParseArchitectureWidth | src/elf.rs:56-70 | code 1 or 2 gives a width whose code is that byte; any other byte fails carrying it; empty input is MissingData |
| ElfParsing.ParseU16 | src/elf/parsing.rs:16-27 | succeeds exactly when two bytes remain; the value re-encodes to those two bytes; otherwise MissingData |
| ElfParsing.ParseU32 | src/elf/parsing.rs:29-40 | succeeds exactly when four bytes remain; the value re-encodes to those four bytes; otherwise MissingData |
| ElfParsing.ParseU64 | src/elf/parsing.rs:42-53 | succeeds exactly when eight bytes remain; the value re-encodes to those eight bytes; otherwise MissingData |
| ElfParsing.ParseNativeInteger | src/elf/parsing.rs:75-90 | succeeds exactly when 4 or 8 bytes (per width) remain, tagged with that width; otherwise MissingData |
| ElfParsing.NativeIntegerBytes | src/elf/parsing.rs:75-90 | the decoded native integer holds the value of the bytes read, and re-encodes to them |
| ElfParsing.IntegerRoundTrip | src/elf/parsing.rs:16-53 | decoding the encoding of a 16-, 32- or 64-bit number returns it and leaves what followed |
| ElfParsing.NativeIntegerRoundTrip | src/elf/parsing.rs:75-90 | decoding a native integer's bytes at its own width returns it and leaves what followed |
| ElfParsing.BigIsLittleOfReversed | src/elf/parsing.rs:16-53 | for each of 16, 32 and 64 bits and any input holding at least that field, a big-endian decode equals a little-endian decode of the input with that field reversed |
| ElfParsing.ParseU16At | src/elf/parsing.rs:16-27 | a 16-bit decode started at an offset reads the field at that offset |
| ElfParsing.ParseU32At | src/elf/parsing.rs:29-40 | a 32-bit decode started at an offset reads the field at that offset |
| ElfParsing.ParseNativeAt | src/elf/parsing.rs:75-90 | a native decode started at an offset reads the field at that offset |
| ElfParsing.U16Shift | src/elf/parsing.rs:16-27 | a 16-bit field of a suffix is the field at the shifted offset of the whole input |
| ElfParsing.U32Shift | src/elf/parsing.rs:29-40 | a 32-bit field of a suffix is the field at the shifted offset |
| ElfParsing.NativeShift | src/elf/parsing.rs:75-90 | a native field of a suffix is the field at the shifted offset |
| ElfParsing.FromEndianessIgnoresOrder | src/elf/parsing.rs:55-65 | a context-free decoder lifted to take a byte order gives the same result for both orders |
| ElfParsing.FromContextIgnoresWidth | src/elf/parsing.rs:92-103 | a byte-order decoder lifted to take a width gives the same result for both widths |
| ElfParsing.FromWorkingContextIgnoresContext | src/elf/parsing.rs:114-126 | a width-aware decoder lifted to take a working context ignores which context it gets |
| ElfFileHeader.ParseElfVersion | src/elf/file_header.rs:88-100 | only code 1 is accepted; any other byte fails carrying it; empty input is MissingData |
| ElfFileHeader.OsAbiTable | src/elf/file_header.rs:123-152 | the OS/ABI table is a bijection between the accepted codes (0x00 to 0x12 except 0x05) and the variants |
| ElfFileHeader.ParseOsAbi | src/elf/file_header.rs:123-152 | an accepted code gives the variant with that code; another byte fails carrying it; empty input is MissingData |
| ElfFileHeader.ObjectFileTypeTable | src/elf/file_header.rs:166-189 | the object-type table is a bijection between the nine accepted 16-bit codes and the variants |
| ElfFileHeader.ParseObjectFileType | src/elf/file_header.rs:166-189 | a 16-bit code in the file's byte order; an accepted code gives the variant that re-encodes to the two bytes; another fails carrying the two bytes as read |
| ElfFileHeader.InstructionSetTable | src/elf/file_header.rs:218-257 | a code decodes to a machine exactly when it is one of that machine's codes; 0x0B to 0x0D and 0x0F all give Reserved |
| ElfFileHeader.ParseInstructionSetArch | src/elf/file_header.rs:218-257 | a 16-bit machine code; an accepted code gives a machine it belongs to; another fails carrying the two bytes as read |
| ElfFileHeader.ParseIdentification | src/elf/file_header.rs:42-45 | width, byte order, version and OS/ABI read as four one-byte codes; succeeds exactly when all four are accepted |
| ElfFileHeader.IdentificationErrors | src/elf/file_header.rs:42-45 | for inputs of any length: the first unaccepted identification code is the failure, carrying that byte, with the reader just past it; input that ends before any bad code is MissingData with nothing left |
| ElfFileHeader.ClassificationFieldsAt | src/elf/file_header.rs:48-53 | each classification field decode, started where the previous ends, reads the field at its offset |
| ElfFileHeader.ParseClassification | src/elf/file_header.rs:48-53 | fewer than 2 bytes is MissingData; an unknown object type fails with its two raw bytes and the reader past them; so does an unknown machine after a known object type; once both codes are accepted any failure is MissingData; on success the two codes and three native integers are consumed |
| ElfFileHeader.ClassificationLayout | src/elf/file_header.rs:48-53 | the classification succeeds exactly when the input holds it and both codes are accepted, and then holds the fields at their offsets |
| ElfFileHeader.SizesFieldsAt | src/elf/file_header.rs:55-61 | each size field decode, started where the previous ends, reads the field at its offset |
| ElfFileHeader.ParseSizes | src/elf/file_header.rs:55-61 | the flags word and six 16-bit fields: succeeds exactly when 16 bytes remain; otherwise MissingData |
| ElfFileHeader.SizesLayout | src/elf/file_header.rs:55-61 | the decoded flags and sizes are the fields at offsets 0, 4, 6, …, 14 |
| ElfFileHeader.ClassificationShift | src/elf/file_header.rs:48-53 | classification fields read relative to offset 28 are the fields at absolute offsets |
| ElfFileHeader.SizesShift | src/elf/file_header.rs:55-61 | size fields read relative to where they start are the fields at absolute offsets |
| ElfFileHeader.ParseFileHeader | src/elf/file_header.rs:29-82 | fewer than 24 bytes or a wrong magic number give MissingData; after a good magic number a bad identification code fails as that decoder reports it, an unknown object type (bytes 28-29) or machine (bytes 30-31) fails with its two raw bytes and the reader past them, and with every code accepted any failure is MissingData; on success every native field carries the header's width and exactly 60 or 72 bytes are consumed |
| ElfFileHeader.ParseHeaderBody | src/elf/file_header.rs:42-80 | after the prefix: a bad identification code is the failure as that decoder reports it; with good codes a failed classification is the failure as it reports it; once both are read any failure is MissingData; on success the native fields carry the width and 36 or 48 bytes are consumed |
| ElfFileHeader.AssembleAt | src/elf/file_header.rs:63-80 | field groups that agree with the absolute offsets assemble into the header found at those offsets |
| ElfFileHeader.IdentificationAt | src/elf/file_header.rs:42-45 | on a well-formed input the identification decode yields the codes at offsets 24 to 27 |
| ElfFileHeader.ClassificationAt | src/elf/file_header.rs:48-53 | on a well-formed input the classification decode yields the fields at offsets 28 onwards |
| ElfFileHeader.SizesAt | src/elf/file_header.rs:55-61 | on a well-formed input the sizes decode yields the fields after the three native integers |
| ElfFileHeader.HeaderFromStages | src/elf/file_header.rs:29-82 | the header decoder is the identification, classification and sizes stages in sequence after the prefix |
| ElfFileHeader.PrefixThenBody | src/elf/file_header.rs:31-40 | after a matching magic number the decoder continues on the input past byte 24 |
| ElfFileHeader.BodyFromStages | src/elf/file_header.rs:42-80 | the body decoder assembles the results of its three stages |
| ElfFileHeader.HeaderShortBody | src/elf/file_header.rs:51-61 | a header whose magic number and codes are all accepted but whose bytes end before the last size field is MissingData with nothing left |
| ElfFileHeader.HeaderIgnoresPadding | src/elf/file_header.rs:31-40 | bytes 4 to 23 are never looked at: inputs that differ only there decode alike |
| ElfFileHeader.ParseWellFormedHeader | src/elf/file_header.rs:29-82 | on a well-formed input the decoder yields the header at the field offsets and consumes exactly the header |
| ElfFileHeader.ParsedHeaderIsWellFormed | src/elf/file_header.rs:29-82 | the decoder succeeds only on a well-formed input |
| ElfFileHeader.ParseFileHeaderLayout | src/elf/file_header.rs:29-82 | the decoder succeeds exactly on well-formed inputs, and then yields the header found at the field offsets |
| Tables.Items | src/elf/section_header.rs:17-25 | the mapped range has one result per counted entry, the first decoded from the start |
| Tables.ItemsThreadTheStream | src/elf/section_header.rs:17-25 | each later result is decoded from where its predecessor left the reader |
| Tables.Collect | src/elf/section_header.rs:35-37 | succeeds exactly when every item did, with their values in order; otherwise the first failure, after only successes, is returned as it is |
| Tables.OffsetIsProduct | src/elf/program_header.rs:29-31 | slot i of fixed-size entries starts i whole entries in |
| Tables.SlotAfterFirst | src/elf/program_header.rs:29-31 | slot i + 1 of the input is slot i of what the first entry leaves |
| Tables.ItemsAreSlots | src/elf/program_header.rs:29-31 | while earlier entries succeed, each entry is decoded from its slot |
| Tables.ItemsUpToFailureAreSlots | src/elf/program_header.rs:29-31 | every entry that follows only successes is the entry in its slot |
| Tables.TableOkIffSlotsOk | src/elf/program_header.rs:29-33 | the collected table succeeds exactly when every slot decodes |
| Tables.TableValues | src/elf/program_header.rs:29-33 | a complete table holds the slot values in order and leaves the reader after the last slot |
| Tables.TableKeeps | src/elf/program_header.rs:29-33 | a property every successful item decode guarantees holds of every value in a complete table |
| Tables.TableFirstFailure | src/elf/program_header.rs:29-33 | an incomplete table fails with the first failing slot's error, all earlier slots decoding |
| Tables.EmptyTable | src/elf/program_header.rs:29-33 | a count of zero gives an empty table and consumes nothing |
| ElfProgramHeader.EntryTypeTable | src/elf/program_header.rs:89-115 | the segment-type table is a bijection between the twelve accepted 32-bit codes and the variants |
| ElfProgramHeader.ParseEntryType | src/elf/program_header.rs:89-115 | a 32-bit code; an accepted code gives the variant that re-encodes to the four bytes; another fails carrying the four bytes as read |
| ElfProgramHeader.ParseEntry | src/elf/program_header.rs:47-72 | on success consumes 8 + 6 × width bytes; once the type word is accepted, any failure is MissingData |
| ElfProgramHeader.ParsedEntryHasWidth | src/elf/program_header.rs:55-60 | every native field of a decoded entry carries the width it was read with |
| ElfProgramHeader.ParseEntryAt | src/elf/program_header.rs:47-72 | a whole entry decodes to the fields at offsets 0, 4, 8, 8 + n, …, 8 + 5n |
| ElfProgramHeader.ProgramHeadFieldsAt | src/elf/program_header.rs:53-54 | in a whole entry the type and the flags decode to the words at offsets 0 and 4, each leaving the reader where the next field starts |
| ElfProgramHeader.ProgramTailFieldsAt | src/elf/program_header.rs:55-60 | the six native integers decode to the values at 8, 8 + n, …, 8 + 5n, the last leaving the reader after the entry |
| ElfProgramHeader.EntryPrefix | src/elf/program_header.rs:53 | fewer than 4 bytes is MissingData; an unknown type fails carrying its four bytes with the reader past them; success needs an accepted type |
| ElfProgramHeader.EntryLayout | src/elf/program_header.rs:47-72 | an entry decodes exactly when the input holds one with an accepted type; fewer than 4 bytes, a bad type and a short entry each fail as the code does |
| ElfProgramHeader.EntryFixedSize | src/elf/program_header.rs:47-72 | every successful entry decode consumes exactly one entry |
| ElfProgramHeader.AddEntry | src/elf/program_header.rs:17-19 | the table grows by one, the earlier entries unchanged and the new entry last |
| ElfProgramHeader.AddEntriesAppends | src/elf/program_header.rs:17-19 | adding entries one at a time appends exactly those entries in order |
| ElfProgramHeader.ParseProgramHeader | src/elf/program_header.rs:22-34 | on success holds exactly the header's program-entry count of entries, each of the file's width, consuming count × entry size bytes; count 0 gives an empty table |
| ElfProgramHeader.CollectedEntries | src/elf/program_header.rs:29-33 | a complete collection of count entries holds count entries and consumes count × entry size bytes |
| ElfProgramHeader.CollectedEntriesHaveWidth | src/elf/program_header.rs:29-33 | every collected entry carries the file's width |
| ElfProgramHeader.ProgramHeaderUsesCount | src/elf/program_header.rs:22-34 | two headers with the same program-entry count give the same table from the same bytes |
| ElfProgramHeader.ProgramHeaderSlots | src/elf/program_header.rs:22-34 | the table decodes exactly when every entry slot does, and then holds the slot entries in order |
| ElfProgramHeader.ProgramHeaderFirstFailure | src/elf/program_header.rs:22-34 | a failed table is the failure of its first bad slot, every earlier slot decoding |
| ElfSectionHeader.EntryTypeTable | src/elf/section_header.rs:108-141 | the section-type table is a bijection between the nineteen accepted codes and the variants; 0x0C and 0x0D are refused |
| ElfSectionHeader.ParseEntryType | src/elf/section_header.rs:108-141 | a 32-bit code; an accepted code gives the variant that re-encodes to the four bytes; another fails carrying the four bytes as read |
| ElfSectionHeader.ParseFlags | src/elf/section_header.rs:143-154 | the flags are the native integer read, of the file's width; a short input is MissingData |
| ElfSectionHeader.ParseSectionEntry | src/elf/section_header.rs:54-84 | on success consumes 16 + 6 × width bytes; once the name offset and an accepted type are read, any failure is MissingData |
| ElfSectionHeader.ParsedEntryHasWidth | src/elf/section_header.rs:62-69 | every native field of a decoded entry, the flags included, carries the width it was read with |
| ElfSectionHeader.SectionHeadFieldsAt | src/elf/section_header.rs:60-62 | in a whole entry the name, the type and the flags decode to the values at offsets 0, 4 and 8, each leaving the reader where the next field starts |
| ElfSectionHeader.SectionTailFieldsAt | src/elf/section_header.rs:63-69 | the seven fields after the flags decode to the values at their offsets, the last leaving the reader after the entry |
| ElfSectionHeader.ParseSectionEntryAt | src/elf/section_header.rs:54-84 | a whole entry decodes to the fields at offsets 0, 4, 8, 8 + n, 8 + 2n, 8 + 3n, 8 + 4n, 12 + 4n, 16 + 4n, 16 + 5n |
| ElfSectionHeader.SectionEntryPrefix | src/elf/section_header.rs:60-61 | fewer than 8 bytes is MissingData; a bad type fails carrying its four bytes with the reader past them |
| ElfSectionHeader.EntryLayout | src/elf/section_header.rs:54-84 | an entry decodes exactly when the input holds one with an accepted type, and then holds the fields at their offsets; fewer than 8 bytes, a bad type and a short entry after an accepted type each fail as the code does |
| ElfSectionHeader.EntryFixedSize | src/elf/section_header.rs:54-84 | every successful entry decode consumes exactly one entry |
| ElfSectionHeader.ParseEntries | src/elf/section_header.rs:17-25 | one result per counted section entry, the first decoded from the start |
| ElfSectionHeader.ParseEntriesThreadTheStream | src/elf/section_header.rs:17-25 | each later result is decoded from where its predecessor left the reader |
| ElfSectionHeader.ParseSectionHeader | src/elf/section_header.rs:28-39 | on success holds exactly the header's section-entry count of entries, each of the file's width, consuming count × entry size bytes; count 0 gives an empty table |
| ElfSectionHeader.CollectedEntries | src/elf/section_header.rs:35-37 | a complete collection of count entries holds count entries and consumes count × entry size bytes |
| ElfSectionHeader.CollectedEntriesHaveWidth | src/elf/section_header.rs:35-37 | every collected entry carries the file's width |
| ElfSectionHeader.SectionHeaderUsesCount | src/elf/section_header.rs:28-39 | two headers with the same section-entry count give the same table from the same bytes |
| ElfSectionHeader.SectionHeaderSlots | src/elf/section_header.rs:28-39 | the table decodes exactly when every entry slot does, and then holds the slot entries in order |
| ElfSectionHeader.SectionHeaderFirstFailure | src/elf/section_header.rs:28-39 | a failed table is the failure of its first bad slot, every earlier slot decoding |
| Elf.ParseElfDescriptor | src/elf.rs:26-48 | on success both tables hold the header's counts of entries, every native integer carries the header's width, and header plus both tables are consumed exactly |
| Elf.DescriptorRest | src/elf.rs:26-48 | three stages that each consume their own length consume the sum |
| Elf.DescriptorStages | src/elf.rs:26-48 | a bad header, then a bad program table, then a bad section table is the descriptor's failure unchanged; all three good give the descriptor |
| Elf.TablesFollowHeader | src/elf.rs:29-40 | the tables are read right after the header whatever its program and section offset fields hold |
| ElfExample.MinimalExecutableDecodes | src/elf.rs:26-48 | a 72-byte 64-bit little-endian x86-64 executable header with no entries decodes to that header and two empty tables, using every byte |
| ElfExample.MinimalExecutableHeader | src/elf/file_header.rs:29-82 | the example's 72 bytes decode to the example header |
| ElfExample.MinimalHeaderOfBytes | src/elf/file_header.rs:29-82 | any 72 bytes with the magic number, the example codes at 24 to 31 and zeros after decode to the example header |
| ElfExample.MinimalCodes | src/elf/file_header.rs:42-49 | the example codes make a well-formed header: 64-bit, little-endian, version 1, System V, executable, x86-64 |
| ElfExample.MinimalFields | src/elf/file_header.rs:51-61 | every field of the example header, the zero fields reading as zero |

## Left out

- `ParseError::IoError` and `From<IoError>` (src/errors.rs) are left out: the
  model has no reader that can fail. Only `MissingData` and `InvalidValue`
  are modelled.
- A `Read::read` call may legally return fewer bytes than are available. The
  model assumes a read returns as many bytes as it asks for, or everything
  left when fewer remain. A short read leaves the reader empty.
- `src/main.rs`, `src/lib.rs` and the `dll` module are not part of this model.
- The Rust traits are modelled as explicit decoder parameters.
  Monomorphisation and lifetimes have no counterpart.
- The layout the ELF format defines is not modelled: a 52- or 64-byte header,
  identification codes at offsets 4 to 7, and tables placed at `phoff` and
  `shoff`. The model follows the code, as described above.
- Integer widths are modelled as subset types of `nat` (`U16`, `U32`, `U64`).
  No arithmetic in the core can overflow, so there is no wrap-around to model.
