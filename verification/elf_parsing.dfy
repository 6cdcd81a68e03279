/** The byte-order- and width-aware decoders, and the three lifts that let a
    decoder needing less context stand where more context is supplied. */
module ElfParsing {
  import opened Bytes
  import opened Errors
  import opened Parsing
  import opened Shared

  /** Whether native integers are 4 or 8 bytes wide (declared in elf.rs). */
  datatype ArchitectureWidth = ThirtyTwo | SixtyFour

  /** On-disk size of a native integer. */
  function WidthBytes(w: ArchitectureWidth): nat
  {
    match w
    case ThirtyTwo => 4
    case SixtyFour => 8
  }

  /** The code byte that names a width in an ELF identification. */
  function WidthCode(w: ArchitectureWidth): Byte
  {
    match w
    case ThirtyTwo => 1
    case SixtyFour => 2
  }

  /** A native integer's tag agrees with the file's width. */
  predicate HasWidth(n: NativeInteger, w: ArchitectureWidth)
  {
    match w
    case ThirtyTwo => n.ThirtyTwo?
    case SixtyFour => n.SixtyFour?
  }

  /** `ArchitectureWidth::parse`: code 1 is 32-bit, 2 is 64-bit. */
  function ParseArchitectureWidth(input: seq<Byte>): (r: Result<ArchitectureWidth>)
    ensures |input| == 0 ==> r == Err(MissingData, [])
    ensures |input| > 0 ==> r.rest == input[1..]
    ensures r.Ok? <==> |input| > 0 && (input[0] == 1 || input[0] == 2)
    ensures r.Ok? ==> WidthCode(r.value) == input[0]
    ensures |input| > 0 && r.Err? ==> r.error == InvalidValue([input[0]])
  {
    var code :- ParseU8(input);
    match code.value
    case 1 => Ok(ArchitectureWidth.ThirtyTwo, code.rest)
    case 2 => Ok(ArchitectureWidth.SixtyFour, code.rest)
    case other => Err(InvalidValue(ToByte(other)), code.rest)
  }

  /** `u16::parse_from_endianess`. The value re-encodes to the two bytes read. */
  function ParseU16(input: seq<Byte>, e: Endianess): (r: Result<U16>)
    ensures r.Ok? <==> |input| >= 2
    ensures r.Ok? ==> To2Bytes(r.value, e) == input[..2] && r.rest == input[2..]
    ensures r.Err? ==> r == Err(MissingData, [])
  {
    var bytes :- ReadBytes(2, input);
    Pow256Values();
    BytesOfValue(bytes.value, e);
    Ok(ValueOf(bytes.value, e), bytes.rest)
  }

  /** `u32::parse_from_endianess`. The value re-encodes to the four bytes read. */
  function ParseU32(input: seq<Byte>, e: Endianess): (r: Result<U32>)
    ensures r.Ok? <==> |input| >= 4
    ensures r.Ok? ==> To4Bytes(r.value, e) == input[..4] && r.rest == input[4..]
    ensures r.Err? ==> r == Err(MissingData, [])
  {
    var bytes :- ReadBytes(4, input);
    Pow256Values();
    BytesOfValue(bytes.value, e);
    Ok(ValueOf(bytes.value, e), bytes.rest)
  }

  /** `u64::parse_from_endianess`. The value re-encodes to the eight bytes read. */
  function ParseU64(input: seq<Byte>, e: Endianess): (r: Result<U64>)
    ensures r.Ok? <==> |input| >= 8
    ensures r.Ok? ==> To8Bytes(r.value, e) == input[..8] && r.rest == input[8..]
    ensures r.Err? ==> r == Err(MissingData, [])
  {
    var bytes :- ReadBytes(8, input);
    Pow256Values();
    BytesOfValue(bytes.value, e);
    Ok(ValueOf(bytes.value, e), bytes.rest)
  }

  /** `NativeInteger::parse_from_context`: a 4- or 8-byte integer, tagged
      with the width that chose its size. */
  function ParseNativeInteger(input: seq<Byte>, e: Endianess, w: ArchitectureWidth): (r: Result<NativeInteger>)
    ensures r.Ok? <==> |input| >= WidthBytes(w)
    ensures r.Ok? ==> HasWidth(r.value, w) && r.rest == input[WidthBytes(w)..]
    ensures r.Err? ==> r == Err(MissingData, [])
  {
    match w
    case ThirtyTwo =>
      var x :- ParseU32(input, e);
      Ok(FromU32(x.value), x.rest)
    case SixtyFour =>
      var x :- ParseU64(input, e);
      Ok(FromU64(x.value), x.rest)
  }

  /** Decoding the encoding of a number in the same byte order gives the
      number back and consumes exactly its bytes. */
  lemma IntegerRoundTrip(x16: U16, x32: U32, x64: U64, e: Endianess, tail: seq<Byte>)
    ensures ParseU16(To2Bytes(x16, e) + tail, e) == Ok(x16, tail)
    ensures ParseU32(To4Bytes(x32, e) + tail, e) == Ok(x32, tail)
    ensures ParseU64(To8Bytes(x64, e) + tail, e) == Ok(x64, tail)
  {
    var b16, b32, b64 := To2Bytes(x16, e), To4Bytes(x32, e), To8Bytes(x64, e);
    assert (b16 + tail)[..2] == b16 && (b16 + tail)[2..] == tail;
    assert (b32 + tail)[..4] == b32 && (b32 + tail)[4..] == tail;
    assert (b64 + tail)[..8] == b64 && (b64 + tail)[8..] == tail;
  }

  /** The width a native integer's tag names. */
  function WidthOf(x: NativeInteger): ArchitectureWidth
  {
    match x
    case ThirtyTwo(_) => ArchitectureWidth.ThirtyTwo
    case SixtyFour(_) => ArchitectureWidth.SixtyFour
  }

  /** A decoded native integer holds the value of the bytes it was read
      from, and re-encodes to exactly those bytes. */
  lemma NativeIntegerBytes(input: seq<Byte>, e: Endianess, w: ArchitectureWidth)
    requires |input| >= WidthBytes(w)
    ensures NativeValue(ParseNativeInteger(input, e, w).value) == ValueOf(input[..WidthBytes(w)], e)
    ensures BytesOf(NativeValue(ParseNativeInteger(input, e, w).value), WidthBytes(w), e) == input[..WidthBytes(w)]
  {
    BytesOfValue(input[..WidthBytes(w)], e);
  }

  /** Decoding the bytes of a native integer at its own width gives it back
      and consumes exactly its bytes. */
  lemma NativeIntegerRoundTrip(x: NativeInteger, e: Endianess, tail: seq<Byte>)
    ensures var w := WidthOf(x);
      ParseNativeInteger(BytesOf(NativeValue(x), WidthBytes(w), e) + tail, e, w) == Ok(x, tail)
  {
    match x
    case ThirtyTwo(v) =>
      IntegerRoundTrip(0, v, 0, e, tail);
    case SixtyFour(v) =>
      IntegerRoundTrip(0, 0, v, e, tail);
  }

  /** A big-endian decode of a buffer is a little-endian decode of the
      buffer with its leading word reversed, for each width the buffer
      holds. */
  lemma BigIsLittleOfReversed(input: seq<Byte>)
    ensures |input| >= 2 ==>
      ParseU16(input, Big).value == ParseU16(Reverse(input[..2]) + input[2..], Little).value
    ensures |input| >= 4 ==>
      ParseU32(input, Big).value == ParseU32(Reverse(input[..4]) + input[4..], Little).value
    ensures |input| >= 8 ==>
      ParseU64(input, Big).value == ParseU64(Reverse(input[..8]) + input[8..], Little).value
  {
    if |input| >= 2 {
      BeValueIsLeValueOfReverse(input[..2]);
      assert (Reverse(input[..2]) + input[2..])[..2] == Reverse(input[..2]);
    }
    if |input| >= 4 {
      BeValueIsLeValueOfReverse(input[..4]);
      assert (Reverse(input[..4]) + input[4..])[..4] == Reverse(input[..4]);
    }
    if |input| >= 8 {
      BeValueIsLeValueOfReverse(input[..8]);
      assert (Reverse(input[..8]) + input[8..])[..8] == Reverse(input[..8]);
    }
  }

  // Fields at fixed offsets: the layout a sequence of decodes reads.

  /** The 16-bit field at `off`. */
  function U16At(input: seq<Byte>, off: nat, e: Endianess): U16
    requires off + 2 <= |input|
  {
    Pow256Values();
    ValueOf(input[off..off + 2], e)
  }

  /** The 32-bit field at `off`. */
  function U32At(input: seq<Byte>, off: nat, e: Endianess): U32
    requires off + 4 <= |input|
  {
    Pow256Values();
    ValueOf(input[off..off + 4], e)
  }

  /** The native integer at `off`, 4 or 8 bytes wide. */
  function NativeAt(input: seq<Byte>, off: nat, e: Endianess, w: ArchitectureWidth): NativeInteger
    requires off + WidthBytes(w) <= |input|
  {
    Pow256Values();
    match w
    case ThirtyTwo => NativeInteger.ThirtyTwo(ValueOf(input[off..off + 4], e))
    case SixtyFour => NativeInteger.SixtyFour(ValueOf(input[off..off + 8], e))
  }

  /** Decoding a 16-bit field where an earlier decode left off reads the
      field at that offset. */
  lemma ParseU16At(input: seq<Byte>, off: nat, e: Endianess)
    requires off + 2 <= |input|
    ensures ParseU16(input[off..], e) == Ok(U16At(input, off, e), input[off + 2..])
  {
    assert input[off..][..2] == input[off..off + 2];
  }

  /** The same for a 32-bit field. */
  lemma ParseU32At(input: seq<Byte>, off: nat, e: Endianess)
    requires off + 4 <= |input|
    ensures ParseU32(input[off..], e) == Ok(U32At(input, off, e), input[off + 4..])
  {
    assert input[off..][..4] == input[off..off + 4];
  }

  /** The same for a native integer. */
  lemma ParseNativeAt(input: seq<Byte>, off: nat, e: Endianess, w: ArchitectureWidth)
    requires off + WidthBytes(w) <= |input|
    ensures ParseNativeInteger(input[off..], e, w) == Ok(NativeAt(input, off, e, w), input[off + WidthBytes(w)..])
  {
    assert input[off..][..WidthBytes(w)] == input[off..off + WidthBytes(w)];
  }

  /** A field at `off` of the suffix starting at `k` is the field at `k + off`. */
  lemma U16Shift(input: seq<Byte>, k: nat, off: nat, e: Endianess)
    requires k + off + 2 <= |input|
    ensures U16At(input[k..], off, e) == U16At(input, k + off, e)
  {
    assert input[k..][off..off + 2] == input[k + off..k + off + 2];
  }

  lemma U32Shift(input: seq<Byte>, k: nat, off: nat, e: Endianess)
    requires k + off + 4 <= |input|
    ensures U32At(input[k..], off, e) == U32At(input, k + off, e)
  {
    assert input[k..][off..off + 4] == input[k + off..k + off + 4];
  }

  lemma NativeShift(input: seq<Byte>, k: nat, off: nat, e: Endianess, w: ArchitectureWidth)
    requires k + off + WidthBytes(w) <= |input|
    ensures NativeAt(input[k..], off, e, w) == NativeAt(input, k + off, e, w)
  {
    assert input[k..][off..off + WidthBytes(w)] == input[k + off..k + off + WidthBytes(w)];
  }

  // The three capability lifts. Each ignores the context it is given.

  /** A decoder that needs no context. */
  type Decoder<T> = seq<Byte> -> Result<T>
  /** A decoder that needs the byte order. */
  type EndianDecoder<T> = (seq<Byte>, Endianess) -> Result<T>
  /** A decoder that needs the byte order and the width. */
  type ContextDecoder<T> = (seq<Byte>, Endianess, ArchitectureWidth) -> Result<T>

  /** A context-free decoder used where the byte order is supplied. */
  function FromEndianess<T>(parse: Decoder<T>, input: seq<Byte>, e: Endianess): Result<T>
  {
    parse(input)
  }

  /** A byte-order-aware decoder used where the width is supplied too. */
  function FromContext<T>(parse: EndianDecoder<T>, input: seq<Byte>, e: Endianess, w: ArchitectureWidth): Result<T>
  {
    parse(input, e)
  }

  /** A width-aware decoder used where an already-decoded working context is
      supplied too. */
  function FromWorkingContext<C, T>(
    parse: ContextDecoder<T>, input: seq<Byte>, e: Endianess, w: ArchitectureWidth, context: C
  ): Result<T>
  {
    parse(input, e, w)
  }

  /** Lifting a context-free decoder: both byte orders give the same value
      and the same position as the decoder alone. */
  lemma FromEndianessIgnoresOrder<T>(parse: Decoder<T>, input: seq<Byte>)
    ensures FromEndianess(parse, input, Little) == FromEndianess(parse, input, Big) == parse(input)
  {
  }

  /** Lifting a byte-order-aware decoder: the width never matters. */
  lemma FromContextIgnoresWidth<T>(parse: EndianDecoder<T>, input: seq<Byte>, e: Endianess)
    ensures FromContext(parse, input, e, ArchitectureWidth.ThirtyTwo)
         == FromContext(parse, input, e, ArchitectureWidth.SixtyFour)
         == parse(input, e)
  {
  }

  /** Lifting a width-aware decoder: the working context never matters. */
  lemma FromWorkingContextIgnoresContext<C, T>(
    parse: ContextDecoder<T>, input: seq<Byte>, e: Endianess, w: ArchitectureWidth, c1: C, c2: C)
    ensures FromWorkingContext(parse, input, e, w, c1) == FromWorkingContext(parse, input, e, w, c2) == parse(input, e, w)
  {
  }
}
