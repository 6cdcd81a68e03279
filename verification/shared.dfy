/** Types shared by every object format: the width-tagged native integer and
    the byte-order code. */
module Shared {
  import opened Bytes
  import opened Errors

  /** An address, offset or size whose on-disk width is 4 or 8 bytes. */
  datatype NativeInteger =
    | ThirtyTwo(v32: U32)
    | SixtyFour(v64: U64)

  /** The number a native integer holds, whatever its width. */
  function NativeValue(n: NativeInteger): nat
  {
    match n
    case ThirtyTwo(v) => v
    case SixtyFour(v) => v
  }

  /** `From<u32>`: the 32-bit tag, same value. */
  function FromU32(x: U32): (r: NativeInteger)
    ensures r.ThirtyTwo? && NativeValue(r) == x
  {
    ThirtyTwo(x)
  }

  /** `From<u64>`: the 64-bit tag, same value. */
  function FromU64(x: U64): (r: NativeInteger)
    ensures r.SixtyFour? && NativeValue(r) == x
  {
    SixtyFour(x)
  }

  /** The code byte that names a byte order in an ELF identification. */
  function EndianessCode(e: Endianess): Byte
  {
    match e
    case Little => 1
    case Big => 2
  }

  /** `Endianess::parse`: code 1 is little-endian, 2 big-endian. */
  function ParseEndianess(input: seq<Byte>): (r: Result<Endianess>)
    ensures |input| == 0 ==> r == Err(MissingData, [])
    ensures |input| > 0 ==> r.rest == input[1..]
    ensures r.Ok? <==> |input| > 0 && (input[0] == 1 || input[0] == 2)
    ensures r.Ok? ==> EndianessCode(r.value) == input[0]
    ensures |input| > 0 && r.Err? ==> r.error == InvalidValue([input[0]])
  {
    if |input| < 1 then Err(MissingData, [])
    else
      match input[0]
      case 1 => Ok(Little, input[1..])
      case 2 => Ok(Big, input[1..])
      case other => Err(InvalidValue([other]), input[1..])
  }

  /** Decoding the code of a byte order gives it back. */
  lemma ParseEndianessOfCode(e: Endianess, tail: seq<Byte>)
    ensures ParseEndianess([EndianessCode(e)] + tail) == Ok(e, tail)
  {
  }
}
