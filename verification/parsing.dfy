/** Context-free primitive readers and the integer encoders. */
module Parsing {
  import opened Bytes
  import opened Errors

  /** Reads exactly n bytes. A read that finds fewer than n bytes takes
      what is left and fails with `MissingData`. */
  function ReadBytes(n: nat, input: seq<Byte>): (r: Result<seq<Byte>>)
    ensures r.Ok? <==> |input| >= n
    ensures r.Ok? ==> |r.value| == n && r.value + r.rest == input
    ensures r.Err? ==> r.error == MissingData && r.rest == []
  {
    if |input| < n then Err(MissingData, []) else Ok(input[..n], input[n..])
  }

  /** `u8::parse`: one byte, in any byte order. */
  function ParseU8(input: seq<Byte>): (r: Result<Byte>)
    ensures r.Ok? <==> |input| >= 1
    ensures r.Ok? ==> [r.value] + r.rest == input
    ensures r.Err? ==> r == Err(MissingData, [])
  {
    var bytes :- ReadBytes(1, input);
    Ok(bytes.value[0], bytes.rest)
  }

  /** `ToByte` for `u8`. */
  function ToByte(b: Byte): (r: seq<Byte>)
    ensures |r| == 1 && r[0] == b
  {
    [b]
  }

  function To2Bytes(x: U16, e: Endianess): (r: seq<Byte>)
    ensures |r| == 2
    ensures ValueOf(r, e) == x
    ensures e == Little ==> r == [x % 256, x / 256]
    ensures e == Big ==> r == [x / 256, x % 256]
  {
    Pow256Values();
    RoundTrip(x, 2, e);
    assert (x / 256) % 256 == x / 256 && (x / 256) / 256 == 0;
    assert LeBytes(x, 2) == [x % 256] + LeBytes(x / 256, 1);
    assert BeBytes(x, 2) == BeBytes(x / 256, 1) + [x % 256];
    BytesOf(x, 2, e)
  }

  function To4Bytes(x: U32, e: Endianess): (r: seq<Byte>)
    ensures |r| == 4
    ensures ValueOf(r, e) == x
    ensures r[if e == Little then 0 else 3] == x % 256
  {
    Pow256Values();
    RoundTrip(x, 4, e);
    BytesOf(x, 4, e)
  }

  function To8Bytes(x: U64, e: Endianess): (r: seq<Byte>)
    ensures |r| == 8
    ensures ValueOf(r, e) == x
    ensures r[if e == Little then 0 else 7] == x % 256
  {
    Pow256Values();
    RoundTrip(x, 8, e);
    BytesOf(x, 8, e)
  }

  /** Reading one byte back from its encoding. */
  lemma ParseU8OfToByte(b: Byte, tail: seq<Byte>)
    ensures ParseU8(ToByte(b) + tail) == Ok(b, tail)
  {
  }

  /** For every width, the big-endian encoding is the little-endian one reversed. */
  lemma BigIsReversedLittle(x16: U16, x32: U32, x64: U64)
    ensures To2Bytes(x16, Big) == Reverse(To2Bytes(x16, Little))
    ensures To4Bytes(x32, Big) == Reverse(To4Bytes(x32, Little))
    ensures To8Bytes(x64, Big) == Reverse(To8Bytes(x64, Little))
  {
    BeBytesIsReverse(x16, 2);
    BeBytesIsReverse(x32, 4);
    BeBytesIsReverse(x64, 8);
  }
}
