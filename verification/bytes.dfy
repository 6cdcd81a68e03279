/** Unsigned machine integers as the decoder sees them: bytes, 16/32/64-bit
    words, and the little/big-endian correspondence between a number and the
    bytes that hold it (Rust's `from_le_bytes`/`to_be_bytes` family). */
module Bytes {

  type Byte = b: nat | b < 0x100
  type U16 = x: nat | x < 0x1_0000
  type U32 = x: nat | x < 0x1_0000_0000
  type U64 = x: nat | x < 0x1_0000_0000_0000_0000

  /** Byte order of every multi-byte field after the identification bytes.
      The source declares it next to `NativeInteger`; it lives here because
      the integer encoders need it and the decoders of that file need them. */
  datatype Endianess = Little | Big

  /** 256 to the power n: the number of values n bytes can hold. */
  function Pow256(n: nat): (r: nat)
    ensures r > 0
  {
    if n == 0 then 1 else 256 * Pow256(n - 1)
  }

  lemma Pow256Values()
    ensures Pow256(1) == 0x100
    ensures Pow256(2) == 0x1_0000
    ensures Pow256(4) == 0x1_0000_0000
    ensures Pow256(8) == 0x1_0000_0000_0000_0000
  {
  }

  function Reverse<T>(s: seq<T>): (r: seq<T>)
    ensures |r| == |s|
    ensures forall i :: 0 <= i < |s| ==> r[i] == s[|s| - 1 - i]
  {
    if |s| == 0 then [] else Reverse(s[1..]) + [s[0]]
  }

  lemma ReverseReverse<T>(s: seq<T>)
    ensures Reverse(Reverse(s)) == s
  {
  }

  /** The number whose least significant byte comes first. */
  function LeValue(bs: seq<Byte>): (r: nat)
    ensures r < Pow256(|bs|)
  {
    if |bs| == 0 then 0 else bs[0] + 256 * LeValue(bs[1..])
  }

  /** The number whose most significant byte comes first. */
  function BeValue(bs: seq<Byte>): (r: nat)
    ensures r < Pow256(|bs|)
  {
    if |bs| == 0 then 0 else 256 * BeValue(bs[..|bs| - 1]) + bs[|bs| - 1]
  }

  /** The n low-order bytes of x, least significant first. */
  function LeBytes(x: nat, n: nat): (r: seq<Byte>)
    ensures |r| == n
  {
    if n == 0 then [] else [x % 256] + LeBytes(x / 256, n - 1)
  }

  /** The n low-order bytes of x, most significant first. */
  function BeBytes(x: nat, n: nat): (r: seq<Byte>)
    ensures |r| == n
  {
    if n == 0 then [] else BeBytes(x / 256, n - 1) + [x % 256]
  }

  function ValueOf(bs: seq<Byte>, e: Endianess): (r: nat)
    ensures r < Pow256(|bs|)
  {
    match e
    case Little => LeValue(bs)
    case Big => BeValue(bs)
  }

  function BytesOf(x: nat, n: nat, e: Endianess): (r: seq<Byte>)
    ensures |r| == n
  {
    match e
    case Little => LeBytes(x, n)
    case Big => BeBytes(x, n)
  }

  /** Reading back the little-endian bytes of a number that fits gives the number. */
  lemma {:induction false} LeValueOfLeBytes(x: nat, n: nat)
    requires x < Pow256(n)
    ensures LeValue(LeBytes(x, n)) == x
  {
    if n > 0 {
      LeValueOfLeBytes(x / 256, n - 1);
      assert LeBytes(x, n)[1..] == LeBytes(x / 256, n - 1);
    }
  }

  /** Writing back the value of a little-endian buffer gives the buffer. */
  lemma {:induction false} LeBytesOfLeValue(bs: seq<Byte>)
    ensures LeBytes(LeValue(bs), |bs|) == bs
  {
    if |bs| > 0 {
      var v := LeValue(bs[1..]);
      assert LeValue(bs) % 256 == bs[0];
      assert LeValue(bs) / 256 == v;
      LeBytesOfLeValue(bs[1..]);
      assert bs == [bs[0]] + bs[1..];
    }
  }

  /** The big-endian bytes of a number are its little-endian bytes reversed. */
  lemma {:induction false} BeBytesIsReverse(x: nat, n: nat)
    ensures BeBytes(x, n) == Reverse(LeBytes(x, n))
  {
    if n > 0 {
      BeBytesIsReverse(x / 256, n - 1);
      var le := LeBytes(x, n);
      assert le[1..] == LeBytes(x / 256, n - 1);
    }
  }

  /** Reading a buffer big-endian is reading its reversal little-endian. */
  lemma {:induction false} BeValueIsLeValueOfReverse(bs: seq<Byte>)
    ensures BeValue(bs) == LeValue(Reverse(bs))
  {
    if |bs| > 0 {
      var init := bs[..|bs| - 1];
      BeValueIsLeValueOfReverse(init);
      var rev := Reverse(bs);
      assert rev[0] == bs[|bs| - 1];
      assert rev[1..] == Reverse(init);
    }
  }

  /** Encoding and then decoding in one byte order returns the number. */
  lemma RoundTrip(x: nat, n: nat, e: Endianess)
    requires x < Pow256(n)
    ensures ValueOf(BytesOf(x, n, e), e) == x
  {
    LeValueOfLeBytes(x, n);
    if e == Big {
      BeBytesIsReverse(x, n);
      BeValueIsLeValueOfReverse(BytesOf(x, n, e));
      ReverseReverse(LeBytes(x, n));
    }
  }

  /** Decoding and then encoding in one byte order returns the buffer, so a
      decoded value determines the bytes it came from. */
  lemma BytesOfValue(bs: seq<Byte>, e: Endianess)
    ensures BytesOf(ValueOf(bs, e), |bs|, e) == bs
  {
    match e
    case Little =>
      LeBytesOfLeValue(bs);
    case Big =>
      var rev := Reverse(bs);
      BeValueIsLeValueOfReverse(bs);
      LeBytesOfLeValue(rev);
      BeBytesIsReverse(LeValue(rev), |bs|);
      ReverseReverse(bs);
  }
}
