/** The byte-level helpers of util/Util.go: `ToHexInt` (the 8-byte
    big-endian encoding of an `int64`) and `SerializeTwoDimensionArray`. */
module Encoding {
  import opened Bytes

  /** Go's `int64`. */
  type int64 = x: int | -0x8000_0000_0000_0000 <= x < 0x8000_0000_0000_0000

  function Pow256(n: nat): (p: nat)
    ensures p > 0
  {
    if n == 0 then 1 else 256 * Pow256(n - 1)
  }

  /** The low `n` bytes of `u`, most significant first. */
  function BigEndian(u: nat, n: nat): (b: seq<byte>)
    ensures |b| == n
  {
    if n == 0 then [] else BigEndian(u / 256, n - 1) + [u % 256]
  }

  /** The number a big-endian byte string denotes. */
  function FromBigEndian(b: seq<byte>): nat
  {
    if b == [] then 0 else FromBigEndian(b[..|b| - 1]) * 256 + b[|b| - 1]
  }

  /** The 64-bit two's-complement pattern of `num`, read as an unsigned number. */
  function TwosComplement(num: int64): (u: nat)
    ensures u < 0x1_0000_0000_0000_0000
    ensures num >= 0 <==> u < 0x8000_0000_0000_0000
  {
    if num < 0 then num + 0x1_0000_0000_0000_0000 else num
  }

  /** The `int64` whose two's-complement pattern is `u`. */
  function FromTwosComplement(u: nat): int64
    requires u < 0x1_0000_0000_0000_0000
  {
    if u < 0x8000_0000_0000_0000 then u else u - 0x1_0000_0000_0000_0000
  }

  /** Splitting off the last byte: the quotient is below `p` and, with the
      remainder, rebuilds `u`. */
  lemma SplitLowByte(u: nat, p: nat)
    requires u < 256 * p
    ensures u / 256 < p
    ensures (u / 256) * 256 + u % 256 == u
  {
  }

  /** Decoding `n` bytes is decoding the first `n - 1` and appending the last. */
  lemma BigEndianLastByte(u: nat, n: nat)
    requires n > 0
    ensures FromBigEndian(BigEndian(u, n)) == FromBigEndian(BigEndian(u / 256, n - 1)) * 256 + u % 256
  {
    var b := BigEndian(u, n);
    var hiBytes := BigEndian(u / 256, n - 1);
    assert b == hiBytes + [u % 256];
    assert b[..n - 1] == hiBytes;
  }

  /** A number below `256^n` is recovered from its `n` big-endian bytes. */
  lemma {:induction false} BigEndianRoundTrip(u: nat, n: nat)
    requires u < Pow256(n)
    ensures FromBigEndian(BigEndian(u, n)) == u
  {
    if n > 0 {
      assert Pow256(n) == 256 * Pow256(n - 1);
      SplitLowByte(u, Pow256(n - 1));
      BigEndianRoundTrip(u / 256, n - 1);
      BigEndianLastByte(u, n);
    }
  }

  /** Every byte string is the big-endian encoding, at its own length, of the
      number it denotes: the encoding at a fixed width is a bijection. */
  lemma {:induction false} FromBigEndianRoundTrip(b: seq<byte>)
    ensures BigEndian(FromBigEndian(b), |b|) == b
  {
    if b != [] {
      var n := |b|;
      var u := FromBigEndian(b);
      var hi := FromBigEndian(b[..n - 1]);
      assert u / 256 == hi && u % 256 == b[n - 1];
      FromBigEndianRoundTrip(b[..n - 1]);
      assert b == b[..n - 1] + [b[n - 1]];
    }
  }

  /** `n` bytes denote a number below `256^n`. */
  lemma {:induction false} FromBigEndianBound(b: seq<byte>)
    ensures FromBigEndian(b) < Pow256(|b|)
  {
    if b != [] {
      FromBigEndianBound(b[..|b| - 1]);
    }
  }

  /** The `int64` that 8 big-endian bytes denote in two's complement
      (`binary.BigEndian.Uint64` followed by a conversion to `int64`). */
  function DecodeInt64(b: seq<byte>): int64
    requires |b| == 8
  {
    FromBigEndianBound(b);
    assert Pow256(8) == 0x1_0000_0000_0000_0000;
    FromTwosComplement(FromBigEndian(b))
  }

  /** The 8-byte encoding of an `int64` decodes back to it. */
  lemma Int64RoundTrip(num: int64)
    ensures DecodeInt64(BigEndian(TwosComplement(num), 8)) == num
  {
    assert Pow256(8) == 0x1_0000_0000_0000_0000;
    BigEndianRoundTrip(TwosComplement(num), 8);
  }

  /** Every 8 bytes are the encoding of the `int64` they decode to, so the
      encoding is a bijection between `int64` values and 8-byte strings. */
  lemma Int64Surjective(b: seq<byte>)
    requires |b| == 8
    ensures BigEndian(TwosComplement(DecodeInt64(b)), 8) == b
  {
    FromBigEndianBound(b);
    assert Pow256(8) == 0x1_0000_0000_0000_0000;
    assert TwosComplement(DecodeInt64(b)) == FromBigEndian(b);
    FromBigEndianRoundTrip(b);
  }

  /** `ToHexInt`: `binary.Write` of `num` in big-endian order into a fresh
      buffer, whose bytes are returned. The encoder stores the eight bytes of
      the two's-complement pattern, least significant last; here they are
      stored from the last position backwards. */
  method ToHexInt(num: int64) returns (bytes: seq<byte>)
    ensures |bytes| == 8
    ensures bytes == BigEndian(TwosComplement(num), 8)
    ensures DecodeInt64(bytes) == num
  {
    var buf := new byte[8];
    var u := TwosComplement(num);
    ghost var pattern := u;
    var i := 8;
    while i > 0
      invariant 0 <= i <= 8
      invariant BigEndian(pattern, 8) == BigEndian(u, i) + buf[i..]
    {
      buf[i - 1] := u % 256;
      assert buf[i - 1..] == [u % 256] + buf[i..];
      u := u / 256;
      i := i - 1;
    }
    bytes := buf[..];
    Int64RoundTrip(num);
  }

  /** The element type `SerializeTwoDimensionArray` produces: one row of bytes. */
  datatype ByteArray = ByteArray(Arr: seq<byte>)

  /** `SerializeTwoDimensionArray`: a slice of `ByteArray`, one per row, each
      row stored in its element's `Arr` field. */
  method SerializeTwoDimensionArray(arr: seq<seq<byte>>) returns (byteArr: seq<ByteArray>)
    ensures |byteArr| == |arr|
    ensures forall i :: 0 <= i < |arr| ==> byteArr[i].Arr == arr[i]
  {
    var a := new ByteArray[|arr|](_ => ByteArray([]));
    for i := 0 to |arr|
      invariant forall j :: 0 <= j < i ==> a[j].Arr == arr[j]
    {
      a[i] := a[i].(Arr := arr[i]);
    }
    byteArr := a[..];
  }
}
