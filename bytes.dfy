/** Fixed-width integers and their big-endian byte encodings (the `U64Bytes` helper keys are built from). */
module Bytes {

  type byte = b: int | 0 <= b < 0x100
  type u32 = x: int | 0 <= x < 0x1_0000_0000
  type u64 = x: int | 0 <= x < 0x1_0000_0000_0000_0000
  type Bytes = seq<byte>

  const U32_LIMIT: nat := 0x1_0000_0000
  const U64_LIMIT: nat := 0x1_0000_0000_0000_0000

  /** 256 to the power n: the number of values `n` bytes can hold. */
  function Pow256(n: nat): (r: nat)
    ensures r >= 1
  {
    if n == 0 then 1 else 256 * Pow256(n - 1)
  }

  /** The `width` least significant base-256 digits of x, most significant first. */
  function BigEndian(x: nat, width: nat): (r: Bytes)
    requires x < Pow256(width)
    ensures |r| == width
  {
    if width == 0 then [] else BigEndian(x / 256, width - 1) + [x % 256]
  }

  /** The number a big-endian byte string denotes. */
  function FromBigEndian(s: Bytes): (r: nat)
    ensures r < Pow256(|s|)
  {
    if s == [] then 0 else FromBigEndian(s[..|s| - 1]) * 256 + s[|s| - 1]
  }

  lemma {:induction false} BigEndianRoundTrip(x: nat, width: nat)
    requires x < Pow256(width)
    ensures FromBigEndian(BigEndian(x, width)) == x
  {
    if width > 0 {
      var s := BigEndian(x, width);
      assert s[..|s| - 1] == BigEndian(x / 256, width - 1);
      BigEndianRoundTrip(x / 256, width - 1);
    }
  }

  lemma Pow256Widths()
    ensures Pow256(4) == U32_LIMIT && Pow256(8) == U64_LIMIT
  {
  }

  /** The 8-byte encoding of a 64-bit unsigned integer. */
  function U64Bytes(x: u64): (r: Bytes)
    ensures |r| == 8
  {
    Pow256Widths();
    BigEndian(x, 8)
  }

  /** The 4-byte encoding of a 32-bit unsigned integer. */
  function U32Bytes(x: u32): (r: Bytes)
    ensures |r| == 4
  {
    Pow256Widths();
    BigEndian(x, 4)
  }

  lemma U64BytesInverse(x: u64)
    ensures FromBigEndian(U64Bytes(x)) == x
  {
    Pow256Widths();
    BigEndianRoundTrip(x, 8);
  }

  lemma U64BytesInjective(a: u64, b: u64)
    ensures U64Bytes(a) == U64Bytes(b) <==> a == b
  {
    U64BytesInverse(a);
    U64BytesInverse(b);
  }

  lemma U32BytesInjective(a: u32, b: u32)
    ensures U32Bytes(a) == U32Bytes(b) <==> a == b
  {
    Pow256Widths();
    BigEndianRoundTrip(a, 4);
    BigEndianRoundTrip(b, 4);
  }

  /** Two concatenations whose first parts have equal length are equal exactly when both parts are. */
  lemma ConcatEqual(a: Bytes, b: Bytes, c: Bytes, d: Bytes)
    requires |a| == |c|
    ensures a + b == c + d <==> a == c && b == d
  {
    if a + b == c + d {
      assert a == (a + b)[..|a|] && c == (c + d)[..|c|];
      assert b == (a + b)[|a|..] && d == (c + d)[|c|..];
    }
  }
}
