/** Fixed-width integers and their little-endian byte encoding, as used by
    every multi-byte field of a BMP header. */
module ByteCodec {

  /** One byte of a file, read as an unsigned value. */
  type uint8 = x: int | 0 <= x < 0x100
  type uint16 = x: int | 0 <= x < 0x1_0000
  type uint32 = x: int | 0 <= x < 0x1_0000_0000
  type int32 = x: int | -0x8000_0000 <= x < 0x8000_0000

  /** 256^n: the number of distinct values an n-byte field can hold. */
  function Pow256(n: nat): (r: nat)
    ensures r >= 1
  {
    if n == 0 then 1 else 256 * Pow256(n - 1)
  }

  lemma Pow256Widths()
    ensures Pow256(2) == 0x1_0000 && Pow256(4) == 0x1_0000_0000
  {
    assert Pow256(1) == 256;
    assert Pow256(2) == 256 * 256;
    assert Pow256(3) == 256 * 256 * 256;
  }

  /** The unsigned value of a little-endian byte sequence: s[0] is the least
      significant byte. */
  function DecodeLE(s: seq<uint8>): (v: nat)
    ensures v < Pow256(|s|)
  {
    if s == [] then 0
    else
      var rest := DecodeLE(s[1..]);
      assert s[0] + 256 * rest < 256 * (rest + 1) <= 256 * Pow256(|s| - 1);
      s[0] + 256 * rest
  }

  /** The n-byte little-endian encoding of v; it decodes back to v. */
  function EncodeLE(v: nat, n: nat): (s: seq<uint8>)
    requires v < Pow256(n)
    ensures |s| == n && DecodeLE(s) == v
  {
    if n == 0 then []
    else
      var s := [(v % 256) as uint8] + EncodeLE(v / 256, n - 1);
      assert s[1..] == EncodeLE(v / 256, n - 1);
      s
  }

  /** Encoding is also a left inverse of decoding: every byte sequence is
      the encoding of its own value. */
  lemma {:induction false} EncodeDecodeLE(s: seq<uint8>)
    ensures EncodeLE(DecodeLE(s), |s|) == s
  {
    if s != [] {
      EncodeDecodeLE(s[1..]);
      var v := DecodeLE(s);
      assert v % 256 == s[0] && v / 256 == DecodeLE(s[1..]);
      assert s == [s[0]] + s[1..];
    }
  }

  /** Two's complement reading of 32 stored bits: the signed value congruent
      to u modulo 2^32. */
  function ToSigned32(u: uint32): (s: int32)
    ensures (s < 0) == (u >= 0x8000_0000)
    ensures (u - s) % 0x1_0000_0000 == 0
    ensures ToUnsigned32(s) == u
  {
    if u < 0x8000_0000 then u else u - 0x1_0000_0000
  }

  /** The 32 stored bits of a signed value in two's complement: the unsigned
      value congruent to s modulo 2^32. */
  function ToUnsigned32(s: int32): (u: uint32)
    ensures (u >= 0x8000_0000) == (s < 0)
    ensures (u - s) % 0x1_0000_0000 == 0
  {
    if s >= 0 then s else s + 0x1_0000_0000
  }

  lemma SignedUnsignedInverse(s: int32)
    ensures ToSigned32(ToUnsigned32(s)) == s
  {
  }
}
