/** Bytes and the fixed-width integer encodings of the wire and of ELF files. */
module Bytes {

  type byte = x: int | 0 <= x < 256

  const TWO_16: nat := 0x1_0000
  const TWO_32: nat := 0x1_0000_0000

  type uint16 = x: int | 0 <= x < TWO_16
  type uint32 = x: int | 0 <= x < TWO_32

  /** The bytes of `bigendian<uint16_t>`, most significant first. */
  function Be16(v: uint16): (s: seq<byte>)
    ensures |s| == 2
  {
    [v / 256, v % 256]
  }

  /** The bytes of `bigendian<uint32_t>`, most significant first. */
  function Be32(v: uint32): (s: seq<byte>)
    ensures |s| == 4
  {
    Be16(v / TWO_16) + Be16(v % TWO_16)
  }

  function FromBe16(s: seq<byte>): uint16
    requires |s| == 2
  {
    var hi: int, lo: int := s[0], s[1];
    256 * hi + lo
  }

  function FromBe32(s: seq<byte>): uint32
    requires |s| == 4
  {
    TWO_16 * FromBe16(s[..2]) + FromBe16(s[2..])
  }

  /** A native (little-endian) 16-bit word, as ELF files and `le16_t` store it. */
  function FromLe16(s: seq<byte>): uint16
    requires |s| == 2
  {
    var lo: int, hi: int := s[0], s[1];
    256 * hi + lo
  }

  function FromLe32(s: seq<byte>): uint32
    requires |s| == 4
  {
    FromLe16(s[..2]) + TWO_16 * FromLe16(s[2..])
  }

  function Le16(v: uint16): (s: seq<byte>)
    ensures |s| == 2
  {
    [v % 256, v / 256]
  }

  function Le32(v: uint32): (s: seq<byte>)
    ensures |s| == 4
  {
    Le16(v % TWO_16) + Le16(v / TWO_16)
  }

  /** The weight of each byte: most significant first on the wire, last in native words. */
  lemma ByteOrder(a: byte, b: byte, c: byte, d: byte)
    ensures FromBe32([a, b, c, d]) == 16777216 * a + 65536 * b + 256 * c + d && FromBe16([a, b]) == 256 * a + b
    ensures FromLe32([a, b, c, d]) == a + 256 * b + 65536 * c + 16777216 * d && FromLe16([a, b]) == a + 256 * b
  {
    var s := [a, b, c, d];
    assert s[..2] == [a, b] && s[2..] == [c, d];
  }

  lemma LittleEndianRoundTrip(v: uint32, w: uint16)
    ensures FromLe32(Le32(v)) == v
    ensures FromLe16(Le16(w)) == w
  {
  }

  /** Storing into a `bigendian` field and converting it back is the identity, both ways. */
  lemma BigEndianRoundTrip(v: uint32, w: uint16, s: seq<byte>)
    ensures FromBe32(Be32(v)) == v
    ensures FromBe16(Be16(w)) == w
    ensures |s| == 4 ==> Be32(FromBe32(s)) == s
    ensures |s| == 2 ==> Be16(FromBe16(s)) == s
  {
    assert Be32(v)[..2] == Be16(v / TWO_16) && Be32(v)[2..] == Be16(v % TWO_16);
    if |s| == 4 {
      var hi, lo := FromBe16(s[..2]), FromBe16(s[2..]);
      assert FromBe32(s) / TWO_16 == hi && FromBe32(s) % TWO_16 == lo;
      assert Be16(hi) == s[..2] && Be16(lo) == s[2..];
      assert s == s[..2] + s[2..];
    }
  }
}
