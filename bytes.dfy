/** Fixed-width unsigned integers of the C code and network (big-endian) byte order,
    as produced by htons/htonl followed by memcpy into a byte buffer. */
module Bytes {

  type uint8 = x: int | 0 <= x < 0x100
  type uint16 = x: int | 0 <= x < 0x1_0000
  type uint32 = x: int | 0 <= x < 0x1_0000_0000

  /** The two bytes that htons(v) leaves in memory: most significant byte first. */
  function Be16(v: uint16): (b: seq<uint8>)
    ensures |b| == 2
    ensures b[0] as int * 0x100 + b[1] as int == v
  {
    [v / 0x100, v % 0x100]
  }

  /** The four bytes that htonl(v) leaves in memory: most significant byte first. */
  function Be32(v: uint32): (b: seq<uint8>)
    ensures |b| == 4
    ensures b[0] as int * 0x100_0000 + b[1] as int * 0x1_0000 + b[2] as int * 0x100 + b[3] as int == v
  {
    Be16(v / 0x1_0000) + Be16(v % 0x1_0000)
  }

  /** Reads a big-endian 16-bit value (ntohs of two bytes in memory). */
  function FromBe16(b: seq<uint8>): uint16
    requires |b| == 2
  {
    b[0] as int * 0x100 + b[1] as int
  }

  /** Reads a big-endian 32-bit value (ntohl of four bytes in memory). */
  function FromBe32(b: seq<uint8>): uint32
    requires |b| == 4
  {
    FromBe16(b[..2]) * 0x1_0000 + FromBe16(b[2..])
  }

  lemma Be16Inverse(v: uint16)
    ensures FromBe16(Be16(v)) == v
  {
  }

  lemma FromBe16Inverse(b: seq<uint8>)
    requires |b| == 2
    ensures Be16(FromBe16(b)) == b
  {
  }

  /** Decoding what htonl wrote gives the value back. */
  lemma Be32Inverse(v: uint32)
    ensures FromBe32(Be32(v)) == v
  {
    var b := Be32(v);
    assert b[..2] == Be16(v / 0x1_0000);
    assert b[2..] == Be16(v % 0x1_0000);
  }

  /** Four bytes are the htonl image of the value they encode: the encoding is onto. */
  lemma FromBe32Inverse(b: seq<uint8>)
    requires |b| == 4
    ensures Be32(FromBe32(b)) == b
  {
    var hi, lo := FromBe16(b[..2]), FromBe16(b[2..]);
    var v := FromBe32(b);
    assert v / 0x1_0000 == hi && v % 0x1_0000 == lo;
    FromBe16Inverse(b[..2]);
    FromBe16Inverse(b[2..]);
    assert b == b[..2] + b[2..];
  }
}
