/** `bswap` and the network byte order of `include/stdplus/numeric/endian.hpp` on a
    little-endian host. */
module Endian {

  const WORD: nat := 0x1_0000_0000

  type Byte = x: nat | x < 256

  /** The 16-bit word with these bytes in memory. */
  function Le16(b0: Byte, b1: Byte): nat {
    b0 + 256 * b1
  }

  /** The 32-bit word with these bytes in memory. */
  function Le32(b0: Byte, b1: Byte, b2: Byte, b3: Byte): nat {
    b0 + 256 * (b1 + 256 * (b2 + 256 * b3))
  }

  function Bytes32(x: nat): (bs: seq<Byte>)
    requires x < WORD
    ensures |bs| == 4
  {
    var x1, x2, x3 := x / 256, x / 256 / 256, x / 256 / 256 / 256;
    [x % 256, x1 % 256, x2 % 256, x3]
  }

  /** `hton` and `ntoh` of 16 bits */
  function Swap16(x: nat): (r: nat)
    requires x < 0x1_0000
    ensures r < 0x1_0000
  {
    Le16(x / 256, x % 256)
  }

  /** `hton` and `ntoh` of 32 bits */
  function Swap32(x: nat): (r: nat)
    requires x < WORD
    ensures r < WORD
  {
    var bs := Bytes32(x);
    Le32(bs[3], bs[2], bs[1], bs[0])
  }

  lemma Peel(b: Byte, q: nat)
    ensures (b + 256 * q) % 256 == b && (b + 256 * q) / 256 == q
  {
  }

  lemma BytesOfLe32(b0: Byte, b1: Byte, b2: Byte, b3: Byte)
    ensures Le32(b0, b1, b2, b3) < WORD && Bytes32(Le32(b0, b1, b2, b3)) == [b0, b1, b2, b3]
  {
    Peel(b0, b1 + 256 * (b2 + 256 * b3));
    Peel(b1, b2 + 256 * b3);
    Peel(b2, b3);
  }

  lemma Le32OfBytes(x: nat)
    requires x < WORD
    ensures var bs := Bytes32(x); Le32(bs[0], bs[1], bs[2], bs[3]) == x
  {
  }

  /** Swapping reverses the bytes. */
  lemma Swap32Bytes(b0: Byte, b1: Byte, b2: Byte, b3: Byte)
    ensures Le32(b0, b1, b2, b3) < WORD && Swap32(Le32(b0, b1, b2, b3)) == Le32(b3, b2, b1, b0)
  {
    BytesOfLe32(b0, b1, b2, b3);
  }

  lemma Swap16Bytes(b0: Byte, b1: Byte)
    ensures Le16(b0, b1) < 0x1_0000 && Swap16(Le16(b0, b1)) == Le16(b1, b0)
  {
    Peel(b0, b1);
  }

  lemma Swap16Involution(x: nat)
    requires x < 0x1_0000
    ensures Swap16(Swap16(x)) == x
  {
    Swap16Bytes(x / 256, x % 256);
  }

  lemma Swap32Involution(x: nat)
    requires x < WORD
    ensures Swap32(Swap32(x)) == x
  {
    var bs := Bytes32(x);
    Le32OfBytes(x);
    Swap32Bytes(bs[3], bs[2], bs[1], bs[0]);
  }
}
