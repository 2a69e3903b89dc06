/** Bytes, little-endian integer fields and hexadecimal dumps. */
module Bytes {
  import Text

  newtype byte = x: int | 0 <= x < 256

  type u16 = x: int | 0 <= x < 0x1_0000
  type u32 = x: int | 0 <= x < 0x1_0000_0000

  /** `uint16(b0) | uint16(b1)<<8`: the two bytes do not overlap, so the OR is a sum. */
  function LittleEndian16(b0: byte, b1: byte): u16 {
    b0 as int + 0x100 * b1 as int
  }

  /** `uint32(b0) | uint32(b1)<<8 | uint32(b2)<<16 | uint32(b3)<<24`. */
  function LittleEndian32(b0: byte, b1: byte, b2: byte, b3: byte): u32 {
    var hi := b2 as int + 0x100 * b3 as int;
    var mid := b1 as int + 0x100 * hi;
    assert hi < 0x1_0000 && mid < 0x100_0000;
    b0 as int + 0x100 * mid
  }

  /** The two bytes of `v`, least significant first. */
  function PutLittleEndian16(v: u16): (r: seq<byte>)
    ensures |r| == 2
  {
    [(v % 0x100) as byte, (v / 0x100) as byte]
  }

  /** The four bytes of `v`, least significant first. */
  function PutLittleEndian32(v: u32): (r: seq<byte>)
    ensures |r| == 4
  {
    var v1 := v / 0x100;
    var v2 := v1 / 0x100;
    [(v % 0x100) as byte, (v1 % 0x100) as byte, (v2 % 0x100) as byte, (v2 / 0x100) as byte]
  }

  /** Splitting off the low byte of `lo + 256 * hi` gives back `lo` and `hi`. */
  lemma SplitLowByte(lo: int, hi: int)
    requires 0 <= lo < 0x100
    ensures (lo + 0x100 * hi) % 0x100 == lo
    ensures (lo + 0x100 * hi) / 0x100 == hi
  {
  }

  lemma LittleEndian16RoundTrip(v: u16)
    ensures var b := PutLittleEndian16(v); LittleEndian16(b[0], b[1]) == v
  {
  }

  lemma LittleEndian16Unique(b0: byte, b1: byte)
    ensures PutLittleEndian16(LittleEndian16(b0, b1)) == [b0, b1]
  {
  }

  lemma LittleEndian32RoundTrip(v: u32)
    ensures var b := PutLittleEndian32(v); LittleEndian32(b[0], b[1], b[2], b[3]) == v
  {
  }

  lemma LittleEndian32Unique(b0: byte, b1: byte, b2: byte, b3: byte)
    ensures PutLittleEndian32(LittleEndian32(b0, b1, b2, b3)) == [b0, b1, b2, b3]
  {
    var hi2 := b2 as int + 0x100 * b3 as int;
    var hi1 := b1 as int + 0x100 * hi2;
    SplitLowByte(b0 as int, hi1);
    SplitLowByte(b1 as int, hi2);
    SplitLowByte(b2 as int, b3 as int);
  }

  /** The two lower-case hexadecimal digits of a byte, high nibble first. */
  function HexByte(b: byte): string {
    [Text.HexDigit(b as int / 16), Text.HexDigit(b as int % 16)]
  }

  /** `hex.EncodeToString`: two hexadecimal digits per byte. */
  function HexEncode(bs: seq<byte>): (r: string)
    ensures |r| == 2 * |bs|
  {
    if |bs| == 0 then "" else HexByte(bs[0]) + HexEncode(bs[1..])
  }
}
