/** Bytes, pages of them, and 32-bit numbers in little-endian order. */
module Bytes {
  const PAGE_SIZE: nat := 4096
  const FILE_PAGES_NUM: nat := 1028

  type Byte = x: int | 0 <= x < 256
  type Word = x: int | 0 <= x < 0x1_0000_0000

  function Encode(w: Word): (b: seq<Byte>)
    ensures |b| == 4
  {
    [w % 256, w / 256 % 256, w / 65536 % 256, w / 16777216]
  }

  function Decode(b: seq<Byte>): Word
    requires |b| == 4
  {
    var b0: int, b1: int, b2: int, b3: int := b[0], b[1], b[2], b[3];
    b0 + 256 * b1 + 65536 * b2 + 16777216 * b3
  }

  lemma DecodeEncode(w: Word)
    ensures Decode(Encode(w)) == w
  {
    var low: int, high: int := w % 65536, w / 65536;
    assert low == low % 256 + 256 * (low / 256);
    assert high == high % 256 + 256 * (high / 256);
    assert w % 256 == low % 256 && w / 256 % 256 == low / 256;
    assert w / 65536 % 256 == high % 256 && w / 16777216 == high / 256;
  }

  lemma EncodeDecode(b: seq<Byte>)
    requires |b| == 4
    ensures Encode(Decode(b)) == b
  {
    var w: int := Decode(b);
    var b0: int, b1: int, b2: int, b3: int := b[0], b[1], b[2], b[3];
    assert w / 256 == b1 + 256 * b2 + 65536 * b3;
    assert w / 65536 == b2 + 256 * b3;
    assert w / 16777216 == b3;
  }

  // The lowest byte stands first.
  lemma EncodeIff(w: Word, b: seq<Byte>)
    requires |b| == 4
    ensures var b0: int, b1: int, b2: int, b3: int := b[0], b[1], b[2], b[3];
            Encode(w) == b <==> w == b0 + 256 * b1 + 65536 * b2 + 16777216 * b3
  {
    EncodeDecode(b);
    DecodeEncode(w);
  }
}
