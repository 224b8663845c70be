/**
 * Fixed-width unsigned integers of the class-file format and their
 * big-endian byte encodings (read_u2_be / read_u4_be on the reading side,
 * buffer_append_u2_be / buffer_append_u4_be on the writing side).
 */
module Bytes {

  type byte = x: int | 0 <= x < 0x100
  type u16 = x: int | 0 <= x < 0x1_0000
  type u32 = x: int | 0 <= x < 0x1_0000_0000

  /** read_u2_be: the two bytes at `pos`, most significant first. */
  function ReadU2(data: seq<byte>, pos: nat): u16
    requires pos + 2 <= |data|
  {
    (data[pos] as int) * 0x100 + data[pos + 1]
  }

  /** read_u4_be: the four bytes at `pos`, most significant first. */
  function ReadU4(data: seq<byte>, pos: nat): u32
    requires pos + 4 <= |data|
  {
    (data[pos] as int) * 0x100_0000 + (data[pos + 1] as int) * 0x1_0000
      + (data[pos + 2] as int) * 0x100 + data[pos + 3]
  }

  /** The two bytes buffer_append_u2_be writes: high byte, then low byte. */
  function U2(v: u16): (r: seq<byte>)
    ensures |r| == 2
  {
    [v / 0x100, v % 0x100]
  }

  /** The four bytes buffer_append_u4_be writes, most significant first. */
  function U4(v: u32): (r: seq<byte>)
    ensures |r| == 4
  {
    [v / 0x100_0000, (v / 0x1_0000) % 0x100, (v / 0x100) % 0x100, v % 0x100]
  }

  /** Reading back what U2 wrote yields the value. */
  lemma ReadU2OfU2(v: u16, rest: seq<byte>)
    ensures ReadU2(U2(v) + rest, 0) == v
  {
  }

  /** Any two bytes are the U2 encoding of the value read from them. */
  lemma U2OfReadU2(data: seq<byte>, pos: nat)
    requires pos + 2 <= |data|
    ensures U2(ReadU2(data, pos)) == data[pos..pos + 2]
  {
  }

  /** Reading back what U4 wrote yields the value. */
  lemma ReadU4OfU4(v: u32, rest: seq<byte>)
    ensures ReadU4(U4(v) + rest, 0) == v
  {
    var q1, d := v / 0x100, v % 0x100;
    var q2, c := q1 / 0x100, q1 % 0x100;
    var a, b := q2 / 0x100, q2 % 0x100;
    assert v / 0x1_0000 == q2;
    assert v / 0x100_0000 == a;
  }

  /** Any four bytes are the U4 encoding of the value read from them. */
  lemma U4OfReadU4(data: seq<byte>, pos: nat)
    requires pos + 4 <= |data|
    ensures U4(ReadU4(data, pos)) == data[pos..pos + 4]
  {
    var a, b, c, d := data[pos] as int, data[pos + 1] as int, data[pos + 2] as int, data[pos + 3] as int;
    var v := ReadU4(data, pos);
    assert v == ((a * 0x100 + b) * 0x100 + c) * 0x100 + d;
    assert v % 0x100 == d && v / 0x100 == (a * 0x100 + b) * 0x100 + c;
    assert (v / 0x100) / 0x100 == a * 0x100 + b;
    assert v / 0x1_0000 == a * 0x100 + b;
    assert v / 0x100_0000 == a;
  }
}
