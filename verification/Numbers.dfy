/** What the machine words and their bytes are worth as numbers. */
module Numbers {
  import opened Basics

  function Number8(b: Byte): (n: nat)
    ensures n < 256
  {
    b as int
  }

  function Number16(word: bv16): nat {
    word as int
  }

  function Number32(word: bv32): nat {
    word as int
  }

  /** The number with these base-256 digits, the lowest first. */
  function LittleEndian(digits: seq<Byte>): nat {
    if digits == [] then 0 else Number8(digits[0]) + 256 * LittleEndian(digits[1..])
  }

  /** The number with these base-256 digits, the highest first. */
  function BigEndian(digits: seq<Byte>): nat {
    if digits == [] then 0 else 256 * BigEndian(digits[..|digits| - 1]) + Number8(digits[|digits| - 1])
  }

  lemma TwoDigits(a: Byte, b: Byte)
    ensures LittleEndian([a, b]) == Number8(a) + 256 * Number8(b)
    ensures BigEndian([a, b]) == 256 * Number8(a) + Number8(b)
  {
    hide Number8;
    assert [a, b][1..] == [b] && [b][1..] == [];
    assert LittleEndian([b]) == Number8(b);
    assert [a, b][..1] == [a] && [a][..0] == [];
    assert BigEndian([a]) == Number8(a);
  }

  lemma FourDigits(a: Byte, b: Byte, c: Byte, d: Byte)
    ensures LittleEndian([a, b, c, d]) == LittleEndian([a, b]) + 65536 * LittleEndian([c, d])
    ensures BigEndian([a, b, c, d]) == 65536 * BigEndian([a, b]) + BigEndian([c, d])
  {
    hide Number8;
    TwoDigits(a, b);
    TwoDigits(c, d);
    assert [a, b, c, d][1..] == [b, c, d] && [b, c, d][1..] == [c, d];
    assert [a, b, c, d][..3] == [a, b, c] && [a, b, c][..2] == [a, b];
  }

  function Join16(high: Byte, low: Byte): bv16 {
    ((high as bv16) << 8) | (low as bv16)
  }

  function Join32(high: bv16, low: bv16): bv32 {
    ((high as bv32) << 16) | (low as bv32)
  }

  lemma Join16Value(high: Byte, low: Byte)
    ensures Number16(Join16(high, low)) == 256 * Number8(high) + Number8(low)
  {
  }

  lemma Join32Value(high: bv16, low: bv16)
    ensures Number32(Join32(high, low)) == 65536 * Number16(high) + Number16(low)
  {
  }

  // Four bytes make a word of two halves of two bytes each.
  lemma WordValue(a: Byte, b: Byte, c: Byte, d: Byte)
    ensures Number16(Join16(a, b)) == BigEndian([a, b]) == LittleEndian([b, a])
    ensures Number32(Join32(Join16(a, b), Join16(c, d))) == BigEndian([a, b, c, d]) == LittleEndian([d, c, b, a])
  {
    hide Number8, Number16, Number32, Join16, Join32;
    TwoDigits(a, b);
    TwoDigits(b, a);
    TwoDigits(c, d);
    TwoDigits(d, c);
    FourDigits(a, b, c, d);
    FourDigits(d, c, b, a);
    Join16Value(a, b);
    Join16Value(c, d);
    Join32Value(Join16(a, b), Join16(c, d));
  }
}
