/**
 What the CRC is: the remainder of the message, as a polynomial with coefficients modulo 2
 and shifted by sixteen places, divided by the generator. Polynomials are strings of bits in
 the order of transmission, which is the highest degree first.
 */
module CrcPolynomial {
  import opened Basics
  import opened Crc
  import CrcTable
  import SignalFrame

  function XorBits(a: seq<bool>, b: seq<bool>): (c: seq<bool>)
    requires |a| == |b|
    ensures |c| == |a| && forall i | 0 <= i < |a| :: c[i] == (a[i] != b[i])
  {
    seq(|a|, i requires 0 <= i < |a| => a[i] != b[i])
  }

  function Zeros(n: nat): (z: seq<bool>)
    ensures |z| == n && forall i | 0 <= i < n :: !z[i]
  {
    seq(n, _ => false)
  }

  // The n lowest bits of a word, the lowest first.
  function WordBits(n: nat, word: bv16): (bits: seq<bool>)
    ensures |bits| == n
  {
    if n == 0 then [] else [LowSet(word)] + WordBits(n - 1, Half(word))
  }

  /** The sixteen coefficients of a CRC or a polynomial, the highest degree first. In the
      reflected branch the register holds them lowest bit first. */
  function Coefficients(word: bv16, reversed: Byte): (bits: seq<bool>)
    ensures |bits| == 16
  {
    WordBits(16, if reversed == 0 then Reverse16(word) else word)
  }

  /** The generator: degree sixteen and the terms of `poly`. */
  function Generator(poly: bv16): (bits: seq<bool>)
    ensures |bits| == 17
  {
    [true] + Coefficients(poly, 0)
  }

  /** The product of two polynomials, the second one of degree sixteen. */
  function Product(q: seq<bool>, generator: seq<bool>): (bits: seq<bool>)
    requires |generator| == 17
    ensures |bits| == |q| + 16
  {
    if q == [] then Zeros(16)
    else XorBits((if q[0] then generator else Zeros(17)) + Zeros(|q| - 1), [false] + Product(q[1..], generator))
  }

  // ---- Words as bits ----

  lemma XorLow(a: bv16, b: bv16)
    ensures LowSet(Xor(a, b)) == (LowSet(a) != LowSet(b))
  {
  }

  lemma {:induction false} XorWordBits(n: nat, a: bv16, b: bv16)
    ensures WordBits(n, Xor(a, b)) == XorBits(WordBits(n, a), WordBits(n, b))
  {
    hide LowSet, Half, Xor;
    if n > 0 {
      XorLow(a, b);
      HalfXor(a, b);
      XorWordBits(n - 1, Half(a), Half(b));
    }
  }

  function Halves(n: nat, word: bv16): bv16 {
    if n == 0 then word else Halves(n - 1, Half(word))
  }

  lemma {:induction false} WordBitsLast(n: nat, word: bv16)
    ensures WordBits(n + 1, word) == WordBits(n, word) + [LowSet(Halves(n, word))]
  {
    if n > 0 {
      WordBitsLast(n - 1, Half(word));
    }
  }

  lemma TwoHalves(n: nat, word: bv16)
    ensures Halves(n + 2, word) == Halves(n, Quarter(word))
  {
  }

  function Quarter(word: bv16): bv16 {
    word >> 2
  }

  lemma EightQuarters(word: bv16)
    ensures var w := Quarter(Quarter(Quarter(Quarter(word)))); Quarter(Quarter(Quarter(Quarter(w)))) == 0
  {
  }

  lemma NoHalves(word: bv16)
    ensures Halves(0, word) == word
  {
  }

  lemma SixteenHalves(word: bv16)
    ensures Halves(15, Half(word)) == 0
  {
    assert Halves(16, word) == Halves(15, Half(word));
    hide Halves, Quarter;
    var w := Quarter(Quarter(Quarter(Quarter(word))));
    TwoHalves(14, word);
    TwoHalves(12, Quarter(word));
    TwoHalves(10, Quarter(Quarter(word)));
    TwoHalves(8, Quarter(Quarter(Quarter(word))));
    TwoHalves(6, w);
    TwoHalves(4, Quarter(w));
    TwoHalves(2, Quarter(Quarter(w)));
    TwoHalves(0, Quarter(Quarter(Quarter(w))));
    EightQuarters(word);
    NoHalves(0);
  }

  // A shift moves all bits one place on.
  lemma HalfWordBits(word: bv16)
    ensures WordBits(16, Half(word)) == WordBits(16, word)[1..] + [false]
  {
    hide Half, LowSet, Halves;
    WordBitsLast(15, Half(word));
    SixteenHalves(word);
    ZeroLow();
    assert WordBits(16, word) == [LowSet(word)] + WordBits(15, Half(word));
  }

  lemma ZeroLow()
    ensures !LowSet(0)
  {
  }

  // ---- The serial register divides ----

  lemma ShiftInIs(crc: bv16, bit: bool, poly: bv16)
    ensures ShiftIn(crc, bit, poly) == if bit != LowSet(crc) then Xor(Half(crc), poly) else Half(crc)
  {
    FlipLow(crc);
    hide Xor, Half, LowSet;
  }

  lemma FlipLow(crc: bv16)
    ensures Xor(crc, 0) == crc
    ensures LowSet(Xor(crc, 1)) == !LowSet(crc) && Half(Xor(crc, 1)) == Half(crc)
  {
  }

  /** One step takes the generator away when the leading bit is set. */
  lemma ShiftInBits(crc: bv16, bit: bool, poly: bv16)
    ensures var q := bit != LowSet(crc);
            var kept := WordBits(16, crc)[1..] + [false];
            WordBits(16, ShiftIn(crc, bit, poly)) == XorBits(kept, if q then WordBits(16, poly) else Zeros(16))
  {
    hide WordBits, ShiftIn, Half, LowSet;
    ShiftInIs(crc, bit, poly);
    HalfWordBits(crc);
    XorWordBits(16, Half(crc), poly);
  }

  lemma {:induction false} LongDivision(bits: seq<bool>, crc: bv16, poly: bv16) returns (q: seq<bool>)
    ensures |q| == |bits|
    ensures XorBits(bits + Zeros(16), WordBits(16, crc) + Zeros(|bits|))
         == XorBits(Product(q, [true] + WordBits(16, poly)), Zeros(|bits|) + WordBits(16, BitRun(bits, crc, poly)))
  {
    hide ShiftIn, WordBits;
    var g := [true] + WordBits(16, poly);
    var n := |bits|;
    if n == 0 {
      q := [];
    } else {
      var next := ShiftIn(crc, bits[0], poly);
      var rest := LongDivision(bits[1..], next, poly);
      q := [bits[0] != LowSet(crc)] + rest;
      ShiftInBits(crc, bits[0], poly);
      FirstBit(crc);
      DivisionStep(bits, WordBits(16, crc), WordBits(16, next), WordBits(16, poly), q,
                   WordBits(16, BitRun(bits, crc, poly)));
    }
  }

  lemma FirstBit(word: bv16)
    ensures WordBits(16, word)[0] == LowSet(word)
  {
  }

  // The same step on the strings of bits alone.
  lemma DivisionStep(bits: seq<bool>, crc: seq<bool>, next: seq<bool>, poly: seq<bool>, q: seq<bool>, r: seq<bool>)
    requires |crc| == |next| == |poly| == |r| == 16 && |q| == |bits| > 0
    requires q[0] == (bits[0] != crc[0])
    requires next == XorBits(crc[1..] + [false], if q[0] then poly else Zeros(16))
    requires var n := |bits| - 1;
             XorBits(bits[1..] + Zeros(16), next + Zeros(n)) == XorBits(Product(q[1..], [true] + poly), Zeros(n) + r)
    ensures XorBits(bits + Zeros(16), crc + Zeros(|bits|))
         == XorBits(Product(q, [true] + poly), Zeros(|bits|) + r)
  {
    hide Product, XorBits, Zeros;
    var n := |bits| - 1;
    var g := [true] + poly;
    ProductAt(q, g);
    var left, right := XorBits(bits + Zeros(16), crc + Zeros(n + 1)), XorBits(Product(q, g), Zeros(n + 1) + r);
    var left', right' := XorBits(bits[1..] + Zeros(16), next + Zeros(n)), XorBits(Product(q[1..], g), Zeros(n) + r);
    forall i | 0 <= i < |left| ensures left[i] == right[i] {
      if i > 0 {
        assert left'[i - 1] == right'[i - 1];
        assert (Zeros(n + 1) + r)[i] == (Zeros(n) + r)[i - 1];
        assert (bits + Zeros(16))[i] == (bits[1..] + Zeros(16))[i - 1];
      }
    }
  }

  // The coefficients of a product from those of the product without the leading term.
  lemma ProductAt(q: seq<bool>, g: seq<bool>)
    requires |g| == 17 && q != []
    ensures Product(q, g)[0] == (q[0] && g[0])
    ensures forall i | 0 <= i < |q| + 15 ::
              Product(q, g)[i + 1] == (Product(q[1..], g)[i] != (i < 16 && q[0] && g[i + 1]))
  {
  }

  // ---- The theorem ----

  /** For every message, polynomial, init and xorout, in either branch: the message shifted by
      sixteen places, with init added to its first sixteen, is a multiple of the generator
      plus the CRC before the final xor. */
  lemma CrcIsRemainder(data: seq<Byte>, poly: bv16, init: bv16, xorout: bv16, reversed: Byte) returns (q: seq<bool>)
    ensures var crc := Xor(Crc16(data, poly, init, xorout, reversed), xorout);
            && |q| == 8 * |data|
            && XorBits(MessageBits(data, reversed) + Zeros(16), Coefficients(init, reversed) + Zeros(|q|))
               == XorBits(Product(q, Generator(poly)), Zeros(|q|) + Coefficients(crc, reversed))
  {
    hide Crc16, BitRun, WordBits, Reverse16, Product, Xor;
    var start := if reversed == 0 then Reverse16(init) else init;
    var run := BitRun(MessageBits(data, reversed), start, Reverse16(poly));
    q := LongDivision(MessageBits(data, reversed), start, Reverse16(poly));
    Crc16IsBitRun(data, poly, init, reversed);
    CrcXorout(data, poly, init, xorout, reversed);
    Reverse16Involution(run);
  }

  /** And only one word is that remainder. */
  lemma {:induction false} RemainderIsUnique(q: seq<bool>, r: seq<bool>, q': seq<bool>, r': seq<bool>, g: seq<bool>)
    requires |q| == |q'| && |r| == |r'| == 16 && |g| == 17 && g[0]
    requires XorBits(Product(q, g), Zeros(|q|) + r) == XorBits(Product(q', g), Zeros(|q|) + r')
    ensures q == q' && r == r'
  {
    if q == [] {
      NoProduct(r, r', g);
    } else {
      hide Product, XorBits, Zeros;
      FirstCoefficient(q, r, q', r', g);
      RemainderIsUnique(q[1..], r, q'[1..], r', g);
      assert q == [q[0]] + q[1..] && q' == [q'[0]] + q'[1..];
    }
  }

  lemma NoProduct(r: seq<bool>, r': seq<bool>, g: seq<bool>)
    requires |r| == |r'| == 16 && |g| == 17
    requires XorBits(Product([], g), Zeros(0) + r) == XorBits(Product([], g), Zeros(0) + r')
    ensures r == r'
  {
    var left, right := XorBits(Product([], g), Zeros(0) + r), XorBits(Product([], g), Zeros(0) + r');
    assert forall i | 0 <= i < 16 :: left[i] == r[i] && right[i] == r'[i];
  }

  lemma FirstCoefficient(q: seq<bool>, r: seq<bool>, q': seq<bool>, r': seq<bool>, g: seq<bool>)
    requires |q| == |q'| > 0 && |r| == |r'| == 16 && |g| == 17 && g[0]
    requires XorBits(Product(q, g), Zeros(|q|) + r) == XorBits(Product(q', g), Zeros(|q|) + r')
    ensures q[0] == q'[0]
    ensures XorBits(Product(q[1..], g), Zeros(|q| - 1) + r) == XorBits(Product(q'[1..], g), Zeros(|q| - 1) + r')
  {
    hide Product, XorBits, Zeros;
    var n := |q| - 1;
    var left, right := XorBits(Product(q, g), Zeros(n + 1) + r), XorBits(Product(q', g), Zeros(n + 1) + r');
    ProductAt(q, g);
    ProductAt(q', g);
    assert left[0] == right[0];
    var left', right' := XorBits(Product(q[1..], g), Zeros(n) + r), XorBits(Product(q'[1..], g), Zeros(n) + r');
    forall i | 0 <= i < |left'| ensures left'[i] == right'[i] {
      assert left[i + 1] == right[i + 1];
      assert (Zeros(n + 1) + r)[i + 1] == (Zeros(n) + r)[i];
      assert (Zeros(n + 1) + r')[i + 1] == (Zeros(n) + r')[i];
    }
  }

  // ---- The two generators and the order of bits ----

  /** The string of bits that is set at these degrees only. */
  function Terms(degrees: set<nat>): (bits: seq<bool>)
    ensures |bits| == 17
  {
    seq(17, i requires 0 <= i < 17 => 16 - i in degrees)
  }

  lemma OneBit(n: nat, w: bv16)
    ensures WordBits(n + 1, w) == [LowSet(w)] + WordBits(n, Half(w))
  {
  }

  lemma NibbleFacts(w: bv16)
    ensures Half(Half(Half(Half(w)))) == w >> 4
    ensures LowSet(w) == (w & 1 != 0) && LowSet(Half(w)) == (w & 2 != 0)
    ensures LowSet(Half(Half(w))) == (w & 4 != 0) && LowSet(Half(Half(Half(w)))) == (w & 8 != 0)
  {
  }

  lemma FourBits(n: nat, w: bv16)
    ensures WordBits(n + 4, w) == [w & 1 != 0, w & 2 != 0, w & 4 != 0, w & 8 != 0] + WordBits(n, w >> 4)
  {
    hide WordBits, LowSet, Half;
    OneBit(n + 3, w);
    OneBit(n + 2, Half(w));
    OneBit(n + 1, Half(Half(w)));
    OneBit(n, Half(Half(Half(w))));
    NibbleFacts(w);
  }

  lemma NoBits(w: bv16)
    ensures WordBits(0, w) == []
  {
  }

  function Nibble(w: bv16): seq<bool> {
    [w & 1 != 0, w & 2 != 0, w & 4 != 0, w & 8 != 0]
  }

  lemma NibbleOf(n: nat, w: bv16, nibble: bv16, rest: bv16)
    requires nibble == w & 15 && rest == w >> 4
    ensures WordBits(n + 4, w) == Nibble(nibble) + WordBits(n, rest)
  {
    hide WordBits;
    FourBits(n, w);
  }

  /** x^16 + x^12 + x^5 + 1 for packages and x^16 + x^12 + x^2 + 1 for signal frames. */
  lemma GeneratorTerms()
    ensures Generator(0x1021) == Terms({16, 12, 5, 0})
    ensures Generator(0x1005) == Terms({16, 12, 2, 0})
  {
    hide WordBits;
    assert Reverse16(0x1021) == 0x8408 && Reverse16(0x1005) == 0xA008;
    NibbleOf(12, 0x8408, 8, 0x840);
    NibbleOf(8, 0x840, 0, 0x84);
    NibbleOf(4, 0x84, 4, 8);
    NibbleOf(12, 0xA008, 8, 0xA00);
    NibbleOf(8, 0xA00, 0, 0xA0);
    NibbleOf(4, 0xA0, 0, 10);
    NibbleOf(0, 8, 8, 0);
    NibbleOf(0, 10, 10, 0);
    NoBits(0);
  }

  lemma ZeroCoefficients(reversed: Byte)
    ensures Coefficients(0, reversed) == Zeros(16)
  {
    assert Reverse16(0) == 0;
    hide WordBits;
    NibbleOf(12, 0, 0, 0);
    NibbleOf(8, 0, 0, 0);
    NibbleOf(4, 0, 0, 0);
    NibbleOf(0, 0, 0, 0);
    NoBits(0);
  }

  // With init and xorout 0 nothing is added to the message.
  lemma PlainRemainder(data: seq<Byte>, poly: bv16, reversed: Byte) returns (q: seq<bool>)
    ensures |q| == 8 * |data|
    ensures MessageBits(data, reversed) + Zeros(16)
         == XorBits(Product(q, Generator(poly)), Zeros(|q|) + Coefficients(Crc16(data, poly, 0, 0, reversed), reversed))
  {
    hide Crc16, Product, Coefficients, Generator;
    q := CrcIsRemainder(data, poly, 0, 0, reversed);
    ZeroCoefficients(reversed);
    XorSelf(Crc16(data, poly, 0, 0, reversed), 0);
    var message := MessageBits(data, reversed) + Zeros(16);
    assert XorBits(message, Zeros(16) + Zeros(|q|)) == message;
  }

  /** The CRC of a package is its remainder by x^16 + x^12 + x^5 + 1. */
  lemma CcittIsRemainder(data: seq<Byte>) returns (q: seq<bool>)
    ensures |q| == 8 * |data|
    ensures MessageBits(data, 1) + Zeros(16)
         == XorBits(Product(q, Terms({16, 12, 5, 0})), Zeros(|q|) + Coefficients(CrcTable.Ccitt(data), 1))
  {
    hide Crc16, Product, Coefficients, Generator, Terms;
    q := PlainRemainder(data, 0x1021, 1);
    GeneratorTerms();
  }

  /** The CRC of a signal frame is its remainder by x^16 + x^12 + x^2 + 1. */
  lemma ChecksumIsRemainder(data: seq<Byte>) returns (q: seq<bool>)
    ensures |q| == 8 * |data|
    ensures MessageBits(data, 0) + Zeros(16)
         == XorBits(Product(q, Terms({16, 12, 2, 0})), Zeros(|q|) + Coefficients(SignalFrame.Checksum(data), 0))
  {
    ChecksumIsCrc(data);
    hide Crc16, Product, Coefficients, Generator, Terms, SignalFrame.Checksum;
    q := PlainRemainder(data, 0x1005, 0);
    GeneratorTerms();
  }

  lemma ChecksumIsCrc(data: seq<Byte>)
    ensures SignalFrame.Checksum(data) == Crc16(data, 0x1005, 0, 0, 0)
  {
    XorSelf(0, 0);
  }

  /** The plain branch takes the highest bit of a byte first and the reflected one the lowest. */
  lemma BitOrder(b: Byte)
    ensures var bits := MessageBits([b], 0);
            && bits[0] == IsSet(b, 128) && bits[1] == IsSet(b, 64) && bits[2] == IsSet(b, 32) && bits[3] == IsSet(b, 16)
            && bits[4] == IsSet(b, 8) && bits[5] == IsSet(b, 4) && bits[6] == IsSet(b, 2) && bits[7] == IsSet(b, 1)
    ensures var bits := MessageBits([b], 1);
            && bits[0] == IsSet(b, 1) && bits[1] == IsSet(b, 2) && bits[2] == IsSet(b, 4) && bits[3] == IsSet(b, 8)
            && bits[4] == IsSet(b, 16) && bits[5] == IsSet(b, 32) && bits[6] == IsSet(b, 64) && bits[7] == IsSet(b, 128)
  {
    hide ByteBits, IsSet, Reverse8;
    assert [b][1..] == [];
    EightBits(b);
    EightBits(Reverse8(b));
    ReverseIsSet(b);
  }

  predicate IsSet(b: Byte, mask: Byte) {
    b & mask != 0
  }

  lemma ReverseIsSet(b: Byte)
    ensures var r := Reverse8(b);
            && IsSet(r, 1) == IsSet(b, 128) && IsSet(r, 2) == IsSet(b, 64)
            && IsSet(r, 4) == IsSet(b, 32) && IsSet(r, 8) == IsSet(b, 16)
            && IsSet(r, 16) == IsSet(b, 8) && IsSet(r, 32) == IsSet(b, 4)
            && IsSet(r, 64) == IsSet(b, 2) && IsSet(r, 128) == IsSet(b, 1)
  {
  }

  lemma LowBitsFrom(b: Byte, n: nat, bit: bool)
    requires 0 < n && bit == (b & 1 != 0)
    ensures LowBits(n, b)[0] == bit
    ensures forall k | 0 < k < n :: LowBits(n, b)[k] == LowBits(n - 1, b >> 1)[k - 1]
  {
  }

  lemma ShiftedIsSet(b: Byte)
    ensures IsSet(b, 1) == (b & 1 != 0) && IsSet(b, 2) == ((b >> 1) & 1 != 0)
    ensures IsSet(b, 4) == ((b >> 1 >> 1) & 1 != 0) && IsSet(b, 8) == ((b >> 1 >> 1 >> 1) & 1 != 0)
    ensures b >> 1 >> 1 >> 1 >> 1 == b >> 4
    ensures IsSet(b >> 4, 1) == IsSet(b, 16) && IsSet(b >> 4, 2) == IsSet(b, 32)
    ensures IsSet(b >> 4, 4) == IsSet(b, 64) && IsSet(b >> 4, 8) == IsSet(b, 128)
  {
  }

  lemma FourLowBits(b: Byte, n: nat)
    requires n >= 4
    ensures var bits := LowBits(n, b);
            && bits[0] == IsSet(b, 1) && bits[1] == IsSet(b, 2) && bits[2] == IsSet(b, 4) && bits[3] == IsSet(b, 8)
            && forall k | 4 <= k < n :: bits[k] == LowBits(n - 4, b >> 4)[k - 4]
  {
    hide LowBits, IsSet;
    ShiftedIsSet(b);
    LowBitsFrom(b, n, IsSet(b, 1));
    LowBitsFrom(b >> 1, n - 1, IsSet(b, 2));
    LowBitsFrom(b >> 1 >> 1, n - 2, IsSet(b, 4));
    LowBitsFrom(b >> 1 >> 1 >> 1, n - 3, IsSet(b, 8));
  }

  lemma EightBits(b: Byte)
    ensures var bits := ByteBits(b);
            && bits[0] == IsSet(b, 1) && bits[1] == IsSet(b, 2) && bits[2] == IsSet(b, 4) && bits[3] == IsSet(b, 8)
            && bits[4] == IsSet(b, 16) && bits[5] == IsSet(b, 32) && bits[6] == IsSet(b, 64) && bits[7] == IsSet(b, 128)
  {
    hide LowBits, IsSet;
    ShiftedIsSet(b);
    FourLowBits(b, 8);
    FourLowBits(b >> 4, 4);
  }
}
