/**
 The bitwise CRC of common/CRC.cpp: both branches of Crc16Cal, what connects them, and
 which transmission errors the code detects.

 A message is transmitted bit by bit, least significant bit of a byte first in the
 reflected branch and most significant bit first in the other.
 */
module Crc {
  import opened Basics

  // ---- The arithmetic of the two branches ----

  /** The four swaps that the reflected branch applies to its polynomial. */
  function Reverse16(value: bv16): bv16 {
    var pairs := ((value & 0x5555) << 1) | ((value & 0xAAAA) >> 1);
    var nibbles := ((pairs & 0x3333) << 2) | ((pairs & 0xCCCC) >> 2);
    var bytes := ((nibbles & 0x0F0F) << 4) | ((nibbles & 0xF0F0) >> 4);
    ((bytes & 0x00FF) << 8) | ((bytes & 0xFF00) >> 8)
  }

  function Reverse8(value: Byte): Byte {
    var pairs := ((value & 0x55) << 1) | ((value & 0xAA) >> 1);
    var nibbles := ((pairs & 0x33) << 2) | ((pairs & 0xCC) >> 2);
    ((nibbles & 0x0F) << 4) | ((nibbles & 0xF0) >> 4)
  }

  // The word operations are named, so that the proofs can use their algebra.

  function Xor(a: bv16, b: bv16): bv16 {
    a ^ b
  }

  function Twice(a: bv16): bv16 {
    a << 1
  }

  function Half(a: bv16): bv16 {
    a >> 1
  }

  predicate TopSet(a: bv16) {
    a & 0x8000 != 0
  }

  predicate LowSet(a: bv16) {
    a & 0x0001 != 0
  }

  function StepLeft(crc: bv16, poly: bv16): bv16 {
    if TopSet(crc) then Xor(Twice(crc), poly) else Twice(crc)
  }

  function StepRight(crc: bv16, poly: bv16): bv16 {
    if LowSet(crc) then Xor(Half(crc), poly) else Half(crc)
  }

  function StepsLeft(n: nat, crc: bv16, poly: bv16): bv16 {
    if n == 0 then crc else StepsLeft(n - 1, StepLeft(crc, poly), poly)
  }

  function StepsRight(n: nat, crc: bv16, poly: bv16): bv16 {
    if n == 0 then crc else StepsRight(n - 1, StepRight(crc, poly), poly)
  }

  function High(b: Byte): bv16 {
    (b as bv16) << 8
  }

  function Low(b: Byte): bv16 {
    b as bv16
  }

  function FoldLeft(data: seq<Byte>, crc: bv16, poly: bv16): bv16 {
    if data == [] then crc
    else FoldLeft(data[1..], StepsLeft(8, Xor(crc, High(data[0])), poly), poly)
  }

  function FoldRight(data: seq<Byte>, crc: bv16, poly: bv16): bv16 {
    if data == [] then crc
    else FoldRight(data[1..], StepsRight(8, Xor(crc, Low(data[0])), poly), poly)
  }

  function Crc16(data: seq<Byte>, poly: bv16, init: bv16, xorout: bv16, reversed: Byte): bv16 {
    if reversed == 0 then Xor(FoldLeft(data, init, poly), xorout)
    else Xor(FoldRight(data, init, Reverse16(poly)), xorout)
  }

  method Crc16Cal(data: seq<Byte>, poly: bv16, init: bv16, xorout: bv16, reversed: Byte) returns (crc: bv16)
    ensures crc == Crc16(data, poly, init, xorout, reversed)
  {
    crc := init;
    if reversed == 0 {
      for k := 0 to |data|
        invariant FoldLeft(data[k..], crc, poly) == FoldLeft(data, init, poly)
      {
        crc := EightLeft(Xor(crc, High(data[k])), poly);
        assert data[k..][1..] == data[k + 1..];
      }
    } else {
      var mirror := Reverse16(poly);
      for k := 0 to |data|
        invariant FoldRight(data[k..], crc, mirror) == FoldRight(data, init, mirror)
      {
        crc := EightRight(Xor(crc, Low(data[k])), mirror);
        assert data[k..][1..] == data[k + 1..];
      }
    }
    crc := Xor(crc, xorout);
  }

  // The inner loop of the plain branch.
  method EightLeft(start: bv16, poly: bv16) returns (crc: bv16)
    ensures crc == StepsLeft(8, start, poly)
  {
    crc := start;
    for i := 0 to 8
      invariant StepsLeft(8 - i, crc, poly) == StepsLeft(8, start, poly)
    {
      if crc & 0x8000 != 0 {
        crc := (crc << 1) ^ poly;
      } else {
        crc := crc << 1;
      }
    }
  }

  // The inner loop of the reflected branch.
  method EightRight(start: bv16, poly: bv16) returns (crc: bv16)
    ensures crc == StepsRight(8, start, poly)
  {
    crc := start;
    for i := 0 to 8
      invariant StepsRight(8 - i, crc, poly) == StepsRight(8, start, poly)
    {
      if crc & 0x0001 != 0 {
        crc := (crc >> 1) ^ poly;
      } else {
        crc := crc >> 1;
      }
    }
  }

  // ---- The two branches are mirror images ----

  lemma Reverse16Involution(value: bv16)
    ensures Reverse16(Reverse16(value)) == value
  {
  }

  lemma Reverse8Involution(value: Byte)
    ensures Reverse8(Reverse8(value)) == value
  {
  }

  lemma Reverse16Shift(value: bv16)
    ensures Twice(Reverse16(value)) == Reverse16(Half(value))
    ensures TopSet(Reverse16(value)) <==> LowSet(value)
  {
  }

  lemma Reverse16Xor(a: bv16, b: bv16)
    ensures Reverse16(Xor(a, b)) == Xor(Reverse16(a), Reverse16(b))
  {
  }

  lemma Reverse16Byte(b: Byte)
    ensures Reverse16(Low(b)) == High(Reverse8(b))
  {
  }

  lemma StepMirror(crc: bv16, poly: bv16)
    ensures StepLeft(Reverse16(crc), poly) == Reverse16(StepRight(crc, Reverse16(poly)))
  {
    Reverse16Shift(crc);
    Reverse16Xor(Half(crc), Reverse16(poly));
    Reverse16Involution(poly);
  }

  lemma {:induction false} StepsMirror(n: nat, crc: bv16, poly: bv16)
    ensures StepsLeft(n, Reverse16(crc), poly) == Reverse16(StepsRight(n, crc, Reverse16(poly)))
  {
    if n > 0 {
      StepMirror(crc, poly);
      StepsMirror(n - 1, StepRight(crc, Reverse16(poly)), poly);
    }
  }

  function ReverseBytes(data: seq<Byte>): (r: seq<Byte>)
    ensures |r| == |data| && forall k | 0 <= k < |r| :: r[k] == Reverse8(data[k])
  {
    seq(|data|, k requires 0 <= k < |data| => Reverse8(data[k]))
  }

  lemma {:induction false} FoldMirror(data: seq<Byte>, crc: bv16, poly: bv16)
    ensures FoldLeft(ReverseBytes(data), Reverse16(crc), poly) == Reverse16(FoldRight(data, crc, Reverse16(poly)))
  {
    if data != [] {
      var entry := Xor(crc, Low(data[0]));
      Reverse16Xor(crc, Low(data[0]));
      Reverse16Byte(data[0]);
      StepsMirror(8, entry, poly);
      assert ReverseBytes(data)[1..] == ReverseBytes(data[1..]);
      FoldMirror(data[1..], StepsRight(8, entry, Reverse16(poly)), poly);
    }
  }

  /** The reflected CRC is the reflection of the plain CRC of the reflected message. */
  lemma ReflectedIsReflection(data: seq<Byte>, poly: bv16, init: bv16, xorout: bv16, reversed: Byte)
    requires reversed != 0
    ensures Crc16(data, poly, init, xorout, reversed)
         == Reverse16(Crc16(ReverseBytes(data), poly, Reverse16(init), Reverse16(xorout), 0))
  {
    FoldMirror(data, init, poly);
    var folded := FoldRight(data, init, Reverse16(poly));
    Reverse16Xor(folded, xorout);
    Reverse16Involution(Xor(folded, xorout));
  }

  // ---- The register is linear over xor ----

  lemma XorAssociative(a: bv16, b: bv16, c: bv16)
    ensures Xor(a, Xor(b, c)) == Xor(Xor(a, b), c)
  {
  }

  lemma XorCommutes(a: bv16, b: bv16)
    ensures Xor(a, b) == Xor(b, a)
  {
  }

  lemma XorSelf(a: bv16, b: bv16)
    ensures Xor(a, a) == 0 && Xor(a, 0) == a && Xor(Xor(a, b), b) == a
  {
  }

  lemma XorCancel(a: bv16, b: bv16, c: bv16)
    requires Xor(a, b) == Xor(a, c) || Xor(b, a) == Xor(c, a)
    ensures b == c
  {
  }

  // The four words xored in the other order.
  lemma XorInterchange(a: bv16, b: bv16, c: bv16, d: bv16)
    ensures Xor(Xor(a, b), Xor(c, d)) == Xor(Xor(a, c), Xor(b, d))
  {
    XorAssociative(Xor(a, b), c, d);
    XorAssociative(a, b, c);
    XorCommutes(b, c);
    XorAssociative(a, c, b);
    XorAssociative(Xor(a, c), b, d);
  }

  lemma HalfXor(a: bv16, b: bv16)
    ensures Half(Xor(a, b)) == Xor(Half(a), Half(b))
    ensures LowSet(Xor(a, b)) <==> LowSet(a) != LowSet(b)
  {
  }

  lemma StepLinear(a: bv16, b: bv16, poly: bv16)
    ensures StepRight(Xor(a, b), poly) == Xor(StepRight(a, poly), StepRight(b, poly))
  {
    var fromA, fromB := if LowSet(a) then poly else 0, if LowSet(b) then poly else 0;
    HalfXor(a, b);
    XorSelf(Half(a), 0);
    XorSelf(Half(b), 0);
    XorSelf(Half(Xor(a, b)), 0);
    XorSelf(poly, 0);
    XorCommutes(0, poly);
    XorInterchange(Half(a), fromA, Half(b), fromB);
  }

  lemma {:induction false} StepsLinear(n: nat, a: bv16, b: bv16, poly: bv16)
    ensures StepsRight(n, Xor(a, b), poly) == Xor(StepsRight(n, a, poly), StepsRight(n, b, poly))
  {
    if n > 0 {
      StepLinear(a, b, poly);
      StepsLinear(n - 1, StepRight(a, poly), StepRight(b, poly), poly);
    }
  }

  // A word without its low bit is only shifted.
  lemma StepOfTwice(word: bv16, poly: bv16)
    requires !TopSet(word)
    ensures StepRight(Twice(word), poly) == word
  {
  }

  // Eight steps move the high byte of the register to its low byte.
  lemma HighByteFalls(b: Byte, poly: bv16)
    ensures StepsRight(8, High(b), poly) == Low(b)
  {
    FourFall(Low(b), poly);
    FourFall(Low(b) << 4, poly);
    StepsAdd(4, 4, High(b), poly);
  }

  lemma FourFall(word: bv16, poly: bv16)
    requires word & 0xF000 == 0
    ensures StepsRight(4, word << 4, poly) == word
  {
    OneFalls(1, word, word << 1, poly);
    OneFalls(2, word << 1, word << 2, poly);
    OneFalls(3, word << 2, word << 3, poly);
    OneFalls(4, word << 3, word << 4, poly);
  }

  lemma OneFalls(n: nat, word: bv16, twice: bv16, poly: bv16)
    requires n > 0 && !TopSet(word) && twice == Twice(word)
    ensures StepsRight(n, twice, poly) == StepsRight(n - 1, word, poly)
  {
    StepOfTwice(word, poly);
  }

  lemma {:induction false} StepsAdd(m: nat, n: nat, crc: bv16, poly: bv16)
    ensures StepsRight(m + n, crc, poly) == StepsRight(n, StepsRight(m, crc, poly), poly)
  {
    if m > 0 {
      StepsAdd(m - 1, n, StepRight(crc, poly), poly);
    }
  }

  lemma {:induction false} StepsOfZero(n: nat, poly: bv16)
    ensures StepsRight(n, 0, poly) == 0
  {
    if n > 0 {
      StepsOfZero(n - 1, poly);
    }
  }

  // ---- The message as a string of bits ----

  function ByteBits(b: Byte): (bits: seq<bool>)
    ensures |bits| == 8
  {
    LowBits(8, b)
  }

  // The n least significant bits, the lowest first.
  function LowBits(n: nat, b: Byte): (bits: seq<bool>)
    ensures |bits| == n
  {
    if n == 0 then [] else [b & 1 != 0] + LowBits(n - 1, b >> 1)
  }

  /** The bits of a message in the order in which the branch processes them. */
  function MessageBits(data: seq<Byte>, reversed: Byte): (bits: seq<bool>)
    ensures |bits| == 8 * |data|
  {
    if data == [] then []
    else ByteBits(if reversed == 0 then Reverse8(data[0]) else data[0]) + MessageBits(data[1..], reversed)
  }

  function Bit(b: bool): bv16 {
    if b then 1 else 0
  }

  // A serial shift register: one input bit per step.
  function ShiftIn(crc: bv16, bit: bool, poly: bv16): bv16 {
    StepRight(Xor(crc, Bit(bit)), poly)
  }

  function BitRun(bits: seq<bool>, crc: bv16, poly: bv16): bv16 {
    if bits == [] then crc else BitRun(bits[1..], ShiftIn(crc, bits[0], poly), poly)
  }

  function Append(high: bv16, bit: bool): bv16 {
    Xor(Bit(bit), Twice(high))
  }

  function Window(bits: seq<bool>): bv16 {
    if bits == [] then 0 else Append(Window(bits[1..]), bits[0])
  }

  function Ones(n: nat): bv16 {
    if n == 0 then 0 else Append(Ones(n - 1), true)
  }

  lemma {:induction false} WindowFits(bits: seq<bool>)
    ensures Window(bits) & !Ones(|bits|) == 0
  {
    hide Append;
    if bits != [] {
      WindowFits(bits[1..]);
      AppendFits(Window(bits[1..]), Ones(|bits| - 1), bits[0]);
    }
  }

  lemma AppendFits(window: bv16, ones: bv16, bit: bool)
    requires window & !ones == 0
    ensures Append(window, bit) & !Append(ones, true) == 0
  {
  }

  lemma OnesFit(n: nat)
    requires n <= 15
    ensures !TopSet(Ones(n))
  {
    assert Ones(4) == 0xF;
    assert Ones(8) == 0xFF;
    assert Ones(12) == 0xFFF;
    if n < 8 {
      assert n == 0 || n == 1 || n == 2 || n == 3 || n == 4 || n == 5 || n == 6 || n == 7;
    } else {
      assert n == 8 || n == 9 || n == 10 || n == 11 || n == 12 || n == 13 || n == 14 || n == 15;
    }
  }

  lemma WindowTopClear(bits: seq<bool>)
    requires |bits| <= 15
    ensures !TopSet(Window(bits))
  {
    WindowFits(bits);
    OnesFit(|bits|);
  }

  /** Up to sixteen input bits act as one word xored into the register beforehand. */
  lemma {:induction false} WindowRun(bits: seq<bool>, crc: bv16, poly: bv16)
    requires |bits| <= 16
    ensures BitRun(bits, crc, poly) == StepsRight(|bits|, Xor(crc, Window(bits)), poly)
  {
    if bits != [] {
      var rest := bits[1..];
      WindowTopClear(rest);
      XorAssociative(crc, Bit(bits[0]), Twice(Window(rest)));
      StepLinear(Xor(crc, Bit(bits[0])), Twice(Window(rest)), poly);
      StepOfTwice(Window(rest), poly);
      WindowRun(rest, ShiftIn(crc, bits[0], poly), poly);
    }
  }

  lemma {:induction false} BitRunConcat(a: seq<bool>, b: seq<bool>, crc: bv16, poly: bv16)
    ensures BitRun(a + b, crc, poly) == BitRun(b, BitRun(a, crc, poly), poly)
  {
    if a == [] {
      assert a + b == b;
    } else {
      assert (a + b)[1..] == a[1..] + b;
      BitRunConcat(a[1..], b, ShiftIn(crc, a[0], poly), poly);
    }
  }

  function DropBits(n: nat, b: Byte): Byte {
    if n == 0 then b else DropBits(n - 1, b >> 1)
  }

  lemma AppendLowBit(b: Byte)
    ensures Append(Low(b >> 1), b & 1 != 0) == Low(b)
  {
  }

  lemma {:induction false} LowBitsWindow(n: nat, b: Byte)
    requires DropBits(n, b) == 0
    ensures Window(LowBits(n, b)) == Low(b)
  {
    if n > 0 {
      LowBitsWindow(n - 1, b >> 1);
      AppendLowBit(b);
    }
  }

  lemma ByteWindow(b: Byte)
    ensures Window(ByteBits(b)) == Low(b)
  {
    assert DropBits(8, b) == DropBits(6, b >> 2);
    assert DropBits(6, b >> 2) == DropBits(4, b >> 4);
    assert DropBits(4, b >> 4) == DropBits(2, b >> 6);
    assert DropBits(2, b >> 6) == DropBits(0, 0);
    LowBitsWindow(8, b);
  }

  lemma {:induction false} FoldIsBitRun(data: seq<Byte>, crc: bv16, poly: bv16)
    ensures FoldRight(data, crc, poly) == BitRun(MessageBits(data, 1), crc, poly)
  {
    if data != [] {
      var bits := ByteBits(data[0]);
      ByteWindow(data[0]);
      WindowRun(bits, crc, poly);
      BitRunConcat(bits, MessageBits(data[1..], 1), crc, poly);
      FoldIsBitRun(data[1..], StepsRight(8, Xor(crc, Low(data[0])), poly), poly);
    }
  }

  // ---- Error detection ----

  lemma StepRightInjective(a: bv16, b: bv16, poly: bv16)
    requires TopSet(poly)
    requires StepRight(a, poly) == StepRight(b, poly)
    ensures a == b
  {
  }

  lemma ShiftInInjective(a: bv16, b: bv16, bit: bool, poly: bv16)
    requires TopSet(poly)
    requires ShiftIn(a, bit, poly) == ShiftIn(b, bit, poly)
    ensures a == b
  {
    StepRightInjective(Xor(a, Bit(bit)), Xor(b, Bit(bit)), poly);
    XorCancel(Bit(bit), a, b);
  }

  lemma {:induction false} StepsRightInjective(n: nat, a: bv16, b: bv16, poly: bv16)
    requires TopSet(poly)
    requires StepsRight(n, a, poly) == StepsRight(n, b, poly)
    ensures a == b
  {
    if n > 0 {
      StepsRightInjective(n - 1, StepRight(a, poly), StepRight(b, poly), poly);
      StepRightInjective(a, b, poly);
    }
  }

  lemma {:induction false} BitRunInjective(bits: seq<bool>, a: bv16, b: bv16, poly: bv16)
    requires TopSet(poly)
    requires BitRun(bits, a, poly) == BitRun(bits, b, poly)
    ensures a == b
  {
    if bits != [] {
      BitRunInjective(bits[1..], ShiftIn(a, bits[0], poly), ShiftIn(b, bits[0], poly), poly);
      ShiftInInjective(a, b, bits[0], poly);
    }
  }

  lemma AppendInjective(x: bv16, y: bv16, a: bool, b: bool)
    requires !TopSet(x) && !TopSet(y)
    requires Append(x, a) == Append(y, b)
    ensures x == y && a == b
  {
  }

  lemma {:induction false} WindowInjective(a: seq<bool>, b: seq<bool>)
    requires |a| == |b| <= 16
    requires Window(a) == Window(b)
    ensures a == b
  {
    if a != [] {
      WindowTopClear(a[1..]);
      WindowTopClear(b[1..]);
      AppendInjective(Window(a[1..]), Window(b[1..]), a[0], b[0]);
      WindowInjective(a[1..], b[1..]);
      assert a == [a[0]] + a[1..] && b == [b[0]] + b[1..];
    }
  }

  /** The two bit strings agree outside the sixteen positions that start at `at`. */
  ghost predicate DifferInBurst(a: seq<bool>, b: seq<bool>, at: nat)
  {
    && |a| == |b|
    && (exists k | 0 <= k < |a| :: a[k] != b[k])
    && forall k | 0 <= k < |a| && !(at <= k < at + 16) :: a[k] == b[k]
  }

  lemma BurstChangesRun(a: seq<bool>, b: seq<bool>, at: nat, crc: bv16, poly: bv16)
    requires TopSet(poly)
    requires DifferInBurst(a, b, at)
    ensures BitRun(a, crc, poly) != BitRun(b, crc, poly)
  {
    hide BitRun, TopSet;
    var end := if at + 16 <= |a| then at + 16 else |a|;
    BurstParts(a, b, at, end);
    WindowChangesRun(a[..at], a[at..end], b[at..end], a[end..], crc, poly);
  }

  // The strings differ in one part of at most sixteen bits only.
  lemma BurstParts(a: seq<bool>, b: seq<bool>, at: nat, end: nat)
    requires DifferInBurst(a, b, at) && end == if at + 16 <= |a| then at + 16 else |a|
    ensures at < end && a[at..end] != b[at..end]
    ensures a == a[..at] + a[at..end] + a[end..]
    ensures b == a[..at] + b[at..end] + a[end..]
  {
    var k :| 0 <= k < |a| && a[k] != b[k];
    assert a[at..end][k - at] != b[at..end][k - at];
    assert forall j | 0 <= j < at :: b[j] == a[j];
    assert b[..at] == a[..at];
    assert forall j | end <= j < |a| :: b[j] == a[j];
    assert b[end..] == a[end..];
    Parts(a, at, end);
    Parts(b, at, end);
  }

  lemma Parts(a: seq<bool>, at: nat, end: nat)
    requires at <= end <= |a|
    ensures a == a[..at] + a[at..end] + a[end..]
  {
  }

  lemma WindowChangesRun(prefix: seq<bool>, a: seq<bool>, b: seq<bool>, suffix: seq<bool>, crc: bv16, poly: bv16)
    requires TopSet(poly)
    requires |a| == |b| <= 16 && a != b
    ensures BitRun(prefix + a + suffix, crc, poly) != BitRun(prefix + b + suffix, crc, poly)
  {
    var reached := BitRun(prefix, crc, poly);
    BitRunConcat(prefix + a, suffix, crc, poly);
    BitRunConcat(prefix, a, crc, poly);
    BitRunConcat(prefix + b, suffix, crc, poly);
    BitRunConcat(prefix, b, crc, poly);
    if BitRun(prefix + a + suffix, crc, poly) == BitRun(prefix + b + suffix, crc, poly) {
      BitRunInjective(suffix, BitRun(a, reached, poly), BitRun(b, reached, poly), poly);
      SmallWindowChangesRun(a, b, reached, poly);
      assert false;
    }
  }

  lemma SmallWindowChangesRun(a: seq<bool>, b: seq<bool>, crc: bv16, poly: bv16)
    requires TopSet(poly)
    requires |a| == |b| <= 16 && a != b
    ensures BitRun(a, crc, poly) != BitRun(b, crc, poly)
  {
    WindowRun(a, crc, poly);
    WindowRun(b, crc, poly);
    if BitRun(a, crc, poly) == BitRun(b, crc, poly) {
      StepsRightInjective(|a|, Xor(crc, Window(a)), Xor(crc, Window(b)), poly);
      XorCancel(crc, Window(a), Window(b));
      WindowInjective(a, b);
      assert false;
    }
  }

  lemma OddMirror(poly: bv16)
    ensures TopSet(Reverse16(poly)) <==> LowSet(poly)
  {
    Reverse16Shift(poly);
  }

  // Both branches, seen as the serial register.
  lemma Crc16IsBitRun(data: seq<Byte>, poly: bv16, init: bv16, reversed: Byte)
    ensures var start := if reversed == 0 then Reverse16(init) else init;
            var run := BitRun(MessageBits(data, reversed), start, Reverse16(poly));
            Crc16(data, poly, init, 0, reversed) == if reversed == 0 then Reverse16(run) else run
  {
    var rpoly := Reverse16(poly);
    if reversed == 0 {
      var mirrored := ReverseBytes(data);
      assert ReverseBytes(mirrored) == data by {
        forall k | 0 <= k < |data| ensures ReverseBytes(mirrored)[k] == data[k] {
          Reverse8Involution(data[k]);
        }
      }
      FoldMirror(mirrored, Reverse16(init), poly);
      Reverse16Involution(init);
      FoldIsBitRun(mirrored, Reverse16(init), rpoly);
      MirrorBits(data);
    } else {
      FoldIsBitRun(data, init, rpoly);
      SameBits(data, reversed);
    }
  }

  lemma {:induction false} MirrorBits(data: seq<Byte>)
    ensures MessageBits(ReverseBytes(data), 1) == MessageBits(data, 0)
  {
    if data != [] {
      assert ReverseBytes(data)[1..] == ReverseBytes(data[1..]);
      MirrorBits(data[1..]);
    }
  }

  lemma {:induction false} SameBits(data: seq<Byte>, reversed: Byte)
    requires reversed != 0
    ensures MessageBits(data, 1) == MessageBits(data, reversed)
  {
    if data != [] {
      SameBits(data[1..], reversed);
    }
  }

  /** Any error confined to sixteen consecutive transmitted bits changes the CRC. */
  lemma BurstDetected(a: seq<Byte>, b: seq<Byte>, at: nat, poly: bv16, init: bv16, xorout: bv16, reversed: Byte)
    requires LowSet(poly)
    requires DifferInBurst(MessageBits(a, reversed), MessageBits(b, reversed), at)
    ensures Crc16(a, poly, init, xorout, reversed) != Crc16(b, poly, init, xorout, reversed)
  {
    OddMirror(poly);
    var start := if reversed == 0 then Reverse16(init) else init;
    BurstChangesRun(MessageBits(a, reversed), MessageBits(b, reversed), at, start, Reverse16(poly));
    Crc16IsBitRun(a, poly, init, reversed);
    Crc16IsBitRun(b, poly, init, reversed);
    var runA := BitRun(MessageBits(a, reversed), start, Reverse16(poly));
    var runB := BitRun(MessageBits(b, reversed), start, Reverse16(poly));
    Reverse16Involution(runA);
    Reverse16Involution(runB);
    CrcXorout(a, poly, init, xorout, reversed);
    CrcXorout(b, poly, init, xorout, reversed);
  }

  lemma CrcXorout(data: seq<Byte>, poly: bv16, init: bv16, xorout: bv16, reversed: Byte)
    ensures Crc16(data, poly, init, 0, reversed) == Xor(Crc16(data, poly, init, xorout, reversed), xorout)
  {
  }

  lemma {:induction false} BitsConcat(a: seq<Byte>, b: seq<Byte>, reversed: Byte)
    ensures MessageBits(a + b, reversed) == MessageBits(a, reversed) + MessageBits(b, reversed)
  {
    if a == [] {
      assert a + b == b;
    } else {
      assert (a + b)[1..] == a[1..] + b;
      BitsConcat(a[1..], b, reversed);
    }
  }

  lemma {:induction false} BitsInjective(a: seq<Byte>, b: seq<Byte>, reversed: Byte)
    requires |a| == |b|
    requires MessageBits(a, reversed) == MessageBits(b, reversed)
    ensures a == b
  {
    if a != [] {
      assert MessageBits(a, reversed)[8..] == MessageBits(a[1..], reversed);
      assert MessageBits(b, reversed)[8..] == MessageBits(b[1..], reversed);
      BitsInjective(a[1..], b[1..], reversed);
      var x, y := if reversed == 0 then Reverse8(a[0]) else a[0], if reversed == 0 then Reverse8(b[0]) else b[0];
      assert MessageBits(a, reversed)[..8] == ByteBits(x);
      assert MessageBits(b, reversed)[..8] == ByteBits(y);
      ByteWindow(x);
      ByteWindow(y);
      Reverse8Involution(a[0]);
      Reverse8Involution(b[0]);
      assert a == [a[0]] + a[1..] && b == [b[0]] + b[1..];
    }
  }

  /** Two messages that differ only inside two adjacent bytes have different CRCs. */
  lemma AdjacentBytesDetected(prefix: seq<Byte>, a: seq<Byte>, b: seq<Byte>, suffix: seq<Byte>,
                              poly: bv16, init: bv16, xorout: bv16, reversed: Byte)
    requires LowSet(poly)
    requires |a| == |b| <= 2 && a != b
    ensures Crc16(prefix + a + suffix, poly, init, xorout, reversed)
         != Crc16(prefix + b + suffix, poly, init, xorout, reversed)
  {
    var bitsA, bitsB := MessageBits(a, reversed), MessageBits(b, reversed);
    if bitsA == bitsB {
      BitsInjective(a, b, reversed);
      assert false;
    }
    OneAdjacentBurst(prefix, a, suffix, reversed);
    OneAdjacentBurst(prefix, b, suffix, reversed);
    BurstBetween(MessageBits(prefix, reversed), bitsA, bitsB, MessageBits(suffix, reversed));
    BurstDetected(prefix + a + suffix, prefix + b + suffix, 8 * |prefix|, poly, init, xorout, reversed);
  }

  lemma BurstBetween(prefix: seq<bool>, a: seq<bool>, b: seq<bool>, suffix: seq<bool>)
    requires |a| == |b| <= 16 && a != b
    ensures DifferInBurst(prefix + a + suffix, prefix + b + suffix, |prefix|)
  {
    var k :| 0 <= k < |a| && a[k] != b[k];
    assert (prefix + a + suffix)[|prefix| + k] != (prefix + b + suffix)[|prefix| + k];
  }

  lemma OneAdjacentBurst(prefix: seq<Byte>, a: seq<Byte>, suffix: seq<Byte>, reversed: Byte)
    ensures MessageBits(prefix + a + suffix, reversed)
         == MessageBits(prefix, reversed) + MessageBits(a, reversed) + MessageBits(suffix, reversed)
  {
    BitsConcat(prefix + a, suffix, reversed);
    BitsConcat(prefix, a, reversed);
  }

  // ---- The condition on the polynomial is exact ----

  function LowByte(word: bv16): Byte {
    (word & 0xFF) as Byte
  }

  function HighByte(word: bv16): Byte {
    (word >> 8) as Byte
  }

  lemma WordOfBytes(word: bv16)
    ensures word == Xor(Low(LowByte(word)), High(HighByte(word)))
  {
  }

  // Folding two bytes is running the register sixteen steps on the word they form.
  lemma FoldTwoBytes(word: bv16, crc: bv16, poly: bv16)
    ensures FoldRight([LowByte(word), HighByte(word)], crc, poly) == StepsRight(16, Xor(crc, word), poly)
  {
    var low, high := LowByte(word), HighByte(word);
    var entry := Xor(crc, Low(low));
    WordOfBytes(word);
    XorAssociative(crc, Low(low), High(high));
    StepsLinear(8, entry, High(high), poly);
    HighByteFalls(high, poly);
    var reached := StepsRight(8, entry, poly);
    assert FoldRight([high], reached, poly) == StepsRight(8, Xor(reached, Low(high)), poly);
    assert [low, high][1..] == [high];
    StepsAdd(8, 8, Xor(crc, word), poly);
  }

  // Two colliding messages for the reflected branch.
  lemma EvenReflectedMisses(poly: bv16, init: bv16, xorout: bv16, reversed: Byte) returns (a: seq<Byte>, b: seq<Byte>)
    requires !LowSet(poly) && reversed != 0
    ensures |a| == |b| == 2 && a != b
    ensures Crc16(a, poly, init, xorout, reversed) == Crc16(b, poly, init, xorout, reversed)
  {
    var rpoly := Reverse16(poly);
    OddMirror(poly);
    var x, y: bv16 := Twice(rpoly), 1;
    assert StepRight(y, rpoly) == rpoly;
    StepOfTwice(rpoly, rpoly);
    StepsAdd(1, 15, x, rpoly);
    StepsAdd(1, 15, y, rpoly);
    var wordA, wordB := Xor(init, x), Xor(init, y);
    a, b := [LowByte(wordA), HighByte(wordA)], [LowByte(wordB), HighByte(wordB)];
    FoldTwoBytes(wordA, init, rpoly);
    FoldTwoBytes(wordB, init, rpoly);
    XorMiddle(init, x);
    XorMiddle(init, y);
    if a == b {
      WordOfBytes(wordA);
      WordOfBytes(wordB);
      XorCancel(init, x, y);
      assert false;
    }
  }

  /** With a polynomial whose constant term is missing, two two-byte messages collide, in
      either branch. */
  lemma EvenPolynomialMisses(poly: bv16, init: bv16, xorout: bv16, reversed: Byte) returns (a: seq<Byte>, b: seq<Byte>)
    requires !LowSet(poly)
    ensures |a| == |b| == 2 && a != b
    ensures Crc16(a, poly, init, xorout, reversed) == Crc16(b, poly, init, xorout, reversed)
  {
    hide Reverse16, Reverse8, Crc16;
    if reversed != 0 {
      a, b := EvenReflectedMisses(poly, init, xorout, reversed);
    } else {
      var i, o := Reverse16(init), Reverse16(xorout);
      var x, y := EvenReflectedMisses(poly, i, o, 1);
      a, b := ReverseBytes(x), ReverseBytes(y);
      ReflectedIsReflection(x, poly, i, o, 1);
      ReflectedIsReflection(y, poly, i, o, 1);
      Reverse16Involution(init);
      Reverse16Involution(xorout);
      Reverse16Involution(Crc16(a, poly, init, xorout, 0));
      Reverse16Involution(Crc16(b, poly, init, xorout, 0));
      if a == b {
        forall k | 0 <= k < 2 ensures x[k] == y[k] {
          Reverse8Involution(x[k]);
          Reverse8Involution(y[k]);
          assert a[k] == b[k];
        }
        assert false;
      }
    }
  }

  lemma XorMiddle(a: bv16, b: bv16)
    ensures Xor(a, Xor(a, b)) == b
  {
  }

  // ---- A message followed by its own CRC ----

  lemma {:induction false} FoldConcat(a: seq<Byte>, b: seq<Byte>, crc: bv16, poly: bv16)
    ensures FoldRight(a + b, crc, poly) == FoldRight(b, FoldRight(a, crc, poly), poly)
  {
    if a == [] {
      assert a + b == b;
    } else {
      assert (a + b)[1..] == a[1..] + b;
      FoldConcat(a[1..], b, StepsRight(8, Xor(crc, Low(a[0])), poly), poly);
    }
  }

  /** The reflected CRC of message plus trailing word is zero exactly when the word,
      low byte first, is the CRC of the message. */
  lemma ResidueReflected(data: seq<Byte>, word: bv16, poly: bv16)
    requires LowSet(poly)
    ensures Crc16(data + [LowByte(word), HighByte(word)], poly, 0, 0, 1) == 0
       <==> Crc16(data, poly, 0, 0, 1) == word
  {
    var rpoly := Reverse16(poly);
    var crc := FoldRight(data, 0, rpoly);
    OddMirror(poly);
    FoldConcat(data, [LowByte(word), HighByte(word)], 0, rpoly);
    FoldTwoBytes(word, crc, rpoly);
    StepsOfZero(16, rpoly);
    XorSelf(crc, 0);
    XorSelf(word, 0);
    XorSelf(StepsRight(16, Xor(crc, word), rpoly), 0);
    if StepsRight(16, Xor(crc, word), rpoly) == 0 {
      StepsRightInjective(16, Xor(crc, word), 0, rpoly);
      XorCancel(word, crc, word);
    }
  }

  lemma ReverseWord(word: bv16)
    ensures ReverseBytes([HighByte(word), LowByte(word)]) == [LowByte(Reverse16(word)), HighByte(Reverse16(word))]
  {
    assert Reverse8(HighByte(word)) == LowByte(Reverse16(word));
    assert Reverse8(LowByte(word)) == HighByte(Reverse16(word));
  }

  /** The same for the plain branch, high byte first. */
  lemma ResiduePlain(data: seq<Byte>, word: bv16, poly: bv16)
    requires LowSet(poly)
    ensures Crc16(data + [HighByte(word), LowByte(word)], poly, 0, 0, 0) == 0
       <==> Crc16(data, poly, 0, 0, 0) == word
  {
    var trailer := [HighByte(word), LowByte(word)];
    var mirrored := ReverseBytes(data);
    assert ReverseBytes(data + trailer) == mirrored + ReverseBytes(trailer);
    ReverseWord(word);
    ResidueReflected(mirrored, Reverse16(word), poly);
    PlainIsMirror(data, poly);
    PlainIsMirror(data + trailer, poly);
    Reverse16Involution(word);
    Reverse16Involution(Crc16(mirrored, poly, 0, 0, 1));
    Reverse16Involution(Crc16(mirrored + ReverseBytes(trailer), poly, 0, 0, 1));
  }

  lemma PlainIsMirror(data: seq<Byte>, poly: bv16)
    ensures Crc16(data, poly, 0, 0, 0) == Reverse16(Crc16(ReverseBytes(data), poly, 0, 0, 1))
  {
    var mirrored := ReverseBytes(data);
    assert ReverseBytes(mirrored) == data by {
      forall k | 0 <= k < |data| ensures ReverseBytes(mirrored)[k] == data[k] {
        Reverse8Involution(data[k]);
      }
    }
    ReflectedIsReflection(mirrored, poly, 0, 0, 1);
    Reverse16Involution(Crc16(data, poly, 0, 0, 0));
  }
}
