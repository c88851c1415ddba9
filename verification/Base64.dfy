/** The base64 functions of os/os.cpp, the encoding of section 4 of RFC 4648. */
module Base64 {
  import opened Basics

  // ---- The two tables, in rows of sixteen ----

  const ALPHABET: seq<string> := [
    "ABCDEFGHIJKLMNOP",
    "QRSTUVWXYZabcdef",
    "ghijklmnopqrstuv",
    "wxyz0123456789+/"]

  // The original's -1, stored in a char.
  const NONE: Byte := 0xFF

  const VALUES: seq<seq<Byte>> := [
    [NONE, NONE, NONE, NONE, NONE, NONE, NONE, NONE, NONE, NONE, NONE, NONE, NONE, NONE, NONE, NONE],
    [NONE, NONE, NONE, NONE, NONE, NONE, NONE, NONE, NONE, NONE, NONE, NONE, NONE, NONE, NONE, NONE],
    [NONE, NONE, NONE, NONE, NONE, NONE, NONE, NONE, NONE, NONE, NONE, 62, NONE, NONE, NONE, 63],
    [52, 53, 54, 55, 56, 57, 58, 59, 60, 61, NONE, NONE, NONE, NONE, NONE, NONE],
    [NONE, 0, 1, 2, 3, 4, 5, 6, 7, 8, 9, 10, 11, 12, 13, 14],
    [15, 16, 17, 18, 19, 20, 21, 22, 23, 24, 25, NONE, NONE, NONE, NONE, NONE],
    [NONE, 26, 27, 28, 29, 30, 31, 32, 33, 34, 35, 36, 37, 38, 39, 40],
    [41, 42, 43, 44, 45, 46, 47, 48, 49, 50, 51, NONE, NONE, NONE, NONE, NONE]]

  function Symbol(v: Byte): char
    requires v < 64
  {
    ALPHABET[(v >> 4) as int][(v & 15) as int]
  }

  predicate Ascii(c: char) {
    c as int < 128
  }

  /** The decoding table. From 128 on the original indexes it with a negative char. */
  function Value(c: char): Byte
    requires Ascii(c)
  {
    VALUES[c as int / 16][c as int % 16]
  }

  /** The alphabet of table 1 of RFC 4648. */
  function Letter(v: Byte): int
    requires v < 64
  {
    var n := v as int;
    if n < 26 then 'A' as int + n
    else if n < 52 then 'a' as int + (n - 26)
    else if n < 62 then '0' as int + (n - 52)
    else if n == 62 then '+' as int
    else '/' as int
  }

  lemma ValueOfRow0(v: Byte)
    requires v >> 4 == 0
    ensures Ascii(Symbol(v)) && Value(Symbol(v)) == v && Symbol(v) != '=' && Symbol(v) as int == Letter(v)
  {
    if v & 15 < 8 {
      if v == 0 {} else if v == 1 {} else if v == 2 {} else if v == 3 {}
      else if v == 4 {} else if v == 5 {} else if v == 6 {} else if v == 7 {}
    } else {
      if v == 8 {} else if v == 9 {} else if v == 10 {} else if v == 11 {}
      else if v == 12 {} else if v == 13 {} else if v == 14 {} else if v == 15 {}
    }
  }

  lemma ValueOfRow1(v: Byte)
    requires v >> 4 == 1
    ensures Ascii(Symbol(v)) && Value(Symbol(v)) == v && Symbol(v) != '=' && Symbol(v) as int == Letter(v)
  {
    if v & 15 < 8 {
      if v == 16 {} else if v == 17 {} else if v == 18 {} else if v == 19 {}
      else if v == 20 {} else if v == 21 {} else if v == 22 {} else if v == 23 {}
    } else {
      if v == 24 {} else if v == 25 {} else if v == 26 {} else if v == 27 {}
      else if v == 28 {} else if v == 29 {} else if v == 30 {} else if v == 31 {}
    }
  }

  lemma ValueOfRow2(v: Byte)
    requires v >> 4 == 2
    ensures Ascii(Symbol(v)) && Value(Symbol(v)) == v && Symbol(v) != '=' && Symbol(v) as int == Letter(v)
  {
    if v & 15 < 8 {
      if v == 32 {} else if v == 33 {} else if v == 34 {} else if v == 35 {}
      else if v == 36 {} else if v == 37 {} else if v == 38 {} else if v == 39 {}
    } else {
      if v == 40 {} else if v == 41 {} else if v == 42 {} else if v == 43 {}
      else if v == 44 {} else if v == 45 {} else if v == 46 {} else if v == 47 {}
    }
  }

  lemma ValueOfRow3(v: Byte)
    requires v >> 4 == 3
    ensures Ascii(Symbol(v)) && Value(Symbol(v)) == v && Symbol(v) != '=' && Symbol(v) as int == Letter(v)
  {
    if v & 15 < 8 {
      if v == 48 {} else if v == 49 {} else if v == 50 {} else if v == 51 {}
      else if v == 52 {} else if v == 53 {} else if v == 54 {} else if v == 55 {}
    } else {
      if v == 56 {} else if v == 57 {} else if v == 58 {} else if v == 59 {}
      else if v == 60 {} else if v == 61 {} else if v == 62 {} else if v == 63 {}
    }
  }

  lemma ValueOfSymbol(v: Byte)
    requires v < 64
    ensures Ascii(Symbol(v)) && Value(Symbol(v)) == v && Symbol(v) != '=' && Symbol(v) as int == Letter(v)
  {
    var row := v >> 4;
    if row == 0 {
      ValueOfRow0(v);
    } else if row == 1 {
      ValueOfRow1(v);
    } else if row == 2 {
      ValueOfRow2(v);
    } else {
      ValueOfRow3(v);
    }
  }

  /** The decoding table in plain words: the place in the alphabet, or 255. */
  function Place(c: char): int
  {
    if 'A' <= c <= 'Z' then c as int - 'A' as int
    else if 'a' <= c <= 'z' then c as int - 'a' as int + 26
    else if '0' <= c <= '9' then c as int - '0' as int + 52
    else if c == '+' then 62
    else if c == '/' then 63
    else 255
  }

  lemma PlaceOfRow0(c: char)
    requires 0 <= c as int < 16
    ensures Value(c) as int == Place(c)
  {
    var n := c as int - 0;
    if n < 8 {
      if n == 0 {} else if n == 1 {} else if n == 2 {} else if n == 3 {}
      else if n == 4 {} else if n == 5 {} else if n == 6 {} else if n == 7 {}
    } else {
      if n == 8 {} else if n == 9 {} else if n == 10 {} else if n == 11 {}
      else if n == 12 {} else if n == 13 {} else if n == 14 {} else if n == 15 {}
    }
  }

  lemma PlaceOfRow1(c: char)
    requires 16 <= c as int < 32
    ensures Value(c) as int == Place(c)
  {
    var n := c as int - 16;
    if n < 8 {
      if n == 0 {} else if n == 1 {} else if n == 2 {} else if n == 3 {}
      else if n == 4 {} else if n == 5 {} else if n == 6 {} else if n == 7 {}
    } else {
      if n == 8 {} else if n == 9 {} else if n == 10 {} else if n == 11 {}
      else if n == 12 {} else if n == 13 {} else if n == 14 {} else if n == 15 {}
    }
  }

  lemma PlaceOfRow2(c: char)
    requires 32 <= c as int < 48
    ensures Value(c) as int == Place(c)
  {
    var n := c as int - 32;
    if n < 8 {
      if n == 0 {} else if n == 1 {} else if n == 2 {} else if n == 3 {}
      else if n == 4 {} else if n == 5 {} else if n == 6 {} else if n == 7 {}
    } else {
      if n == 8 {} else if n == 9 {} else if n == 10 {} else if n == 11 {}
      else if n == 12 {} else if n == 13 {} else if n == 14 {} else if n == 15 {}
    }
  }

  lemma PlaceOfRow3(c: char)
    requires 48 <= c as int < 64
    ensures Value(c) as int == Place(c)
  {
    var n := c as int - 48;
    if n < 8 {
      if n == 0 {} else if n == 1 {} else if n == 2 {} else if n == 3 {}
      else if n == 4 {} else if n == 5 {} else if n == 6 {} else if n == 7 {}
    } else {
      if n == 8 {} else if n == 9 {} else if n == 10 {} else if n == 11 {}
      else if n == 12 {} else if n == 13 {} else if n == 14 {} else if n == 15 {}
    }
  }

  lemma PlaceOfRow4(c: char)
    requires 64 <= c as int < 80
    ensures Value(c) as int == Place(c)
  {
    var n := c as int - 64;
    if n < 8 {
      if n == 0 {} else if n == 1 {} else if n == 2 {} else if n == 3 {}
      else if n == 4 {} else if n == 5 {} else if n == 6 {} else if n == 7 {}
    } else {
      if n == 8 {} else if n == 9 {} else if n == 10 {} else if n == 11 {}
      else if n == 12 {} else if n == 13 {} else if n == 14 {} else if n == 15 {}
    }
  }

  lemma PlaceOfRow5(c: char)
    requires 80 <= c as int < 96
    ensures Value(c) as int == Place(c)
  {
    var n := c as int - 80;
    if n < 8 {
      if n == 0 {} else if n == 1 {} else if n == 2 {} else if n == 3 {}
      else if n == 4 {} else if n == 5 {} else if n == 6 {} else if n == 7 {}
    } else {
      if n == 8 {} else if n == 9 {} else if n == 10 {} else if n == 11 {}
      else if n == 12 {} else if n == 13 {} else if n == 14 {} else if n == 15 {}
    }
  }

  lemma PlaceOfRow6(c: char)
    requires 96 <= c as int < 112
    ensures Value(c) as int == Place(c)
  {
    var n := c as int - 96;
    if n < 8 {
      if n == 0 {} else if n == 1 {} else if n == 2 {} else if n == 3 {}
      else if n == 4 {} else if n == 5 {} else if n == 6 {} else if n == 7 {}
    } else {
      if n == 8 {} else if n == 9 {} else if n == 10 {} else if n == 11 {}
      else if n == 12 {} else if n == 13 {} else if n == 14 {} else if n == 15 {}
    }
  }

  lemma PlaceOfRow7(c: char)
    requires 112 <= c as int < 128
    ensures Value(c) as int == Place(c)
  {
    var n := c as int - 112;
    if n < 8 {
      if n == 0 {} else if n == 1 {} else if n == 2 {} else if n == 3 {}
      else if n == 4 {} else if n == 5 {} else if n == 6 {} else if n == 7 {}
    } else {
      if n == 8 {} else if n == 9 {} else if n == 10 {} else if n == 11 {}
      else if n == 12 {} else if n == 13 {} else if n == 14 {} else if n == 15 {}
    }
  }

  lemma ValueIsPlace(c: char)
    requires Ascii(c)
    ensures Value(c) as int == Place(c)
  {
    hide Value, Place;
    var row := c as int / 16;
    if row == 0 {
      PlaceOfRow0(c);
    } else if row == 1 {
      PlaceOfRow1(c);
    } else if row == 2 {
      PlaceOfRow2(c);
    } else if row == 3 {
      PlaceOfRow3(c);
    } else if row == 4 {
      PlaceOfRow4(c);
    } else if row == 5 {
      PlaceOfRow5(c);
    } else if row == 6 {
      PlaceOfRow6(c);
    } else {
      PlaceOfRow7(c);
    }
  }

  // ---- One group: three bytes, four sextets ----

  function Sextets(a: Byte, b: Byte, c: Byte): (v: seq<Byte>)
    ensures |v| == 4 && v[0] < 64 && v[1] < 64 && v[2] < 64 && v[3] < 64
  {
    [(a & 0xFC) >> 2, ((a & 0x03) << 4) + ((b & 0xF0) >> 4), ((b & 0x0F) << 2) + ((c & 0xC0) >> 6), c & 0x3F]
  }

  function Octets(v0: Byte, v1: Byte, v2: Byte, v3: Byte): (bytes: seq<Byte>)
    ensures |bytes| == 3
  {
    [(v0 << 2) + ((v1 & 0x30) >> 4), ((v1 & 0x0F) << 4) + ((v2 & 0x3C) >> 2), ((v2 & 0x03) << 6) + v3]
  }

  function Quad(a: Byte, b: Byte, c: Byte): (s: string)
    ensures |s| == 4
  {
    var v := Sextets(a, b, c);
    [Symbol(v[0]), Symbol(v[1]), Symbol(v[2]), Symbol(v[3])]
  }

  predicate AsciiText(s: string) {
    forall k | 0 <= k < |s| :: Ascii(s[k])
  }

  function Trio(s: string): (bytes: seq<Byte>)
    requires |s| == 4 && AsciiText(s)
    ensures |bytes| == 3
  {
    Octets(Value(s[0]), Value(s[1]), Value(s[2]), Value(s[3]))
  }

  // ---- Whole texts ----

  predicate Threes(n: nat) {
    n % 3 == 0
  }

  predicate Fours(n: nat) {
    n % 4 == 0
  }

  lemma GroupLess(n: nat)
    requires n > 0
    ensures Threes(n) ==> n >= 3 && Threes(n - 3)
    ensures Fours(n) ==> n >= 4 && Fours(n - 4)
  {
  }

  lemma GroupMore(n: nat)
    ensures Threes(n) ==> Threes(n + 3)
    ensures Fours(n) ==> Fours(n + 4)
    ensures Threes(0) && Fours(0)
  {
  }

  /** The encoding of complete groups. */
  function EncodeGroups(x: seq<Byte>): string
    requires Threes(|x|)
  {
    if x == [] then ""
    else
      var n := |x| - 3;
      EncodeGroups(x[..n]) + Quad(x[n], x[n + 1], x[n + 2])
  }

  function EncodeTail(x: seq<Byte>): string
    requires |x| < 3
  {
    if |x| == 0 then ""
    else if |x| == 1 then Quad(x[0], 0, 0)[..2] + "=="
    else Quad(x[0], x[1], 0)[..3] + "="
  }

  /** The bytes, or symbols, in complete groups. */
  function Whole3(n: nat): (w: nat)
    ensures w <= n < w + 3 && Threes(w)
  {
    n - n % 3
  }

  function Whole4(n: nat): (w: nat)
    ensures w <= n < w + 4 && Fours(w)
  {
    n - n % 4
  }

  function Encode(x: seq<Byte>): string {
    var n := Whole3(|x|);
    EncodeGroups(x[..n]) + EncodeTail(x[n..])
  }

  function DecodeGroups(s: string): seq<Byte>
    requires Fours(|s|) && AsciiText(s)
  {
    if s == "" then []
    else
      var n := |s| - 4;
      DecodeGroups(s[..n]) + Trio(s[n..])
  }

  // k symbols give k - 1 bytes; the missing ones count as the NUL character.
  function DecodeTail(s: string): seq<Byte>
    requires |s| < 4 && AsciiText(s)
  {
    if |s| == 0 then [] else Trio(s + ['\0', '\0', '\0'][|s| - 1..])[..|s| - 1]
  }

  predicate Plain(s: string) {
    '=' !in s
  }

  lemma PlainConcat(a: string, b: string)
    requires Plain(a) && Plain(b)
    ensures Plain(a + b)
  {
  }

  /** Everything before the first padding character. */
  function Unpadded(s: string): (u: string)
    ensures |u| <= |s| && u == s[..|u|] && Plain(u) && (|u| < |s| ==> s[|u|] == '=')
  {
    if s == "" || s[0] == '=' then "" else [s[0]] + Unpadded(s[1..])
  }

  function Decode(s: string): seq<Byte>
    requires AsciiText(s)
  {
    var u := Unpadded(s);
    var n := Whole4(|u|);
    DecodeGroups(u[..n]) + DecodeTail(u[n..])
  }

  // ---- Round trip ----

  lemma GroupRoundTrip(a: Byte, b: Byte, c: Byte)
    ensures var v := Sextets(a, b, c); Octets(v[0], v[1], v[2], v[3]) == [a, b, c]
  {
  }

  lemma QuadRoundTrip(a: Byte, b: Byte, c: Byte)
    ensures var q := Quad(a, b, c); AsciiText(q) && Plain(q) && Trio(q) == [a, b, c]
  {
    hide Symbol, Value, Sextets, Octets, Ascii;
    var v := Sextets(a, b, c);
    ValueOfSymbol(v[0]);
    ValueOfSymbol(v[1]);
    ValueOfSymbol(v[2]);
    ValueOfSymbol(v[3]);
    GroupRoundTrip(a, b, c);
  }

  lemma {:induction false} GroupsLength(x: seq<Byte>)
    requires Threes(|x|)
    ensures |EncodeGroups(x)| == GroupChars(|x|) && Fours(|EncodeGroups(x)|)
  {
    if x != [] {
      GroupLess(|x|);
      GroupsLength(x[..|x| - 3]);
    }
  }

  lemma EncodeGroupsAppend(x: seq<Byte>, a: Byte, b: Byte, c: Byte)
    requires Threes(|x|)
    ensures EncodeGroups(x + [a, b, c]) == EncodeGroups(x) + Quad(a, b, c)
  {
    var longer := x + [a, b, c];
    assert longer[..|longer| - 3] == x;
  }

  lemma DecodeGroupsAppend(s: string, q: string)
    requires Fours(|s|) && |q| == 4 && AsciiText(s) && AsciiText(q)
    ensures AsciiText(s + q) && DecodeGroups(s + q) == DecodeGroups(s) + Trio(q)
  {
    AsciiConcat(s, q);
    var longer := s + q;
    assert longer[..|longer| - 4] == s && longer[|longer| - 4..] == q;
  }

  lemma NoGroups()
    ensures EncodeGroups([]) == "" && AsciiText("") && Plain("") && DecodeGroups("") == []
  {
  }

  lemma {:induction false} GroupsRoundTrip(x: seq<Byte>)
    requires Threes(|x|)
    ensures var s := EncodeGroups(x); Fours(|s|) && AsciiText(s) && Plain(s) && DecodeGroups(s) == x
  {
    hide Quad, Trio, AsciiText, Plain, EncodeGroups, DecodeGroups, Threes, Fours;
    GroupsLength(x);
    if x == [] {
      NoGroups();
    } else {
      GroupLess(|x|);
      var n := |x| - 3;
      var a, b, c := x[n], x[n + 1], x[n + 2];
      assert x == x[..n] + [a, b, c];
      GroupsRoundTrip(x[..n]);
      QuadRoundTrip(a, b, c);
      EncodeGroupsAppend(x[..n], a, b, c);
      DecodeGroupsAppend(EncodeGroups(x[..n]), Quad(a, b, c));
      PlainConcat(EncodeGroups(x[..n]), Quad(a, b, c));
    }
  }

  // The last symbols of a short tail are decoded without the zero bytes behind them.
  lemma TailRoundTrip(x: seq<Byte>)
    requires |x| < 3
    ensures var s := EncodeTail(x);
            var u := if |x| == 0 then 0 else |x| + 1;
            && |s| == (if |x| == 0 then 0 else 4) && u <= |s|
            && AsciiText(s) && Plain(s[..u]) && (forall k | u <= k < |s| :: s[k] == '=')
            && DecodeTail(s[..u]) == x
  {
    hide Symbol, Value, Ascii;
    assert Ascii('=') by {
      PaddingIsAscii();
    }
    if |x| == 1 {
      var v := Sextets(x[0], 0, 0);
      ValueOfSymbol(v[0]);
      ValueOfSymbol(v[1]);
      ShortGroup(x[0], 0);
    } else if |x| == 2 {
      var v := Sextets(x[0], x[1], 0);
      ValueOfSymbol(v[0]);
      ValueOfSymbol(v[1]);
      ValueOfSymbol(v[2]);
      ShortGroup(x[0], x[1]);
    }
  }

  lemma PaddingIsAscii()
    ensures Ascii('=')
  {
  }

  lemma ShortGroup(a: Byte, b: Byte)
    ensures var v := Sextets(a, b, 0);
            forall v2: Byte, v3: Byte :: Octets(v[0], v[1], v2, v3)[0] == a && Octets(v[0], v[1], v[2], v3)[1] == b
  {
  }

  lemma {:induction false} UnpaddedOf(plain: string, padding: string)
    requires Plain(plain)
    requires padding != "" ==> padding[0] == '='
    ensures Unpadded(plain + padding) == plain
  {
    if plain == "" {
      assert plain + padding == padding;
    } else {
      assert (plain + padding)[1..] == plain[1..] + padding;
      UnpaddedOf(plain[1..], padding);
    }
  }

  lemma AsciiConcat(a: string, b: string)
    ensures AsciiText(a + b) <==> AsciiText(a) && AsciiText(b)
  {
    if AsciiText(a + b) {
      assert forall k | 0 <= k < |a| :: a[k] == (a + b)[k];
      assert forall k | 0 <= k < |b| :: b[k] == (a + b)[|a| + k];
    }
  }

  lemma DecodeOf(groups: string, tail: string, padding: string)
    requires Fours(|groups|) && |tail| < 4
    requires AsciiText(groups) && AsciiText(tail) && AsciiText(padding)
    requires Plain(groups) && Plain(tail) && (padding != "" ==> padding[0] == '=')
    ensures AsciiText(groups + tail + padding)
    ensures Decode(groups + tail + padding) == DecodeGroups(groups) + DecodeTail(tail)
  {
    AsciiConcat(groups, tail);
    AsciiConcat(groups + tail, padding);
    PlainConcat(groups, tail);
    UnpaddedOf(groups + tail, padding);
    DecodePlain(groups + tail + padding, groups, tail);
  }

  lemma DecodePlain(s: string, groups: string, tail: string)
    requires AsciiText(s) && AsciiText(groups) && AsciiText(tail) && Fours(|groups|) && |tail| < 4
    requires Unpadded(s) == groups + tail
    ensures Decode(s) == DecodeGroups(groups) + DecodeTail(tail)
  {
    hide AsciiText, Plain, DecodeGroups, DecodeTail, Unpadded, Whole4, Fours;
    Whole4OfSum(|groups|, |tail|);
    assert (groups + tail)[..|groups|] == groups && (groups + tail)[|groups|..] == tail;
  }

  lemma Whole4OfSum(g: nat, k: nat)
    requires Fours(g) && k < 4
    ensures Whole4(g + k) == g
  {
  }

  lemma PartsRoundTrip(g: seq<Byte>, t: seq<Byte>)
    requires Threes(|g|) && |t| < 3
    ensures var s := EncodeGroups(g) + EncodeTail(t); AsciiText(s) && Decode(s) == g + t
  {
    var tail := EncodeTail(t);
    var k := if t == [] then 0 else |t| + 1;
    GroupsRoundTrip(g);
    TailRoundTrip(t);
    hide AsciiText, Plain, EncodeTail, EncodeGroups, DecodeGroups, DecodeTail, Decode, Threes, Fours;
    Concatenated(EncodeGroups(g), tail, k);
    AsciiConcat(tail[..k], tail[k..]);
    DecodeOf(EncodeGroups(g), tail[..k], tail[k..]);
  }

  /** Decoding restores every byte string. */
  lemma RoundTrip(x: seq<Byte>)
    ensures AsciiText(Encode(x)) && Decode(Encode(x)) == x
  {
    hide AsciiText, EncodeTail, EncodeGroups, Decode, Whole3, Threes;
    var n := Whole3(|x|);
    PartsRoundTrip(x[..n], x[n..]);
    assert x == x[..n] + x[n..];
  }

  lemma Concatenated(a: string, b: string, k: nat)
    requires k <= |b|
    ensures a + b == a + b[..k] + b[k..] && b == b[..k] + b[k..]
  {
  }

  // ---- Decoding texts that nobody encoded ----

  /** The text of these places in the alphabet. */
  function Spelled(v: seq<Byte>): (s: string)
    requires forall k | 0 <= k < |v| :: v[k] < 64
    ensures |s| == |v| && AsciiText(s) && Plain(s)
    ensures forall k | 0 <= k < |v| :: s[k] == Symbol(v[k]) && Value(s[k]) == v[k]
  {
    LettersAreLetters(v);
    seq(|v|, k requires 0 <= k < |v| => Symbol(v[k]))
  }

  lemma LettersAreLetters(v: seq<Byte>)
    requires forall k | 0 <= k < |v| :: v[k] < 64
    ensures forall k | 0 <= k < |v| :: Ascii(Symbol(v[k])) && Value(Symbol(v[k])) == v[k] && Symbol(v[k]) != '='
  {
    hide Symbol, Value, Ascii;
    forall k | 0 <= k < |v| ensures Ascii(Symbol(v[k])) && Value(Symbol(v[k])) == v[k] && Symbol(v[k]) != '=' {
      ValueOfSymbol(v[k]);
    }
  }

  lemma SextetsOfOctets(v: seq<Byte>)
    requires |v| == 4 && v[0] < 64 && v[1] < 64 && v[2] < 64 && v[3] < 64
    ensures var b := Octets(v[0], v[1], v[2], v[3]); Sextets(b[0], b[1], b[2]) == v
  {
  }

  lemma TrioOfLetters(v: seq<Byte>)
    requires |v| == 4 && forall k | 0 <= k < 4 :: v[k] < 64
    ensures var s := Spelled(v);
            && Trio(s) == Octets(v[0], v[1], v[2], v[3])
            && Quad(Trio(s)[0], Trio(s)[1], Trio(s)[2]) == s
  {
    hide Symbol, Value, Ascii, Octets, Sextets, Spelled;
    SextetsOfOctets(v);
  }

  lemma SpelledConcat(v: seq<Byte>, w: seq<Byte>)
    requires (forall k | 0 <= k < |v| :: v[k] < 64) && (forall k | 0 <= k < |w| :: w[k] < 64)
    ensures Spelled(v + w) == Spelled(v) + Spelled(w)
  {
    hide Symbol, Value;
  }

  lemma {:induction false} GroupsOfLetters(v: seq<Byte>)
    requires Fours(|v|) && forall k | 0 <= k < |v| :: v[k] < 64
    ensures var s := Spelled(v);
            Threes(|DecodeGroups(s)|) && EncodeGroups(DecodeGroups(s)) == s
  {
    hide Symbol, Value, Ascii, Quad, Trio, AsciiText, Plain, EncodeGroups, DecodeGroups, Threes, Fours, Spelled;
    if v == [] {
      NoGroups();
      assert Spelled(v) == "";
      GroupMore(0);
    } else {
      GroupLess(|v|);
      var n := |v| - 4;
      var front, q := v[..n], v[n..];
      GroupsOfLetters(front);
      TrioOfLetters(q);
      var t := Trio(Spelled(q));
      assert v == front + q;
      SpelledConcat(front, q);
      DecodeGroupsAppend(Spelled(front), Spelled(q));
      PlainConcat(Spelled(front), Spelled(q));
      var x := DecodeGroups(Spelled(front));
      assert t == [t[0], t[1], t[2]];
      EncodeGroupsAppend(x, t[0], t[1], t[2]);
      GroupMore(|x|);
    }
  }

  /** Encoding what any text of whole groups of letters decodes to gives the text back. */
  lemma LettersRoundTrip(v: seq<Byte>)
    requires |v| % 4 == 0 && forall k | 0 <= k < |v| :: v[k] < 64
    ensures Encode(Decode(Spelled(v))) == Spelled(v)
  {
    hide Spelled, AsciiText, Plain, EncodeGroups, DecodeGroups;
    var s := Spelled(v);
    assert Fours(|v|);
    GroupsOfLetters(v);
    UnpaddedOfPlain(s);
    WholeText(s);
    WholeBytes(DecodeGroups(s));
  }

  lemma UnpaddedOfPlain(s: string)
    requires Plain(s)
    ensures Unpadded(s) == s
  {
    UnpaddedOf(s, "");
    assert s + "" == s;
  }

  lemma WholeText(s: string)
    requires Fours(|s|) && AsciiText(s) && Unpadded(s) == s
    ensures Decode(s) == DecodeGroups(s)
  {
    hide DecodeGroups, AsciiText, Trio, Whole4, Fours;
    Whole4Is(|s|, 0);
    assert s[..|s|] == s && s[|s|..] == "";
    assert DecodeGroups(s) + [] == DecodeGroups(s);
  }

  lemma WholeBytes(x: seq<Byte>)
    requires Threes(|x|)
    ensures Encode(x) == EncodeGroups(x)
  {
    hide EncodeGroups, Quad, Whole3, Threes;
    WholeIs(|x|, 0);
    assert x[..|x|] == x && x[|x|..] == [];
    assert EncodeGroups(x) + "" == EncodeGroups(x);
  }

  /** One symbol left over gives no byte, and two or three give the bytes that they fill,
      whatever the bits left over. */
  lemma TailOfText(s: string)
    requires |s| <= 3 && AsciiText(s)
    ensures |s| <= 1 ==> DecodeTail(s) == []
    ensures |s| == 2 ==> DecodeTail(s) == [Octets(Value(s[0]), Value(s[1]), 0, 0)[0]]
    ensures |s| == 3 ==> var o := Octets(Value(s[0]), Value(s[1]), Value(s[2]), 0); DecodeTail(s) == [o[0], o[1]]
  {
    hide Value, Octets;
    if |s| >= 2 {
      NulIsAscii();
      LeftOver(Value(s[0]), Value(s[1]), if |s| == 3 then Value(s[2]) else 0, Value('\0'));
    }
  }

  lemma NulIsAscii()
    ensures Ascii('\0')
  {
  }

  // What stands behind the letters does not reach the bytes they fill.
  lemma LeftOver(a: Byte, b: Byte, c: Byte, junk: Byte)
    ensures Octets(a, b, junk, junk)[0] == Octets(a, b, 0, 0)[0]
    ensures Octets(a, b, c, junk)[0] == Octets(a, b, c, 0)[0] && Octets(a, b, c, junk)[1] == Octets(a, b, c, 0)[1]
  {
  }

  /** Whatever follows the first padding character is not read. */
  lemma StopsAtPadding(a: string, b: string)
    requires AsciiText(a) && AsciiText(b) && '=' !in a
    ensures AsciiText(a + "=" + b) && Decode(a + "=" + b) == Decode(a)
  {
    hide DecodeGroups, DecodeTail;
    UnpaddedOf(a, "=" + b);
    UnpaddedOfPlain(a);
    assert a + ("=" + b) == a + "=" + b;
  }

  /** How many padding characters a text of n bytes needs. */
  function Padding(n: nat): nat {
    (3 - n % 3) % 3
  }

  /** The length of the text for n bytes. */
  function TextSize(n: nat): nat {
    (n + 2) / 3 * 4
  }

  function GroupChars(n: nat): nat {
    n / 3 * 4
  }

  lemma NoChars()
    ensures GroupChars(0) == 0 && GroupBytes(0) == 0
  {
  }

  /** The text is four characters per started group, and only the last ones are padding. */
  lemma Shape(x: seq<Byte>)
    ensures var s := Encode(x);
            && |s| == TextSize(|x|)
            && forall k | 0 <= k < |s| :: s[k] == '=' <==> k >= |s| - Padding(|x|)
  {
    hide AsciiText, Plain, EncodeTail, EncodeGroups, DecodeGroups, DecodeTail;
    hide Padding, Whole3, Threes, Fours, TextSize, GroupChars;
    var n := Whole3(|x|);
    GroupsRoundTrip(x[..n]);
    TailRoundTrip(x[n..]);
    GroupsLength(x[..n]);
    PaddingOf(|x|);
    Counts(|x|);
    var u := if n == |x| then 0 else |x| - n + 1;
    OnlyPadding(EncodeGroups(x[..n]), EncodeTail(x[n..]), u);
  }

  lemma PaddingOf(m: nat)
    ensures var n := Whole3(m); Padding(m) == if n == m then 0 else 3 - (m - n)
  {
  }

  lemma Counts(m: nat)
    ensures var n := Whole3(m); TextSize(m) == GroupChars(n) + if n == m then 0 else 4
  {
  }

  lemma OnlyPadding(groups: string, tail: string, u: nat)
    requires u <= |tail| && Plain(groups) && Plain(tail[..u]) && forall k | u <= k < |tail| :: tail[k] == '='
    ensures forall k | 0 <= k < |groups + tail| :: (groups + tail)[k] == '=' <==> k >= |groups| + u
  {
    assert forall k | 0 <= k < |groups| :: groups[k] in groups;
    assert forall k | 0 <= k < u :: tail[k] == tail[..u][k] && tail[..u][k] in tail[..u];
  }

  // ---- The encoding as a regrouping of bits ----

  // The lowest six bits, highest first.
  function SixBits(v: Byte): (bits: seq<bool>)
    ensures |bits| == 6
  {
    [v & 32 != 0, v & 16 != 0, v & 8 != 0, v & 4 != 0, v & 2 != 0, v & 1 != 0]
  }

  function EightBits(b: Byte): (bits: seq<bool>)
    ensures |bits| == 8
  {
    [b & 128 != 0, b & 64 != 0] + SixBits(b)
  }

  function BitsOfBytes(x: seq<Byte>): seq<bool> {
    if x == [] then [] else BitsOfBytes(x[..|x| - 1]) + EightBits(x[|x| - 1])
  }

  function BitsOfSymbols(s: string): seq<bool>
    requires AsciiText(s)
  {
    if s == "" then [] else BitsOfSymbols(s[..|s| - 1]) + SixBits(Value(s[|s| - 1]))
  }

  // Where each bit of the two inner sextets comes from.
  lemma SecondSextet(a: Byte, b: Byte)
    ensures var v := ((a & 0x03) << 4) + ((b & 0xF0) >> 4);
            && (v & 32 != 0 <==> a & 2 != 0) && (v & 16 != 0 <==> a & 1 != 0)
            && (v & 8 != 0 <==> b & 128 != 0) && (v & 4 != 0 <==> b & 64 != 0)
            && (v & 2 != 0 <==> b & 32 != 0) && (v & 1 != 0 <==> b & 16 != 0)
  {
  }

  lemma ThirdSextet(b: Byte, c: Byte)
    ensures var v := ((b & 0x0F) << 2) + ((c & 0xC0) >> 6);
            && (v & 32 != 0 <==> b & 8 != 0) && (v & 16 != 0 <==> b & 4 != 0)
            && (v & 8 != 0 <==> b & 2 != 0) && (v & 4 != 0 <==> b & 1 != 0)
            && (v & 2 != 0 <==> c & 128 != 0) && (v & 1 != 0 <==> c & 64 != 0)
  {
  }

  lemma OuterSextets(a: Byte, c: Byte)
    ensures SixBits((a & 0xFC) >> 2) == EightBits(a)[..6]
    ensures SixBits(c & 0x3F) == EightBits(c)[2..]
  {
  }

  lemma GroupBits(a: Byte, b: Byte, c: Byte)
    ensures var v := Sextets(a, b, c);
            SixBits(v[0]) + SixBits(v[1]) + SixBits(v[2]) + SixBits(v[3]) == EightBits(a) + EightBits(b) + EightBits(c)
  {
    var v1, v2 := ((a & 0x03) << 4) + ((b & 0xF0) >> 4), ((b & 0x0F) << 2) + ((c & 0xC0) >> 6);
    SecondBits(a, b);
    ThirdBits(b, c);
    OuterSextets(a, c);
    hide SixBits, EightBits;
    Regroup(EightBits(a), EightBits(b), EightBits(c));
  }

  lemma SecondBits(a: Byte, b: Byte)
    ensures SixBits(((a & 0x03) << 4) + ((b & 0xF0) >> 4)) == EightBits(a)[6..] + EightBits(b)[..4]
  {
    SecondSextet(a, b);
  }

  lemma ThirdBits(b: Byte, c: Byte)
    ensures SixBits(((b & 0x0F) << 2) + ((c & 0xC0) >> 6)) == EightBits(b)[4..] + EightBits(c)[..2]
  {
    ThirdSextet(b, c);
  }

  lemma Regroup<T>(a: seq<T>, b: seq<T>, c: seq<T>)
    requires |a| == |b| == |c| == 8
    ensures a[..6] + (a[6..] + b[..4]) + (b[4..] + c[..2]) + c[2..] == a + b + c
  {
  }

  lemma SymbolBits(s: string, v: Byte)
    requires AsciiText(s) && v < 64
    ensures AsciiText(s + [Symbol(v)]) && BitsOfSymbols(s + [Symbol(v)]) == BitsOfSymbols(s) + SixBits(v)
  {
    ValueOfSymbol(v);
    AsciiConcat(s, [Symbol(v)]);
    hide SixBits, Value, Symbol;
    assert (s + [Symbol(v)])[..|s|] == s;
  }

  lemma ByteBits(x: seq<Byte>, b: Byte)
    ensures BitsOfBytes(x + [b]) == BitsOfBytes(x) + EightBits(b)
  {
    hide EightBits;
    assert (x + [b])[..|x|] == x;
  }

  // The first n symbols of a group behind a text.
  lemma GroupSymbols(s: string, a: Byte, b: Byte, c: Byte, n: nat)
    requires AsciiText(s) && n <= 4
    ensures var text, v := s + Quad(a, b, c)[..n], Sextets(a, b, c);
            && AsciiText(text)
            && BitsOfSymbols(text) == BitsOfSymbols(s) + SixBitsOf(v[..n])
  {
    hide SixBits, Symbol, BitsOfSymbols, AsciiText;
    var v, q := Sextets(a, b, c), Quad(a, b, c);
    if n == 0 {
      assert s + q[..n] == s;
    } else {
      GroupSymbols(s, a, b, c, n - 1);
      SymbolBits(s + q[..n - 1], v[n - 1]);
      assert s + q[..n] == s + q[..n - 1] + [q[n - 1]];
      assert v[..n][..n - 1] == v[..n - 1];
    }
  }

  function SixBitsOf(v: seq<Byte>): seq<bool> {
    if v == [] then [] else SixBitsOf(v[..|v| - 1]) + SixBits(v[|v| - 1])
  }

  lemma SixBitsOfFour(v: seq<Byte>)
    requires |v| == 4
    ensures SixBitsOf(v[..2]) == SixBits(v[0]) + SixBits(v[1])
    ensures SixBitsOf(v[..3]) == SixBits(v[0]) + SixBits(v[1]) + SixBits(v[2])
    ensures SixBitsOf(v[..4]) == SixBits(v[0]) + SixBits(v[1]) + SixBits(v[2]) + SixBits(v[3])
  {
    hide SixBits;
    assert v[..1][..0] == [] && v[..2][..1] == v[..1] && v[..3][..2] == v[..2] && v[..4][..3] == v[..3];
    assert SixBitsOf(v[..1]) == SixBits(v[0]);
  }

  lemma NoBits()
    ensures BitsOfBytes([]) == [] && BitsOfSymbols("") == []
  {
  }

  lemma QuadBits(s: string, a: Byte, b: Byte, c: Byte)
    requires AsciiText(s)
    ensures AsciiText(s + Quad(a, b, c))
    ensures BitsOfSymbols(s + Quad(a, b, c)) == BitsOfSymbols(s) + (EightBits(a) + EightBits(b) + EightBits(c))
  {
    hide SixBits, EightBits, SixBitsOf, Quad, Sextets, AsciiText, BitsOfSymbols;
    var v := Sextets(a, b, c);
    GroupSymbols(s, a, b, c, 4);
    SixBitsOfFour(v);
    GroupBits(a, b, c);
    assert v[..4] == v && Quad(a, b, c)[..4] == Quad(a, b, c);
  }

  lemma ThreeBytesBits(x: seq<Byte>, a: Byte, b: Byte, c: Byte)
    ensures BitsOfBytes(x + [a, b, c]) == BitsOfBytes(x) + (EightBits(a) + EightBits(b) + EightBits(c))
  {
    hide EightBits, BitsOfBytes;
    ByteBits(x, a);
    ByteBits(x + [a], b);
    ByteBits(x + [a] + [b], c);
    assert x + [a] + [b] + [c] == x + [a, b, c];
  }

  lemma {:induction false} GroupsBits(x: seq<Byte>)
    requires Threes(|x|)
    ensures var s := EncodeGroups(x); AsciiText(s) && BitsOfSymbols(s) == BitsOfBytes(x)
  {
    NoGroups();
    NoBits();
    hide EightBits, Quad, AsciiText, BitsOfBytes, BitsOfSymbols, EncodeGroups, Threes;
    if x != [] {
      GroupLess(|x|);
      var n := |x| - 3;
      var a, b, c := x[n], x[n + 1], x[n + 2];
      assert x == x[..n] + [a, b, c];
      GroupsBits(x[..n]);
      EncodeGroupsAppend(x[..n], a, b, c);
      QuadBits(EncodeGroups(x[..n]), a, b, c);
      ThreeBytesBits(x[..n], a, b, c);
    }
  }

  /** All but the last p characters, six bits each, spell the bytes and two zero bits for each
      of the p. */
  predicate Regroups(s: string, p: nat, x: seq<Byte>) {
    && p <= |s|
    && AsciiText(s[..|s| - p])
    && BitsOfSymbols(s[..|s| - p]) == BitsOfBytes(x) + Zeros(2 * p)
  }

  lemma TailRegrouping(g: seq<Byte>, t: seq<Byte>)
    requires Threes(|g|) && |t| < 3
    ensures var s := EncodeGroups(g) + EncodeTail(t);
            Regroups(s, if |t| == 0 then 0 else 3 - |t|, g + t)
  {
    hide SixBits, EightBits, SixBitsOf, Quad, Sextets, Symbol, AsciiText;
    hide BitsOfBytes, BitsOfSymbols, EncodeGroups, Threes, Fours, Zeros, Regroups;
    var groups := EncodeGroups(g);
    GroupsBits(g);
    if |t| == 0 {
      NoBits();
      Regrouped(groups, "", g);
      assert g + t == g && groups + "" == groups;
    } else if |t| == 1 {
      OneByteTail(groups, t[0]);
      ByteBits(g, t[0]);
      Regrouped(groups + Quad(t[0], 0, 0)[..2], "==", g + [t[0]]);
      assert t == [t[0]];
      assert groups + Quad(t[0], 0, 0)[..2] + "==" == groups + (Quad(t[0], 0, 0)[..2] + "==");
    } else {
      TwoByteTail(groups, t[0], t[1]);
      ByteBits(g, t[0]);
      ByteBits(g + [t[0]], t[1]);
      Regrouped(groups + Quad(t[0], t[1], 0)[..3], "=", g + [t[0]] + [t[1]]);
      assert g + t == g + [t[0]] + [t[1]];
      assert groups + Quad(t[0], t[1], 0)[..3] + "=" == groups + (Quad(t[0], t[1], 0)[..3] + "=");
    }
  }

  lemma Regrouped(text: string, padding: string, x: seq<Byte>)
    requires AsciiText(text)
    requires BitsOfSymbols(text) == BitsOfBytes(x) + if padding == "" then [] else Zeros(2 * |padding|)
    ensures Regroups(text + padding, |padding|, x)
  {
    hide AsciiText, BitsOfSymbols, BitsOfBytes;
    assert (text + padding)[..|text|] == text;
    assert Zeros(0) == [];
    assert BitsOfBytes(x) + [] == BitsOfBytes(x);
  }

  /** The symbols of the text, six bits each, spell the bytes, eight bits each, followed by
      two zero bits per padding character. */
  lemma EncodingIsRegrouping(x: seq<Byte>)
    ensures Regroups(Encode(x), Padding(|x|), x)
  {
    hide AsciiText, BitsOfBytes, BitsOfSymbols, EncodeGroups, EncodeTail, Whole3, Padding, Threes, Zeros, Regroups;
    var n := Whole3(|x|);
    PaddingOf(|x|);
    TailRegrouping(x[..n], x[n..]);
    assert x[..n] + x[n..] == x;
  }

  function Zeros(n: nat): seq<bool> {
    seq(n, _ => false)
  }

  lemma OneByteTail(groups: string, a: Byte)
    requires AsciiText(groups)
    ensures var text := groups + Quad(a, 0, 0)[..2];
            AsciiText(text) && BitsOfSymbols(text) == BitsOfSymbols(groups) + EightBits(a) + Zeros(4)
  {
    hide SixBits, EightBits, SixBitsOf, Symbol, BitsOfSymbols, AsciiText, Sextets, Zeros;
    GroupSymbols(groups, a, 0, 0, 2);
    SixBitsOfFour(Sextets(a, 0, 0));
    OneByteSextets(a);
  }

  lemma OneByteSextets(a: Byte)
    ensures var v := Sextets(a, 0, 0); SixBits(v[0]) + SixBits(v[1]) == EightBits(a) + Zeros(4)
  {
    hide SixBits, EightBits, Zeros, Sextets;
    GroupBits(a, 0, 0);
    ZeroBits();
    var v := Sextets(a, 0, 0);
    var p, q := SixBits(v[0]) + SixBits(v[1]), SixBits(v[2]) + SixBits(v[3]);
    assert p + q == p + SixBits(v[2]) + SixBits(v[3]);
    assert EightBits(a) + (EightBits(0) + EightBits(0)) == EightBits(a) + EightBits(0) + EightBits(0);
    FirstPart(p, q, EightBits(a), EightBits(0) + EightBits(0));
    assert (EightBits(0) + EightBits(0))[..4] == EightBits(0)[..4];
  }

  lemma TwoByteSextets(a: Byte, b: Byte)
    ensures var v := Sextets(a, b, 0);
            SixBits(v[0]) + SixBits(v[1]) + SixBits(v[2]) == EightBits(a) + EightBits(b) + Zeros(2)
  {
    hide SixBits, EightBits, Zeros, Sextets;
    GroupBits(a, b, 0);
    ZeroBits();
    var v := Sextets(a, b, 0);
    FirstPart(SixBits(v[0]) + SixBits(v[1]) + SixBits(v[2]), SixBits(v[3]), EightBits(a) + EightBits(b), EightBits(0));
  }

  lemma FirstPart<T>(p: seq<T>, q: seq<T>, r: seq<T>, s: seq<T>)
    requires p + q == r + s && |r| <= |p| <= |r| + |s|
    ensures p == r + s[..|p| - |r|]
  {
    assert (p + q)[..|p|] == p;
  }

  lemma TwoByteTail(groups: string, a: Byte, b: Byte)
    requires AsciiText(groups)
    ensures var text := groups + Quad(a, b, 0)[..3];
            AsciiText(text) && BitsOfSymbols(text) == BitsOfSymbols(groups) + EightBits(a) + EightBits(b) + Zeros(2)
  {
    hide SixBits, EightBits, SixBitsOf, Symbol, BitsOfSymbols, AsciiText, Sextets, Zeros;
    GroupSymbols(groups, a, b, 0, 3);
    SixBitsOfFour(Sextets(a, b, 0));
    TwoByteSextets(a, b);
  }

  lemma ZeroBits()
    ensures EightBits(0)[..4] == Zeros(4) && EightBits(0)[..2] == Zeros(2)
  {
  }

  // ---- The loops ----

  lemma WholeIs(n: nat, i: nat)
    requires i <= 2 && i <= n && Threes(n - i)
    ensures Whole3(n) == n - i
  {
  }

  lemma GroupFits(n: nat, m: nat)
    requires Threes(n) && n + 3 <= m
    ensures GroupChars(n + 3) == GroupChars(n) + 4 <= TextSize(m)
  {
  }

  // A full carry-over buffer is the next group.
  lemma BytesComplete(input: seq<Byte>, end: nat, buff1: seq<Byte>)
    requires 3 <= end <= |input| && Threes(end - 3) && buff1 == input[end - 3..end]
    ensures Threes(end)
    ensures EncodeGroups(input[..end]) == EncodeGroups(input[..end - 3]) + Quad(buff1[0], buff1[1], buff1[2])
    ensures GroupChars(end) == GroupChars(end - 3) + 4 <= TextSize(|input|)
  {
    GroupFits(end - 3, |input|);
    hide Quad, EncodeGroups;
    assert input[..end] == input[..end - 3] + [buff1[0], buff1[1], buff1[2]];
    EncodeGroupsAppend(input[..end - 3], buff1[0], buff1[1], buff1[2]);
  }

  // The characters of `group` written behind what is there.
  method PutGroup(output: array<char>, at: nat, group: string)
    requires at + |group| <= output.Length
    modifies output
    ensures output[..at + |group|] == old(output[..at]) + group
  {
    forall k | 0 <= k < |group| {
      output[at + k] := group[k];
    }
  }

  /** Writes the text and a terminating NUL; `output` must have room for both. */
  method Base64Encode(input: seq<Byte>, output: array<char>) returns (length: nat)
    requires TextSize(|input|) < output.Length
    modifies output
    ensures length == TextSize(|input|)
    ensures output[..length] == Encode(input) && output[length] == '\0'
  {
    hide Quad, EncodeGroups, Whole3;
    var i, buff1, outputCnt := EncodeWhole(input, output);
    if i > 0 {
      outputCnt := EncodeRest(buff1, i, output, outputCnt);
    }
    Counts(|input|);
    output[outputCnt] := '\0';
    length := outputCnt;
  }

  // The main loop: every third byte completes a group in the carry-over buffer.
  method EncodeWhole(input: seq<Byte>, output: array<char>) returns (i: nat, buff1: seq<Byte>, outputCnt: nat)
    requires TextSize(|input|) < output.Length
    modifies output
    ensures i == |buff1| && buff1 == input[Whole3(|input|)..]
    ensures outputCnt == GroupChars(Whole3(|input|)) && outputCnt + (if i == 0 then 0 else 4) < output.Length
    ensures output[..outputCnt] == EncodeGroups(input[..Whole3(|input|)])
  {
    hide Quad, EncodeGroups, Whole3, Threes, GroupChars, TextSize;
    i, buff1, outputCnt := 0, [], 0;
    var inputCnt := 0;
    GroupMore(0);
    NoGroups();
    NoChars();
    while inputCnt < |input|
      invariant i == |buff1| <= 2 && i <= inputCnt <= |input| && Threes(inputCnt - i)
      invariant buff1 == input[inputCnt - i..inputCnt]
      invariant outputCnt == GroupChars(inputCnt - i) <= TextSize(|input|)
      invariant output[..outputCnt] == EncodeGroups(input[..inputCnt - i])
    {
      buff1 := buff1 + [input[inputCnt]];
      i := i + 1;
      inputCnt := inputCnt + 1;
      if i == 3 {
        BytesComplete(input, inputCnt, buff1);
        var group := Quad(buff1[0], buff1[1], buff1[2]);
        assert |group| == 4 && outputCnt + 4 < output.Length;
        PutGroup(output, outputCnt, group);
        outputCnt := outputCnt + 4;
        i, buff1 := 0, [];
      }
    }
    WholeIs(|input|, i);
    Counts(|input|);
    assert input[|input| - i..|input|] == input[|input| - i..];
  }

  // The one or two bytes left over, filled up with zero bytes.
  method EncodeRest(carry: seq<Byte>, i: nat, output: array<char>, at: nat) returns (outputCnt: nat)
    requires 1 <= i == |carry| <= 2 && at + 4 < output.Length
    modifies output
    ensures outputCnt == at + 4 && output[..outputCnt] == old(output[..at]) + EncodeTail(carry)
  {
    hide Symbol, Sextets;
    var buff1 := carry;
    for j := i to 3
      invariant |buff1| == j && buff1[..i] == carry && forall k | i <= k < j :: buff1[k] == 0
    {
      buff1 := buff1 + [0];
    }
    assert buff1[0] == carry[0] && (i == 2 ==> buff1[1] == carry[1]);
    var buff2 := Sextets(buff1[0], buff1[1], buff1[2]);
    ghost var quad := Quad(buff1[0], buff1[1], buff1[2]);
    outputCnt := at;
    for j := 0 to i + 1
      invariant outputCnt == at + j
      invariant output[..outputCnt] == old(output[..at]) + quad[..j]
    {
      output[outputCnt] := Symbol(buff2[j]);
      outputCnt := outputCnt + 1;
    }
    ghost var text := output[..outputCnt];
    var n := i;
    while n < 3
      invariant i <= n <= 3 && outputCnt == at + 1 + n
      invariant output[..outputCnt] == text + "=="[..n - i]
    {
      output[outputCnt] := '=';
      outputCnt := outputCnt + 1;
      n := n + 1;
    }
  }

  lemma {:induction false} DecodedGroupsLength(s: string)
    requires Fours(|s|) && AsciiText(s)
    ensures |DecodeGroups(s)| == GroupBytes(|s|)
  {
    hide Trio, Ascii;
    if s != "" {
      GroupLess(|s|);
      DecodedGroupsLength(s[..|s| - 4]);
    }
  }

  function GroupBytes(n: nat): nat {
    n / 4 * 3
  }

  /** How many bytes a text decodes to. */
  function DecodedSize(n: nat): nat {
    GroupBytes(Whole4(n)) + if n == Whole4(n) then 0 else n - Whole4(n) - 1
  }

  lemma DecodedLength(s: string)
    requires AsciiText(s)
    ensures |Decode(s)| == DecodedSize(|Unpadded(s)|)
  {
    hide Trio, Ascii, Unpadded, DecodeGroups;
    var u := Unpadded(s);
    DecodedGroupsLength(u[..Whole4(|u|)]);
  }

  lemma FourMoreFit(n: nat, m: nat)
    requires Fours(n) && n + 4 <= m
    ensures GroupBytes(n + 4) == GroupBytes(n) + 3 <= DecodedSize(m)
  {
  }

  lemma Whole4Is(n: nat, i: nat)
    requires i <= 3 && i <= n && Fours(n - i)
    ensures Whole4(n) == n - i
  {
  }

  method PutBytes(output: array<Byte>, at: nat, bytes: seq<Byte>)
    requires at + |bytes| <= output.Length
    modifies output
    ensures output[..at + |bytes|] == old(output[..at]) + bytes
  {
    forall k | 0 <= k < |bytes| {
      output[at + k] := bytes[k];
    }
  }

  /** Reads up to the first padding character; `output` must have room for the bytes. */
  method Base64Decode(input: string, output: array<Byte>) returns (length: nat)
    requires AsciiText(input) && |Decode(input)| <= output.Length
    modifies output
    ensures length == |Decode(input)| && output[..length] == Decode(input)
  {
    hide DecodeGroups, DecodeTail, Unpadded, Whole4, AsciiText;
    ghost var text := Unpadded(input);
    DecodedLength(input);
    var buff2, outputCnt := DecodeWhole(input, output);
    TailLength(buff2);
    PutBytes(output, outputCnt, DecodeTail(buff2));
    length := outputCnt + |DecodeTail(buff2)|;
  }

  lemma TailLength(s: string)
    requires |s| < 4 && AsciiText(s)
    ensures |DecodeTail(s)| == if s == "" then 0 else |s| - 1
  {
  }

  // The loop meets a padding character exactly at the end of the unpadded text.
  lemma UnpaddedAt(s: string, k: nat)
    requires k < |s| && k <= |Unpadded(s)|
    ensures s[k] == '=' <==> k == |Unpadded(s)|
    ensures k < |Unpadded(s)| ==> s[k] == Unpadded(s)[k]
  {
    var u := Unpadded(s);
    assert k < |u| ==> u[k] in u;
  }

  lemma UnpaddedIsAscii(s: string)
    requires AsciiText(s)
    ensures AsciiText(Unpadded(s))
  {
    var u := Unpadded(s);
    AsciiConcat(u, s[|u|..]);
    assert s == u + s[|u|..];
  }

  lemma SymbolsComplete(u: string, end: nat, buff2: string)
    requires 4 <= end <= |u| && Fours(end - 4) && buff2 == u[end - 4..end] && AsciiText(u)
    ensures Fours(end) && AsciiText(buff2) && AsciiText(u[..end - 4]) && AsciiText(u[..end])
    ensures DecodeGroups(u[..end]) == DecodeGroups(u[..end - 4]) + Trio(buff2)
    ensures GroupBytes(end) == GroupBytes(end - 4) + 3 <= DecodedSize(|u|)
  {
    FourMoreFit(end - 4, |u|);
    hide Trio, DecodeGroups, Ascii;
    assert u[..end] == u[..end - 4] + buff2;
    DecodeGroupsAppend(u[..end - 4], buff2);
  }

  // The main loop: every fourth symbol completes a group in the carry-over buffer.
  method DecodeWhole(input: string, output: array<Byte>) returns (buff2: string, outputCnt: nat)
    requires AsciiText(input) && DecodedSize(|Unpadded(input)|) <= output.Length
    modifies output
    ensures var u := Unpadded(input);
            var n := Whole4(|u|);
            && buff2 == u[n..] && AsciiText(buff2) && AsciiText(u[..n])
            && outputCnt == GroupBytes(n) && outputCnt <= output.Length
            && output[..outputCnt] == DecodeGroups(u[..n])
  {
    hide DecodeGroups, Trio, Ascii, Unpadded, Whole4, DecodedSize, Fours, Plain, GroupBytes;
    ghost var u := Unpadded(input);
    var i, inputCnt := 0, 0;
    buff2, outputCnt := "", 0;
    NoGroups();
    GroupMore(0);
    NoChars();
    UnpaddedIsAscii(input);
    while inputCnt < |input|
      invariant i == |buff2| <= 3 && i <= inputCnt <= |u| && Fours(inputCnt - i)
      invariant buff2 == u[inputCnt - i..inputCnt]
      invariant outputCnt == GroupBytes(inputCnt - i) <= output.Length
      invariant output[..outputCnt] == DecodeGroups(u[..inputCnt - i])
    {
      UnpaddedAt(input, inputCnt);
      if input[inputCnt] == '=' {
        break;
      }
      buff2 := buff2 + [input[inputCnt]];
      inputCnt := inputCnt + 1;
      i := i + 1;
      if i == 4 {
        SymbolsComplete(u, inputCnt, buff2);
        var bytes := Trio(buff2);
        assert |bytes| == 3 && outputCnt + 3 <= output.Length;
        PutBytes(output, outputCnt, bytes);
        outputCnt := outputCnt + 3;
        i, buff2 := 0, "";
      }
    }
    assert inputCnt == |u|;
    WholeAndRest(u, i, buff2);
  }

  lemma WholeAndRest(u: string, i: nat, rest: string)
    requires i <= 3 && i <= |u| && Fours(|u| - i) && rest == u[|u| - i..|u|] && AsciiText(u)
    ensures Whole4(|u|) == |u| - i && rest == u[|u| - i..] && AsciiText(rest) && AsciiText(u[..|u| - i])
  {
    hide Ascii, Whole4, Fours;
    Whole4Is(|u|, i);
    AsciiConcat(u[..|u| - i], u[|u| - i..]);
    assert u == u[..|u| - i] + u[|u| - i..];
  }
}
