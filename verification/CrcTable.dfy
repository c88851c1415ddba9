/**
 The lookup table of common/CRC.cpp and the proof, entry by entry, that it holds eight
 reflected shift/xor steps of the byte used as index.
 */
module CrcTable {
  import opened Basics
  import opened Crc

  // The reflected form of polynomial 0x1021, the value Crc16Cal computes by its swaps.
  const CCITT_REFLECTED: bv16 := 0x8408

  // CrcTab_Crc16Poly0x1021Ref1, kept as the sixteen rows in which it is written.
  const TABLE: seq<seq<bv16>> := [
    [0x0000, 0x1189, 0x2312, 0x329B, 0x4624, 0x57AD, 0x6536, 0x74BF,
     0x8C48, 0x9DC1, 0xAF5A, 0xBED3, 0xCA6C, 0xDBE5, 0xE97E, 0xF8F7],
    [0x1081, 0x0108, 0x3393, 0x221A, 0x56A5, 0x472C, 0x75B7, 0x643E,
     0x9CC9, 0x8D40, 0xBFDB, 0xAE52, 0xDAED, 0xCB64, 0xF9FF, 0xE876],
    [0x2102, 0x308B, 0x0210, 0x1399, 0x6726, 0x76AF, 0x4434, 0x55BD,
     0xAD4A, 0xBCC3, 0x8E58, 0x9FD1, 0xEB6E, 0xFAE7, 0xC87C, 0xD9F5],
    [0x3183, 0x200A, 0x1291, 0x0318, 0x77A7, 0x662E, 0x54B5, 0x453C,
     0xBDCB, 0xAC42, 0x9ED9, 0x8F50, 0xFBEF, 0xEA66, 0xD8FD, 0xC974],
    [0x4204, 0x538D, 0x6116, 0x709F, 0x0420, 0x15A9, 0x2732, 0x36BB,
     0xCE4C, 0xDFC5, 0xED5E, 0xFCD7, 0x8868, 0x99E1, 0xAB7A, 0xBAF3],
    [0x5285, 0x430C, 0x7197, 0x601E, 0x14A1, 0x0528, 0x37B3, 0x263A,
     0xDECD, 0xCF44, 0xFDDF, 0xEC56, 0x98E9, 0x8960, 0xBBFB, 0xAA72],
    [0x6306, 0x728F, 0x4014, 0x519D, 0x2522, 0x34AB, 0x0630, 0x17B9,
     0xEF4E, 0xFEC7, 0xCC5C, 0xDDD5, 0xA96A, 0xB8E3, 0x8A78, 0x9BF1],
    [0x7387, 0x620E, 0x5095, 0x411C, 0x35A3, 0x242A, 0x16B1, 0x0738,
     0xFFCF, 0xEE46, 0xDCDD, 0xCD54, 0xB9EB, 0xA862, 0x9AF9, 0x8B70],
    [0x8408, 0x9581, 0xA71A, 0xB693, 0xC22C, 0xD3A5, 0xE13E, 0xF0B7,
     0x0840, 0x19C9, 0x2B52, 0x3ADB, 0x4E64, 0x5FED, 0x6D76, 0x7CFF],
    [0x9489, 0x8500, 0xB79B, 0xA612, 0xD2AD, 0xC324, 0xF1BF, 0xE036,
     0x18C1, 0x0948, 0x3BD3, 0x2A5A, 0x5EE5, 0x4F6C, 0x7DF7, 0x6C7E],
    [0xA50A, 0xB483, 0x8618, 0x9791, 0xE32E, 0xF2A7, 0xC03C, 0xD1B5,
     0x2942, 0x38CB, 0x0A50, 0x1BD9, 0x6F66, 0x7EEF, 0x4C74, 0x5DFD],
    [0xB58B, 0xA402, 0x9699, 0x8710, 0xF3AF, 0xE226, 0xD0BD, 0xC134,
     0x39C3, 0x284A, 0x1AD1, 0x0B58, 0x7FE7, 0x6E6E, 0x5CF5, 0x4D7C],
    [0xC60C, 0xD785, 0xE51E, 0xF497, 0x8028, 0x91A1, 0xA33A, 0xB2B3,
     0x4A44, 0x5BCD, 0x6956, 0x78DF, 0x0C60, 0x1DE9, 0x2F72, 0x3EFB],
    [0xD68D, 0xC704, 0xF59F, 0xE416, 0x90A9, 0x8120, 0xB3BB, 0xA232,
     0x5AC5, 0x4B4C, 0x79D7, 0x685E, 0x1CE1, 0x0D68, 0x3FF3, 0x2E7A],
    [0xE70E, 0xF687, 0xC41C, 0xD595, 0xA12A, 0xB0A3, 0x8238, 0x93B1,
     0x6B46, 0x7ACF, 0x4854, 0x59DD, 0x2D62, 0x3CEB, 0x0E70, 0x1FF9],
    [0xF78F, 0xE606, 0xD49D, 0xC514, 0xB1AB, 0xA022, 0x92B9, 0x8330,
     0x7BC7, 0x6A4E, 0x58D5, 0x495C, 0x3DE3, 0x2C6A, 0x1EF1, 0x0F78]
  ]

  function Entry(index: Byte): bv16 {
    TABLE[(index >> 4) as int][(index & 15) as int]
  }

  function EightSteps(crc: bv16): bv16 {
    var p := CCITT_REFLECTED;
    var crc4 := StepRight(StepRight(StepRight(StepRight(crc, p), p), p), p);
    StepRight(StepRight(StepRight(StepRight(crc4, p), p), p), p)
  }

  lemma Row0(b: Byte)
    requires b >> 4 == 0
    ensures Entry(b) == EightSteps(b as bv16)
  {
    if b & 15 < 8 {
      if b == 0 {} else if b == 1 {} else if b == 2 {} else if b == 3 {}
      else if b == 4 {} else if b == 5 {} else if b == 6 {} else if b == 7 {}
    } else {
      if b == 8 {} else if b == 9 {} else if b == 10 {} else if b == 11 {}
      else if b == 12 {} else if b == 13 {} else if b == 14 {} else if b == 15 {}
    }
  }

  lemma Row1(b: Byte)
    requires b >> 4 == 1
    ensures Entry(b) == EightSteps(b as bv16)
  {
    if b & 15 < 8 {
      if b == 16 {} else if b == 17 {} else if b == 18 {} else if b == 19 {}
      else if b == 20 {} else if b == 21 {} else if b == 22 {} else if b == 23 {}
    } else {
      if b == 24 {} else if b == 25 {} else if b == 26 {} else if b == 27 {}
      else if b == 28 {} else if b == 29 {} else if b == 30 {} else if b == 31 {}
    }
  }

  lemma Row2(b: Byte)
    requires b >> 4 == 2
    ensures Entry(b) == EightSteps(b as bv16)
  {
    if b & 15 < 8 {
      if b == 32 {} else if b == 33 {} else if b == 34 {} else if b == 35 {}
      else if b == 36 {} else if b == 37 {} else if b == 38 {} else if b == 39 {}
    } else {
      if b == 40 {} else if b == 41 {} else if b == 42 {} else if b == 43 {}
      else if b == 44 {} else if b == 45 {} else if b == 46 {} else if b == 47 {}
    }
  }

  lemma Row3(b: Byte)
    requires b >> 4 == 3
    ensures Entry(b) == EightSteps(b as bv16)
  {
    if b & 15 < 8 {
      if b == 48 {} else if b == 49 {} else if b == 50 {} else if b == 51 {}
      else if b == 52 {} else if b == 53 {} else if b == 54 {} else if b == 55 {}
    } else {
      if b == 56 {} else if b == 57 {} else if b == 58 {} else if b == 59 {}
      else if b == 60 {} else if b == 61 {} else if b == 62 {} else if b == 63 {}
    }
  }

  lemma Row4(b: Byte)
    requires b >> 4 == 4
    ensures Entry(b) == EightSteps(b as bv16)
  {
    if b & 15 < 8 {
      if b == 64 {} else if b == 65 {} else if b == 66 {} else if b == 67 {}
      else if b == 68 {} else if b == 69 {} else if b == 70 {} else if b == 71 {}
    } else {
      if b == 72 {} else if b == 73 {} else if b == 74 {} else if b == 75 {}
      else if b == 76 {} else if b == 77 {} else if b == 78 {} else if b == 79 {}
    }
  }

  lemma Row5(b: Byte)
    requires b >> 4 == 5
    ensures Entry(b) == EightSteps(b as bv16)
  {
    if b & 15 < 8 {
      if b == 80 {} else if b == 81 {} else if b == 82 {} else if b == 83 {}
      else if b == 84 {} else if b == 85 {} else if b == 86 {} else if b == 87 {}
    } else {
      if b == 88 {} else if b == 89 {} else if b == 90 {} else if b == 91 {}
      else if b == 92 {} else if b == 93 {} else if b == 94 {} else if b == 95 {}
    }
  }

  lemma Row6(b: Byte)
    requires b >> 4 == 6
    ensures Entry(b) == EightSteps(b as bv16)
  {
    if b & 15 < 8 {
      if b == 96 {} else if b == 97 {} else if b == 98 {} else if b == 99 {}
      else if b == 100 {} else if b == 101 {} else if b == 102 {} else if b == 103 {}
    } else {
      if b == 104 {} else if b == 105 {} else if b == 106 {} else if b == 107 {}
      else if b == 108 {} else if b == 109 {} else if b == 110 {} else if b == 111 {}
    }
  }

  lemma Row7(b: Byte)
    requires b >> 4 == 7
    ensures Entry(b) == EightSteps(b as bv16)
  {
    if b & 15 < 8 {
      if b == 112 {} else if b == 113 {} else if b == 114 {} else if b == 115 {}
      else if b == 116 {} else if b == 117 {} else if b == 118 {} else if b == 119 {}
    } else {
      if b == 120 {} else if b == 121 {} else if b == 122 {} else if b == 123 {}
      else if b == 124 {} else if b == 125 {} else if b == 126 {} else if b == 127 {}
    }
  }

  lemma Row8(b: Byte)
    requires b >> 4 == 8
    ensures Entry(b) == EightSteps(b as bv16)
  {
    if b & 15 < 8 {
      if b == 128 {} else if b == 129 {} else if b == 130 {} else if b == 131 {}
      else if b == 132 {} else if b == 133 {} else if b == 134 {} else if b == 135 {}
    } else {
      if b == 136 {} else if b == 137 {} else if b == 138 {} else if b == 139 {}
      else if b == 140 {} else if b == 141 {} else if b == 142 {} else if b == 143 {}
    }
  }

  lemma Row9(b: Byte)
    requires b >> 4 == 9
    ensures Entry(b) == EightSteps(b as bv16)
  {
    if b & 15 < 8 {
      if b == 144 {} else if b == 145 {} else if b == 146 {} else if b == 147 {}
      else if b == 148 {} else if b == 149 {} else if b == 150 {} else if b == 151 {}
    } else {
      if b == 152 {} else if b == 153 {} else if b == 154 {} else if b == 155 {}
      else if b == 156 {} else if b == 157 {} else if b == 158 {} else if b == 159 {}
    }
  }

  lemma Row10(b: Byte)
    requires b >> 4 == 10
    ensures Entry(b) == EightSteps(b as bv16)
  {
    if b & 15 < 8 {
      if b == 160 {} else if b == 161 {} else if b == 162 {} else if b == 163 {}
      else if b == 164 {} else if b == 165 {} else if b == 166 {} else if b == 167 {}
    } else {
      if b == 168 {} else if b == 169 {} else if b == 170 {} else if b == 171 {}
      else if b == 172 {} else if b == 173 {} else if b == 174 {} else if b == 175 {}
    }
  }

  lemma Row11(b: Byte)
    requires b >> 4 == 11
    ensures Entry(b) == EightSteps(b as bv16)
  {
    if b & 15 < 8 {
      if b == 176 {} else if b == 177 {} else if b == 178 {} else if b == 179 {}
      else if b == 180 {} else if b == 181 {} else if b == 182 {} else if b == 183 {}
    } else {
      if b == 184 {} else if b == 185 {} else if b == 186 {} else if b == 187 {}
      else if b == 188 {} else if b == 189 {} else if b == 190 {} else if b == 191 {}
    }
  }

  lemma Row12(b: Byte)
    requires b >> 4 == 12
    ensures Entry(b) == EightSteps(b as bv16)
  {
    if b & 15 < 8 {
      if b == 192 {} else if b == 193 {} else if b == 194 {} else if b == 195 {}
      else if b == 196 {} else if b == 197 {} else if b == 198 {} else if b == 199 {}
    } else {
      if b == 200 {} else if b == 201 {} else if b == 202 {} else if b == 203 {}
      else if b == 204 {} else if b == 205 {} else if b == 206 {} else if b == 207 {}
    }
  }

  lemma Row13(b: Byte)
    requires b >> 4 == 13
    ensures Entry(b) == EightSteps(b as bv16)
  {
    if b & 15 < 8 {
      if b == 208 {} else if b == 209 {} else if b == 210 {} else if b == 211 {}
      else if b == 212 {} else if b == 213 {} else if b == 214 {} else if b == 215 {}
    } else {
      if b == 216 {} else if b == 217 {} else if b == 218 {} else if b == 219 {}
      else if b == 220 {} else if b == 221 {} else if b == 222 {} else if b == 223 {}
    }
  }

  lemma Row14(b: Byte)
    requires b >> 4 == 14
    ensures Entry(b) == EightSteps(b as bv16)
  {
    if b & 15 < 8 {
      if b == 224 {} else if b == 225 {} else if b == 226 {} else if b == 227 {}
      else if b == 228 {} else if b == 229 {} else if b == 230 {} else if b == 231 {}
    } else {
      if b == 232 {} else if b == 233 {} else if b == 234 {} else if b == 235 {}
      else if b == 236 {} else if b == 237 {} else if b == 238 {} else if b == 239 {}
    }
  }

  lemma Row15(b: Byte)
    requires b >> 4 == 15
    ensures Entry(b) == EightSteps(b as bv16)
  {
    if b & 15 < 8 {
      if b == 240 {} else if b == 241 {} else if b == 242 {} else if b == 243 {}
      else if b == 244 {} else if b == 245 {} else if b == 246 {} else if b == 247 {}
    } else {
      if b == 248 {} else if b == 249 {} else if b == 250 {} else if b == 251 {}
      else if b == 252 {} else if b == 253 {} else if b == 254 {} else if b == 255 {}
    }
  }

  // Every one of the 256 entries is right.
  lemma EntryIsEightSteps(b: Byte)
    ensures Entry(b) == EightSteps(b as bv16)
  {
    var row := b >> 4;
    if row == 0 {
      Row0(b);
    } else if row == 1 {
      Row1(b);
    } else if row == 2 {
      Row2(b);
    } else if row == 3 {
      Row3(b);
    } else if row == 4 {
      Row4(b);
    } else if row == 5 {
      Row5(b);
    } else if row == 6 {
      Row6(b);
    } else if row == 7 {
      Row7(b);
    } else if row == 8 {
      Row8(b);
    } else if row == 9 {
      Row9(b);
    } else if row == 10 {
      Row10(b);
    } else if row == 11 {
      Row11(b);
    } else if row == 12 {
      Row12(b);
    } else if row == 13 {
      Row13(b);
    } else if row == 14 {
      Row14(b);
    } else {
      Row15(b);
    }
  }

  /** One round of the table loop is the eight steps of one byte. */
  lemma TableRound(crc: bv16, b: Byte)
    ensures Xor(crc >> 8, Entry(LowByte(crc) ^ b)) == StepsRight(8, Xor(crc, Low(b)), CCITT_REFLECTED)
  {
    var p := CCITT_REFLECTED;
    var index, high := LowByte(crc) ^ b, HighByte(crc);
    SplitRound(crc, b);
    StepsLinear(8, Low(index), High(high), p);
    HighByteFalls(high, p);
    EntryIsEightSteps(index);
    EightStepsUnrolled(Low(index));
    XorCommutes(Entry(index), Low(high));
  }

  lemma SplitRound(crc: bv16, b: Byte)
    ensures Xor(crc, Low(b)) == Xor(Low(LowByte(crc) ^ b), High(HighByte(crc)))
    ensures crc >> 8 == Low(HighByte(crc))
  {
  }

  lemma EightStepsUnrolled(crc: bv16)
    ensures EightSteps(crc) == StepsRight(8, crc, CCITT_REFLECTED)
  {
    var p := CCITT_REFLECTED;
    var one := StepRight(crc, p);
    var two := StepRight(one, p);
    var three := StepRight(two, p);
    var four := StepRight(three, p);
    var five := StepRight(four, p);
    var six := StepRight(five, p);
    var seven := StepRight(six, p);
    assert StepsRight(8, crc, p) == StepsRight(7, one, p) == StepsRight(6, two, p);
    assert StepsRight(6, two, p) == StepsRight(5, three, p) == StepsRight(4, four, p);
    assert StepsRight(4, four, p) == StepsRight(3, five, p) == StepsRight(2, six, p);
    assert StepsRight(2, six, p) == StepsRight(1, seven, p);
    assert StepsRight(1, seven, p) == StepRight(seven, p);
    assert EightSteps(crc) == StepRight(seven, p);
  }

  /** The table-driven loop computes the bitwise reflected CRC with polynomial 0x1021. */
  method Crc16TabCCITT(data: seq<Byte>) returns (crc: bv16)
    ensures crc == Ccitt(data)
  {
    crc := 0x0000;
    for i := 0 to |data|
      invariant FoldRight(data[i..], crc, CCITT_REFLECTED) == FoldRight(data, 0, CCITT_REFLECTED)
    {
      TableRound(crc, data[i]);
      crc := Xor(crc >> 8, Entry(LowByte(crc) ^ data[i]));
      assert data[i..][1..] == data[i + 1..];
    }
    assert Reverse16(0x1021) == CCITT_REFLECTED;
    XorSelf(crc, 0);
  }

  // What the framing code calls the CRC of a package.
  function Ccitt(data: seq<Byte>): bv16 {
    Crc16(data, 0x1021, 0x0000, 0x0000, 1)
  }
}
