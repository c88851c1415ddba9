/**
 One package of the stream protocol: a thirteen-byte packed head, the body and a
 two-byte CRC, with every number in host (little-endian) order.
 */
module Package {
  import opened Basics
  import opened Numbers
  import opened Crc
  import opened CrcTable

  const HEAD_SIZE := 13
  const CRC_SIZE := 2
  const TAG: Byte := '$' as Byte

  datatype PkgHead = PkgHead(tag: Byte, version: Byte, cmd: Byte, sn: bv16, deviceNO: bv32, len: bv32)

  datatype Pkg = Pkg(head: PkgHead, body: seq<Byte>, crc: bv16)

  function Bytes16(word: bv16): (bytes: seq<Byte>)
    ensures |bytes| == 2
  {
    [LowByte(word), HighByte(word)]
  }

  function Word16(low: Byte, high: Byte): bv16 {
    Xor(Low(low), High(high))
  }

  function Bytes32(word: bv32): (bytes: seq<Byte>)
    ensures |bytes| == 4
  {
    [(word & 0xFF) as Byte, ((word >> 8) & 0xFF) as Byte, ((word >> 16) & 0xFF) as Byte, (word >> 24) as Byte]
  }

  function Word32(b0: Byte, b1: Byte, b2: Byte, b3: Byte): bv32 {
    (b0 as bv32) | ((b1 as bv32) << 8) | ((b2 as bv32) << 16) | ((b3 as bv32) << 24)
  }

  lemma Word16OfBytes(word: bv16)
    ensures Word16(LowByte(word), HighByte(word)) == word
  {
  }

  lemma Bytes16OfWord(low: Byte, high: Byte)
    ensures Bytes16(Word16(low, high)) == [low, high]
  {
  }

  lemma Word32OfBytes(word: bv32)
    ensures var b := Bytes32(word); Word32(b[0], b[1], b[2], b[3]) == word
  {
  }

  lemma Bytes32OfWord(b0: Byte, b1: Byte, b2: Byte, b3: Byte)
    ensures Bytes32(Word32(b0, b1, b2, b3)) == [b0, b1, b2, b3]
  {
  }

  function HeadBytes(head: PkgHead): (bytes: seq<Byte>)
    ensures |bytes| == HEAD_SIZE
  {
    [head.tag, head.version, head.cmd] + Bytes16(head.sn) + Bytes32(head.deviceNO) + Bytes32(head.len)
  }

  function HeadOf(bytes: seq<Byte>): PkgHead
    requires |bytes| >= HEAD_SIZE
  {
    PkgHead(bytes[0], bytes[1], bytes[2], Word16(bytes[3], bytes[4]),
            Word32(bytes[5], bytes[6], bytes[7], bytes[8]), Word32(bytes[9], bytes[10], bytes[11], bytes[12]))
  }

  lemma HeadRoundTrip(head: PkgHead, rest: seq<Byte>)
    ensures HeadOf(HeadBytes(head) + rest) == head
  {
    Word16OfBytes(head.sn);
    Word32OfBytes(head.deviceNO);
    Word32OfBytes(head.len);
  }

  lemma HeadBytesOfHead(bytes: seq<Byte>)
    requires |bytes| >= HEAD_SIZE
    ensures HeadBytes(HeadOf(bytes)) == bytes[..HEAD_SIZE]
  {
    Bytes16OfWord(bytes[3], bytes[4]);
    Bytes32OfWord(bytes[5], bytes[6], bytes[7], bytes[8]);
    Bytes32OfWord(bytes[9], bytes[10], bytes[11], bytes[12]);
  }

  /** The announced size of the whole package, as a number. */
  function Size(head: PkgHead): nat {
    Number32(head.len)
  }

  lemma HeadOfPrefix(bytes: seq<Byte>)
    requires |bytes| >= HEAD_SIZE
    ensures HeadOf(bytes[..HEAD_SIZE]) == HeadOf(bytes)
  {
  }

  function LengthField(bytes: seq<Byte>): nat
    requires |bytes| >= HEAD_SIZE
  {
    Size(HeadOf(bytes))
  }

  lemma WordsOnTheWire(b0: Byte, b1: Byte, b2: Byte, b3: Byte)
    ensures Number16(Word16(b0, b1)) == LittleEndian([b0, b1])
    ensures Number32(Word32(b0, b1, b2, b3)) == LittleEndian([b0, b1, b2, b3])
  {
    WordValue(b1, b0, b1, b0);
    WordValue(b3, b2, b1, b0);
    assert Word16(b0, b1) == Join16(b1, b0);
    assert Word32(b0, b1, b2, b3) == Join32(Join16(b3, b2), Join16(b1, b0));
    hide Word16, Word32, Number16, Number32, LittleEndian, Join16, Join32;
  }

  /** Where the fields of a head stand, and that its numbers have their lowest byte first. */
  lemma HeadOnTheWire(bytes: seq<Byte>)
    requires |bytes| >= HEAD_SIZE
    ensures var head := HeadOf(bytes);
            && head.tag == bytes[0] && head.version == bytes[1] && head.cmd == bytes[2]
            && Number16(head.sn) == LittleEndian(bytes[3..5])
            && Number32(head.deviceNO) == LittleEndian(bytes[5..9])
            && Number32(head.len) == LittleEndian(bytes[9..HEAD_SIZE])
  {
    hide Word16, Word32, Number16, Number32, LittleEndian;
    WordsOnTheWire(bytes[3], bytes[4], 0, 0);
    WordsOnTheWire(bytes[5], bytes[6], bytes[7], bytes[8]);
    WordsOnTheWire(bytes[9], bytes[10], bytes[11], bytes[12]);
    assert bytes[3..5] == [bytes[3], bytes[4]];
    assert bytes[5..9] == [bytes[5], bytes[6], bytes[7], bytes[8]];
    assert bytes[9..HEAD_SIZE] == [bytes[9], bytes[10], bytes[11], bytes[12]];
  }

  /** What Pack writes: head, body and the CRC of both. */
  function Encode(pkg: Pkg): seq<Byte> {
    var content := HeadBytes(pkg.head) + pkg.body;
    content + Bytes16(Ccitt(content))
  }

  /** The package with the checksum that Pack stores in it. */
  function Checked(pkg: Pkg): Pkg {
    pkg.(crc := Ccitt(HeadBytes(pkg.head) + pkg.body))
  }

  /** The package that a complete frame holds. */
  function Decode(frame: seq<Byte>): Pkg
    requires |frame| >= HEAD_SIZE + CRC_SIZE
  {
    var end := |frame| - CRC_SIZE;
    Pkg(HeadOf(frame), frame[HEAD_SIZE..end], Word16(frame[end], frame[end + 1]))
  }

  /** The frame carries the CRC of its own content. */
  predicate Intact(frame: seq<Byte>)
    requires |frame| >= HEAD_SIZE + CRC_SIZE
  {
    Decode(frame).crc == Ccitt(frame[..|frame| - CRC_SIZE])
  }

  // Pack accepts a package whose head announces its exact size.
  predicate Announced(pkg: Pkg) {
    Size(pkg.head) == HEAD_SIZE + |pkg.body| + CRC_SIZE
  }

  /** The four length bytes of a package spell its size exactly when Pack accepts it, its body
      stands behind the head, and its last two bytes spell the CRC of all before. */
  lemma PackedOnTheWire(pkg: Pkg)
    ensures var bytes := Encode(pkg);
            var end := |bytes| - CRC_SIZE;
            && |bytes| == HEAD_SIZE + |pkg.body| + CRC_SIZE
            && HeadOf(bytes) == pkg.head && bytes[HEAD_SIZE..end] == pkg.body
            && LittleEndian(bytes[end..]) == Number16(Ccitt(bytes[..end]))
            && (Announced(pkg) <==> LittleEndian(bytes[9..HEAD_SIZE]) == |bytes|)
  {
    hide Ccitt, HeadBytes, HeadOf, LittleEndian, Number16, Number32, Word16;
    var content := HeadBytes(pkg.head) + pkg.body;
    var crc := Ccitt(content);
    var bytes := Encode(pkg);
    assert bytes == HeadBytes(pkg.head) + (pkg.body + Bytes16(crc));
    HeadRoundTrip(pkg.head, pkg.body + Bytes16(crc));
    HeadOnTheWire(bytes);
    WordsOnTheWire(LowByte(crc), HighByte(crc), 0, 0);
    Word16OfBytes(crc);
    assert bytes[..|content|] == content && bytes[|content|..] == [LowByte(crc), HighByte(crc)];
  }

  // The bytes of `data` copied behind what is there.
  method CopyTo(out: array<Byte>, at: nat, data: seq<Byte>)
    requires at + |data| <= out.Length
    modifies out
    ensures out[..at + |data|] == old(out[..at]) + data
    ensures out[at + |data|..] == old(out[at + |data|..])
  {
    forall k | 0 <= k < |data| {
      out[at + k] := data[k];
    }
  }

  /** A buffer too small is refused untouched; a wrong length field is refused after writing. */
  method Pack(pkg: Pkg, out: array<Byte>, len: nat) returns (written: nat, packed: Pkg)
    requires len <= out.Length && len < 0x1_0000_0000
    modifies out
    ensures len < HEAD_SIZE + CRC_SIZE + |pkg.body| ==> written == 0 && packed == pkg && out[..] == old(out[..])
    ensures len >= HEAD_SIZE + CRC_SIZE + |pkg.body| ==>
              && packed == Checked(pkg)
              && out[..] == Encode(pkg) + old(out[..])[|Encode(pkg)|..]
              && written == if LittleEndian(out[9..HEAD_SIZE]) == |Encode(pkg)| then |Encode(pkg)| else 0
  {
    hide Ccitt, Size, HeadBytes, Bytes16, LittleEndian, HeadOf;
    PackedOnTheWire(pkg);
    if len < HEAD_SIZE + CRC_SIZE + |pkg.body| {
      return 0, pkg;
    }
    ghost var was := out[..];
    var index := 0;
    CopyTo(out, index, HeadBytes(pkg.head));
    index := index + HEAD_SIZE;
    assert out[index..] == was[index..];
    ghost var rest := out[index..];
    CopyTo(out, index, pkg.body);
    index := index + |pkg.body|;
    assert out[index..] == rest[|pkg.body|..] == was[index..];
    rest := out[index..];
    assert out[..index] == HeadBytes(pkg.head) + pkg.body;
    var crc := Crc16TabCCITT(out[..index]);
    packed := pkg.(crc := crc);
    CopyTo(out, index, Bytes16(crc));
    index := index + CRC_SIZE;
    assert out[..index] == Encode(pkg);
    assert out[index..] == rest[CRC_SIZE..] == was[index..];
    assert out[9..HEAD_SIZE] == out[..index][9..HEAD_SIZE];
    written := if index != Size(pkg.head) then 0 else index;
  }

  /** What Unpack makes of `data`: `Throws` is the length_error that a length field below 15
      raises, because the size of the body wraps around to an enormous one. */
  datatype Unpacked = Unpacked(pkg: Pkg) | Refused | Throws

  function UnpackSpec(data: seq<Byte>): Unpacked {
    if |data| < HEAD_SIZE || |data| < LengthField(data) then Refused
    else if LengthField(data) < HEAD_SIZE + CRC_SIZE then Throws
    else if LengthField(data) != |data| then Refused
    else Unpacked(Decode(data))
  }

  /** Unpacking succeeds exactly on a buffer whose length bytes spell its own size. */
  lemma UnpackedIff(data: seq<Byte>)
    ensures UnpackSpec(data).Unpacked? <==>
              |data| >= HEAD_SIZE + CRC_SIZE && LittleEndian(data[9..HEAD_SIZE]) == |data|
    ensures UnpackSpec(data).Throws? <==>
              |data| >= HEAD_SIZE && LittleEndian(data[9..HEAD_SIZE]) < HEAD_SIZE + CRC_SIZE
              && LittleEndian(data[9..HEAD_SIZE]) <= |data|
  {
    hide HeadOf, LittleEndian, Number16, Number32;
    if |data| >= HEAD_SIZE {
      HeadOnTheWire(data);
    }
  }

  method Unpack(data: array<Byte>, len: nat) returns (r: Unpacked)
    requires len <= data.Length
    ensures r == UnpackSpec(data[..len])
    ensures r.Unpacked? <==> len >= HEAD_SIZE + CRC_SIZE && LittleEndian(data[9..HEAD_SIZE]) == len
  {
    hide HeadOf, Size, Word16, LittleEndian;
    ghost var view := data[..len];
    UnpackedIff(view);
    assert len >= HEAD_SIZE ==> view[9..HEAD_SIZE] == data[9..HEAD_SIZE];
    var index := 0;
    if len < HEAD_SIZE {
      return Refused;
    }
    var head := HeadOf(data[index..index + HEAD_SIZE]);
    HeadOfPrefix(view);
    assert data[index..index + HEAD_SIZE] == view[..HEAD_SIZE];
    index := index + HEAD_SIZE;
    if len < Size(head) {
      return Refused;
    }
    if Size(head) < HEAD_SIZE + CRC_SIZE {
      return Throws;
    }
    var bodySize := Size(head) - HEAD_SIZE - CRC_SIZE;
    var body := data[index..index + bodySize];
    assert body == view[index..index + bodySize];
    index := index + bodySize;
    var crc := Word16(data[index], data[index + 1]);
    assert data[index] == view[index] && data[index + 1] == view[index + 1];
    index := index + CRC_SIZE;
    if index != len {
      return Refused;
    }
    r := Unpacked(Pkg(head, body, crc));
  }

  /** Unpacking what was packed gives the package back. */
  lemma UnpackOfPack(pkg: Pkg)
    requires Announced(pkg)
    ensures UnpackSpec(Encode(pkg)) == Unpacked(Checked(pkg))
    ensures Intact(Encode(pkg))
  {
    hide Ccitt, Size, HeadOf, HeadBytes;
    var content := HeadBytes(pkg.head) + pkg.body;
    HeadRoundTrip(pkg.head, pkg.body + Bytes16(Ccitt(content)));
    assert Encode(pkg) == HeadBytes(pkg.head) + (pkg.body + Bytes16(Ccitt(content)));
    Word16OfBytes(Ccitt(content));
    assert Encode(pkg)[..|Encode(pkg)| - CRC_SIZE] == content;
    assert Encode(pkg)[HEAD_SIZE..|Encode(pkg)| - CRC_SIZE] == pkg.body;
  }

  /** Packing what was unpacked gives the frame back, exactly when its CRC is right. */
  lemma PackOfUnpack(frame: seq<Byte>)
    requires UnpackSpec(frame).Unpacked?
    ensures Announced(Decode(frame))
    ensures Encode(Decode(frame)) == frame <==> Intact(frame)
  {
    hide Ccitt, Size, HeadOf, HeadBytes, Word16;
    var end := |frame| - CRC_SIZE;
    var pkg := Decode(frame);
    HeadBytesOfHead(frame);
    assert HeadBytes(pkg.head) + pkg.body == frame[..end];
    Bytes16OfWord(frame[end], frame[end + 1]);
    assert frame == frame[..end] + [frame[end], frame[end + 1]];
    if Encode(pkg) == frame {
      Word16OfBytes(Ccitt(frame[..end]));
      assert Encode(pkg)[end..] == Bytes16(Ccitt(frame[..end]));
    }
  }

  /** A frame is intact exactly when the CRC over all of it is zero. */
  lemma IntactIsZeroResidue(frame: seq<Byte>)
    requires |frame| >= HEAD_SIZE + CRC_SIZE
    ensures Intact(frame) <==> Ccitt(frame) == 0
  {
    var end := |frame| - CRC_SIZE;
    var word := Word16(frame[end], frame[end + 1]);
    Bytes16OfWord(frame[end], frame[end + 1]);
    ResidueReflected(frame[..end], word, 0x1021);
    assert frame == frame[..end] + [LowByte(word), HighByte(word)];
  }

  /** No error burst of up to sixteen bits, CRC included, leaves a frame intact. */
  lemma BurstBreaksFrame(frame: seq<Byte>, received: seq<Byte>, at: nat)
    requires |frame| == |received| >= HEAD_SIZE + CRC_SIZE
    requires Intact(frame)
    requires DifferInBurst(MessageBits(frame, 1), MessageBits(received, 1), at)
    ensures !Intact(received)
  {
    IntactIsZeroResidue(frame);
    IntactIsZeroResidue(received);
    BurstDetected(frame, received, at, 0x1021, 0, 0, 1);
  }
}
