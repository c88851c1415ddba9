/**
 The frame of GB/T 20999-2017 as signalControlCom.cpp writes and reads it: big-endian
 numbers, a list of variable-length items, a length and a CRC over everything between the
 first and the last byte.
 */
module SignalFrame {
  import opened Basics
  import opened Numbers
  import opened Crc

  const HEAD_SIZE := 14
  const TAIL_SIZE := 3
  const MIN_SIZE := 17
  const MAX_ITEM_DATA := 249

  datatype DataItem = DataItem(
    index: Byte, length: Byte, typeID: Byte, objID: Byte, attrID: Byte, elementID: Byte, data: seq<Byte>)

  datatype Frame = Frame(
    begin: Byte, length: bv16, version: bv16, controlCenterID: Byte, controllerID: bv32,
    roadID: Byte, sequence: Byte, kind: Byte, dataItemNum: Byte,
    dataItems: seq<DataItem>, crc16: bv16, end: Byte)

  // ---- Numbers on the wire ----

  /** A count stored in eight bits. */
  function Byte8(n: nat): Byte {
    (n % 256) as Byte
  }

  function Word(n: nat): bv16 {
    (n % 65536) as bv16
  }

  function Big16(word: bv16): (bytes: seq<Byte>)
    ensures |bytes| == 2
  {
    [HighByte(word), LowByte(word)]
  }

  function FromBig16(high: Byte, low: Byte): bv16 {
    High(high) + Low(low)
  }

  function Big32(word: bv32): (bytes: seq<Byte>)
    ensures |bytes| == 4
  {
    [(word >> 24) as Byte, ((word >> 16) & 0xFF) as Byte, ((word >> 8) & 0xFF) as Byte, (word & 0xFF) as Byte]
  }

  function FromBig32(b0: Byte, b1: Byte, b2: Byte, b3: Byte): bv32 {
    ((b0 as bv32) << 24) + ((b1 as bv32) << 16) + ((b2 as bv32) << 8) + (b3 as bv32)
  }

  lemma Byte8RoundTrip(n: nat)
    ensures Number8(Byte8(n)) == n % 256
  {
    NumberOfByte(n % 256);
  }

  lemma NumberOfByte(m: nat)
    requires m < 256
    ensures Number8(m as Byte) == m
  {
  }

  lemma Big16RoundTrip(word: bv16)
    ensures FromBig16(HighByte(word), LowByte(word)) == word
  {
  }

  lemma Big16OfBytes(high: Byte, low: Byte)
    ensures Big16(FromBig16(high, low)) == [high, low]
  {
  }

  lemma Big32RoundTrip(word: bv32)
    ensures var b := Big32(word); FromBig32(b[0], b[1], b[2], b[3]) == word
  {
  }

  lemma WordOfNumber(word: bv16)
    ensures Word(Number16(word)) == word
  {
    assert (word as int) as bv16 == word;
  }

  /** Numbers on the wire have their highest byte first. */
  lemma BigOnTheWire(a: Byte, b: Byte, c: Byte, d: Byte)
    ensures Number16(FromBig16(a, b)) == BigEndian([a, b]) == 256 * Number8(a) + Number8(b)
    ensures Number32(FromBig32(a, b, c, d)) == BigEndian([a, b, c, d])
  {
    WordValue(a, b, c, d);
    TwoDigits(a, b);
    assert FromBig16(a, b) == Join16(a, b);
    assert FromBig32(a, b, c, d) == Join32(Join16(a, b), Join16(c, d));
    hide FromBig16, FromBig32, Number8, Number16, Number32, BigEndian, LittleEndian, Join16, Join32;
  }

  lemma NumberOfWord(n: nat)
    ensures Number16(Word(n)) == n % 65536
  {
    hide FromBig16, FromBig32, Number8, Number16, Number32, BigEndian, Word, Byte8;
    var m := n % 65536;
    var high, low := Byte8(m / 256), Byte8(m);
    Byte8RoundTrip(m / 256);
    Byte8RoundTrip(m);
    BigOnTheWire(high, low, low, low);
    WordOfNumber(FromBig16(high, low));
    WordOfRemainder(n);
  }

  lemma WordOfRemainder(n: nat)
    ensures Word(n % 65536) == Word(n)
  {
    assert n % 65536 % 65536 == n % 65536;
  }

  // ---- Writing ----

  /** DataItem.setToBytes: an item whose length byte is 0 is only two bytes. */
  function ItemBytes(item: DataItem): seq<Byte> {
    if item.length == 0 then [item.index, item.length]
    else [item.index, item.length, item.typeID, item.objID, item.attrID, item.elementID] + item.data
  }

  /** The item with the length byte that the frame encoder gives its copy. */
  function Normal(item: DataItem): DataItem {
    item.(length := Byte8(4 + |item.data|))
  }

  function NormalAll(items: seq<DataItem>): (r: seq<DataItem>)
    ensures |r| == |items| && forall k | 0 <= k < |r| :: r[k] == Normal(items[k])
  {
    seq(|items|, k requires 0 <= k < |items| => Normal(items[k]))
  }

  function ItemsBytes(items: seq<DataItem>): seq<Byte> {
    if items == [] then [] else ItemBytes(Normal(items[0])) + ItemsBytes(items[1..])
  }

  function HeadBytes(f: Frame): (bytes: seq<Byte>)
    ensures |bytes| == HEAD_SIZE
  {
    [f.begin] + Big16(f.length) + Inner(f)
  }

  // The head behind the length field.
  function Inner(f: Frame): (bytes: seq<Byte>)
    ensures |bytes| == HEAD_SIZE - 3
  {
    Big16(f.version) + [f.controlCenterID] + Big32(f.controllerID) + [f.roadID, f.sequence, f.kind, f.dataItemNum]
  }

  /** FrameAll.setToBytes. */
  function FrameBytes(f: Frame): (bytes: seq<Byte>)
    ensures |bytes| >= MIN_SIZE
  {
    HeadBytes(f) + ItemsBytes(f.dataItems) + Big16(f.crc16) + [f.end]
  }

  function Checksum(data: seq<Byte>): bv16 {
    if data == [] then 0 else Crc16(data, 0x1005, 0x0000, 0x0000, 0)
  }

  /** What the length and the CRC of the frame should be. */
  function LengthOf(f: Frame): bv16 {
    Word(|FrameBytes(f)| - 4)
  }

  function ChecksumOf(f: Frame): bv16 {
    var bytes := FrameBytes(f);
    Checksum(bytes[1..|bytes| - TAIL_SIZE])
  }

  /** FrameAll.setToBytesWithTF over UDP: the two flags keep the stored length or CRC. */
  function Sealed(f: Frame, keepLength: bool, keepCRC: bool): Frame {
    var g := if keepLength then f else f.(length := LengthOf(f));
    if keepCRC then g else g.(crc16 := ChecksumOf(g))
  }

  // ---- Reading ----

  /** `OutOfBounds` is a read outside the vector, which the original does not detect. */
  datatype Read<T> = Value(value: T) | Refused | OutOfBounds

  /** DataItem.getFromBytes into `blank`, whose index and length are not initialised. */
  function ItemFrom(bytes: seq<Byte>, blank: DataItem): (r: Read<DataItem>)
    ensures r != Refused
  {
    if |bytes| < 2 then Value(blank)
    else if bytes[1] == 0 then Value(blank.(index := bytes[0], length := bytes[1]))
    else if |bytes| < 6 then OutOfBounds
    else Value(DataItem(bytes[0], bytes[1], bytes[2], bytes[3], bytes[4], bytes[5], bytes[6..]))
  }

  /** The size of the item that starts at `at`: an addition in eight bits. */
  function Span(bytes: seq<Byte>, at: nat): nat
    requires at + 1 < |bytes|
  {
    (Number8(bytes[at + 1]) + 2) % 256
  }

  /** `n` items from position `at` on, and the position behind them. */
  function ItemsFrom(bytes: seq<Byte>, at: nat, n: nat, blank: DataItem): (r: Read<(seq<DataItem>, nat)>)
    ensures r.Value? ==> |r.value.0| == n
    ensures r != Refused
    decreases n
  {
    if n == 0 then Value(([], at))
    else if at + 1 >= |bytes| || at + Span(bytes, at) > |bytes| then OutOfBounds
    else
      var next := at + Span(bytes, at);
      match ItemFrom(bytes[at..next], blank)
      case Value(item) =>
        (match ItemsFrom(bytes, next, n - 1, blank)
         case Value(rest) => Value(([item] + rest.0, rest.1))
         case _ => OutOfBounds)
      case _ => OutOfBounds
  }

  // The fixed fields at the front of a message.
  function FieldsFrom(bytes: seq<Byte>, items: seq<DataItem>, crc16: bv16, end: Byte): Frame
    requires |bytes| >= HEAD_SIZE
  {
    Frame(bytes[0], FromBig16(bytes[1], bytes[2]), FromBig16(bytes[3], bytes[4]), bytes[5],
          FromBig32(bytes[6], bytes[7], bytes[8], bytes[9]), bytes[10], bytes[11], bytes[12], bytes[13],
          items, crc16, end)
  }

  /** FrameAll.getFromBytes: the items are appended to those the object has. */
  function FrameFrom(bytes: seq<Byte>, held: seq<DataItem>, blank: DataItem): Read<Frame> {
    if |bytes| < MIN_SIZE then Refused
    else match ItemsFrom(bytes, HEAD_SIZE, Number8(bytes[13]), blank)
      case Value((items, at)) =>
        if at + TAIL_SIZE > |bytes| then OutOfBounds
        else Value(FieldsFrom(bytes, held + items, FromBig16(bytes[at], bytes[at + 1]), bytes[at + 2]))
      case _ => OutOfBounds
  }

  predicate LengthMatches(bytes: seq<Byte>)
    requires |bytes| >= MIN_SIZE
  {
    Word(|bytes| - 4) == FromBig16(bytes[1], bytes[2])
  }

  predicate ChecksumMatches(bytes: seq<Byte>)
    requires |bytes| >= MIN_SIZE
  {
    var end := |bytes| - TAIL_SIZE;
    Checksum(bytes[1..end]) == FromBig16(bytes[end], bytes[end + 1])
  }

  /** FrameAll.getFromBytesWithTF over UDP with the CRC check on; Refused is its result -1. */
  function Accept(bytes: seq<Byte>, held: seq<DataItem>, blank: DataItem): Read<Frame> {
    if |bytes| < MIN_SIZE || !LengthMatches(bytes) then Refused
    else match FrameFrom(bytes, held, blank)
      case Value(f) => if ChecksumMatches(bytes) then Value(f) else Refused
      case Refused => Refused
      case OutOfBounds => OutOfBounds
  }

  lemma SameNumber(a: bv16, b: bv16)
    ensures Number16(a) == Number16(b) <==> a == b
  {
    assert (a as int) as bv16 == a && (b as int) as bv16 == b;
  }

  /** A message is accepted exactly when it is long enough for its items, its length bytes
      spell its length and its CRC bytes the CRC; a wrong length is refused before the items
      are looked at, a wrong CRC after. */
  lemma AcceptIff(bytes: seq<Byte>, held: seq<DataItem>, blank: DataItem)
    ensures |bytes| < MIN_SIZE ==> Accept(bytes, held, blank) == Refused
    ensures |bytes| >= MIN_SIZE ==>
              var end := |bytes| - TAIL_SIZE;
              var read := FrameFrom(bytes, held, blank);
              Accept(bytes, held, blank)
              == if BigEndian(bytes[1..3]) != (|bytes| - 4) % 65536 then Refused
                 else if read.Value? && BigEndian(bytes[end..end + 2]) != Number16(Checksum(bytes[1..end])) then Refused
                 else read
  {
    hide Number16, Number8, Number32, BigEndian, FrameFrom, Checksum, Word, FromBig16;
    if |bytes| >= MIN_SIZE {
      var end := |bytes| - TAIL_SIZE;
      BigOnTheWire(bytes[1], bytes[2], 0, 0);
      BigOnTheWire(bytes[end], bytes[end + 1], 0, 0);
      assert bytes[1..3] == [bytes[1], bytes[2]] && bytes[end..end + 2] == [bytes[end], bytes[end + 1]];
      NumberOfWord(|bytes| - 4);
      SameNumber(Word(|bytes| - 4), FromBig16(bytes[1], bytes[2]));
      SameNumber(Checksum(bytes[1..end]), FromBig16(bytes[end], bytes[end + 1]));
      NotRefused(bytes, held, blank);
    }
  }

  lemma NotRefused(bytes: seq<Byte>, held: seq<DataItem>, blank: DataItem)
    requires |bytes| >= MIN_SIZE
    ensures FrameFrom(bytes, held, blank) != Refused
  {
  }

  /** The items read are put behind those the object has, and nothing else depends on these. */
  lemma HeldItemsStay(bytes: seq<Byte>, held: seq<DataItem>, blank: DataItem)
    ensures match FrameFrom(bytes, [], blank)
            case Value(f) => FrameFrom(bytes, held, blank) == Value(f.(dataItems := held + f.dataItems))
            case other => FrameFrom(bytes, held, blank) == other
  {
    hide ItemsFrom, FromBig16, FromBig32, Number8;
    assert forall items: seq<DataItem> :: [] + items == items;
  }

  /** Writing an item that was read gives its bytes back, for any bytes of an item: two with
      length byte 0, or at least six. */
  lemma ItemReadWritten(bytes: seq<Byte>, blank: DataItem)
    requires |bytes| >= 2 && (if bytes[1] == 0 then |bytes| == 2 else |bytes| >= 6)
    ensures ItemFrom(bytes, blank).Value? && ItemBytes(ItemFrom(bytes, blank).value) == bytes
  {
  }

  // ---- Round trip ----

  /** The frames that survive: the count is right and no item overflows its length byte. */
  predicate Representable(f: Frame) {
    Number8(f.dataItemNum) == |f.dataItems| && Small(f.dataItems)
  }

  predicate Small(items: seq<DataItem>) {
    forall k | 0 <= k < |items| :: |items[k].data| <= MAX_ITEM_DATA
  }

  /** The frame as the receiver should see it. */
  function Received(f: Frame): Frame {
    Sealed(f, false, false).(dataItems := NormalAll(f.dataItems))
  }

  lemma LengthByte(n: nat)
    requires n <= MAX_ITEM_DATA
    ensures Number8(Byte8(4 + n)) == 4 + n && Byte8(4 + n) != 0
  {
    Byte8RoundTrip(4 + n);
    assert Number8(0) == 0;
  }

  lemma ItemRoundTrip(item: DataItem, blank: DataItem)
    requires |item.data| <= MAX_ITEM_DATA
    ensures var bytes := ItemBytes(Normal(item));
            && |bytes| == 6 + |item.data|
            && Number8(bytes[1]) + 2 == |bytes|
            && ItemFrom(bytes, blank) == Value(Normal(item))
  {
    hide Byte8, Number8;
    LengthByte(|item.data|);
    assert ItemBytes(Normal(item))[6..] == item.data;
  }

  lemma Regroup(before: seq<Byte>, one: seq<Byte>, rest: seq<Byte>, after: seq<Byte>)
    requires |one| >= 2
    ensures var bytes := before + (one + rest) + after;
            && bytes == (before + one) + rest + after
            && bytes[|before|..|before| + |one|] == one
            && |bytes| >= |before| + |one|
            && bytes[|before| + 1] == one[1]
  {
  }

  lemma ItemsStep(bytes: seq<Byte>, at: nat, n: nat, item: DataItem, rest: seq<DataItem>, end: nat, blank: DataItem)
    requires n > 0 && at + 1 < |bytes| && at + Span(bytes, at) <= |bytes|
    requires ItemFrom(bytes[at..at + Span(bytes, at)], blank) == Value(item)
    requires ItemsFrom(bytes, at + Span(bytes, at), n - 1, blank) == Value((rest, end))
    ensures ItemsFrom(bytes, at, n, blank) == Value(([item] + rest, end))
  {
  }

  // The encoded item inside a longer message.
  lemma ItemAt(before: seq<Byte>, item: DataItem, rest: seq<Byte>, after: seq<Byte>, blank: DataItem)
    requires |item.data| <= MAX_ITEM_DATA
    ensures var one := ItemBytes(Normal(item));
            var bytes, at := before + (one + rest) + after, |before|;
            && bytes == (before + one) + rest + after
            && at + 1 < |bytes| && at + |one| <= |bytes| && Span(bytes, at) == |one|
            && ItemFrom(bytes[at..at + |one|], blank) == Value(Normal(item))
  {
    hide Normal, Number8, ItemBytes, ItemFrom;
    ItemRoundTrip(item, blank);
    Regroup(before, ItemBytes(Normal(item)), rest, after);
  }

  lemma NormalAllCons(items: seq<DataItem>)
    requires items != []
    ensures NormalAll(items) == [Normal(items[0])] + NormalAll(items[1..])
  {
  }

  lemma NoItems(bytes: seq<Byte>, at: nat, blank: DataItem)
    ensures ItemsFrom(bytes, at, 0, blank) == Value(([], at))
  {
  }

  lemma {:induction false} ItemsRoundTrip(before: seq<Byte>, items: seq<DataItem>, after: seq<Byte>, blank: DataItem)
    requires Small(items)
    ensures ItemsFrom(before + ItemsBytes(items) + after, |before|, |items|, blank)
         == Value((NormalAll(items), |before| + |ItemsBytes(items)|))
    decreases |items|
  {
    hide Normal, ItemBytes, ItemFrom, ItemsFrom, Span;
    if items == [] {
      NoItems(before + ItemsBytes(items) + after, |before|, blank);
      assert NormalAll(items) == [];
    } else {
      hide NormalAll;
      var one := ItemBytes(Normal(items[0]));
      var rest := ItemsBytes(items[1..]);
      assert ItemsBytes(items) == one + rest;
      ItemAt(before, items[0], rest, after, blank);
      ItemsRoundTrip(before + one, items[1..], after, blank);
      ItemsStep(before + (one + rest) + after, |before|, |items|, Normal(items[0]), NormalAll(items[1..]),
                |before| + |one| + |rest|, blank);
      NormalAllCons(items);
    }
  }

  lemma HeadParts(f: Frame)
    ensures var head := HeadBytes(f);
            && head[0] == f.begin && head[1] == HighByte(f.length) && head[2] == LowByte(f.length)
            && head[13] == f.dataItemNum
            && head[1..] == Big16(f.length) + Inner(f)
  {
    hide HighByte, LowByte, Big32;
  }

  // The parts of an encoded frame.
  lemma FrameLayout(f: Frame)
    ensures var bytes, items := FrameBytes(f), ItemsBytes(f.dataItems);
            && |bytes| == HEAD_SIZE + |items| + TAIL_SIZE
            && bytes == HeadBytes(f) + items + (Big16(f.crc16) + [f.end])
            && bytes[1..|bytes| - TAIL_SIZE] == Big16(f.length) + (Inner(f) + items)
            && bytes[0] == f.begin && bytes[1] == HighByte(f.length) && bytes[2] == LowByte(f.length)
            && bytes[13] == f.dataItemNum
            && bytes[|bytes| - 3] == HighByte(f.crc16) && bytes[|bytes| - 2] == LowByte(f.crc16)
            && bytes[|bytes| - 1] == f.end
  {
    hide HighByte, LowByte, Big32, ItemsBytes, HeadBytes, Inner, Big16;
    HeadParts(f);
    var bytes, head, items := FrameBytes(f), HeadBytes(f), ItemsBytes(f.dataItems);
    Tail(f);
    assert bytes == head + items + (Big16(f.crc16) + [f.end]);
    assert bytes[..HEAD_SIZE] == head;
    assert bytes[1..|bytes| - TAIL_SIZE] == head[1..] + items;
  }

  lemma Tail(f: Frame)
    ensures Big16(f.crc16)[0] == HighByte(f.crc16) && Big16(f.crc16)[1] == LowByte(f.crc16)
  {
  }

  lemma HeadLayout(f: Frame)
    ensures var bytes := FrameBytes(f);
            && bytes[3..5] == Big16(f.version)
            && bytes[5] == f.controlCenterID
            && bytes[6..10] == Big32(f.controllerID)
            && bytes[10..14] == [f.roadID, f.sequence, f.kind, f.dataItemNum]
  {
    hide HighByte, LowByte, Big32, ItemsBytes;
  }

  // Reading the fixed fields of an encoded frame.
  lemma FieldsRoundTrip(f: Frame)
    ensures var b := FrameBytes(f);
            && FromBig16(b[1], b[2]) == f.length && FromBig16(b[3], b[4]) == f.version && b[5] == f.controlCenterID
            && FromBig32(b[6], b[7], b[8], b[9]) == f.controllerID
            && b[10] == f.roadID && b[11] == f.sequence && b[12] == f.kind && b[13] == f.dataItemNum
            && FromBig16(b[|b| - 3], b[|b| - 2]) == f.crc16
  {
    FrameLayout(f);
    HeadLayout(f);
    Big16RoundTrip(f.length);
    Big16RoundTrip(f.version);
    Big16RoundTrip(f.crc16);
    Big32RoundTrip(f.controllerID);
    hide HighByte, LowByte, Big32, FrameBytes, FromBig16, FromBig32;
    var b := FrameBytes(f);
    assert b[3] == b[3..5][0] && b[4] == b[3..5][1];
    assert b[6] == b[6..10][0] && b[7] == b[6..10][1] && b[8] == b[6..10][2] && b[9] == b[6..10][3];
    assert b[10] == b[10..14][0] && b[11] == b[10..14][1] && b[12] == b[10..14][2];
  }

  /** Where the fields stand that are read from a message. */
  lemma FieldsOnTheWire(bytes: seq<Byte>, items: seq<DataItem>, crc16: bv16, end: Byte)
    requires |bytes| >= HEAD_SIZE
    ensures var f := FieldsFrom(bytes, items, crc16, end);
            && f.begin == bytes[0] && Number16(f.length) == BigEndian(bytes[1..3])
            && Number16(f.version) == BigEndian(bytes[3..5]) && f.controlCenterID == bytes[5]
            && Number32(f.controllerID) == BigEndian(bytes[6..10])
            && f.roadID == bytes[10] && f.sequence == bytes[11] && f.kind == bytes[12] && f.dataItemNum == bytes[13]
            && f.dataItems == items && f.crc16 == crc16 && f.end == end
  {
    hide FromBig16, FromBig32, Number8, Number16, Number32, BigEndian;
    BigOnTheWire(bytes[1], bytes[2], 0, 0);
    BigOnTheWire(bytes[3], bytes[4], 0, 0);
    BigOnTheWire(bytes[6], bytes[7], bytes[8], bytes[9]);
    assert bytes[1..3] == [bytes[1], bytes[2]] && bytes[3..5] == [bytes[3], bytes[4]];
    assert bytes[6..10] == [bytes[6], bytes[7], bytes[8], bytes[9]];
  }

  /** Where the fields of a sent frame stand, what its length bytes and its CRC bytes spell. */
  lemma FrameOnTheWire(f: Frame)
    ensures var bytes := FrameBytes(Sealed(f, false, false));
            var end := |bytes| - TAIL_SIZE;
            && bytes[0] == f.begin && bytes[end + 2] == f.end
            && BigEndian(bytes[1..3]) == (|bytes| - 4) % 65536
            && BigEndian(bytes[3..5]) == Number16(f.version) && bytes[5] == f.controlCenterID
            && BigEndian(bytes[6..10]) == Number32(f.controllerID)
            && bytes[10] == f.roadID && bytes[11] == f.sequence && bytes[12] == f.kind && bytes[13] == f.dataItemNum
            && bytes[HEAD_SIZE..end] == ItemsBytes(f.dataItems)
            && BigEndian(bytes[end..end + 2]) == Number16(Checksum(bytes[1..end]))
  {
    hide FromBig16, FromBig32, Number8, Number16, Number32, BigEndian, ItemsBytes, Checksum, FrameBytes, Word;
    var g := Sealed(f, false, false);
    var bytes := FrameBytes(g);
    var end := |bytes| - TAIL_SIZE;
    SealedIsUpToDate(f);
    FrameLayout(g);
    FieldsRoundTrip(g);
    FieldsOnTheWire(bytes, [], 0, 0);
    BigOnTheWire(bytes[end], bytes[end + 1], 0, 0);
    NumberOfWord(|bytes| - 4);
    assert bytes[end..end + 2] == [bytes[end], bytes[end + 1]];
  }

  /** Where the fields of an item stand. */
  lemma ItemOnTheWire(item: DataItem)
    requires |item.data| <= MAX_ITEM_DATA
    ensures var bytes := ItemBytes(Normal(item));
            && |bytes| == 6 + |item.data| && bytes[0] == item.index && Number8(bytes[1]) == 4 + |item.data|
            && bytes[2] == item.typeID && bytes[3] == item.objID && bytes[4] == item.attrID
            && bytes[5] == item.elementID && bytes[6..] == item.data
  {
    LengthByte(|item.data|);
    hide Byte8, Number8;
  }

  lemma LengthMatchesIff(f: Frame)
    ensures LengthMatches(FrameBytes(f)) <==> f.length == LengthOf(f)
  {
    FieldsRoundTrip(f);
    hide FrameBytes, FromBig16;
  }

  lemma ChecksumMatchesIff(f: Frame)
    ensures ChecksumMatches(FrameBytes(f)) <==> f.crc16 == ChecksumOf(f)
  {
    FieldsRoundTrip(f);
    hide FrameBytes, FromBig16, FromBig32, Checksum;
  }

  lemma FrameFromEncoded(f: Frame, blank: DataItem)
    requires Representable(f)
    ensures FrameFrom(FrameBytes(f), [], blank) == Value(f.(dataItems := NormalAll(f.dataItems)))
  {
    var bytes := FrameBytes(f);
    FrameLayout(f);
    FieldsRoundTrip(f);
    hide Number8, FrameBytes, ItemsFrom, NormalAll, FromBig16, FromBig32, HeadBytes, ItemsBytes;
    ItemsRoundTrip(HeadBytes(f), f.dataItems, Big16(f.crc16) + [f.end], blank);
    assert [] + NormalAll(f.dataItems) == NormalAll(f.dataItems);
  }

  /** An encoded frame is accepted exactly when its length and CRC fields are up to date. */
  lemma AcceptEncoded(f: Frame, blank: DataItem)
    requires Representable(f)
    ensures Accept(FrameBytes(f), [], blank)
         == if f.length == LengthOf(f) && f.crc16 == ChecksumOf(f) then Value(f.(dataItems := NormalAll(f.dataItems)))
            else Refused
  {
    LengthMatchesIff(f);
    ChecksumMatchesIff(f);
    FrameFromEncoded(f, blank);
    hide FrameBytes, LengthMatches, ChecksumMatches, FrameFrom, LengthOf, ChecksumOf;
  }

  // The CRC does not cover itself, and the length does not depend on either field.
  lemma FieldsDoNotCount(f: Frame, length: bv16, crc: bv16)
    ensures LengthOf(f.(length := length, crc16 := crc)) == LengthOf(f)
    ensures ChecksumOf(f.(crc16 := crc)) == ChecksumOf(f)
  {
    var g, h := f.(length := length, crc16 := crc), f.(crc16 := crc);
    FrameLayout(f);
    FrameLayout(g);
    FrameLayout(h);
    assert Inner(h) == Inner(f);
    hide FrameBytes, Checksum, Inner;
  }

  lemma SealedIsUpToDate(f: Frame)
    ensures var g := Sealed(f, false, false); g.length == LengthOf(g) && g.crc16 == ChecksumOf(g)
  {
    var g := f.(length := LengthOf(f));
    FieldsDoNotCount(f, LengthOf(f), f.crc16);
    FieldsDoNotCount(g, g.length, ChecksumOf(g));
    assert f.(length := LengthOf(f), crc16 := f.crc16) == g;
    assert g.(length := g.length, crc16 := ChecksumOf(g)) == g.(crc16 := ChecksumOf(g));
    hide LengthOf, ChecksumOf;
  }

  lemma {:induction false} DecodedItemsAreSmall(bytes: seq<Byte>, at: nat, n: nat, blank: DataItem)
    requires blank.data == [] && ItemsFrom(bytes, at, n, blank).Value?
    ensures Small(ItemsFrom(bytes, at, n, blank).value.0)
    decreases n
  {
    hide Number8;
    if n > 0 {
      var next := at + Span(bytes, at);
      DecodedItemsAreSmall(bytes, next, n - 1, blank);
    }
  }

  // An item is at most 255 bytes long, 4 of them before the data.
  lemma {:induction false} ItemsFit(items: seq<DataItem>)
    requires Small(items)
    ensures |ItemsBytes(items)| <= 255 * |items|
  {
    hide Byte8;
    if items != [] {
      ItemsFit(items[1..]);
    }
  }

  /** Within the 249 bytes per item the length of a frame fits its sixteen bits, so it is
      never compared modulo 65536. */
  lemma LengthFits(f: Frame)
    requires Representable(f)
    ensures |FrameBytes(f)| - 4 < 65536
    ensures Number16(LengthOf(f)) == |FrameBytes(f)| - 4
  {
    hide Number8, Number16, Word;
    FrameLayout(f);
    ItemsFit(f.dataItems);
    NumberOfWord(|FrameBytes(f)| - 4);
  }

  /** The length that an accepted frame carries is its true length. */
  lemma SentLengthIsTrue(f: Frame)
    requires Representable(f)
    ensures Number16(Sealed(f, false, false).length) == |FrameBytes(Sealed(f, false, false))| - 4
  {
    hide Number8, Number16, LengthOf, ChecksumOf;
    SealedIsUpToDate(f);
    LengthFits(Sealed(f, false, false));
  }

  /** Sending a frame and reading it into a fresh object gives the frame back, with its
      length, CRC and item lengths filled in, exactly when the frame is representable. */
  lemma RoundTrip(f: Frame, blank: DataItem)
    requires blank.data == []
    ensures Accept(FrameBytes(Sealed(f, false, false)), [], blank) == Value(Received(f)) <==> Representable(f)
    ensures Representable(f) ==> Number16(Received(f).length) == |FrameBytes(Sealed(f, false, false))| - 4
  {
    var g := Sealed(f, false, false);
    if Representable(f) {
      SentLengthIsTrue(f);
      assert Representable(g);
      SealedIsUpToDate(f);
      AcceptEncoded(g, blank);
    } else if Accept(FrameBytes(g), [], blank) == Value(Received(f)) {
      FrameLayout(g);
      OnlyRepresentable(FrameBytes(g), f, blank);
      assert false;
    }
  }

  lemma OnlyRepresentable(bytes: seq<Byte>, f: Frame, blank: DataItem)
    requires blank.data == [] && |bytes| >= MIN_SIZE && bytes[13] == f.dataItemNum
    requires Accept(bytes, [], blank).Value? && Accept(bytes, [], blank).value.dataItems == NormalAll(f.dataItems)
    ensures Representable(f)
  {
    hide Number8, FromBig16, FromBig32, LengthMatches, ChecksumMatches, ItemsFrom;
    var items := ItemsFrom(bytes, HEAD_SIZE, Number8(bytes[13]), blank).value.0;
    DecodedItemsAreSmall(bytes, HEAD_SIZE, Number8(bytes[13]), blank);
    assert [] + items == items == NormalAll(f.dataItems);
    forall k | 0 <= k < |f.dataItems|
      ensures |f.dataItems[k].data| <= MAX_ITEM_DATA
    {
      assert items[k] == Normal(f.dataItems[k]);
    }
  }

  lemma {:induction false} NormalTwice(items: seq<DataItem>)
    ensures ItemsBytes(NormalAll(items)) == ItemsBytes(items)
  {
    hide Byte8, ItemBytes;
    if items != [] {
      NormalAllCons(items);
      NormalTwice(items[1..]);
      assert NormalAll(items)[1..] == NormalAll(items[1..]);
      assert Normal(Normal(items[0])) == Normal(items[0]);
    }
  }

  /** Encoding what was received gives the same bytes again. */
  lemma Reencoding(f: Frame)
    ensures FrameBytes(Sealed(Received(f), false, false)) == FrameBytes(Sealed(f, false, false))
  {
    var g := Sealed(f, false, false);
    var r := Received(f);
    NormalTwice(f.dataItems);
    FrameLayout(g);
    FrameLayout(r);
    assert FrameBytes(r) == FrameBytes(g);
    SealedIsUpToDate(f);
    assert LengthOf(r) == LengthOf(g) && ChecksumOf(r) == ChecksumOf(g);
    assert r.(length := LengthOf(r)) == r;
    assert Sealed(r, false, false) == r;
  }

  // ---- The two explicit updates ----

  /** Length and CRC are filled in unless set by hand, the CRC over the length that is sent,
      and nothing else changes. */
  lemma SealedKeeps(f: Frame, keepLength: bool, keepCRC: bool)
    ensures var g := Sealed(f, keepLength, keepCRC);
            && g == f.(length := g.length, crc16 := g.crc16)
            && Number16(g.length) == (if keepLength then Number16(f.length) else (|FrameBytes(f)| - 4) % 65536)
            && g.crc16 == if keepCRC then f.crc16 else ChecksumOf(f.(length := g.length))
  {
    hide Number16, Word, ChecksumOf;
    NumberOfWord(|FrameBytes(f)| - 4);
  }

  function LengthUpdated(f: Frame): Frame {
    f.(length := LengthOf(f))
  }

  function ChecksumUpdated(f: Frame): Frame {
    f.(crc16 := ChecksumOf(f))
  }

  /** Updating the length and then the CRC by hand sends what the encoder sends by itself. */
  lemma UpdatesAgree(f: Frame)
    ensures Sealed(ChecksumUpdated(LengthUpdated(f)), true, true) == Sealed(f, false, false)
  {
    hide LengthOf, ChecksumOf;
  }

  /** In the other order the frame is accepted exactly when its length was right before. */
  lemma UpdateOrderMatters(f: Frame, blank: DataItem)
    requires Representable(f)
    ensures var g := Sealed(LengthUpdated(ChecksumUpdated(f)), true, true);
            Accept(FrameBytes(g), [], blank).Value? <==> f.length == LengthOf(f)
  {
    var c := ChecksumUpdated(f);
    var g := LengthUpdated(c);
    FieldsDoNotCount(f, f.length, ChecksumOf(f));
    assert f.(length := f.length, crc16 := ChecksumOf(f)) == c;
    FieldsDoNotCount(c, LengthOf(f), c.crc16);
    assert c.(length := LengthOf(f), crc16 := c.crc16) == g;
    AcceptEncoded(g, blank);
    if f.length != LengthOf(f) {
      LengthChangesChecksum(f, g);
    } else {
      assert g == c;
    }
  }

  // The length is outside the inner head, and the CRC outside the head.
  lemma OthersKept(f: Frame, length: bv16, crc: bv16)
    ensures Inner(f.(length := length)) == Inner(f.(crc16 := crc)) == Inner(f)
    ensures Inner(f.(length := length, crc16 := crc)) == Inner(f)
    ensures HeadBytes(f.(crc16 := crc)) == HeadBytes(f)
  {
  }

  lemma LengthChangesChecksum(f: Frame, g: Frame)
    requires g == f.(length := g.length, crc16 := g.crc16) && f.length != g.length
    ensures ChecksumOf(f) != ChecksumOf(g)
  {
    hide FrameBytes, Inner, Big16, Crc16, ItemsBytes;
    FrameLayout(f);
    FrameLayout(g);
    OthersKept(f, g.length, g.crc16);
    OthersKept(g, g.length, f.crc16);
    var content := Inner(f) + ItemsBytes(f.dataItems);
    Big16Injective(f.length, g.length);
    AdjacentBytesDetected([], Big16(f.length), Big16(g.length), content, 0x1005, 0, 0, 0);
    assert [] + Big16(f.length) + content == Big16(f.length) + content;
    assert [] + Big16(g.length) + content == Big16(g.length) + content;
  }

  lemma Big16Injective(a: bv16, b: bv16)
    requires a != b
    ensures Big16(a) != Big16(b)
  {
    Big16RoundTrip(a);
    Big16RoundTrip(b);
  }

  // ---- Error detection ----

  // The bytes that the CRC covers, followed by the CRC.
  function Covered(bytes: seq<Byte>): seq<Byte>
    requires |bytes| >= MIN_SIZE
  {
    bytes[1..|bytes| - 1]
  }

  lemma ChecksumMatchesIsZeroResidue(bytes: seq<Byte>)
    requires |bytes| >= MIN_SIZE
    ensures ChecksumMatches(bytes) <==> Crc16(Covered(bytes), 0x1005, 0, 0, 0) == 0
  {
    var end := |bytes| - TAIL_SIZE;
    var word := FromBig16(bytes[end], bytes[end + 1]);
    Big16OfBytes(bytes[end], bytes[end + 1]);
    hide Crc16, FromBig16;
    ResiduePlain(bytes[1..end], word, 0x1005);
    assert Covered(bytes) == bytes[1..end] + [HighByte(word), LowByte(word)];
  }

  /** A frame hit anywhere between its first and last byte by an error burst of up to sixteen
      bits is never accepted. */
  lemma BurstIsRefused(f: Frame, received: seq<Byte>, at: nat, held: seq<DataItem>, blank: DataItem)
    requires |received| == |FrameBytes(Sealed(f, false, false))|
    requires var sent := FrameBytes(Sealed(f, false, false));
             DifferInBurst(MessageBits(Covered(sent), 0), MessageBits(Covered(received), 0), at)
    ensures !Accept(received, held, blank).Value?
  {
    var g := Sealed(f, false, false);
    SealedIsUpToDate(f);
    ChecksumMatchesIff(g);
    hide Crc16, MessageBits, FrameBytes, ChecksumMatches, ChecksumOf, LengthOf, Sealed;
    ChecksumMatchesIsZeroResidue(FrameBytes(g));
    ChecksumMatchesIsZeroResidue(received);
    BurstDetected(Covered(FrameBytes(g)), Covered(received), at, 0x1005, 0, 0, 0);
  }
}
