/** The frame object of signalControlCom.cpp, refined to the functions of SignalFrame. */
module FrameObject {
  import opened Basics
  import opened Numbers
  import opened Crc
  import opened SignalFrame

  datatype Code = Success | Refusal | Undefined

  method SetItemToBytes(item: DataItem) returns (out: seq<Byte>)
    ensures out == ItemBytes(item)
  {
    out := [item.index, item.length];
    if item.length == 0 {
      return;
    }
    out := out + [item.typeID, item.objID, item.attrID, item.elementID];
    out := out + item.data;
  }

  method GetItemFromBytes(bytes: seq<Byte>, blank: DataItem) returns (code: Code, item: DataItem)
    ensures match ItemFrom(bytes, blank)
            case Value(v) => code != Undefined && item == v && (code == Refusal <==> |bytes| < 2)
            case _ => code == Undefined
  {
    item := blank;
    if |bytes| < 2 {
      return Refusal, item;
    }
    item := item.(index := bytes[0], length := bytes[1]);
    if item.length == 0 {
      return Success, item;
    }
    if |bytes| < 6 {
      return Undefined, item;
    }
    item := item.(typeID := bytes[2], objID := bytes[3], attrID := bytes[4], elementID := bytes[5]);
    item := item.(data := bytes[6..]);
    code := Success;
  }

  method CRC16(data: seq<Byte>) returns (crc: bv16)
    ensures crc == Checksum(data)
  {
    if |data| <= 0 {
      return 0;
    }
    crc := Crc16Cal(data, 0x1005, 0x0000, 0x0000, 0);
  }

  class FrameAll {
    var isUpdateLength: bool
    var isUpdateCRC: bool
    var begin: Byte
    var length: bv16
    var version: bv16
    var controlCenterID: Byte
    var controllerID: bv32
    var roadID: Byte
    var sequence: Byte
    var kind: Byte
    var dataItemNum: Byte
    var dataItems: seq<DataItem>
    var crc16: bv16
    var end: Byte

    function State(): Frame
      reads this
    {
      Frame(begin, length, version, controlCenterID, controllerID, roadID, sequence, kind, dataItemNum,
            dataItems, crc16, end)
    }

    /** The fields the original leaves uninitialised come from `initial`. */
    constructor (initial: Frame)
      ensures !isUpdateLength && !isUpdateCRC
      ensures State() == initial.(begin := 0x7E, dataItems := [], end := 0x7D)
    {
      isUpdateLength, isUpdateCRC := false, false;
      begin, end := 0x7E, 0x7D;
      length, version, crc16 := initial.length, initial.version, initial.crc16;
      controlCenterID, controllerID := initial.controlCenterID, initial.controllerID;
      roadID, sequence, kind := initial.roadID, initial.sequence, initial.kind;
      dataItemNum, dataItems := initial.dataItemNum, [];
    }

    method SetToBytes() returns (out: seq<Byte>)
      ensures out == FrameBytes(State())
    {
      hide HighByte, LowByte, Big32, ItemBytes, Byte8;
      out := [begin] + Big16(length) + Big16(version) + [controlCenterID] + Big32(controllerID);
      out := out + [roadID, sequence, kind, dataItemNum];
      assert out == SignalFrame.HeadBytes(State());
      for i := 0 to |dataItems|
        invariant out + ItemsBytes(dataItems[i..]) == SignalFrame.HeadBytes(State()) + ItemsBytes(dataItems)
      {
        var item := dataItems[i];
        var size := Byte8(4 + |item.data|);
        if item.length != size {
          item := item.(length := size);
        }
        var outItem := SetItemToBytes(item);
        assert dataItems[i..][1..] == dataItems[i + 1..];
        out := out + outItem;
      }
      assert out == out + ItemsBytes(dataItems[|dataItems|..]);
      out := out + Big16(crc16);
      out := out + [end];
    }

    method UpdateFrameLength()
      modifies `length, `isUpdateLength
      ensures State() == LengthUpdated(old(State())) && isUpdateLength
    {
      var outBytes := SetToBytes();
      length := Word(|outBytes| - 4);
      isUpdateLength := true;
    }

    method UpdateFrameCRC16()
      modifies `crc16, `isUpdateCRC
      ensures State() == ChecksumUpdated(old(State())) && isUpdateCRC
    {
      var outBytes := SetToBytes();
      var crc := CRC16(outBytes[1..|outBytes| - TAIL_SIZE]);
      crc16 := crc;
      isUpdateCRC := true;
    }

    static method UpdateByteLength(bytes: seq<Byte>) returns (code: Code, out: seq<Byte>)
      ensures |bytes| < MIN_SIZE ==> code == Refusal && out == bytes
      ensures |bytes| >= MIN_SIZE ==>
                code == Success && out == bytes[1 := HighByte(Word(|bytes| - 4))][2 := LowByte(Word(|bytes| - 4))]
    {
      if |bytes| < MIN_SIZE {
        return Refusal, bytes;
      }
      var value16 := Word(|bytes| - 4);
      out := bytes[1 := HighByte(value16)];
      out := out[2 := LowByte(value16)];
      code := Success;
    }

    static method UpdateByteCRC16(bytes: seq<Byte>) returns (code: Code, out: seq<Byte>)
      ensures |bytes| < MIN_SIZE ==> code == Refusal && out == bytes
      ensures |bytes| >= MIN_SIZE ==>
                var n, crc := |bytes|, Checksum(bytes[1..|bytes| - TAIL_SIZE]);
                code == Success && out == bytes[n - 3 := HighByte(crc)][n - 2 := LowByte(crc)]
    {
      if |bytes| < MIN_SIZE {
        return Refusal, bytes;
      }
      var value16 := CRC16(bytes[1..|bytes| - TAIL_SIZE]);
      out := bytes[|bytes| - 3 := HighByte(value16)];
      out := out[|bytes| - 2 := LowByte(value16)];
      code := Success;
    }

    /** The fields not updated by hand are filled in on the wire, not in the object. */
    method SetToBytesWithTF() returns (out: seq<Byte>)
      ensures out == FrameBytes(Sealed(State(), isUpdateLength, isUpdateCRC))
    {
      hide HighByte, LowByte, FrameBytes, Checksum, Word;
      out := SetToBytes();
      ghost var f := State();
      if !isUpdateLength {
        PutLength(f, LengthOf(f));
        var _, updated := UpdateByteLength(out);
        out := updated;
        f := f.(length := LengthOf(f));
      }
      if !isUpdateCRC {
        PutChecksum(f, ChecksumOf(f));
        var _, updated := UpdateByteCRC16(out);
        out := updated;
      }
    }

    method GetFromBytes(bytes: seq<Byte>, blank: DataItem) returns (code: Code)
      modifies this
      ensures isUpdateLength == old(isUpdateLength) && isUpdateCRC == old(isUpdateCRC)
      ensures match FrameFrom(bytes, old(dataItems), blank)
              case Value(f) => code == Success && State() == f
              case Refused => code == Refusal && State() == old(State())
              case OutOfBounds => code == Undefined
    {
      hide Number8, FromBig16, FromBig32, ItemFrom, ItemsFrom;
      if |bytes| < MIN_SIZE {
        return Refusal;
      }
      GetFields(bytes);
      var ok, index := GetItems(bytes, SignalFrame.HEAD_SIZE, Number8(dataItemNum), blank);
      if !ok || index + TAIL_SIZE > |bytes| {
        return Undefined;
      }
      crc16 := FromBig16(bytes[index], bytes[index + 1]);
      end := bytes[index + 2];
      code := Success;
    }

    // The fixed fields at the front.
    method GetFields(bytes: seq<Byte>)
      requires |bytes| >= SignalFrame.HEAD_SIZE
      modifies `begin, `length, `version, `controlCenterID, `controllerID, `roadID, `sequence, `kind, `dataItemNum
      ensures State() == FieldsFrom(bytes, dataItems, crc16, end) && dataItemNum == bytes[13]
    {
      hide FromBig16, FromBig32;
      begin := bytes[0];
      length := FromBig16(bytes[1], bytes[2]);
      version := FromBig16(bytes[3], bytes[4]);
      controlCenterID := bytes[5];
      controllerID := FromBig32(bytes[6], bytes[7], bytes[8], bytes[9]);
      roadID, sequence, kind, dataItemNum := bytes[10], bytes[11], bytes[12], bytes[13];
    }

    // The item loop of getFromBytes.
    method GetItems(bytes: seq<Byte>, start: nat, n: nat, blank: DataItem) returns (ok: bool, index: nat)
      modifies `dataItems
      ensures match ItemsFrom(bytes, start, n, blank)
              case Value((items, behind)) => ok && index == behind && dataItems == old(dataItems) + items
              case _ => !ok
    {
      hide Number8, ItemFrom, Span;
      index := start;
      ok := true;
      var i := 0;
      while i < n
        invariant i <= n && ok
        invariant Continues(ItemsFrom(bytes, start, n, blank), ItemsFrom(bytes, index, n - i, blank),
                              old(dataItems), dataItems)
      {
        if index + 1 >= |bytes| || index + Span(bytes, index) > |bytes| {
          return false, index;
        }
        var dataItemLen := Span(bytes, index);
        var code, dataItem := GetItemFromBytes(bytes[index..index + dataItemLen], blank);
        if code == Undefined {
          return false, index;
        }
        dataItems := dataItems + [dataItem];
        index := index + dataItemLen;
        i := i + 1;
      }
    }

    /** A frame whose CRC does not match has already replaced the fields when it is refused. */
    method GetFromBytesWithTF(bytes: seq<Byte>, isCheckCRC: bool, blank: DataItem) returns (code: Code)
      modifies this
      ensures isUpdateLength == old(isUpdateLength) && isUpdateCRC == old(isUpdateCRC)
      ensures |bytes| < MIN_SIZE || !LengthMatches(bytes) ==> code == Refusal && State() == old(State())
      ensures |bytes| >= MIN_SIZE && LengthMatches(bytes) ==>
                match FrameFrom(bytes, old(dataItems), blank)
                case Value(f) =>
                  State() == f && code == if isCheckCRC && !ChecksumMatches(bytes) then Refusal else Success
                case _ => code == Undefined
      ensures isCheckCRC ==>
                (match Accept(bytes, old(dataItems), blank)
                 case Value(f) => code == Success && State() == f
                 case Refused => code == Refusal
                 case OutOfBounds => code == Undefined)
    {
      hide FromBig16, FromBig32, Checksum, Word, ItemsFrom;
      if |bytes| < MIN_SIZE {
        return Refusal;
      }
      var calLen := Word(|bytes| - 4);
      var len := FromBig16(bytes[1], bytes[2]);
      if calLen != len {
        return Refusal;
      }
      code := GetFromBytes(bytes, blank);
      if code == Success && isCheckCRC {
        var end := |bytes| - TAIL_SIZE;
        var calCRC16 := CRC16(bytes[1..end]);
        if calCRC16 != FromBig16(bytes[end], bytes[end + 1]) {
          code := Refusal;
        }
      }
    }
  }

  // What is left of the item list continues what has been read.
  ghost predicate Continues(all: Read<(seq<DataItem>, nat)>, rest: Read<(seq<DataItem>, nat)>,
                            held: seq<DataItem>, now: seq<DataItem>) {
    match rest
    case Value((items, behind)) => all.Value? && all.value.1 == behind && held + all.value.0 == now + items
    case _ => !all.Value?
  }

  lemma PutLength(f: Frame, length: bv16)
    ensures FrameBytes(f)[1 := HighByte(length)][2 := LowByte(length)] == FrameBytes(f.(length := length))
  {
    hide FrameBytes, HighByte, LowByte, Inner, ItemsBytes;
    FrameLayout(f);
    FrameLayout(f.(length := length));
    OthersKept(f, length, f.crc16);
  }

  lemma PutChecksum(f: Frame, crc: bv16)
    ensures var n := |FrameBytes(f)|;
            FrameBytes(f)[n - 3 := HighByte(crc)][n - 2 := LowByte(crc)] == FrameBytes(f.(crc16 := crc))
  {
    hide FrameBytes, HighByte, LowByte, Inner;
    FrameLayout(f);
    FrameLayout(f.(crc16 := crc));
    OthersKept(f, f.length, crc);
  }
}
