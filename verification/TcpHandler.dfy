/** The receiving half of MyTcpHandler: one object that owns a ring, a frame buffer and a queue. */
module TcpHandler {
  import opened Basics
  import opened Numbers
  import opened CrcTable
  import opened Package
  import opened Parser
  import Ring = RingBuffer
  import Queues = BoundedQueue

  class MyTcpHandler {
    const rb: Ring.RingBuffer
    const pkgs: Queues.Queue<Pkg>
    var status: Status
    var pkgHead: PkgHead
    var bodyLen: nat
    var pkgBuffer: array?<Byte>
    var pkgBufferIndex: nat
    ghost var offered: seq<Pkg>

    ghost predicate Valid()
      reads this, rb, pkgBuffer
    {
      && rb.Valid()
      && pkgBuffer != rb.buff
      && (pkgBuffer == null ==> pkgBufferIndex == 0)
      && (pkgBuffer != null ==> pkgBufferIndex <= pkgBuffer.Length)
      && Parser.Valid(State())
      && ((status == GetBody || status == GetCRC) ==>
            pkgBuffer != null && pkgHead == HeadOf(pkgBuffer[..pkgBufferIndex]) && pkgBuffer.Length == Size(pkgHead))
    }

    /** The object as a state of the parser. */
    ghost function State(): Core
      requires pkgBuffer != null ==> pkgBufferIndex <= pkgBuffer.Length
      reads this, pkgBuffer
    {
      Core(status, if pkgBuffer == null then [] else pkgBuffer[..pkgBufferIndex], bodyLen, offered)
    }

    ghost function Unread(): seq<Byte>
      requires rb.Valid()
      reads rb, rb.buff
    {
      rb.Contents()
    }

    constructor (bufferSize: nat)
      requires 0 < bufferSize <= INT_MAX
      ensures Valid() && State() == INITIAL && Unread() == [] && rb.capacity == bufferSize
      ensures fresh(rb) && fresh(rb.buff) && fresh(pkgs) && pkgs.q == [] && pkgs.isSetMax && pkgs.max == 30
    {
      rb := new Ring.RingBuffer(bufferSize);
      pkgs := new Queues.Queue();
      status := Start;
      pkgHead := PkgHead(TAG, 0, 0xFF, 0, 0, 0);
      bodyLen := 0;
      pkgBuffer := null;
      pkgBufferIndex := 0;
      offered := [];
      new;
      pkgs.SetMax(30);
    }

    method ReleaseFrame()
      modifies `bodyLen, `pkgBuffer, `pkgBufferIndex, `status
      ensures status == Start && bodyLen == 0 && pkgBuffer == null && pkgBufferIndex == 0
    {
      bodyLen := 0;
      pkgBuffer := null;
      pkgBufferIndex := 0;
      status := Start;
    }

    method FindTag()
      requires Valid() && status == Start && Unread() != []
      modifies `status, rb
      ensures Valid() && (State(), Unread()) == Step(old(State()), old(Unread()))
    {
      var start := new Byte[1];
      var n := rb.Read(start, 0, 1);
      assert start[..] == old(Unread())[..1];
      if start[0] == TAG {
        status := GetHead;
      }
    }

    // The twelve bytes behind the tag, behind the tag already taken.
    method ReadHead() returns (raw: array<Byte>)
      requires rb.Valid() && |Unread()| >= HEAD_SIZE - 1
      modifies rb
      ensures rb.Valid() && Unread() == old(Unread())[HEAD_SIZE - 1..]
      ensures fresh(raw) && raw[..] == [TAG] + old(Unread())[..HEAD_SIZE - 1]
    {
      raw := new Byte[HEAD_SIZE];
      raw[0] := TAG;
      var n := rb.Read(raw, 1, HEAD_SIZE - 1);
    }

    // A buffer for the whole frame that starts with its head.
    method NewFrame(head: seq<Byte>, size: nat) returns (frame: array<Byte>)
      requires |head| <= size
      ensures fresh(frame) && frame.Length == size && frame[..|head|] == head
    {
      frame := new Byte[size];
      Ring.Copy(frame, 0, head);
    }

    method TakeHead()
      requires Valid() && status == GetHead && |Unread()| >= HEAD_SIZE - 1
      modifies `status, `pkgHead, `bodyLen, `pkgBuffer, `pkgBufferIndex, rb
      ensures Valid() && (State(), Unread()) == Step(old(State()), old(Unread()))
      ensures var len := LittleEndian(old(Unread())[8..12]);
              if HEAD_SIZE + CRC_SIZE <= len <= INT_MAX then
                && status == GetBody && bodyLen == len - HEAD_SIZE - CRC_SIZE
                && pkgBuffer != null && pkgBuffer.Length == len
              else
                status == Undefined
    {
      hide Size, HeadOf, LittleEndian;
      ghost var c, unread := State(), Unread();
      var raw := ReadHead();
      pkgHead := HeadOf(raw[..]);
      SizeOnTheWire(raw[..]);
      assert raw[..][9..HEAD_SIZE] == unread[8..12];
      pkgBufferIndex := HEAD_SIZE;
      if HEAD_SIZE + CRC_SIZE <= Size(pkgHead) <= INT_MAX {
        pkgBuffer := NewFrame(raw[..], Size(pkgHead));
        status := GetBody;
        bodyLen := Size(pkgHead) - HEAD_SIZE - CRC_SIZE;
      } else {
        // The original goes on with a buffer too small or an index that will overflow.
        pkgBuffer := raw;
        status := Undefined;
      }
      assert Step(c, unread) == (Consume(c, unread[..HEAD_SIZE - 1]), unread[HEAD_SIZE - 1..]);
      assert pkgBuffer[..pkgBufferIndex] == [TAG] + unread[..HEAD_SIZE - 1];
      assert State() == Consume(c, unread[..HEAD_SIZE - 1]);
      assert Parser.Valid(State());
    }

    lemma SizeOnTheWire(bytes: seq<Byte>)
      requires |bytes| >= HEAD_SIZE
      ensures Size(HeadOf(bytes)) == LittleEndian(bytes[9..HEAD_SIZE])
    {
      HeadOnTheWire(bytes);
    }

    // Moves the next `count` bytes from the ring to the end of the frame buffer.
    method Fill(count: nat)
      requires rb.Valid() && pkgBuffer != null && pkgBuffer != rb.buff
      requires pkgBufferIndex + count <= pkgBuffer.Length && count <= |Unread()|
      modifies `pkgBufferIndex, rb, pkgBuffer
      ensures rb.Valid() && Unread() == old(Unread())[count..]
      ensures pkgBufferIndex == old(pkgBufferIndex) + count
      ensures pkgBuffer[..pkgBufferIndex] == old(pkgBuffer[..pkgBufferIndex]) + old(Unread())[..count]
    {
      var n := rb.Read(pkgBuffer, pkgBufferIndex, count);
      pkgBufferIndex := pkgBufferIndex + count;
    }

    method TakeBody()
      requires Valid() && status == GetBody && Unread() != []
      modifies `status, `bodyLen, `pkgBufferIndex, rb, pkgBuffer
      ensures Valid() && (State(), Unread()) == Step(old(State()), old(Unread()))
    {
      hide Size, HeadOf;
      ghost var c, unread := State(), Unread();
      var canRead := rb.GetReadLen();
      var readLen := if canRead < bodyLen then canRead else bodyLen;
      Fill(readLen);
      bodyLen := bodyLen - readLen;
      if bodyLen == 0 {
        status := GetCRC;
      }
      ConsumeValid(c, unread[..readLen]);
      SameHead(c.buf, unread[..readLen]);
      assert State() == Consume(c, unread[..readLen]);
    }

    lemma SameHead(buf: seq<Byte>, more: seq<Byte>)
      requires |buf| >= HEAD_SIZE
      ensures HeadOf(buf + more) == HeadOf(buf)
    {
      HeadOfPrefix(buf);
      HeadOfPrefix(buf + more);
      assert (buf + more)[..HEAD_SIZE] == buf[..HEAD_SIZE];
    }

    // Unpack the frame and compare the checksums.
    method CheckFrame(frame: array<Byte>, len: nat) returns (pkg: Option<Pkg>)
      requires CRC_SIZE <= len <= frame.Length
      ensures Finish(frame[..len]) == if pkg.Some? then [pkg.value] else []
    {
      hide Size, HeadOf, Ccitt;
      var unpacked := Unpack(frame, len);
      if !unpacked.Unpacked? {
        return None;
      }
      var crc := Crc16TabCCITT(frame[..len - CRC_SIZE]);
      assert frame[..len][..len - CRC_SIZE] == frame[..len - CRC_SIZE];
      pkg := if crc != unpacked.pkg.crc then None else Some(unpacked.pkg);
    }

    /** The last two bytes, the two checks and the push. */
    method TakeCrc()
      requires Valid() && status == GetCRC && |Unread()| >= CRC_SIZE
      modifies `status, `bodyLen, `pkgBuffer, `pkgBufferIndex, `offered, rb, pkgBuffer, pkgs
      ensures Valid() && (State(), Unread()) == Step(old(State()), old(Unread()))
      ensures old(offered) <= offered
      ensures pkgs.q == old(pkgs.q) + if old(pkgs.Full()) then [] else offered[|old(offered)|..]
      ensures pkgs.max == old(pkgs.max) && pkgs.isSetMax == old(pkgs.isSetMax)
    {
      hide Size, HeadOf, Ccitt, Finish;
      ghost var c, unread := State(), Unread();
      Fill(CRC_SIZE);
      assert pkgBuffer[..Size(pkgHead)] == c.buf + unread[..CRC_SIZE];
      var pkg := CheckFrame(pkgBuffer, Size(pkgHead));
      if pkg.Some? {
        var pushed := pkgs.Push(pkg.value);
        offered := offered + [pkg.value];
      }
      ReleaseFrame();
      assert State() == Consume(c, unread[..CRC_SIZE]);
    }

    /** One loop iteration is one step of the parser. */
    method Iterate()
      requires Valid()
      modifies this, rb, pkgBuffer, pkgs
      ensures Valid() && (State(), Unread()) == Step(old(State()), old(Unread()))
      ensures old(offered) <= offered
      ensures pkgs.q == old(pkgs.q) + if old(pkgs.Full()) then [] else offered[|old(offered)|..]
      ensures pkgs.max == old(pkgs.max) && pkgs.isSetMax == old(pkgs.isSetMax)
    {
      var readable := rb.GetReadLen();
      if readable == 0 {
        return;
      }
      match status
      case Start =>
        FindTag();
      case GetHead =>
        if readable >= HEAD_SIZE - 1 {
          TakeHead();
        }
      case GetBody =>
        TakeBody();
      case GetCRC =>
        if readable >= CRC_SIZE {
          TakeCrc();
        }
      case Undefined =>
    }
  }
}
