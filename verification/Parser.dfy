/**
 The four-state receiver of MyTcpHandler as a function of its state and the bytes it has
 not read yet, and the independent definition of what a byte stream delivers.
 */
module Parser {
  import opened Basics
  import opened Crc
  import opened CrcTable
  import opened Package

  /** `Undefined` is reached by a head whose length field the original cannot handle: below
      15 it copies past its buffer, above INT_MAX its buffer index overflows. */
  datatype Status = Start | GetHead | GetBody | GetCRC | Undefined

  /** `buf` is the filled part of pkgBuffer and `offered` all packages handed to pkgs.push. */
  datatype Core = Core(status: Status, buf: seq<Byte>, bodyLen: nat, offered: seq<Pkg>)

  const INITIAL := Core(Start, [], 0, [])

  predicate UsableLength(n: nat) {
    HEAD_SIZE + CRC_SIZE <= n <= INT_MAX
  }

  // ---- What a complete byte stream delivers ----

  /** Skip to the next tag, take the announced number of bytes, keep the frame if intact. */
  function Frames(stream: seq<Byte>): seq<Pkg>
    decreases |stream|
  {
    if stream == [] then []
    else if stream[0] != TAG then Frames(stream[1..])
    else if |stream| < HEAD_SIZE || !UsableLength(LengthField(stream)) || |stream| < LengthField(stream) then []
    else
      var n := LengthField(stream);
      Delivery(stream[..n]) + Frames(stream[n..])
  }

  function Delivery(frame: seq<Byte>): seq<Pkg>
    requires |frame| >= HEAD_SIZE + CRC_SIZE
  {
    if Intact(frame) then [Decode(frame)] else []
  }

  // ---- The machine ----

  predicate Valid(c: Core) {
    match c.status
    case Start => c.buf == [] && c.bodyLen == 0
    case GetHead => c.buf == [] && c.bodyLen == 0
    case GetBody => Partial(c.buf) && |c.buf| + c.bodyLen + CRC_SIZE == LengthField(c.buf)
    case GetCRC => Partial(c.buf) && |c.buf| + CRC_SIZE == LengthField(c.buf) && c.bodyLen == 0
    case Undefined => |c.buf| == HEAD_SIZE && c.buf[0] == TAG && !UsableLength(LengthField(c.buf))
  }

  predicate Partial(buf: seq<Byte>) {
    |buf| >= HEAD_SIZE && buf[0] == TAG && UsableLength(LengthField(buf))
  }

  /** How many bytes one loop iteration reads when it sees `avail` unread ones, if it acts at all. */
  function Want(c: Core, avail: nat): (n: Option<nat>)
    ensures n.Some? ==> n.value <= avail
  {
    if avail == 0 then None
    else match c.status
      case Start => Some(1)
      case GetHead => if avail >= HEAD_SIZE - 1 then Some(HEAD_SIZE - 1) else None
      case GetBody => Some(if avail < c.bodyLen then avail else c.bodyLen)
      case GetCRC => if avail >= CRC_SIZE then Some(CRC_SIZE) else None
      case Undefined => None
  }

  predicate Wanted(c: Core, n: nat) {
    match c.status
    case Start => n == 1
    case GetHead => n == HEAD_SIZE - 1
    case GetBody => n <= c.bodyLen
    case GetCRC => n == CRC_SIZE
    case Undefined => false
  }

  /** The effect of reading `bytes`. */
  function Consume(c: Core, bytes: seq<Byte>): Core
    requires Valid(c) && Wanted(c, |bytes|)
  {
    match c.status
    case Start => if bytes[0] == TAG then c.(status := GetHead) else c
    case GetHead =>
      var buf := [TAG] + bytes;
      if UsableLength(LengthField(buf)) then
        c.(status := GetBody, buf := buf, bodyLen := LengthField(buf) - HEAD_SIZE - CRC_SIZE)
      else c.(status := Undefined, buf := buf)
    case GetBody =>
      var left := c.bodyLen - |bytes|;
      c.(status := if left == 0 then GetCRC else GetBody, buf := c.buf + bytes, bodyLen := left)
    case GetCRC =>
      Core(Start, [], 0, c.offered + Finish(c.buf + bytes))
  }

  // The end of a frame: unpack it, compare the checksums, push.
  function Finish(frame: seq<Byte>): seq<Pkg> {
    match UnpackSpec(frame)
    case Unpacked(pkg) =>
      if |frame| >= CRC_SIZE && Ccitt(frame[..|frame| - CRC_SIZE]) == pkg.crc then [pkg] else []
    case _ => []
  }

  function Step(c: Core, unread: seq<Byte>): (Core, seq<Byte>)
    requires Valid(c)
  {
    match Want(c, |unread|)
    case None => (c, unread)
    case Some(n) => (Consume(c, unread[..n]), unread[n..])
  }

  lemma LengthFieldOfPrefix(buf: seq<Byte>, more: seq<Byte>)
    requires |buf| >= HEAD_SIZE
    ensures LengthField(buf + more) == LengthField(buf)
  {
    HeadOfPrefix(buf);
    HeadOfPrefix(buf + more);
    assert (buf + more)[..HEAD_SIZE] == buf[..HEAD_SIZE];
  }

  lemma ConsumeValid(c: Core, bytes: seq<Byte>)
    requires Valid(c) && Wanted(c, |bytes|)
    ensures Valid(Consume(c, bytes))
  {
    hide Size, HeadOf, Ccitt;
    if c.status == GetBody {
      LengthFieldOfPrefix(c.buf, bytes);
    }
  }

  // ---- The machine computes Frames, whatever the chunks ----

  /** The bytes already read that belong to a frame not finished yet. */
  function Pending(c: Core): seq<Byte> {
    if c.status == GetHead then [TAG] else c.buf
  }

  /** What the state will have delivered once `rest` has been parsed too. */
  function Outcome(c: Core, rest: seq<Byte>): seq<Pkg> {
    c.offered + Frames(Pending(c) + rest)
  }

  lemma FinishIsDelivery(frame: seq<Byte>)
    requires |frame| >= HEAD_SIZE + CRC_SIZE && LengthField(frame) == |frame|
    ensures UnpackSpec(frame) == Unpacked(Decode(frame))
    ensures Finish(frame) == Delivery(frame)
  {
    hide Size, HeadOf, Ccitt;
  }

  lemma FramesOfFrame(frame: seq<Byte>, rest: seq<Byte>)
    requires Partial(frame) && |frame| == LengthField(frame)
    ensures Frames(frame + rest) == Delivery(frame) + Frames(rest)
  {
    hide Size, HeadOf, Ccitt;
    LengthFieldOfPrefix(frame, rest);
    assert (frame + rest)[..|frame|] == frame;
    assert (frame + rest)[|frame|..] == rest;
  }

  /** Reading never changes the outcome: the invariant behind every theorem below. */
  lemma ConsumeKeepsOutcome(c: Core, bytes: seq<Byte>, rest: seq<Byte>)
    requires Valid(c) && Wanted(c, |bytes|)
    ensures Outcome(Consume(c, bytes), rest) == Outcome(c, bytes + rest)
  {
    hide Size, HeadOf, Ccitt, Intact, Decode;
    assert Pending(c) + bytes + rest == Pending(c) + (bytes + rest);
    match c.status
    case Start =>
      if bytes[0] != TAG {
        assert (bytes + rest)[1..] == rest;
        assert [] + rest == rest && [] + (bytes + rest) == bytes + rest;
      } else {
        assert bytes == [TAG];
        assert [] + (bytes + rest) == [TAG] + rest;
      }
    case GetHead =>
    case GetBody =>
    case GetCRC =>
      var frame := c.buf + bytes;
      LengthFieldOfPrefix(c.buf, bytes);
      FinishIsDelivery(frame);
      FramesOfFrame(frame, rest);
      assert [] + rest == rest;
      assert c.offered + (Delivery(frame) + Frames(rest)) == c.offered + Delivery(frame) + Frames(rest);
  }

  lemma StepKeepsOutcome(c: Core, unread: seq<Byte>, rest: seq<Byte>)
    requires Valid(c)
    ensures var (c', unread') := Step(c, unread);
            Valid(c') && Outcome(c', unread' + rest) == Outcome(c, unread + rest)
  {
    hide Size, HeadOf, Ccitt, Frames, Consume;
    var want := Want(c, |unread|);
    if want.Some? {
      var bytes := unread[..want.value];
      ConsumeValid(c, bytes);
      ConsumeKeepsOutcome(c, bytes, unread[want.value..] + rest);
      assert bytes + (unread[want.value..] + rest) == unread + rest;
    }
  }

  // ---- Progress ----

  predicate Quiescent(c: Core, unread: seq<Byte>) {
    Want(c, |unread|) == None
  }

  /** Decreases at every iteration that acts, even at the one that only leaves an empty body. */
  function Measure(c: Core, unread: seq<Byte>): nat {
    2 * |unread| + if c.status == GetBody then 1 else 0
  }

  lemma StepDecreases(c: Core, unread: seq<Byte>)
    requires Valid(c) && !Quiescent(c, unread)
    ensures var (c', unread') := Step(c, unread); Measure(c', unread') < Measure(c, unread)
  {
    hide Size, HeadOf, Ccitt;
  }

  lemma QuiescentDeliveredAll(c: Core, unread: seq<Byte>)
    requires Valid(c) && Quiescent(c, unread)
    ensures Outcome(c, unread) == c.offered
  {
    hide Size, HeadOf, Ccitt;
    if c.status == Start {
      assert [] + unread == [];
    } else if c.status != GetHead {
      LengthFieldOfPrefix(c.buf, unread);
    }
  }

  /** An iteration in the body takes as much as there is: it leaves either no byte unread or none
      of the body missing. */
  lemma BodyIsTakenWhole(c: Core, unread: seq<Byte>)
    requires Valid(c) && c.status == GetBody && unread != []
    ensures var (c', unread') := Step(c, unread);
            if unread' == [] && c'.bodyLen > 0 then c'.status == GetBody
            else c'.status == GetCRC && c'.bodyLen == 0 && c'.buf == c.buf + unread[..c.bodyLen]
  {
    hide Size, HeadOf;
  }

  /** A full ring of at least twelve bytes is drained by one byte within two iterations. */
  lemma FullRingIsDrained(c: Core, unread: seq<Byte>)
    requires Valid(c) && c.status != Undefined && |unread| >= HEAD_SIZE - 1
    ensures var (c1, unread1) := Step(c, unread);
            Valid(c1) && (|unread1| < |unread| || |Step(c1, unread1).1| < |unread|)
  {
    StepKeepsOutcome(c, unread, []);
    hide Size, HeadOf, Ccitt;
  }

  // ---- Every schedule completes ----

  /** A receiver behind a ring and the bytes that have not been written into it yet. */
  datatype Feeding = Feeding(core: Core, unread: seq<Byte>, input: seq<Byte>)

  /** The writer writes some bytes for which there is room, or the parser iterates. */
  datatype Turn = Feed(n: nat) | Parse

  predicate Fits(f: Feeding, cap: nat) {
    Valid(f.core) && |f.unread| <= cap
  }

  /** A turn that is not possible changes nothing; in particular nothing is received into a
      full ring. */
  function Turned(f: Feeding, t: Turn, cap: nat): Feeding
    requires Fits(f, cap)
  {
    match t
    case Feed(n) =>
      if n > |f.input| || |f.unread| + n > cap then f
      else f.(unread := f.unread + f.input[..n], input := f.input[n..])
    case Parse =>
      var (core, unread) := Step(f.core, f.unread);
      f.(core := core, unread := unread)
  }

  function FeedingMeasure(f: Feeding): nat {
    Measure(f.core, f.unread) + 3 * |f.input|
  }

  function FeedingOutcome(f: Feeding): seq<Pkg> {
    Outcome(f.core, f.unread + f.input)
  }

  lemma TurnKeepsOutcome(f: Feeding, t: Turn, cap: nat)
    requires Fits(f, cap)
    ensures var g := Turned(f, t, cap);
            && Fits(g, cap) && FeedingOutcome(g) == FeedingOutcome(f)
            && (g != f ==> FeedingMeasure(g) < FeedingMeasure(f))
  {
    hide Frames, Consume, Outcome;
    match t
    case Feed(n) =>
      if n <= |f.input| {
        assert f.unread + f.input[..n] + f.input[n..] == f.unread + f.input;
        assert n == 0 ==> Turned(f, t, cap) == f;
      }
    case Parse =>
      StepKeepsOutcome(f.core, f.unread, f.input);
      if !Quiescent(f.core, f.unread) {
        StepDecreases(f.core, f.unread);
      }
  }

  ghost predicate Stuck(f: Feeding, cap: nat)
    requires Fits(f, cap)
  {
    forall t :: Turned(f, t, cap) == f
  }

  /** Nothing can go on: then everything has been delivered, and unless a head with an
      unusable length has stopped the machine everything has been written. */
  lemma StuckIsDone(f: Feeding, cap: nat)
    requires Fits(f, cap) && cap >= HEAD_SIZE - 1 && Stuck(f, cap)
    ensures f.core.offered == FeedingOutcome(f) && (f.core.status != Undefined ==> f.input == [])
  {
    hide Size, HeadOf, Ccitt;
    assert Turned(f, Parse, cap) == f;
    if !Quiescent(f.core, f.unread) {
      StepDecreases(f.core, f.unread);
    }
    assert Turned(f, Feed(1), cap) == f;
    if f.core.status == Undefined {
      LengthFieldOfPrefix(f.core.buf, f.unread + f.input);
    } else {
      QuiescentDeliveredAll(f.core, f.unread);
      assert f.input == [];
      assert f.unread + [] == f.unread;
    }
  }

  predicate Turns(f: Feeding, turns: seq<Turn>, cap: nat)
    requires Fits(f, cap)
    decreases |turns|
  {
    turns == [] ||
    (TurnKeepsOutcome(f, turns[0], cap);
     Turned(f, turns[0], cap) != f && Turns(Turned(f, turns[0], cap), turns[1..], cap))
  }

  function AfterTurns(f: Feeding, turns: seq<Turn>, cap: nat): Feeding
    requires Fits(f, cap)
    decreases |turns|
  {
    if turns == [] then f
    else
      TurnKeepsOutcome(f, turns[0], cap);
      AfterTurns(Turned(f, turns[0], cap), turns[1..], cap)
  }

  /** Through any ring of at least twelve bytes every schedule of writes and iterations that
      do something is finite, whatever the sizes of frames and writes, and where it cannot go
      on it has delivered exactly the frames of the whole input. */
  lemma {:induction false} EveryScheduleCompletes(f: Feeding, turns: seq<Turn>, cap: nat)
    requires Fits(f, cap) && cap >= HEAD_SIZE - 1 && Turns(f, turns, cap)
    ensures |turns| <= FeedingMeasure(f)
    ensures var g := AfterTurns(f, turns, cap);
            Fits(g, cap) && FeedingOutcome(g) == FeedingOutcome(f)
            && (Stuck(g, cap) ==>
                  g.core.offered == FeedingOutcome(f) && (g.core.status != Undefined ==> g.input == []))
    decreases |turns|
  {
    hide Turned, FeedingMeasure, FeedingOutcome, Fits;
    if turns == [] {
      if Stuck(f, cap) {
        StuckIsDone(f, cap);
      }
    } else {
      TurnKeepsOutcome(f, turns[0], cap);
      EveryScheduleCompletes(Turned(f, turns[0], cap), turns[1..], cap);
    }
  }

  /** Twelve bytes are needed: a smaller ring, full behind a tag, never takes the head. */
  lemma SmallRingSticks(cap: nat, unread: seq<Byte>, input: seq<Byte>)
    requires |unread| == cap < HEAD_SIZE - 1
    ensures var f := Feeding(INITIAL.(status := GetHead), unread, input); Fits(f, cap) && Stuck(f, cap)
  {
    var f := Feeding(INITIAL.(status := GetHead), unread, input);
    forall t ensures Turned(f, t, cap) == f {
      if t.Feed? {
        assert t.n <= |input| && cap + t.n <= cap ==> t.n == 0;
        assert unread + input[..0] == unread;
      }
    }
  }
}
