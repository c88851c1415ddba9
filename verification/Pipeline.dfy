/**
 The socket thread and the parser thread sharing one ring, interleaved call by call.

 At a readable event the socket thread asks for the free space, asks again if it was smaller
 than its receive buffer, and later writes at most that much. One loop iteration of the
 parser thread is up to three calls: the emptiness check, the second look at the fill level
 that decides how much to read, and the read. Every call on the ring is one atomic step
 because each holds the ring's mutex.
 */
module Pipeline {
  import opened Basics
  import opened Package
  import opened Parser
  import opened Stream

  /** The size of the receive buffer. */
  const RECV_SIZE := 1024 * 1024

  /** `Asked` has found less room than the receive buffer has and asks again; `Room` is about
      to receive at most n bytes; `Closed` has received none and given the connection up. */
  datatype Writer = Away | Asked | Room(n: nat) | Closed

  datatype Reader = Top | Polling | Reading(n: nat)

  /** `written` and `read` record what the two threads moved, `failed` that a call on the
      ring was refused. */
  datatype System = System(
    cap: nat, fifo: seq<Byte>, core: Core, reader: Reader, writer: Writer,
    written: seq<Byte>, read: seq<Byte>, failed: bool)

  datatype Action = AskRoom | AskAgain | Receive(chunk: seq<Byte>) | CheckEmpty | Poll | Read

  function Initial(cap: nat): System {
    System(cap, [], INITIAL, Top, Away, [], [], false)
  }

  function Free(s: System): nat {
    if |s.fifo| <= s.cap then s.cap - |s.fifo| else 0
  }

  /** An action of a thread that is elsewhere leaves the system as it is. */
  function Next(s: System, a: Action): System {
    match a
    case AskRoom =>
      if s.writer != Away then s else s.(writer := if Free(s) < RECV_SIZE then Asked else Room(RECV_SIZE))
    case AskAgain =>
      if s.writer != Asked then s else s.(writer := Room(Free(s)))
    case Receive(chunk) =>
      if !s.writer.Room? || |chunk| > s.writer.n then s
      else if chunk == [] then s.(writer := Closed)
      else if |s.fifo| + |chunk| <= s.cap then
        s.(fifo := s.fifo + chunk, written := s.written + chunk, writer := Away)
      else s.(written := s.written + chunk, writer := Away, failed := true)
    case CheckEmpty =>
      if s.reader.Top? && |s.fifo| > 0 then s.(reader := Polling) else s
    case Poll =>
      if !s.reader.Polling? then s
      else (match Want(s.core, |s.fifo|)
            case None => s.(reader := Top)
            case Some(n) => s.(reader := Reading(n)))
    case Read =>
      if !s.reader.Reading? then s
      else
        var n := s.reader.n;
        if n <= |s.fifo| && Valid(s.core) && Wanted(s.core, n) then
          s.(core := Consume(s.core, s.fifo[..n]), fifo := s.fifo[n..], read := s.read + s.fifo[..n], reader := Top)
        else s.(reader := Top, failed := true)
  }

  function Run(s: System, actions: seq<Action>): System
    decreases |actions|
  {
    if actions == [] then s else Run(Next(s, actions[0]), actions[1..])
  }

  predicate Safe(s: System) {
    && !s.failed
    && |s.fifo| <= s.cap
    && s.written == s.read + s.fifo
    && Valid(s.core)
    && (s.writer.Room? ==> s.writer.n <= Free(s))
    && (s.reader.Polling? ==> |s.fifo| > 0)
    && (s.reader.Reading? ==> s.reader.n <= |s.fifo| && Wanted(s.core, s.reader.n))
  }

  /** Whatever arrives next, the receiver will deliver what the whole stream delivers. */
  ghost predicate Faithful(s: System) {
    forall rest: seq<Byte> :: Frames(s.written + rest) == Outcome(s.core, s.fifo + rest)
  }

  lemma WantIsWanted(c: Core, avail: nat)
    requires Want(c, avail).Some?
    ensures Wanted(c, Want(c, avail).value)
  {
  }

  lemma NextSafe(s: System, a: Action)
    requires Safe(s)
    ensures Safe(Next(s, a))
  {
    hide Consume, Want;
    if a == Read && s.reader.Reading? {
      ConsumeValid(s.core, s.fifo[..s.reader.n]);
    } else if a == Poll && Want(s.core, |s.fifo|).Some? {
      WantIsWanted(s.core, |s.fifo|);
    }
  }

  lemma NextFaithful(s: System, a: Action)
    requires Safe(s) && Faithful(s)
    ensures Faithful(Next(s, a))
  {
    hide Frames, Outcome, Consume, Want, Wanted;
    var t := Next(s, a);
    forall rest: seq<Byte>
      ensures Frames(t.written + rest) == Outcome(t.core, t.fifo + rest)
    {
      if a.Receive? && t != s {
        assert t.written + rest == s.written + (a.chunk + rest);
        assert t.fifo + rest == s.fifo + (a.chunk + rest);
      } else if a == Read && s.reader.Reading? {
        var n := s.reader.n;
        ConsumeKeepsOutcome(s.core, s.fifo[..n], s.fifo[n..] + rest);
        assert s.fifo[..n] + (s.fifo[n..] + rest) == s.fifo + rest;
      }
    }
  }

  /** In every interleaving no call on the ring is refused, the bytes written are the bytes
      read followed by the bytes stored, and the receiver stays faithful to the stream. */
  lemma {:induction false} EveryInterleaving(s: System, actions: seq<Action>)
    requires Safe(s) && Faithful(s)
    ensures Safe(Run(s, actions)) && Faithful(Run(s, actions))
    ensures Run(s, actions).cap == s.cap
    decreases |actions|
  {
    hide Safe, Faithful;
    if actions != [] {
      NextSafe(s, actions[0]);
      NextFaithful(s, actions[0]);
      EveryInterleaving(Next(s, actions[0]), actions[1..]);
    }
  }

  lemma InitiallySafe(cap: nat)
    ensures Safe(Initial(cap)) && Faithful(Initial(cap))
  {
    hide Frames;
    forall rest: seq<Byte>
      ensures Frames([] + rest) == Outcome(INITIAL, [] + rest)
    {
      assert [] + rest == rest;
    }
  }

  /** The same in plain words, for any run from the start. */
  lemma NoCallIsRefused(cap: nat, actions: seq<Action>)
    ensures var s := Run(Initial(cap), actions);
            !s.failed && |s.fifo| <= cap && s.written == s.read + s.fifo
  {
    InitiallySafe(cap);
    EveryInterleaving(Initial(cap), actions);
  }

  /** A refusal is what the ring answers to a write beyond its free space or a read beyond its
      bytes, had either thread ever tried one. */
  lemma RefusalsCount(s: System, chunk: seq<Byte>)
    ensures s.writer.Room? && 0 < |chunk| <= s.writer.n && |s.fifo| + |chunk| > s.cap ==>
              Next(s, Receive(chunk)).failed && Next(s, Receive(chunk)).fifo == s.fifo
    ensures s.reader.Reading? && s.reader.n > |s.fifo| ==>
              Next(s, Read).failed && Next(s, Read).fifo == s.fifo
  {
  }

  /** At any moment of any run over a well-formed stream, however it was cut into chunks,
      the packages delivered so far are the first ones sent, in order. */
  lemma DeliveredIsPrefix(cap: nat, actions: seq<Action>, segments: seq<Segment>)
    requires forall g | g in segments :: WellFormed(g)
    requires Run(Initial(cap), actions).written <= WireAll(segments)
    ensures Run(Initial(cap), actions).core.offered <= Packages(segments)
  {
    hide WellFormed, Frames, WireAll, Packages, Run;
    var s := Run(Initial(cap), actions);
    InitiallySafe(cap);
    EveryInterleaving(Initial(cap), actions);
    var rest := WireAll(segments)[|s.written|..];
    assert s.written + rest == WireAll(segments);
    StreamDelivers(segments);
    assert Outcome(s.core, s.fifo + rest) == Packages(segments);
  }

  /** Once everything was written and the receiver has nothing left to do, it has delivered
      exactly the packages sent. */
  lemma DeliveredIsEverything(cap: nat, actions: seq<Action>, segments: seq<Segment>)
    requires forall g | g in segments :: WellFormed(g)
    requires var s := Run(Initial(cap), actions); s.written == WireAll(segments) && Quiescent(s.core, s.fifo)
    ensures Run(Initial(cap), actions).core.offered == Packages(segments)
  {
    hide WellFormed, Frames, WireAll, Packages, Run;
    StreamDelivers(segments);
    QuiescentDelivery(cap, actions);
  }

  /** On any stream at all, a quiescent receiver has delivered the frames of the stream, so
      the result depends neither on the chunks nor on the interleaving nor on the ring. */
  lemma QuiescentDelivery(cap: nat, actions: seq<Action>)
    requires var s := Run(Initial(cap), actions); Quiescent(s.core, s.fifo)
    ensures var s := Run(Initial(cap), actions); s.core.offered == Frames(s.written)
  {
    hide Frames, Run, Quiescent, Outcome;
    var s := Run(Initial(cap), actions);
    InitiallySafe(cap);
    EveryInterleaving(Initial(cap), actions);
    QuiescentDeliveredAll(s.core, s.fifo);
    assert s.written + [] == s.written && s.fifo + [] == s.fifo;
  }

  lemma ChunksDoNotMatter(capA: nat, a: seq<Action>, capB: nat, b: seq<Action>)
    requires var s, t := Run(Initial(capA), a), Run(Initial(capB), b);
             s.written == t.written && Quiescent(s.core, s.fifo)
    ensures var s, t := Run(Initial(capA), a), Run(Initial(capB), b);
            t.core.offered <= s.core.offered && (Quiescent(t.core, t.fifo) ==> t.core.offered == s.core.offered)
  {
    hide Frames, Run, Quiescent;
    var t := Run(Initial(capB), b);
    QuiescentDelivery(capA, a);
    InitiallySafe(capB);
    EveryInterleaving(Initial(capB), b);
    assert t.written + [] == t.written;
    if Quiescent(t.core, t.fifo) {
      QuiescentDelivery(capB, b);
    }
  }

  // ---- The parser thread gets done ----

  const ROUND: seq<Action> := [CheckEmpty, Poll, Read]

  function Rounds(s: System, n: nat): System
    decreases n
  {
    if n == 0 then s else Rounds(Run(s, ROUND), n - 1)
  }

  /** Three uninterrupted calls of the parser thread are one step of the machine. */
  lemma RoundIsStep(s: System)
    requires Safe(s) && s.reader.Top?
    ensures var t := Run(s, ROUND);
            && Safe(t) && t.reader.Top? && (t.core, t.fifo) == Step(s.core, s.fifo)
            && t.written == s.written && t.writer == s.writer && t.cap == s.cap
  {
    hide Consume;
    var s1 := Next(s, CheckEmpty);
    var s2 := Next(s1, Poll);
    var t := Next(s2, Read);
    NextSafe(s, CheckEmpty);
    NextSafe(s1, Poll);
    NextSafe(s2, Read);
    assert ROUND[1..] == [Poll, Read] && [Poll, Read][1..] == [Read];
    assert Run(s2, [Read]) == Run(t, []);
  }

  lemma {:induction false} RoundsNeeded(s: System) returns (n: nat)
    requires Safe(s) && Faithful(s) && s.reader.Top?
    ensures n <= Measure(s.core, s.fifo)
    ensures var t := Rounds(s, n); Safe(t) && Faithful(t) && Quiescent(t.core, t.fifo) && t.written == s.written
    decreases Measure(s.core, s.fifo)
  {
    hide Safe, Faithful, Run, Next, Step;
    CoreOfSafe(s);
    if Quiescent(s.core, s.fifo) {
      n := 0;
    } else {
      RoundIsStep(s);
      EveryInterleaving(s, ROUND);
      StepDecreases(s.core, s.fifo);
      n := RoundsNeeded(Run(s, ROUND));
      n := n + 1;
    }
  }

  lemma CoreOfSafe(s: System)
    requires Safe(s)
    ensures Valid(s.core)
  {
  }

  /** Once a well-formed stream has been written, at most two rounds per byte still stored,
      and one more, deliver all of its packages. */
  lemma EventuallyEverything(cap: nat, actions: seq<Action>, segments: seq<Segment>) returns (n: nat)
    requires forall g | g in segments :: WellFormed(g)
    requires var s := Run(Initial(cap), actions); s.written == WireAll(segments) && s.reader.Top?
    ensures n <= 2 * |Run(Initial(cap), actions).fifo| + 1
    ensures Rounds(Run(Initial(cap), actions), n).core.offered == Packages(segments)
  {
    hide WellFormed, Frames, WireAll, Packages, Run, Rounds, Safe, Outcome, Quiescent;
    var s := Run(Initial(cap), actions);
    InitiallySafe(cap);
    EveryInterleaving(Initial(cap), actions);
    n := RoundsNeeded(s);
    var t := Rounds(s, n);
    CoreOfSafe(t);
    StreamDelivers(segments);
    QuiescentDeliveredAll(t.core, t.fifo);
    assert t.written + [] == t.written && t.fifo + [] == t.fifo;
  }

  // ---- The receive buffer ----

  /** What is about to be received fits the receive buffer. */
  predicate RoomFits(s: System) {
    s.writer.Room? ==> s.writer.n <= RECV_SIZE
  }

  lemma {:induction false} RunConcat(s: System, a: seq<Action>, b: seq<Action>)
    ensures Run(s, a + b) == Run(Run(s, a), b)
    decreases |a|
  {
    hide Next;
    if a == [] {
      assert a + b == b;
    } else {
      assert (a + b)[1..] == a[1..] + b;
      RunConcat(Next(s, a[0]), a[1..], b);
    }
  }

  lemma RunOne(s: System, a: Action)
    ensures Run(s, [a]) == Next(s, a)
  {
    hide Next;
    assert [a][1..] == [];
  }

  /** The socket thread can always receive what there is room for: left to itself it writes any
      chunk, not empty, that fits both the free space and the receive buffer, whole and unchanged. */
  lemma ReceivesWhatFits(s: System, chunk: seq<Byte>)
    requires Safe(s) && s.writer == Away && chunk != [] && |chunk| <= Free(s) && |chunk| <= RECV_SIZE
    ensures Run(s, [AskRoom, AskAgain, Receive(chunk)])
         == s.(fifo := s.fifo + chunk, written := s.written + chunk)
  {
    hide Run;
    var asked := Next(s, AskRoom);
    var again := Next(asked, AskAgain);
    RunOne(s, AskRoom);
    RunOne(asked, AskAgain);
    RunOne(again, Receive(chunk));
    RunConcat(asked, [AskAgain], [Receive(chunk)]);
    RunConcat(s, [AskRoom], [AskAgain] + [Receive(chunk)]);
    assert [AskRoom] + ([AskAgain] + [Receive(chunk)]) == [AskRoom, AskAgain, Receive(chunk)];
  }

  /** A full ring leaves room for nothing but the empty chunk that closes the connection. */
  lemma FullRingCloses(s: System, chunk: seq<Byte>)
    requires Safe(s) && s.writer == Away && |s.fifo| == s.cap
    ensures Run(s, [AskRoom, AskAgain, Receive(chunk)])
         == s.(writer := if chunk == [] then Closed else Room(0))
  {
    hide Run;
    var asked := Next(s, AskRoom);
    var again := Next(asked, AskAgain);
    RunOne(s, AskRoom);
    RunOne(asked, AskAgain);
    RunOne(again, Receive(chunk));
    RunConcat(asked, [AskAgain], [Receive(chunk)]);
    RunConcat(s, [AskRoom], [AskAgain] + [Receive(chunk)]);
    assert [AskRoom] + ([AskAgain] + [Receive(chunk)]) == [AskRoom, AskAgain, Receive(chunk)];
  }

  // Between frames, with nothing but zero bytes in the ring.
  predicate Quiet(s: System) {
    Safe(s) && s.core == INITIAL && s.reader == Top && forall b | b in s.fifo :: b == 0
  }

  // The socket thread fills the ring up to `size` bytes, one at a time.
  lemma {:induction false} FillUp(s: System, size: nat) returns (actions: seq<Action>)
    requires Quiet(s) && s.writer == Away && |s.fifo| <= size && size + RECV_SIZE <= s.cap + 1
    ensures var t := Run(s, actions); Quiet(t) && t.writer == Away && |t.fifo| == size && t.cap == s.cap
    decreases size - |s.fifo|
  {
    hide Run;
    if |s.fifo| == size {
      actions := [];
      RunNothing(s);
    } else {
      var t := Next(Next(s, AskRoom), Receive([0]));
      NextSafe(s, AskRoom);
      NextSafe(Next(s, AskRoom), Receive([0]));
      RunOne(s, AskRoom);
      RunOne(Next(s, AskRoom), Receive([0]));
      RunConcat(s, [AskRoom], [Receive([0])]);
      var rest := FillUp(t, size);
      actions := [AskRoom] + [Receive([0])] + rest;
      RunConcat(s, [AskRoom] + [Receive([0])], rest);
    }
  }

  lemma RunNothing(s: System)
    ensures Run(s, []) == s
  {
  }

  lemma QuietRound(s: System)
    requires Quiet(s) && s.fifo != []
    ensures var t := Run(s, ROUND);
            Quiet(t) && |t.fifo| == |s.fifo| - 1 && t.writer == s.writer && t.cap == s.cap
  {
    hide Run, Safe;
    assert s.fifo[0] in s.fifo;
    StepOfZero(s.fifo);
    RoundIsStep(s);
    assert forall b | b in s.fifo[1..] :: b in s.fifo;
  }

  lemma StepOfZero(fifo: seq<Byte>)
    requires fifo != [] && fifo[0] == 0
    ensures Step(INITIAL, fifo) == (INITIAL, fifo[1..])
  {
  }

  // The parser drains two bytes between the two questions.
  lemma RoomOutgrows(cap: nat) returns (actions: seq<Action>)
    requires cap > RECV_SIZE
    ensures !RoomFits(Run(Initial(cap), actions))
  {
    hide Run;
    InitiallySafe(cap);
    var fill := FillUp(Initial(cap), cap + 1 - RECV_SIZE);
    var s := Run(Initial(cap), fill);
    var t := Next(s, AskRoom);
    NextSafe(s, AskRoom);
    RunOne(s, AskRoom);
    assert t.writer == Asked;
    QuietRound(t);
    QuietRound(Run(t, ROUND));
    var u := Run(Run(t, ROUND), ROUND);
    RunOne(u, AskAgain);
    assert Next(u, AskAgain).writer == Room(RECV_SIZE + 1);
    RunConcat(Run(t, ROUND), ROUND, [AskAgain]);
    RunConcat(t, ROUND, ROUND + [AskAgain]);
    RunConcat(s, [AskRoom], ROUND + (ROUND + [AskAgain]));
    actions := fill + ([AskRoom] + (ROUND + (ROUND + [AskAgain])));
    RunConcat(Initial(cap), fill, [AskRoom] + (ROUND + (ROUND + [AskAgain])));
  }

  /** In every interleaving what is about to be received fits the receive buffer, exactly
      when the ring is no larger than that buffer. */
  lemma RoomFitsIff(cap: nat)
    ensures (forall actions :: RoomFits(Run(Initial(cap), actions))) <==> cap <= RECV_SIZE
  {
    if cap <= RECV_SIZE {
      forall actions ensures RoomFits(Run(Initial(cap), actions)) {
        InitiallySafe(cap);
        EveryInterleaving(Initial(cap), actions);
      }
    } else {
      var actions := RoomOutgrows(cap);
    }
  }
}
