/**
 Alignment while messages keep arriving. A push locks one window only, and the task locks
 that window anew for every look, so pushes come between any two looks of a task call. Each
 size test, each look and each push is one step.
 */
module AlignmentThreads {
  import opened Basics
  import opened Alignment

  // ---- The scan of one road ----

  /** Where ThreadGetDataInRange is: its emptiness test, its loop test, the look at one
      message, or behind the loop. */
  datatype Spot = AtEmpty | AtTest | AtLook | Over

  /** For the theorems the scan remembers the window of its first look, what has been pushed
      since, and the window of its last step. */
  datatype Scan = Scan(
    spot: Spot, look: nat, found: Option<Message>, first: Road, pushed: seq<Message>, last: Road)

  const FRESH := Scan(AtEmpty, 0, None, [], [], [])

  /** One step of the scan, on the window as it is by now. A look behind the end is an
      exception that getIOffset turns into a miss. */
  function ScanStep(c: Scan, window: Road, time: Time, fs: Interval): Scan {
    match c.spot
    case AtEmpty => if window == [] then c.(spot := Over, pushed := []) else c.(spot := AtTest)
    case AtTest => if c.look < |window| then c.(spot := AtLook) else c.(spot := Over, last := window)
    case AtLook =>
      var d := if c.look == 0 then c.(first := window, pushed := []) else c;
      if c.look < |window| && Near(window[c.look], time, fs) then
        d.(spot := Over, found := Some(window[c.look]), last := window)
      else d.(spot := AtTest, look := c.look + 1)
    case Over => c
  }

  function Noticed(c: Scan, m: Message): Scan {
    if c.spot == Over then c else c.(pushed := c.pushed + [m])
  }

  predicate NoneNear(road: Road, n: nat, time: Time, fs: Interval)
    requires n <= |road|
  {
    forall k | 0 <= k < n :: !Near(road[k], time, fs)
  }

  /** The window is what the pushes have made of the first one, and as long as nothing can
      have been evicted every message in front of the next look has been looked at. */
  predicate ScanRight(c: Scan, window: Road, time: Time, fs: Interval, cap: nat) {
    && |window| <= cap
    && match c.spot
       case AtEmpty => c.look == 0 && c.found == None && c.first == c.last == []
       case AtTest => c.found == None && (if c.look == 0 then window != [] else Unseen(c, window, time, fs, cap))
       case AtLook => c.found == None && c.look < |window| && (c.look > 0 ==> Unseen(c, window, time, fs, cap))
       case Over => ScanDone(c, time, fs, cap)
  }

  predicate Unseen(c: Scan, window: Road, time: Time, fs: Interval, cap: nat) {
    && c.look <= |window|
    && window == Last(c.first + c.pushed, cap)
    && (|c.first| + |c.pushed| <= cap ==> NoneNear(window, c.look, time, fs))
  }

  /** What a scan has found when it ends. */
  predicate ScanDone(c: Scan, time: Time, fs: Interval, cap: nat) {
    && c.last == Last(c.first + c.pushed, cap)
    && (c.found.Some? ==> Near(c.found.value, time, fs) && c.found.value in c.last)
    && (|c.first| + |c.pushed| <= cap ==> c.found == Pick(c.last, time, fs))
  }

  lemma {:induction false} PickAt(road: Road, k: nat, time: Time, fs: Interval)
    requires k <= |road| && NoneNear(road, k, time, fs)
    ensures k == |road| ==> Pick(road, time, fs) == None
    ensures k < |road| && Near(road[k], time, fs) ==> Pick(road, time, fs) == Some(road[k])
  {
    if k > 0 {
      assert forall j | 0 <= j < k - 1 :: road[1..][j] == road[j + 1];
      PickAt(road[1..], k - 1, time, fs);
    }
  }

  lemma ScanStepRight(c: Scan, window: Road, time: Time, fs: Interval, cap: nat)
    requires ScanRight(c, window, time, fs, cap)
    ensures ScanRight(ScanStep(c, window, time, fs), window, time, fs, cap)
  {
    hide Near, Pick;
    if c.spot == AtTest && c.look > 0 && c.look >= |window| {
      if |c.first| + |c.pushed| <= cap {
        PickAt(window, c.look, time, fs);
      }
    } else if c.spot == AtLook {
      if c.look == 0 {
        assert window + [] == window;
      }
      if c.look == 0 || |c.first| + |c.pushed| <= cap {
        PickAt(window, c.look, time, fs);
      }
    }
  }

  lemma NoticedRight(c: Scan, window: Road, m: Message, time: Time, fs: Interval, cap: nat)
    requires ScanRight(c, window, time, fs, cap)
    ensures ScanRight(Noticed(c, m), Pushed(window, m, cap), time, fs, cap)
  {
    hide Near, Pick, Last, ScanDone, Unseen;
    PushedFits(window, m, cap);
    if (c.spot == AtTest || c.spot == AtLook) && c.look > 0 {
      NoticedUnseen(c, window, m, time, fs, cap);
    }
  }

  lemma PushedFits(window: Road, m: Message, cap: nat)
    requires |window| <= cap
    ensures |window| <= |Pushed(window, m, cap)| <= cap
  {
  }

  lemma NoticedUnseen(c: Scan, window: Road, m: Message, time: Time, fs: Interval, cap: nat)
    requires c.spot != Over && |window| <= cap && Unseen(c, window, time, fs, cap)
    ensures Unseen(Noticed(c, m), Pushed(window, m, cap), time, fs, cap)
  {
    hide Near;
    var all := c.first + c.pushed;
    assert c.first + (c.pushed + [m]) == all + [m];
  }

  // ---- A task call between pushes ----

  /** Where the task is: the size test and the second size read of each road, the look that
      calibrates, and the scans, of which `done` have ended. */
  datatype Phase =
    | Idle
    | AtSize(i: nat, size: nat, longest: nat)
    | AtTake(i: nat, size: nat, longest: nat)
    | Calibrating
    | Scanning(reference: Road, done: seq<Scan>, scan: Scan)

  /** A frame, the window that held its time, and the scans that filled it. */
  datatype Accepted = Accepted(time: Time, reference: Road, frame: seq<Option<Message>>, scans: seq<Scan>)

  datatype System = System(u: Unit, phase: Phase, log: seq<Accepted>)

  datatype Event = Push(road: nat, message: Message) | CallTask | TaskStep

  function Next(s: System, e: Event): System
    requires Safe(s)
  {
    match e
    case Push(road, m) => if road < |s.u.roads| then AfterPush(s, road, m) else s
    case CallTask => if s.phase == Idle then s.(phase := AtSize(0, 0, 0)) else s
    case TaskStep => AfterStep(s)
  }

  function AfterPush(s: System, road: nat, m: Message): System
    requires road < |s.u.roads|
  {
    var t := s.(u := s.u.(roads := s.u.roads[road := Pushed(s.u.roads[road], m, s.u.cap)]));
    if s.phase.Scanning? && |s.phase.done| == road then t.(phase := s.phase.(scan := Noticed(s.phase.scan, m))) else t
  }

  function AfterStep(s: System): System
    requires Safe(s)
  {
    match s.phase
    case Idle => s
    case AtSize(i, size, longest) =>
      if i < |s.u.roads| then
        s.(phase := if |s.u.roads[i]| > size then AtTake(i, size, longest) else AtSize(i + 1, size, longest))
      else if size >= s.u.cache then
        s.(u := if s.u.index == -1 then s.u.(index := longest) else s.u, phase := Calibrating)
      else s.(phase := Idle)
    case AtTake(i, size, longest) => s.(phase := AtSize(i + 1, |s.u.roads[i]|, i))
    case Calibrating => AfterCalibration(s)
    case Scanning(reference, done, scan) =>
      if scan.spot != Over then AfterScanStep(s)
      else if |done| + 1 < |s.u.roads| then s.(phase := Scanning(reference, done + [scan], FRESH))
      else System(s.u, Idle, s.log + [Accepted(s.u.cur, reference, s.u.oneFrame, done + [scan])])
  }

  function AfterCalibration(s: System): System
    requires Valid(s.u)
  {
    match At(s.u, s.u.index, s.u.cache / 2)
    case None => s.(u := Rotated(s.u), phase := Idle)
    case Some(refer) =>
      if Stale(s.u, refer) then
        var v := s.u.(searchCount := s.u.searchCount + 1);
        s.(u := if Impatient(s.u, v.searchCount) then Rotated(v) else v, phase := Idle)
      else
        s.(u := s.u.(searchCount := 0, store := refer.timestamp, cur := refer.timestamp,
                     oneFrame := seq(|s.u.roads|, _ => None)),
           phase := Scanning(s.u.roads[s.u.index], [], FRESH))
  }

  // A message found fills the slot and the time of its road at once.
  function AfterScanStep(s: System): System
    requires s.phase.Scanning? && |s.phase.done| < |s.u.roads| == |s.u.oneFrame| == |s.u.xRoad|
  {
    var i := |s.phase.done|;
    var c := ScanStep(s.phase.scan, s.u.roads[i], s.u.cur, s.u.fs);
    var t := s.(phase := s.phase.(scan := c));
    if c.found.Some? then
      t.(u := t.u.(oneFrame := t.u.oneFrame[i := c.found], xRoad := t.u.xRoad[i := c.found.value.timestamp]))
    else t
  }

  // ---- Safety in every interleaving ----

  /** The slots come from scans that have ended, and the time from a window that held it. */
  predicate Correct(a: Accepted, fs: Interval, cap: nat) {
    && HasTime(a.reference, a.time)
    && |a.scans| == |a.frame|
    && forall i | 0 <= i < |a.frame| :: Filled(a.frame[i], a.scans[i], a.time, fs, cap)
  }

  predicate HasTime(road: Road, time: Time) {
    exists k | 0 <= k < |road| :: road[k].timestamp == time
  }

  predicate Filled(slot: Option<Message>, c: Scan, time: Time, fs: Interval, cap: nat) {
    c.found == slot && ScanDone(c, time, fs, cap)
  }

  predicate Safe(s: System) {
    && Valid(s.u)
    && (forall i | 0 <= i < |s.u.roads| :: |s.u.roads[i]| <= s.u.cap)
    && LogRight(s.log, s.u.fs, s.u.cap)
    && TimesKept(s)
    && match s.phase
       case Idle => Shown(s)
       case AtSize(i, size, longest) => Shown(s) && longest <= i <= |s.u.roads|
       case AtTake(i, size, longest) => Shown(s) && longest <= i < |s.u.roads|
       case Calibrating => Shown(s)
       case Scanning(reference, done, scan) => ScanningRight(s, reference, done, scan)
  }

  predicate LogRight(log: seq<Accepted>, fs: Interval, cap: nat) {
    && (forall k | 0 <= k < |log| :: Correct(log[k], fs, cap))
    && (forall k | 0 < k < |log| :: log[k - 1].time + fs <= log[k].time)
  }

  /** Between task calls the unit shows the frame accepted last. */
  predicate Shown(s: System) {
    s.log != [] ==>
      var a := s.log[|s.log| - 1];
      s.u.store == s.u.cur == a.time && s.u.oneFrame == a.frame
  }

  predicate ScanningRight(s: System, reference: Road, done: seq<Scan>, scan: Scan) {
    && |done| < |s.u.roads| == |s.u.oneFrame|
    && s.u.store == s.u.cur
    && HasTime(reference, s.u.cur)
    && (s.log != [] ==> s.log[|s.log| - 1].time + s.u.fs <= s.u.cur)
    && (forall k | 0 <= k < |done| :: Filled(s.u.oneFrame[k], done[k], s.u.cur, s.u.fs, s.u.cap))
    && s.u.oneFrame[|done|] == scan.found
    && ScanRight(scan, s.u.roads[|done|], s.u.cur, s.u.fs, s.u.cap)
    && (forall k | |done| < k < |s.u.roads| :: s.u.oneFrame[k] == None)
  }

  /** The time of the message that road i contributed last, or 0. */
  function LastSelected(log: seq<Accepted>, i: nat): Time {
    if log == [] then 0
    else Selected(log[|log| - 1].frame, i, LastSelected(log[..|log| - 1], i))
  }

  function Selected(frame: seq<Option<Message>>, i: nat, otherwise: Time): Time {
    if i < |frame| && frame[i].Some? then frame[i].value.timestamp else otherwise
  }

  predicate TimesKept(s: System) {
    forall i | 0 <= i < |s.u.xRoad| ::
      var last := LastSelected(s.log, i);
      s.u.xRoad[i] == if s.phase.Scanning? then Selected(s.u.oneFrame, i, last) else last
  }

  lemma PushSafe(s: System, road: nat, m: Message)
    requires Safe(s) && road < |s.u.roads|
    ensures Safe(AfterPush(s, road, m))
  {
    hide ScanRight, ScanDone, Correct, LastSelected, Filled;
    if s.phase.Scanning? && |s.phase.done| == road {
      NoticedRight(s.phase.scan, s.u.roads[road], m, s.u.cur, s.u.fs, s.u.cap);
      NoticedFound(s.phase.scan, m);
    }
  }

  lemma NoticedFound(c: Scan, m: Message)
    ensures Noticed(c, m).found == c.found
  {
  }

  lemma ScanStepSafe(s: System)
    requires Safe(s) && s.phase.Scanning? && s.phase.scan.spot != Over
    ensures Safe(AfterScanStep(s))
  {
    hide ScanRight, Correct, LastSelected, ScanStep, Filled;
    var i := |s.phase.done|;
    ScanStepRight(s.phase.scan, s.u.roads[i], s.u.cur, s.u.fs, s.u.cap);
    NothingYet(s.phase.scan, s.u.roads[i], s.u.cur, s.u.fs, s.u.cap);
  }

  lemma NothingYet(c: Scan, window: Road, time: Time, fs: Interval, cap: nat)
    requires ScanRight(c, window, time, fs, cap)
    ensures c.spot != Over ==> c.found == None
    ensures c.spot == Over ==> ScanDone(c, time, fs, cap)
    ensures ScanRight(FRESH, window, time, fs, cap)
  {
  }

  lemma CalibrationSafe(s: System)
    requires Safe(s) && s.phase == Calibrating
    ensures Safe(AfterCalibration(s))
  {
    hide Correct, LastSelected, Filled, Impatient;
    var refer := At(s.u, s.u.index, s.u.cache / 2);
    if refer.Some? {
      assert HasTime(s.u.roads[s.u.index], refer.value.timestamp);
    }
  }

  lemma ScanOverSafe(s: System)
    requires Safe(s) && s.phase.Scanning? && s.phase.scan.spot == Over
    ensures Safe(AfterStep(s))
  {
    hide ScanRight, ScanDone, LastSelected;
    var i := |s.phase.done|;
    NothingYet(s.phase.scan, s.u.roads[i], s.u.cur, s.u.fs, s.u.cap);
    if i + 1 < |s.u.roads| {
      EmptyScanRight(s.u.roads[i + 1], s.u.cur, s.u.fs, s.u.cap);
    } else {
      var t := AfterStep(s);
      assert t.log[..|s.log|] == s.log;
      LoggedKeepsTimes(s, t);
    }
  }

  lemma EmptyScanRight(window: Road, time: Time, fs: Interval, cap: nat)
    requires |window| <= cap
    ensures ScanRight(FRESH, window, time, fs, cap)
  {
  }

  lemma LoggedKeepsTimes(s: System, t: System)
    requires TimesKept(s) && s.phase.Scanning? && t.phase == Idle && t.u == s.u
    requires t.log != [] && t.log[..|t.log| - 1] == s.log && t.log[|t.log| - 1].frame == s.u.oneFrame
    ensures TimesKept(t)
  {
  }

  lemma NextSafe(s: System, e: Event)
    requires Safe(s)
    ensures Safe(Next(s, e)) && SameUnit(s, Next(s, e))
  {
    hide ScanRight, ScanStep, LogRight, LastSelected, Selected, Filled, Impatient;
    match e
    case Push(road, m) => if road < |s.u.roads| { PushSafe(s, road, m); }
    case CallTask =>
    case TaskStep =>
      if s.phase.Calibrating? {
        CalibrationSafe(s);
      } else if s.phase.Scanning? {
        if s.phase.scan.spot == Over { ScanOverSafe(s); } else { ScanStepSafe(s); }
      }
  }

  predicate SameUnit(s: System, t: System) {
    t.u.fs == s.u.fs && t.u.cap == s.u.cap && t.u.cache == s.u.cache && t.u.interval == s.u.interval
    && |t.u.roads| == |s.u.roads|
  }

  function Run(s: System, events: seq<Event>): System
    requires Safe(s)
    decreases |events|
  {
    if events == [] then s
    else
      NextSafe(s, events[0]);
      Run(Next(s, events[0]), events[1..])
  }

  /** In every interleaving of pushes and the steps of task calls the accepted frames are
      correct, and each frame's time is at least `fs` after the one before. */
  lemma {:induction false} EveryInterleaving(s: System, events: seq<Event>)
    requires Safe(s)
    ensures Safe(Run(s, events)) && SameUnit(s, Run(s, events))
    decreases |events|
  {
    if events != [] {
      hide Next, Safe;
      NextSafe(s, events[0]);
      EveryInterleaving(Next(s, events[0]), events[1..]);
    }
  }

  /** The messages pushed onto a road, in order. */
  function PushedTo(events: seq<Event>, road: nat): seq<Message> {
    if events == [] then []
    else (if events[0].Push? && events[0].road == road then [events[0].message] else []) + PushedTo(events[1..], road)
  }

  lemma NextRoad(s: System, e: Event, i: nat)
    requires Safe(s) && i < |s.u.roads|
    ensures |Next(s, e).u.roads| == |s.u.roads|
    ensures Next(s, e).u.roads[i]
         == if e.Push? && e.road == i then Last(s.u.roads[i] + [e.message], s.u.cap) else s.u.roads[i]
  {
    hide ScanStep, LogRight, LastSelected, Selected, Filled, Impatient, ScanRight, Stale;
  }

  lemma LastOfLast<T>(a: seq<T>, b: seq<T>, n: nat)
    ensures Last(Last(a, n) + b, n) == Last(a + b, n)
  {
  }

  /** In every interleaving the window of a road holds the last `cap` of the messages it held
      and those pushed onto it since: the task takes none away, and no push is lost. */
  lemma {:induction false} WindowsInEveryRun(s: System, events: seq<Event>, i: nat)
    requires Safe(s) && i < |s.u.roads|
    ensures i < |Run(s, events).u.roads|
    ensures Run(s, events).u.roads[i] == Last(s.u.roads[i] + PushedTo(events, i), s.u.cap)
    decreases |events|
  {
    var road := s.u.roads[i];
    if events == [] {
      assert road + [] == road;
    } else {
      var e, rest := events[0], events[1..];
      NextSafe(s, e);
      NextRoad(s, e, i);
      hide Next, Safe, Last;
      WindowsInEveryRun(Next(s, e), rest, i);
      if e.Push? && e.road == i {
        LastOfLast(road + [e.message], PushedTo(rest, i), s.u.cap);
        assert road + [e.message] + PushedTo(rest, i) == road + ([e.message] + PushedTo(rest, i));
      } else {
        assert PushedTo(events, i) == PushedTo(rest, i);
      }
    }
  }

  /** Every slot is a message strictly within `fs` of its frame's time, and the first one of
      its road if the road had room for all pushes of the scan. */
  lemma SlotsInEveryRun(s: System, events: seq<Event>, k: nat, i: nat)
    requires Safe(s) && k < |Run(s, events).log| && i < |Run(s, events).log[k].frame|
    ensures var a := Run(s, events).log[k];
            && |a.scans| == |a.frame|
            && var (slot, c) := (a.frame[i], a.scans[i]);
            && (slot.Some? ==> Near(slot.value, a.time, s.u.fs) && slot.value in Last(c.first + c.pushed, s.u.cap))
            && (|c.first| + |c.pushed| <= s.u.cap ==> slot == Pick(c.first + c.pushed, a.time, s.u.fs))
  {
    hide Run, Near, Pick, HasTime;
    EveryInterleaving(s, events);
    var a := Run(s, events).log[k];
    assert Correct(a, s.u.fs, s.u.cap);
    assert Filled(a.frame[i], a.scans[i], a.time, s.u.fs, s.u.cap);
  }

  lemma {:induction false} TimesApart(log: seq<Accepted>, fs: Interval, cap: nat, i: nat, j: nat)
    requires LogRight(log, fs, cap) && i < j < |log|
    ensures log[i].time + fs <= log[j].time
    decreases j - i
  {
    hide Correct;
    if i + 1 < j {
      TimesApart(log, fs, cap, i, j - 1);
    }
  }

  /** Between task calls the unit shows the frame accepted last, and for each road the time of
      the message it contributed last. */
  lemma ShownInEveryRun(s: System, events: seq<Event>)
    requires Safe(s) && Run(s, events).phase == Idle
    ensures var t := Run(s, events);
            && (t.log != [] ==>
                  var a := t.log[|t.log| - 1];
                  t.u.store == t.u.cur == a.time && t.u.oneFrame == a.frame && HasTime(a.reference, a.time))
            && forall i | 0 <= i < |t.u.xRoad| :: t.u.xRoad[i] == LastSelected(t.log, i)
  {
    hide Run, LastSelected, Filled, HasTime;
    EveryInterleaving(s, events);
    var t := Run(s, events);
    if t.log != [] {
      assert Correct(t.log[|t.log| - 1], t.u.fs, t.u.cap);
    }
  }

  /** In every interleaving any two accepted times are at least `fs` apart. */
  lemma FramesApartInEveryRun(s: System, events: seq<Event>, i: nat, j: nat)
    requires Safe(s) && i < j < |Run(s, events).log|
    ensures Run(s, events).log[i].time + s.u.fs <= Run(s, events).log[j].time
  {
    hide Run;
    EveryInterleaving(s, events);
    TimesApart(Run(s, events).log, s.u.fs, s.u.cap, i, j);
  }

  predicate Selects(a: Accepted, time: Time) {
    exists i | 0 <= i < |a.frame| :: a.frame[i].Some? && a.frame[i].value.timestamp == time
  }

  lemma SelectedIsNear(a: Accepted, time: Time, fs: Interval, cap: nat)
    requires Correct(a, fs, cap) && Selects(a, time)
    ensures time < a.time + fs && a.time < time + fs
  {
    var i :| 0 <= i < |a.frame| && a.frame[i].Some? && a.frame[i].value.timestamp == time;
    assert Filled(a.frame[i], a.scans[i], a.time, fs, cap);
  }

  /** In no interleaving is a message time selected by three accepted frames. */
  lemma SelectedAtMostTwice(s: System, events: seq<Event>, time: Time, a: nat, b: nat, c: nat)
    requires Safe(s)
    requires a < b < c < |Run(s, events).log|
    ensures var log := Run(s, events).log;
            !(Selects(log[a], time) && Selects(log[b], time) && Selects(log[c], time))
  {
    hide Run, Correct, Selects;
    EveryInterleaving(s, events);
    var log := Run(s, events).log;
    if Selects(log[a], time) && Selects(log[c], time) {
      SelectedIsNear(log[a], time, s.u.fs, s.u.cap);
      SelectedIsNear(log[c], time, s.u.fs, s.u.cap);
      TimesApart(log, s.u.fs, s.u.cap, a, b);
      TimesApart(log, s.u.fs, s.u.cap, b, c);
      assert false;
    }
  }

  // ---- When a slot is the first near message ----

  datatype Arrival = Step | Arrive(message: Message)

  /** One scan between arrivals on its road. */
  function ScanRun(c: Scan, window: Road, arrivals: seq<Arrival>, time: Time, fs: Interval, cap: nat): (Scan, Road)
    decreases |arrivals|
  {
    if arrivals == [] then (c, window)
    else match arrivals[0]
      case Step => ScanRun(ScanStep(c, window, time, fs), window, arrivals[1..], time, fs, cap)
      case Arrive(m) => ScanRun(Noticed(c, m), Pushed(window, m, cap), arrivals[1..], time, fs, cap)
  }

  /** No scan of a road with n messages at the first look and p pushes from then on misses
      its first near message, whatever the messages and the moments of the pushes. */
  ghost predicate Guaranteed(cap: nat, n: nat, p: nat) {
    forall window: Road, arrivals: seq<Arrival>, time: Time, fs: Interval | |window| <= cap ::
      var c := ScanRun(FRESH, window, arrivals, time, fs, cap).0;
      c.spot == Over && |c.first| == n && |c.pushed| == p ==> c.found == Pick(c.last, time, fs)
  }

  lemma {:induction false} ScanRunRight(
      c: Scan, window: Road, arrivals: seq<Arrival>, time: Time, fs: Interval, cap: nat)
    requires ScanRight(c, window, time, fs, cap)
    ensures var (d, w) := ScanRun(c, window, arrivals, time, fs, cap); ScanRight(d, w, time, fs, cap)
    decreases |arrivals|
  {
    hide ScanRight, ScanStep, Noticed, Pushed;
    if arrivals != [] {
      match arrivals[0]
      case Step =>
        ScanStepRight(c, window, time, fs, cap);
        ScanRunRight(ScanStep(c, window, time, fs), window, arrivals[1..], time, fs, cap);
      case Arrive(m) =>
        NoticedRight(c, window, m, time, fs, cap);
        ScanRunRight(Noticed(c, m), Pushed(window, m, cap), arrivals[1..], time, fs, cap);
    }
  }

  lemma {:induction false} ScanRunConcat(
      c: Scan, window: Road, a: seq<Arrival>, b: seq<Arrival>, time: Time, fs: Interval, cap: nat)
    ensures ScanRun(c, window, a + b, time, fs, cap)
         == var (d, w) := ScanRun(c, window, a, time, fs, cap); ScanRun(d, w, b, time, fs, cap)
    decreases |a|
  {
    hide ScanStep, Noticed, Pushed;
    if a == [] {
      assert a + b == b;
    } else {
      assert (a + b)[1..] == a[1..] + b;
      match a[0]
      case Step => ScanRunConcat(ScanStep(c, window, time, fs), window, a[1..], b, time, fs, cap);
      case Arrive(m) => ScanRunConcat(Noticed(c, m), Pushed(window, m, cap), a[1..], b, time, fs, cap);
    }
  }

  lemma {:induction false} ArriveAll(c: Scan, window: Road, ms: seq<Message>, time: Time, fs: Interval, cap: nat)
    returns (arrivals: seq<Arrival>)
    requires c.spot != Over
    ensures ScanRun(c, window, arrivals, time, fs, cap) == (c.(pushed := c.pushed + ms), PushedAll(window, ms, cap))
    decreases |ms|
  {
    hide Pushed;
    if ms == [] {
      arrivals := [];
      assert c.pushed + ms == c.pushed;
    } else {
      var rest := ArriveAll(Noticed(c, ms[0]), Pushed(window, ms[0], cap), ms[1..], time, fs, cap);
      arrivals := [Arrive(ms[0])] + rest;
      assert arrivals[1..] == rest;
      assert c.pushed + [ms[0]] + ms[1..] == c.pushed + ms;
    }
  }

  // From its test on, a scan that meets nothing near runs to the end of the window.
  lemma {:induction false} LookOn(c: Scan, window: Road, time: Time, fs: Interval, cap: nat)
    returns (arrivals: seq<Arrival>)
    requires c.spot == AtTest && 0 < c.look <= |window|
    requires forall k | c.look <= k < |window| :: !Near(window[k], time, fs)
    ensures var d := ScanRun(c, window, arrivals, time, fs, cap).0;
            d.spot == Over && d.found == c.found && d.first == c.first && d.pushed == c.pushed && d.last == window
    decreases |window| - c.look
  {
    hide Near;
    var d := ScanStep(c, window, time, fs);
    if c.look == |window| {
      arrivals := [Step];
      assert arrivals[1..] == [];
    } else {
      var rest := LookOn(ScanStep(d, window, time, fs), window, time, fs, cap);
      arrivals := [Step, Step] + rest;
      assert arrivals[1..] == [Step] + rest && arrivals[1..][1..] == rest;
    }
  }

  const FAR := Message(0, "")
  const NEAR := Message(10, "")

  // Far messages, one near one at position e.
  function OneNear(size: nat, e: nat): (r: Road)
    ensures |r| == size
  {
    seq(size, k => if k == e then NEAR else FAR)
  }

  lemma FirstLook(window: Road, time: Time, fs: Interval, cap: nat) returns (begin: seq<Arrival>)
    requires window != [] && !Near(window[0], time, fs)
    ensures ScanRun(FRESH, window, begin, time, fs, cap) == (FRESH.(spot := AtTest, look := 1, first := window), window)
  {
    begin := [Step, Step, Step];
    assert begin[1..] == [Step, Step] && begin[1..][1..] == [Step] && begin[1..][1..][1..] == [];
  }

  // What the scan has in front of it after the pushes.
  lemma Shifted(cap: nat, n: nat, p: nat, window: Road, late: seq<Message>)
    requires 0 < n <= cap < n + p
    requires window == OneNear(n + p, n + p - cap)[..n] && late == OneNear(n + p, n + p - cap)[n..]
    ensures |window| == n && |late| == p && window[0] == FAR
    ensures var last := PushedAll(window, late, cap);
            |last| == cap && last[0] == NEAR && forall k | 1 <= k < cap :: last[k] == FAR
  {
    hide PushedAll;
    var all := OneNear(n + p, n + p - cap);
    WindowIsLast(window, late, cap);
    assert Last(window, cap) == window;
    assert window + late == all;
    assert PushedAll(window, late, cap) == all[n + p - cap..];
  }

  // A push that evicts lets the scan step over the message that becomes the first.
  lemma SkipsOver(cap: nat, n: nat, p: nat)
    requires 0 < n <= cap < n + p
    ensures !Guaranteed(cap, n, p)
  {
    hide ScanRun, PushedAll, OneNear;
    var all := OneNear(n + p, n + p - cap);
    var window, late := all[..n], all[n..];
    Shifted(cap, n, p, window, late);
    var last := PushedAll(window, late, cap);
    var begin := FirstLook(window, 10, 5, cap);
    var c := FRESH.(spot := AtTest, look := 1, first := window);
    var arrive := ArriveAll(c, window, late, 10, 5, cap);
    assert [] + late == late;
    var look := LookOn(c.(pushed := late), last, 10, 5, cap);
    ScanRunConcat(c, window, arrive, look, 10, 5, cap);
    ScanRunConcat(FRESH, window, begin, arrive + look, 10, 5, cap);
    var r := ScanRun(FRESH, window, begin + (arrive + look), 10, 5, cap).0;
    assert r.spot == Over && |r.first| == n && |r.pushed| == p && r.found == None && r.last == last;
    assert Pick(last, 10, 5) == Some(NEAR);
  }

  /** A scan is sure to find the first near message exactly when the window has room for
      every push since its first look. */
  lemma FirstNearIff(cap: nat, n: nat, p: nat)
    requires 0 < n <= cap
    ensures Guaranteed(cap, n, p) <==> n + p <= cap
  {
    if n + p <= cap {
      forall window: Road, arrivals: seq<Arrival>, time: Time, fs: Interval | |window| <= cap
        ensures var c := ScanRun(FRESH, window, arrivals, time, fs, cap).0;
                c.spot == Over && |c.first| == n && |c.pushed| == p ==> c.found == Pick(c.last, time, fs)
      {
        hide ScanRun, Pick;
        EmptyScanRight(window, time, fs, cap);
        ScanRunRight(FRESH, window, arrivals, time, fs, cap);
      }
    } else {
      SkipsOver(cap, n, p);
    }
  }

  // ---- A push between two looks, in full ----

  const T10 := Message(10, "")
  const T100 := Message(100, "")
  const T101 := Message(101, "")
  const T200 := Message(200, "")

  lemma RunFirst(s: System, e: Event, rest: seq<Event>)
    requires Safe(s)
    ensures Safe(Next(s, e)) && Run(s, [e] + rest) == Run(Next(s, e), rest)
  {
    hide Next, Safe;
    NextSafe(s, e);
    assert ([e] + rest)[1..] == rest;
  }

  // From the call to the test behind the first look.
  lemma UntilSecondTest(s: System, rest: seq<Event>) returns (events: seq<Event>, t: System)
    requires Safe(s) && s.phase == Idle
    requires s.u.cap == 3 && s.u.cache == 3 && s.u.fs == 5 && s.u.index == -1 && s.u.store == 0
    requires s.u.roads == [[T10, T100, T101]]
    ensures Safe(t) && Run(s, events) == Run(t, rest)
    ensures t.log == s.log && t.u.cap == 3 && t.u.fs == 5 && t.u.roads == s.u.roads && t.u.cur == 100
    ensures t.phase == Scanning(s.u.roads[0], [], FRESH.(spot := AtTest, look := 1, first := s.u.roads[0]))
    ensures t.u.oneFrame == [None]
  {
    hide Safe, Run;
    var e7 := [TaskStep] + rest;
    var e6 := [TaskStep] + e7;
    var e5 := [TaskStep] + e6;
    var e4 := [TaskStep] + e5;
    var e3 := [TaskStep] + e4;
    var e2 := [TaskStep] + e3;
    var e1 := [TaskStep] + e2;
    events := [CallTask] + e1;
    RunFirst(s, CallTask, e1);
    var s1 := Next(s, CallTask);
    RunFirst(s1, TaskStep, e2);
    var s2 := Next(s1, TaskStep);
    RunFirst(s2, TaskStep, e3);
    var s3 := Next(s2, TaskStep);
    RunFirst(s3, TaskStep, e4);
    var s4 := Next(s3, TaskStep);
    assert s4.phase == Calibrating;
    RunFirst(s4, TaskStep, e5);
    var s5 := Next(s4, TaskStep);
    assert s5.phase == Scanning(s.u.roads[0], [], FRESH);
    RunFirst(s5, TaskStep, e6);
    var s6 := Next(s5, TaskStep);
    RunFirst(s6, TaskStep, e7);
    var s7 := Next(s6, TaskStep);
    RunFirst(s7, TaskStep, rest);
    t := Next(s7, TaskStep);
  }

  /** A window full of the times 10, 100 and 101, a frame at 100 with fs 5, and a push of
      200 between the first two looks: the frame gets 101, although 100 is the first near
      message of the window both before and after the push. */
  lemma PushCanHideTheFirst(s: System) returns (events: seq<Event>)
    requires Safe(s) && s.phase == Idle && s.log == []
    requires s.u.cap == 3 && s.u.cache == 3 && s.u.fs == 5 && s.u.index == -1 && s.u.store == 0
    requires s.u.roads == [[T10, T100, T101]]
    ensures var t := Run(s, events);
            && t.u.roads == [[T100, T101, T200]]
            && |t.log| == 1 && t.log[0].time == 100 && t.log[0].frame == [Some(T101)]
    ensures Pick([T10, T100, T101], 100, 5) == Pick([T100, T101, T200], 100, 5) == Some(T100)
  {
    hide Safe, Run, Pick;
    var e3 := [TaskStep] + [];
    var e2 := [TaskStep] + e3;
    var e1 := [TaskStep] + e2;
    var t: System;
    events, t := UntilSecondTest(s, [Push(0, T200)] + e1);
    RunFirst(t, Push(0, T200), e1);
    var t1 := Next(t, Push(0, T200));
    assert t1.u.roads[0] == [T100, T101, T200];
    RunFirst(t1, TaskStep, e2);
    var t2 := Next(t1, TaskStep);
    assert t2.phase.scan.spot == AtLook;
    RunFirst(t2, TaskStep, e3);
    var t3 := Next(t2, TaskStep);
    assert t3.u.oneFrame == [Some(T101)];
    RunFirst(t3, TaskStep, []);
    RunNone(Next(t3, TaskStep));
    FirstNearOfBoth();
  }

  lemma FirstNearOfBoth()
    ensures Pick([T10, T100, T101], 100, 5) == Pick([T100, T101, T200], 100, 5) == Some(T100)
  {
    PickAt([T10, T100, T101], 1, 100, 5);
    PickAt([T100, T101, T200], 0, 100, 5);
  }

  lemma RunNone(s: System)
    requires Safe(s)
    ensures Run(s, []) == s
  {
  }

  // ---- A task call ends ----

  /** Steps a scan can still take, whatever arrives: the window never grows beyond cap. */
  function ScanLeft(c: Scan, cap: nat): int {
    match c.spot
    case AtEmpty => 2 * cap + 3
    case AtTest => 2 * (cap - c.look) + 2
    case AtLook => 2 * (cap - c.look) + 1
    case Over => 0
  }

  function RoadsLeft(n: nat, cap: nat): nat {
    n * (2 * cap + 4)
  }

  /** Steps the task call can still take. */
  function Left(s: System): nat
    requires Safe(s)
  {
    var n := |s.u.roads|;
    var scans := RoadsLeft(n, s.u.cap);
    match s.phase
    case Idle => 0
    case AtSize(i, size, longest) => scans + 2 * (n - i) + 2
    case AtTake(i, size, longest) => scans + 2 * (n - i) + 1
    case Calibrating => scans + 1
    case Scanning(reference, done, scan) =>
      StepsLeft(scan, s.u.roads[|done|], s.u.cur, s.u.fs, s.u.cap);
      RoadsLeft(n - |done| - 1, s.u.cap) + ScanLeft(scan, s.u.cap) + 1
  }

  lemma StepsLeft(c: Scan, window: Road, time: Time, fs: Interval, cap: nat)
    requires ScanRight(c, window, time, fs, cap)
    ensures ScanLeft(c, cap) >= 0 && ScanLeft(FRESH, cap) == 2 * cap + 3
    ensures c.spot == Over ==> ScanLeft(c, cap) == 0
  {
  }

  lemma OneRoadLess(n: nat, cap: nat)
    requires n > 0
    ensures RoadsLeft(n, cap) == RoadsLeft(n - 1, cap) + 2 * cap + 4
  {
  }

  lemma ScanStepShortens(c: Scan, window: Road, time: Time, fs: Interval, cap: nat)
    requires ScanRight(c, window, time, fs, cap) && c.spot != Over
    ensures ScanRight(ScanStep(c, window, time, fs), window, time, fs, cap)
    ensures ScanLeft(ScanStep(c, window, time, fs), cap) < ScanLeft(c, cap)
  {
    hide Near, ScanDone;
    ScanStepRight(c, window, time, fs, cap);
    StepsLeft(c, window, time, fs, cap);
  }

  lemma NoticedLeft(c: Scan, m: Message, cap: nat)
    ensures ScanLeft(Noticed(c, m), cap) == ScanLeft(c, cap)
  {
  }

  /** Every step of a task call brings its end nearer, and no push takes it farther away. */
  lemma CallEnds(s: System, e: Event)
    requires Safe(s) && s.phase != Idle && Safe(Next(s, e))
    ensures if e == TaskStep then Left(Next(s, e)) < Left(s) else Left(Next(s, e)) == Left(s)
  {
    hide ScanRight, ScanStep, ScanLeft, RoadsLeft, Noticed, Filled, LogRight, TimesKept;
    if s.phase.Scanning? {
      var n, done, scan := |s.u.roads|, |s.phase.done|, s.phase.scan;
      StepsLeft(scan, s.u.roads[done], s.u.cur, s.u.fs, s.u.cap);
      if e.Push? {
        NoticedLeft(scan, e.message, s.u.cap);
      } else if scan.spot != Over {
        ScanStepShortens(scan, s.u.roads[done], s.u.cur, s.u.fs, s.u.cap);
      } else if done + 1 < n {
        OneRoadLess(n - done - 1, s.u.cap);
      }
    } else if s.phase.Calibrating? && |s.u.roads| > 0 {
      OneRoadLess(|s.u.roads|, s.u.cap);
      StepsLeft(FRESH, s.u.roads[0], s.u.cur, s.u.fs, s.u.cap);
    }
  }

  // ---- An undisturbed call ----

  predicate ScanCalm(c: Scan, road: Road, time: Time, fs: Interval) {
    match c.spot
    case AtEmpty => c.look == 0 && c.found == None
    case AtTest => c.found == None && c.look <= |road| && NoneNear(road, c.look, time, fs)
    case AtLook => c.found == None && c.look < |road| && NoneNear(road, c.look, time, fs)
    case Over => c.found == Pick(road, time, fs)
  }

  lemma ScanStepCalm(c: Scan, road: Road, time: Time, fs: Interval)
    requires ScanCalm(c, road, time, fs)
    ensures ScanCalm(ScanStep(c, road, time, fs), road, time, fs)
  {
    hide Near, Pick;
    if c.spot == AtEmpty {
      PickAt(road, 0, time, fs);
    } else if c.spot != Over {
      PickAt(road, c.look, time, fs);
    }
  }

  /** The call that started with `u` and no push since is on its way to what RunTask says. */
  predicate Undisturbed(s: System, u: Unit, log: seq<Accepted>)
    requires Valid(u)
  {
    var (v, result) := RunTask(u);
    match s.phase
    case Idle => s.u == v && Logged(s.log, log, v, result)
    case AtSize(i, size, longest) =>
      s.u == u && s.log == log && i <= |u.roads| && (size, longest) == LongestOf(u.roads, i)
    case AtTake(i, size, longest) =>
      s.u == u && s.log == log && i < |u.roads| && (size, longest) == LongestOf(u.roads, i) && |u.roads[i]| > size
    case Calibrating => s.log == log && Valid(s.u) && (v, result) == FindOneFrame(s.u, s.u.cache / 2)
    case Scanning(reference, done, scan) => s.log == log && result == Found && CalmScanning(s, done, scan, v)
  }

  predicate Logged(now: seq<Accepted>, log: seq<Accepted>, v: Unit, result: Alignment.Result) {
    if result == Found then
      |now| == |log| + 1 && now[..|log|] == log && now[|log|].time == v.cur && now[|log|].frame == v.oneFrame
    else
      now == log
  }

  // The roads before the scan are as in `v`, those behind it still as before the call.
  predicate CalmScanning(s: System, done: seq<Scan>, scan: Scan, v: Unit) {
    var n, k := |v.roads|, |done|;
    && k < n == |s.u.oneFrame| == |s.u.xRoad| == |v.xRoad|
    && s.u == v.(oneFrame := s.u.oneFrame, xRoad := s.u.xRoad)
    && v.oneFrame == Picked(v.roads, v.cur, v.fs)
    && s.u.oneFrame == v.oneFrame[..k] + [scan.found] + seq(n - k - 1, _ => None)
    && s.u.xRoad[..k] == v.xRoad[..k]
    && (forall j | k <= j < n :: v.xRoad[j] == Selected(v.oneFrame, j, s.u.xRoad[j]))
    && s.u.xRoad[k] == Selected([scan.found], 0, s.u.xRoad[k])
    && ScanCalm(scan, v.roads[k], v.cur, v.fs)
  }

  lemma CalmMeasure(s: System, u: Unit, log: seq<Accepted>)
    requires Safe(s) && (s.phase.AtSize? || s.phase.AtTake?) && Valid(u) && Undisturbed(s, u, log)
    ensures Undisturbed(AfterStep(s), u, log)
  {
    hide FindOneFrame, TimesKept, LogRight, Shown;
  }

  lemma CalmCalibration(s: System, u: Unit, log: seq<Accepted>)
    requires Safe(s) && s.phase == Calibrating && Valid(u) && Undisturbed(s, u, log)
    ensures Undisturbed(AfterStep(s), u, log)
  {
    hide RunTask, TimesKept, LogRight, Shown, Pick, Impatient;
    var t := AfterStep(s);
    if t.phase.Scanning? {
      var v := RunTask(u).0;
      assert v.oneFrame[..0] + [None] + seq(|v.roads| - 1, _ => None) == t.u.oneFrame;
    }
  }

  lemma CalmScanStep(s: System, done: seq<Scan>, scan: Scan, v: Unit)
    requires Safe(s) && s.phase.Scanning? && s.phase.done == done && s.phase.scan == scan && scan.spot != Over
    requires CalmScanning(s, done, scan, v)
    ensures var t := AfterScanStep(s); CalmScanning(t, done, t.phase.scan, v)
  {
    hide ScanStep, ScanCalm, TimesKept, LogRight, Filled, ScanRight, Picked;
    var k := |done|;
    ScanStepCalm(scan, v.roads[k], v.cur, v.fs);
    CalmNothing(scan, v.roads[k], v.cur, v.fs);
    var t := AfterScanStep(s);
    var c := t.phase.scan;
    CalmNothing(c, v.roads[k], v.cur, v.fs);
    assert t.u.oneFrame == v.oneFrame[..k] + [c.found] + seq(|v.roads| - k - 1, _ => None);
    assert t.u.xRoad[..k] == s.u.xRoad[..k];
    assert c.found.Some? ==> c.spot == Over && v.oneFrame[k] == c.found;
  }

  lemma CalmNothing(c: Scan, road: Road, time: Time, fs: Interval)
    requires ScanCalm(c, road, time, fs)
    ensures c.spot != Over ==> c.found == None
    ensures c.spot == Over ==> c.found == Pick(road, time, fs)
    ensures ScanCalm(FRESH, road, time, fs)
  {
  }

  lemma CalmScanOver(s: System, u: Unit, log: seq<Accepted>)
    requires Safe(s) && s.phase.Scanning? && s.phase.scan.spot == Over && Valid(u) && Undisturbed(s, u, log)
    ensures Undisturbed(AfterStep(s), u, log)
  {
    hide RunTask, TimesKept, LogRight, Filled, ScanRight, Picked, ScanCalm;
    var v := RunTask(u).0;
    var k, n, scan := |s.phase.done|, |v.roads|, s.phase.scan;
    CalmNothing(scan, v.roads[k], v.cur, v.fs);
    assert v.oneFrame[k] == scan.found;
    assert v.xRoad[k] == s.u.xRoad[k];
    assert s.u.xRoad[..k + 1] == v.xRoad[..k + 1];
    if k + 1 < n {
      CalmNothing(FRESH, v.roads[k + 1], v.cur, v.fs);
      assert v.oneFrame[..k] + [scan.found] == v.oneFrame[..k + 1];
      assert s.u.oneFrame == v.oneFrame[..k + 1] + [None] + seq(n - k - 2, _ => None);
    } else {
      assert s.u.oneFrame == v.oneFrame;
      assert s.u.xRoad == v.xRoad;
    }
  }

  lemma CalmStep(s: System, u: Unit, log: seq<Accepted>)
    requires Safe(s) && s.phase != Idle && Valid(u) && Undisturbed(s, u, log)
    ensures Undisturbed(Next(s, TaskStep), u, log)
  {
    if s.phase.Calibrating? {
      CalmCalibration(s, u, log);
    } else if s.phase.Scanning? {
      if s.phase.scan.spot == Over {
        CalmScanOver(s, u, log);
      } else {
        hide RunTask, TimesKept, LogRight, Filled, ScanRight, CalmScanning, ScanStep;
        CalmScanStep(s, s.phase.done, s.phase.scan, RunTask(u).0);
      }
    } else {
      CalmMeasure(s, u, log);
    }
  }

  function Steps(s: System, n: nat): System
    requires Safe(s)
    decreases n
  {
    NextSafe(s, TaskStep);
    if n == 0 then s else Steps(Next(s, TaskStep), n - 1)
  }

  lemma {:induction false} CalmCall(s: System, u: Unit, log: seq<Accepted>) returns (n: nat)
    requires Safe(s) && Valid(u) && Undisturbed(s, u, log)
    ensures n <= Left(s)
    ensures Steps(s, n).phase == Idle && Undisturbed(Steps(s, n), u, log)
    decreases Left(s)
  {
    hide Safe, Undisturbed, Next, Left;
    if s.phase == Idle {
      n := 0;
      LeftOfIdle(s);
    } else {
      NextSafe(s, TaskStep);
      CalmStep(s, u, log);
      CallEnds(s, TaskStep);
      n := CalmCall(Next(s, TaskStep), u, log);
      n := n + 1;
    }
  }

  lemma LeftOfIdle(s: System)
    requires Safe(s)
    ensures Left(s) >= 0
  {
  }

  /** A task call that no push disturbs does what RunTask says, in a bounded number of steps. */
  lemma UndisturbedCall(s: System) returns (n: nat)
    requires Safe(s) && s.phase == Idle
    ensures Safe(Next(s, CallTask)) && n <= RoadsLeft(|s.u.roads|, s.u.cap) + 2 * |s.u.roads| + 2
    ensures var t := Steps(Next(s, CallTask), n);
            t.phase == Idle && t.u == RunTask(s.u).0 && Logged(t.log, s.log, t.u, RunTask(s.u).1)
  {
    NextSafe(s, CallTask);
    var t := Next(s, CallTask);
    assert Undisturbed(t, s.u, s.log);
    assert Left(t) == RoadsLeft(|s.u.roads|, s.u.cap) + 2 * |s.u.roads| + 2;
    hide Safe, Next, Steps, RunTask, Logged;
    n := CalmCall(t, s.u, s.log);
  }
}
