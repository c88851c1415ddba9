/**
 Same-frame alignment of data/DataUnit.h: per-road sliding windows of messages, a reference
 road that is rotated when it goes stale, and the choice of one message per road near the
 reference time.
 */
module Alignment {
  import opened Basics

  /** Milliseconds. With times below 2^63 and intervals below 2^31 the original's 64-bit
      arithmetic neither wraps nor changes sign. */
  type Time = t: nat | t < 0x8000_0000_0000_0000
  type Interval = i: nat | i < 0x8000_0000

  datatype Message = Message(timestamp: Time, content: string)

  type Road = seq<Message>

  /** The fields of a data unit that alignment uses; `index` is i_maxSizeIndex. */
  datatype Unit = Unit(
    cap: nat, cache: nat, fs: Interval, interval: Interval,
    roads: seq<Road>, index: int, searchCount: nat,
    store: Time, cur: Time, oneFrame: seq<Option<Message>>, xRoad: seq<Time>)

  predicate Valid(u: Unit) {
    -1 <= u.index <= |u.roads| && |u.xRoad| == |u.roads|
  }

  // ---- The sliding windows ----

  /** Vector.push: append, and drop the oldest when there are too many. */
  function Pushed<T>(q: seq<T>, t: T, max: nat): seq<T> {
    if |q| + 1 > max then (q + [t])[1..] else q + [t]
  }

  function PushedAll<T>(q: seq<T>, ts: seq<T>, max: nat): seq<T>
    decreases |ts|
  {
    if ts == [] then q else PushedAll(Pushed(q, ts[0], max), ts[1..], max)
  }

  function Last<T>(ts: seq<T>, n: nat): seq<T> {
    if |ts| <= n then ts else ts[|ts| - n..]
  }

  /** A window holds the last `max` messages pushed. */
  lemma {:induction false} WindowIsLast<T>(before: seq<T>, ts: seq<T>, max: nat)
    ensures PushedAll(Last(before, max), ts, max) == Last(before + ts, max)
    decreases |ts|
  {
    if ts == [] {
      assert before + ts == before;
    } else {
      assert (before + [ts[0]]) + ts[1..] == before + ts;
      assert Pushed(Last(before, max), ts[0], max) == Last(before + [ts[0]], max);
      WindowIsLast(before + [ts[0]], ts[1..], max);
    }
  }

  // ---- One call of the task ----

  function Longest(roads: seq<Road>): (best: (nat, nat))
  {
    LongestOf(roads, |roads|)
  }

  // The size and index of the first longest of the first n roads.
  function LongestOf(roads: seq<Road>, n: nat): (best: (nat, nat))
    requires n <= |roads|
    ensures n > 0 ==> best.1 < n
    ensures n == 0 ==> best == (0, 0)
    ensures forall k | 0 <= k < n :: |roads[k]| <= best.0
    ensures n > 0 ==> |roads[best.1]| == best.0 && forall k | 0 <= k < best.1 :: |roads[k]| < best.0
  {
    if n == 0 then (0, 0)
    else
      var best := LongestOf(roads, n - 1);
      if |roads[n - 1]| > best.0 then (|roads[n - 1]|, n - 1) else best
  }

  /** An index outside the roads is an exception that getIOffset turns into a miss. */
  function At(u: Unit, index: int, offset: nat): Option<Message> {
    if 0 <= index < |u.roads| && offset < |u.roads[index]| then Some(u.roads[index][offset]) else None
  }

  /** The rotation visits one index behind the last road before it starts again. */
  function Rotated(u: Unit): Unit {
    u.(index := if u.index + 1 > |u.roads| then 0 else u.index + 1, searchCount := 0)
  }

  /** Strictly less than fs apart. */
  predicate Near(m: Message, time: Time, fs: Interval)
    ensures Near(m, time, fs) <==> 0 - fs < m.timestamp - time < fs
  {
    m.timestamp < time + fs && time < m.timestamp + fs
  }

  /** The first message of a road strictly within `fs` of `time`. */
  function Pick(road: Road, time: Time, fs: Interval): (p: Option<Message>)
    ensures p.Some? ==> exists k | 0 <= k < |road| ::
                            && road[k] == p.value && Near(road[k], time, fs)
                            && forall j | 0 <= j < k :: !Near(road[j], time, fs)
    ensures p.None? ==> forall k | 0 <= k < |road| :: !Near(road[k], time, fs)
  {
    if road == [] then None
    else if Near(road[0], time, fs) then Some(road[0])
    else
      assert forall k | 0 < k < |road| :: road[k] == road[1..][k - 1];
      Pick(road[1..], time, fs)
  }

  function Picked(roads: seq<Road>, time: Time, fs: Interval): (frame: seq<Option<Message>>)
    ensures |frame| == |roads| && forall i | 0 <= i < |roads| :: frame[i] == Pick(roads[i], time, fs)
  {
    seq(|roads|, i requires 0 <= i < |roads| => Pick(roads[i], time, fs))
  }

  function Times(kept: seq<Time>, frame: seq<Option<Message>>): (times: seq<Time>)
    requires |kept| == |frame|
    ensures |times| == |frame|
    ensures forall i | 0 <= i < |frame| :: times[i] == if frame[i].Some? then frame[i].value.timestamp else kept[i]
  {
    seq(|frame|, i requires 0 <= i < |frame| => if frame[i].Some? then frame[i].value.timestamp else kept[i])
  }

  predicate Stale(u: Unit, refer: Message) {
    u.store + u.fs > refer.timestamp
  }

  predicate Impatient(u: Unit, count: nat) {
    2 * (count * u.interval) >= 5 * u.fs
  }

  datatype Result = Miss | Waiting | Found

  function FindOneFrame(u: Unit, offset: nat): (Unit, Result)
    requires Valid(u)
  {
    match At(u, u.index, offset)
    case None => (Rotated(u), Miss)
    case Some(refer) =>
      if Stale(u, refer) then
        var v := u.(searchCount := u.searchCount + 1);
        (if Impatient(u, v.searchCount) then Rotated(v) else v, Waiting)
      else
        var frame := Picked(u.roads, refer.timestamp, u.fs);
        (u.(searchCount := 0, store := refer.timestamp, cur := refer.timestamp, oneFrame := frame,
            xRoad := Times(u.xRoad, frame)), Found)
  }

  /** runTask with the alignment task, whose offset is half the cache. */
  function RunTask(u: Unit): (Unit, Result)
    requires Valid(u)
  {
    var (size, longest) := Longest(u.roads);
    if size >= u.cache then
      FindOneFrame(if u.index == -1 then u.(index := longest) else u, u.cache / 2)
    else (u, Miss)
  }

  lemma RunTaskValid(u: Unit)
    requires Valid(u)
    ensures Valid(RunTask(u).0) && RunTask(u).0.roads == u.roads
    ensures var v := RunTask(u).0; v.fs == u.fs && v.interval == u.interval && v.cache == u.cache && v.cap == u.cap
  {
  }

  /** A call misses exactly when the reference has no message at the offset, and accepts a frame
      exactly when it has one at least fs past the last frame. */
  lemma FindOneFrameIff(u: Unit, offset: nat)
    requires Valid(u)
    ensures var (v, result) := FindOneFrame(u, offset);
            var held := 0 <= u.index < |u.roads| && offset < |u.roads[u.index]|;
            && (result == Miss <==> !held)
            && (result == Found <==> held && u.roads[u.index][offset].timestamp >= u.store + u.fs)
            && (result == Found ==>
                  var time := u.roads[u.index][offset].timestamp;
                  && v.store == v.cur == time && v.index == u.index && v.searchCount == 0
                  && |v.oneFrame| == |v.xRoad| == |u.roads|
                  && forall i | 0 <= i < |u.roads| ::
                       && v.oneFrame[i] == Pick(u.roads[i], time, u.fs)
                       && v.xRoad[i] == if v.oneFrame[i].Some? then v.oneFrame[i].value.timestamp else u.xRoad[i])
  {
    hide Pick;
  }

  /** What a call without a frame does to the reference: a miss passes it on at once, and a
      stale reference is passed on when it has been met for two and a half times fs. */
  lemma ReferencePassedOn(u: Unit, offset: nat)
    requires Valid(u) && FindOneFrame(u, offset).1 != Found
    ensures var (v, result) := FindOneFrame(u, offset);
            var next := if u.index >= |u.roads| then 0 else u.index + 1;
            v == if result == Waiting && 2 * ((u.searchCount + 1) * u.interval) < 5 * u.fs then
                   u.(searchCount := u.searchCount + 1)
                 else
                   u.(index := next, searchCount := 0)
  {
  }

  /** A call runs the alignment exactly when some road holds `cache` messages, or none is
      asked for, and starts with the first of the longest roads. */
  lemma RunTaskStarts(u: Unit)
    requires Valid(u)
    ensures if u.cache > 0 && forall i | 0 <= i < |u.roads| :: |u.roads[i]| < u.cache then
              RunTask(u) == (u, Miss)
            else if u.index >= 0 then
              RunTask(u) == FindOneFrame(u, u.cache / 2)
            else
              exists k: nat :: FirstLongest(u.roads, k) && RunTask(u) == FindOneFrame(u.(index := k), u.cache / 2)
  {
    var k := Longest(u.roads).1;
    assert FirstLongest(u.roads, k);
    hide FindOneFrame;
  }

  predicate FirstLongest(roads: seq<Road>, k: nat) {
    if roads == [] then k == 0
    else
      && k < |roads| && (forall i | 0 <= i < k :: |roads[i]| < |roads[k]|)
      && forall i | k <= i < |roads| :: |roads[i]| <= |roads[k]|
  }

  lemma NotFoundKeepsStore(u: Unit)
    requires Valid(u) && RunTask(u).1 != Found
    ensures var v := RunTask(u).0;
            v.store == u.store && v.cur == u.cur && v.oneFrame == u.oneFrame && v.xRoad == u.xRoad
  {
  }

  // ---- Progress ----

  /** Calls spent on one stale road before it is given up: the count at which 2.5 times `fs`
      has been waited, and at least one. */
  function Patience(fs: Interval, interval: Interval): (k: nat)
    requires interval > 0
    ensures k >= 1
  {
    var k := (5 * fs + 2 * interval - 1) / (2 * interval);
    if k == 0 then 1 else k
  }

  lemma ImpatientAt(u: Unit, count: nat)
    requires u.interval > 0 && count > 0
    ensures Impatient(u, count) <==> count >= Patience(u.fs, u.interval)
  {
    CeilingIff(5 * u.fs, 2 * u.interval, count);
    assert 2 * (count * u.interval) == count * (2 * u.interval);
  }

  lemma CeilingIff(a: nat, d: nat, count: nat)
    requires d > 0
    ensures count * d >= a <==> count >= (a + d - 1) / d
  {
    var k := (a + d - 1) / d;
    assert k * d <= a + d - 1 < k * d + d;
    if count >= k {
      assert count * d >= k * d;
    } else {
      assert (k - 1) * d == k * d - d;
      assert count * d <= (k - 1) * d;
    }
  }

  /** Road g has a message at the offset, and its time is at least fs past the last frame. */
  predicate Fresh(u: Unit, g: nat) {
    g < |u.roads| && u.cache / 2 < |u.roads[g]| && u.roads[g][u.cache / 2].timestamp >= u.store + u.fs
  }

  predicate Ready(u: Unit) {
    exists i | 0 <= i < |u.roads| :: |u.roads[i]| >= u.cache
  }

  /** Roads still to be given up before road g is the reference, around the cycle. */
  function Distance(u: Unit, g: nat): (d: nat)
    requires Valid(u) && u.index >= 0 && g < |u.roads|
    ensures d <= |u.roads|
  {
    if u.index <= g then g - u.index else g + |u.roads| + 1 - u.index
  }

  /** An upper bound on the calls until the next frame, while road g is fresh. */
  function CallsLeft(u: Unit, g: nat): (n: nat)
    requires Valid(u) && u.index >= 0 && g < |u.roads| && u.interval > 0
    ensures n >= 1
  {
    var d, k := Distance(u, g), Patience(u.fs, u.interval);
    if d == 0 then 1 else (d - 1) * k + 1 + if u.searchCount < k then k - u.searchCount else 1
  }

  lemma ReadyRuns(u: Unit)
    requires Ready(u)
    ensures Longest(u.roads).0 >= u.cache && 0 <= Longest(u.roads).1 < |u.roads|
  {
  }

  lemma RotationApproaches(u: Unit, g: nat)
    requires Valid(u) && u.index >= 0 && g < |u.roads| && u.interval > 0 && Distance(u, g) > 0
    ensures Distance(Rotated(u), g) == Distance(u, g) - 1
    ensures CallsLeft(Rotated(u), g) == (Distance(u, g) - 1) * Patience(u.fs, u.interval) + 1
  {
    hide Patience;
    var d, k := Distance(u, g), Patience(u.fs, u.interval);
    if d > 1 {
      assert (d - 2) * k + k == (d - 1) * k;
    }
  }

  lemma TaskProgresses(u: Unit, g: nat, offset: nat)
    requires Valid(u) && u.index >= 0 && u.interval > 0 && offset == u.cache / 2 && g < |u.roads| && Fresh(u, g)
    requires FindOneFrame(u, offset).1 != Found
    ensures var v := FindOneFrame(u, offset).0;
            Valid(v) && v.index >= 0 && Fresh(v, g) && CallsLeft(v, g) < CallsLeft(u, g)
  {
    var d, k := Distance(u, g), Patience(u.fs, u.interval);
    assert d > 0;
    RotationApproaches(u, g);
    if FindOneFrame(u, offset).1 == Waiting {
      var v := u.(searchCount := u.searchCount + 1);
      ImpatientAt(u, v.searchCount);
      RotationApproaches(v, g);
    }
  }

  function Runs(u: Unit, n: nat): Unit
    requires Valid(u)
    ensures Valid(Runs(u, n))
    decreases n
  {
    RunTaskValid(u);
    if n == 0 then u else Runs(RunTask(u).0, n - 1)
  }

  lemma StartedRuns(u: Unit)
    requires Valid(u) && Ready(u) && u.index >= 0
    ensures RunTask(u) == FindOneFrame(u, u.cache / 2)
  {
    ReadyRuns(u);
  }

  lemma {:induction false} ProducesWithin(u: Unit, g: nat) returns (n: nat)
    requires Valid(u) && u.index >= 0 && u.interval > 0 && g < |u.roads| && Fresh(u, g) && Ready(u)
    ensures n < CallsLeft(u, g) && RunTask(Runs(u, n)).1 == Found
    decreases CallsLeft(u, g)
  {
    hide CallsLeft, FindOneFrame, Fresh, RunTask, Longest;
    ReadyRuns(u);
    RunTaskValid(u);
    StartedRuns(u);
    if RunTask(u).1 == Found {
      n := 0;
    } else {
      TaskProgresses(u, g, u.cache / 2);
      var v := RunTask(u).0;
      n := ProducesWithin(v, g);
      n := n + 1;
    }
  }

  lemma CallsLeftBound(u: Unit, g: nat)
    requires Valid(u) && u.index >= 0 && u.interval > 0 && g < |u.roads|
    ensures CallsLeft(u, g) <= |u.roads| * Patience(u.fs, u.interval) + 1
  {
    var d, n, k := Distance(u, g), |u.roads|, Patience(u.fs, u.interval);
    if d > 0 {
      assert (d - 1) * k + k == d * k;
      assert d * k <= n * k;
    }
  }

  lemma FreshProgress(u: Unit, g: nat) returns (n: nat)
    requires Valid(u) && u.interval > 0 && g < |u.roads| && Fresh(u, g) && Ready(u)
    ensures n <= |u.roads| * Patience(u.fs, u.interval)
    ensures RunTask(Runs(u, n)).1 == Found
  {
    hide RunTask, Fresh, Patience, CallsLeft, Longest, LongestOf;
    var v := Started(u);
    CallsLeftBound(v, g);
    n := ProducesWithin(v, g);
    RunTaskValid(v);
    if n > 0 {
      assert Runs(v, n) == Runs(RunTask(v).0, n - 1) == Runs(u, n);
    }
  }

  // Only the first reference is chosen by length.
  lemma Started(u: Unit) returns (v: Unit)
    requires Valid(u) && Ready(u)
    ensures Valid(v) && v.index >= 0 && RunTask(v) == RunTask(u) && v == u.(index := v.index)
    ensures Ready(v) && forall g: nat :: Fresh(v, g) == Fresh(u, g)
  {
    ReadyRuns(u);
    v := if u.index == -1 then u.(index := Longest(u.roads).1) else u;
  }

  /** With inputs quiet, some road holding `cache` messages and some road with a message at the
      offset that is at least fs past the last frame, a frame is produced within numI * k + 1
      calls, where k calls take two and a half times fs. */
  lemma BoundedProgress(u: Unit, g: nat, k: nat) returns (n: nat)
    requires Valid(u) && u.interval > 0 && exists i | 0 <= i < |u.roads| :: |u.roads[i]| >= u.cache
    requires g < |u.roads| && u.cache / 2 < |u.roads[g]|
    requires u.roads[g][u.cache / 2].timestamp >= u.store + u.fs
    requires k >= 1 && 2 * (k * u.interval) >= 5 * u.fs
    ensures n <= |u.roads| * k
    ensures RunTask(Runs(u, n)).1 == Found
  {
    hide RunTask, Patience;
    n := FreshProgress(u, g);
    ImpatientAt(u, k);
    var p := Patience(u.fs, u.interval);
    assert p <= k;
    assert |u.roads| * k == |u.roads| * p + |u.roads| * (k - p);
  }

  /** A stale reference is kept for exactly as many calls as stay below two and a half times fs,
      and then passed on. */
  lemma {:induction false} StaleIsKept(u: Unit, n: nat)
    requires Valid(u) && Ready(u) && StaleReference(u)
    requires !Impatient(u, u.searchCount + n)
    ensures Runs(u, n) == u.(searchCount := u.searchCount + n)
    ensures Impatient(u, u.searchCount + n + 1) ==>
              Runs(u, n + 1) == u.(index := u.index + 1, searchCount := 0)
    decreases n
  {
    hide Valid, RunTask, Ready, StaleReference, Impatient;
    StaleStep(u);
    var v := RunTask(u).0;
    RunTaskValid(u);
    if n > 0 {
      if Impatient(u, u.searchCount + 1) {
        ImpatientLater(u, u.searchCount + 1, u.searchCount + n);
      }
      SameReference(u, v);
      StaleIsKept(v, n - 1);
    }
  }

  predicate StaleReference(u: Unit) {
    && 0 <= u.index < |u.roads| && u.cache / 2 < |u.roads[u.index]|
    && u.roads[u.index][u.cache / 2].timestamp < u.store + u.fs
  }

  lemma StaleStep(u: Unit)
    requires Valid(u) && Ready(u) && StaleReference(u)
    ensures RunTask(u).0 == if !Impatient(u, u.searchCount + 1) then
                              u.(searchCount := u.searchCount + 1)
                            else
                              u.(index := u.index + 1, searchCount := 0)
  {
    RunTaskStarts(u);
    FindOneFrameIff(u, u.cache / 2);
    ReferencePassedOn(u, u.cache / 2);
    hide RunTask, FindOneFrame;
  }

  lemma SameReference(u: Unit, v: Unit)
    requires v == u.(searchCount := v.searchCount)
    ensures StaleReference(v) == StaleReference(u) && Ready(v) == Ready(u) && Valid(v) == Valid(u)
    ensures forall count: nat :: Impatient(v, count) == Impatient(u, count)
  {
  }

  lemma ImpatientLater(u: Unit, a: nat, b: nat)
    requires a <= b && Impatient(u, a)
    ensures Impatient(u, b)
  {
    assert b * u.interval == a * u.interval + (b - a) * u.interval;
  }

  lemma FreshSame(u: Unit, v: Unit, g: nat)
    requires u.roads == v.roads && u.store == v.store && u.fs == v.fs && u.cache == v.cache
    ensures Fresh(u, g) == Fresh(v, g) && Ready(u) == Ready(v)
  {
  }

  lemma FoundNeedsFreshRoad(u: Unit) returns (g: nat)
    requires Valid(u) && RunTask(u).1 == Found
    ensures g < |u.roads| && Fresh(u, g) && Ready(u)
  {
    g := if u.index == -1 then Longest(u.roads).1 else u.index;
  }

  lemma {:induction false} SomeRoadIsFresh(u: Unit, n: nat) returns (g: nat)
    requires Valid(u) && RunTask(Runs(u, n)).1 == Found
    ensures g < |u.roads| && Fresh(u, g) && Ready(u)
    decreases n
  {
    hide RunTask, Valid, Fresh, Ready;
    if RunTask(u).1 == Found {
      g := FoundNeedsFreshRoad(u);
    } else {
      RunTaskValid(u);
      NotFoundKeepsStore(u);
      g := SomeRoadIsFresh(RunTask(u).0, n - 1);
      FreshSame(u, RunTask(u).0, g);
    }
  }

  /** The conditions of BoundedProgress are needed. */
  lemma FrameNeedsFreshRoad(u: Unit, n: nat) returns (g: nat)
    requires Valid(u) && RunTask(Runs(u, n)).1 == Found
    ensures g < |u.roads| && u.cache / 2 < |u.roads[g]| && u.roads[g][u.cache / 2].timestamp >= u.store + u.fs
    ensures exists i | 0 <= i < |u.roads| :: |u.roads[i]| >= u.cache
  {
    g := SomeRoadIsFresh(u, n);
  }

  /** With inputs quiet a frame is produced sometime exactly when some road holds `cache`
      messages and some road has one at the offset that is at least fs past the last frame. */
  lemma ProgressIff(u: Unit)
    requires Valid(u) && u.interval > 0
    ensures (exists n: nat :: RunTask(Runs(u, n)).1 == Found)
       <==> && (exists i | 0 <= i < |u.roads| :: |u.roads[i]| >= u.cache)
            && exists g | 0 <= g < |u.roads| ::
                 u.cache / 2 < |u.roads[g]| && u.roads[g][u.cache / 2].timestamp >= u.store + u.fs
  {
    hide RunTask, Valid;
    if exists n: nat :: RunTask(Runs(u, n)).1 == Found {
      var n: nat :| RunTask(Runs(u, n)).1 == Found;
      var g := FrameNeedsFreshRoad(u, n);
      assert u.cache / 2 < |u.roads[g]|;
    }
    if Ready(u) && exists g | 0 <= g < |u.roads| ::
         u.cache / 2 < |u.roads[g]| && u.roads[g][u.cache / 2].timestamp >= u.store + u.fs {
      var g :| 0 <= g < |u.roads|
            && u.cache / 2 < |u.roads[g]| && u.roads[g][u.cache / 2].timestamp >= u.store + u.fs;
      var n := FreshProgress(u, g);
    }
  }
}
