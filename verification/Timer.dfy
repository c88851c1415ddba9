/**
 The start/stop protocol of os/timeTask.hpp: one controlling thread, and the worker thread
 that each effective start creates. Every access to an atomic flag, every lock, wait,
 notification and unlock is a step of its own.
 */
module Timer {
  /** Where the controlling thread is. Start: test `expired`, clear it, launch a worker.
      Stop: test `expired`, test and set `tryToExpire`, lock, test under the lock, either
      sleep (releasing the lock) or reset `tryToExpire` and unlock. */
  datatype Control =
    | Idle
    | StartTest | StartClear | StartLaunch
    | StopTest | StopTestTry | StopSetTry | StopLock | StopCheck | StopAsleep | StopReset

  /** Where a worker is: its loop of test, task and sleep, then lock, set `expired`, notify
      and unlock. */
  datatype Worker = LoopTest | InTask | Sleeping | WantLock | SetExpired | Notify | Unlock | Done

  datatype Holder = Free | Controller | TheWorker(i: nat)

  datatype State = State(
    expired: bool, tryToExpire: bool, mutex: Holder, control: Control, workers: seq<Worker>, calls: nat)

  /** `Spurious` is a wake-up of the condition variable that nobody asked for. */
  datatype Step = CallStart | CallStop | ControlStep | WorkerStep(i: nat) | Spurious

  const INITIAL := State(true, false, Free, Idle, [], 0)

  function ControlNext(s: State): State {
    match s.control
    case Idle => s
    case StartTest => s.(control := if s.expired then StartClear else Idle)
    case StartClear => s.(expired := false, control := StartLaunch)
    case StartLaunch => s.(workers := s.workers + [LoopTest], control := Idle)
    case StopTest => s.(control := if s.expired then Idle else StopTestTry)
    case StopTestTry => s.(control := if s.tryToExpire then Idle else StopSetTry)
    case StopSetTry => s.(tryToExpire := true, control := StopLock)
    case StopLock => if s.mutex == Free then s.(mutex := Controller, control := StopCheck) else s
    case StopCheck =>
      if s.expired then s.(control := StopReset) else s.(mutex := Free, control := StopAsleep)
    case StopAsleep => s
    case StopReset =>
      s.(tryToExpire := if s.expired then false else s.tryToExpire, mutex := Free, control := Idle)
  }

  function WorkerNext(s: State, i: nat): State
    requires i < |s.workers|
  {
    match s.workers[i]
    case LoopTest =>
      if s.tryToExpire then s.(workers := s.workers[i := WantLock])
      else s.(workers := s.workers[i := InTask], calls := s.calls + 1)
    case InTask => s.(workers := s.workers[i := Sleeping])
    case Sleeping => s.(workers := s.workers[i := LoopTest])
    case WantLock => if s.mutex == Free then s.(mutex := TheWorker(i), workers := s.workers[i := SetExpired]) else s
    case SetExpired => s.(expired := true, workers := s.workers[i := Notify])
    case Notify =>
      s.(workers := s.workers[i := Unlock], control := if s.control == StopAsleep then StopLock else s.control)
    case Unlock => s.(mutex := Free, workers := s.workers[i := Done])
    case Done => s
  }

  function Next(s: State, a: Step): State {
    match a
    case CallStart => if s.control == Idle then s.(control := StartTest) else s
    case CallStop => if s.control == Idle then s.(control := StopTest) else s
    case ControlStep => ControlNext(s)
    case WorkerStep(i) => if i < |s.workers| then WorkerNext(s, i) else s
    case Spurious => if s.control == StopAsleep then s.(control := StopLock) else s
  }

  function Run(s: State, steps: seq<Step>): State
    decreases |steps|
  {
    if steps == [] then s else Run(Next(s, steps[0]), steps[1..])
  }

  // ---- The invariant ----

  predicate Live(s: State, i: nat) {
    i < |s.workers| && s.workers[i] != Done
  }

  predicate Looping(w: Worker) {
    w == LoopTest || w == InTask || w == Sleeping
  }

  predicate Holding(w: Worker) {
    w == SetExpired || w == Notify || w == Unlock
  }

  /** Only the newest worker can be alive. */
  predicate OnlyLastLives(s: State) {
    forall i | 0 <= i < |s.workers| - 1 :: s.workers[i] == Done
  }

  predicate AllDone(s: State) {
    forall i | 0 <= i < |s.workers| :: s.workers[i] == Done
  }

  function Newest(s: State): Worker {
    if s.workers == [] then Done else s.workers[|s.workers| - 1]
  }

  predicate MutexRight(s: State) {
    && (s.mutex == Controller <==> s.control == StopCheck || s.control == StopReset)
    && (Holding(Newest(s)) <==> s.mutex.TheWorker?)
    && (s.mutex.TheWorker? ==> s.mutex.i == |s.workers| - 1)
  }

  // What the newest worker may be doing, seen from where the controlling thread is.
  predicate PhaseRight(s: State) {
    var w := Newest(s);
    match s.control
    case Idle => !s.tryToExpire && (if s.expired then w == Done else Looping(w))
    case StartTest => !s.tryToExpire && (if s.expired then w == Done else Looping(w))
    case StopTest => !s.tryToExpire && (if s.expired then w == Done else Looping(w))
    case StartClear => !s.tryToExpire && s.expired && w == Done
    case StartLaunch => !s.tryToExpire && !s.expired && w == Done
    case StopTestTry => !s.tryToExpire && !s.expired && Looping(w)
    case StopSetTry => !s.tryToExpire && !s.expired && Looping(w)
    case StopLock => s.tryToExpire && Ending(s, w)
    case StopCheck => s.tryToExpire && Ending(s, w)
    case StopAsleep => s.tryToExpire && Ending(s, w) && w != Unlock && w != Done
    case StopReset => s.tryToExpire && s.expired && w == Done
  }

  predicate Ending(s: State, w: Worker) {
    s.expired <==> w == Notify || w == Unlock || w == Done
  }

  predicate Inv(s: State) {
    OnlyLastLives(s) && MutexRight(s) && PhaseRight(s)
  }

  lemma ControlKeepsInv(s: State)
    requires Inv(s)
    ensures Inv(ControlNext(s))
  {
  }

  lemma WorkerKeepsInv(s: State, i: nat)
    requires Inv(s) && i < |s.workers|
    ensures Inv(WorkerNext(s, i))
  {
  }

  lemma NextKeepsInv(s: State, a: Step)
    requires Inv(s)
    ensures Inv(Next(s, a))
  {
    hide ControlNext, WorkerNext;
    match a
    case ControlStep => ControlKeepsInv(s);
    case WorkerStep(i) =>
      if i < |s.workers| {
        WorkerKeepsInv(s, i);
      }
    case _ =>
  }

  lemma {:induction false} EveryInterleaving(s: State, steps: seq<Step>)
    requires Inv(s)
    ensures Inv(Run(s, steps))
    decreases |steps|
  {
    if steps != [] {
      NextKeepsInv(s, steps[0]);
      EveryInterleaving(Next(s, steps[0]), steps[1..]);
    }
  }

  // ---- What the invariant is for ----

  /** At most one worker is alive, in every interleaving. */
  lemma AtMostOneWorker(steps: seq<Step>, i: nat, j: nat)
    requires Live(Run(INITIAL, steps), i) && Live(Run(INITIAL, steps), j)
    ensures i == j
  {
    EveryInterleaving(INITIAL, steps);
  }

  predicate Stopped(s: State) {
    s.expired && AllDone(s) && (s.control == Idle || s.control == StopTest)
  }

  /** Stop is about to return: it has found the timer expired, or another stop under way, or
      has waited for the worker. */
  predicate StopReturning(s: State) {
    (s.control == StopTest || s.control == StopTestTry || s.control == StopReset) && ControlNext(s).control == Idle
  }

  /** Whichever way stop returns no worker is alive, not even one about to unlock. */
  lemma StopReturnsStopped(s: State)
    requires Inv(s) && StopReturning(s)
    ensures Stopped(Next(s, ControlStep)) && !Next(s, ControlStep).tryToExpire
    ensures Next(s, ControlStep).expired && forall w | w in Next(s, ControlStep).workers :: w == Done
  {
  }

  /** From then on no task is called until start is called again. */
  lemma {:induction false} NoCallsWhileStopped(s: State, steps: seq<Step>)
    requires Inv(s) && Stopped(s) && CallStart !in steps
    ensures Stopped(Run(s, steps)) && Run(s, steps).calls == s.calls
    decreases |steps|
  {
    if steps != [] {
      NextKeepsInv(s, steps[0]);
      var t := Next(s, steps[0]);
      assert Stopped(t) && t.calls == s.calls;
      NoCallsWhileStopped(t, steps[1..]);
    }
  }

  /** A start then launches a worker again, whose first step calls the task. */
  lemma StartRunsAgain(s: State)
    requires Inv(s) && Stopped(s) && s.control == Idle
    ensures var t := Run(s, [CallStart, ControlStep, ControlStep, ControlStep]);
            && t.control == Idle && !t.expired && !t.tryToExpire
            && t.workers == s.workers + [LoopTest]
            && Next(t, WorkerStep(|s.workers|)).calls == s.calls + 1
  {
    var s1 := Next(s, CallStart);
    var s2 := Next(s1, ControlStep);
    var s3 := Next(s2, ControlStep);
    var s4 := Next(s3, ControlStep);
    var three, two, one := [ControlStep, ControlStep, ControlStep], [ControlStep, ControlStep], [ControlStep];
    assert [CallStart, ControlStep, ControlStep, ControlStep][1..] == three;
    assert three[1..] == two && two[1..] == one && one[1..] == [];
    assert Run(s3, one) == Run(s4, []);
    assert Run(s2, two) == Run(s3, one);
    assert Run(s1, three) == Run(s2, two);
  }

  // ---- The worker between start and stop ----

  /** Neither a start nor a stop is past its first test, and the timer runs. */
  predicate Running(s: State) {
    Inv(s) && (s.control == Idle || s.control == StartTest) && !s.expired
  }

  function Count(steps: seq<Step>, a: Step): nat {
    if steps == [] then 0 else (if steps[0] == a then 1 else 0) + Count(steps[1..], a)
  }

  /** Three per call, less what the worker still has to do before its next test. */
  function Ticks(s: State): int {
    3 * s.calls - match Newest(s) case InTask => 2 case Sleeping => 1 case _ => 0
  }

  lemma RunningStep(s: State, a: Step)
    requires Running(s) && a != CallStop
    ensures var t := Next(s, a);
            && Running(t) && |t.workers| == |s.workers|
            && Ticks(t) == Ticks(s) + if a == NewestStep(s) then 1 else 0
  {
    NextKeepsInv(s, a);
    hide Inv;
    RunningWorker(s);
  }

  lemma RunningWorker(s: State)
    requires Running(s)
    ensures s.workers != [] && Looping(Newest(s)) && !s.tryToExpire
    ensures forall i | 0 <= i < |s.workers| - 1 :: s.workers[i] == Done
  {
  }

  lemma {:induction false} TicksGoOn(s: State, steps: seq<Step>)
    requires Running(s) && CallStop !in steps
    ensures var t := Run(s, steps);
            Running(t) && |t.workers| == |s.workers| && Ticks(t) == Ticks(s) + Count(steps, NewestStep(s))
    decreases |steps|
  {
    hide Running, Ticks, Next;
    if steps != [] {
      RunningStep(s, steps[0]);
      TicksGoOn(Next(s, steps[0]), steps[1..]);
    }
  }

  /** Until stop is called the task is called once in every three steps of the worker, whatever
      start calls, steps of the controlling thread and wake-ups come between. */
  lemma CallsGoOn(s: State, steps: seq<Step>, n: nat)
    requires Running(s) && Newest(s) == LoopTest
    requires CallStop !in steps && Count(steps, NewestStep(s)) == 3 * n
    ensures var t := Run(s, steps); t.calls == s.calls + n && Newest(t) == LoopTest
  {
    hide Inv, Run;
    TicksGoOn(s, steps);
    RunningWorker(Run(s, steps));
  }

  lemma RunTwo(s: State, a: Step, b: Step)
    ensures Run(s, [a, b]) == Next(Next(s, a), b)
  {
    hide Next;
    assert [a, b][1..] == [b] && [b][1..] == [];
    assert Run(Next(s, a), [b]) == Run(Next(Next(s, a), b), []);
  }

  /** A start while the timer runs, and a stop while it does not, change nothing. */
  lemma IdleCalls(s: State)
    requires Inv(s) && s.control == Idle
    ensures !s.expired ==> Run(s, [CallStart, ControlStep]) == s
    ensures s.expired ==> Run(s, [CallStop, ControlStep]) == s
  {
    RunTwo(s, CallStart, ControlStep);
    RunTwo(s, CallStop, ControlStep);
  }

  /** A stop while the timer runs asks the worker to end in three steps and then waits. */
  lemma StopBegins(s: State)
    requires Inv(s) && s.control == Idle && !s.expired
    ensures Run(s, [CallStop, ControlStep, ControlStep, ControlStep]) == s.(tryToExpire := true, control := StopLock)
  {
    var s2 := Next(Next(s, CallStop), ControlStep);
    var steps := [CallStop, ControlStep, ControlStep, ControlStep];
    RunTwo(s2, ControlStep, ControlStep);
    assert steps[1..][1..] == [ControlStep, ControlStep];
    assert Run(s, steps) == Run(Next(s, CallStop), steps[1..]) == Run(s2, [ControlStep, ControlStep]);
  }

  /** A stop that sleeps can wake up at any time, and then takes the mutex and looks again. */
  lemma SpuriousWakeUp(s: State)
    requires Inv(s) && s.control == StopAsleep && s.mutex == Free && !s.expired
    ensures Run(s, [Spurious, ControlStep]) == s.(mutex := Controller, control := StopCheck)
    ensures Next(Next(Next(s, Spurious), ControlStep), ControlStep) == s
  {
    RunTwo(s, Spurious, ControlStep);
  }

  // ---- Stop returns ----

  /** Work left until a stop returns. Entering the sleep and being woken cost the controlling
      thread three steps, which the worker's exit pays for. */
  function Measure(s: State): nat {
    ControlMeasure(s.control) + 4 * WorkerMeasure(Newest(s))
  }

  function ControlMeasure(c: Control): nat {
    match c
    case StopTest => 7
    case StopTestTry => 6
    case StopSetTry => 5
    case StopLock => 4
    case StopCheck => 3
    case StopReset => 2
    case StopAsleep => 1
    case _ => 0
  }

  function WorkerMeasure(w: Worker): nat {
    match w
    case InTask => 7
    case Sleeping => 6
    case LoopTest => 5
    case WantLock => 4
    case SetExpired => 3
    case Notify => 2
    case Unlock => 1
    case Done => 0
  }

  function NewestStep(s: State): Step {
    WorkerStep(if s.workers == [] then 0 else |s.workers| - 1)
  }

  /** While a stop is past setting `tryToExpire` some thread can move, so no wake-up is lost,
      and every move except a spurious wake-up brings the return of stop nearer. */
  lemma StopAdvances(s: State)
    requires Inv(s) && s.tryToExpire
    ensures exists a :: (a == ControlStep || a == NewestStep(s)) && Next(s, a) != s
  {
    if s.control == StopAsleep || (s.control == StopLock && s.mutex != Free) {
      assert Next(s, NewestStep(s)).workers != s.workers;
    } else {
      assert Next(s, ControlStep).control != s.control;
    }
  }

  lemma StopMeasureDecreases(s: State, a: Step)
    requires Inv(s) && s.tryToExpire && a != Spurious && Next(s, a) != s
    ensures Measure(Next(s, a)) < Measure(s)
  {
  }

  lemma OnlyResetClears(s: State, a: Step)
    requires Inv(s) && s.tryToExpire && !Next(s, a).tryToExpire
    ensures s.control == StopReset && a == ControlStep
  {
  }

  /** A sequence of moves that each change the state, none of them a spurious wake-up. */
  predicate Moves(s: State, steps: seq<Step>)
    decreases |steps|
  {
    steps == [] || (steps[0] != Spurious && Next(s, steps[0]) != s && Moves(Next(s, steps[0]), steps[1..]))
  }

  /** However the two threads move, a stop that has begun to wait has returned after at most
      33 moves. */
  lemma {:induction false} StopReturns(s: State, steps: seq<Step>) returns (n: nat)
    requires Inv(s) && s.tryToExpire && Moves(s, steps) && |steps| >= Measure(s)
    ensures n <= |steps| && n <= Measure(s) <= 33
    ensures Stopped(Run(s, steps[..n]))
    decreases |steps|
  {
    hide Next, Inv, Stopped;
    WaitingIsNotOver(s);
    var a, rest := steps[0], steps[1..];
    StopMeasureDecreases(s, a);
    NextKeepsInv(s, a);
    var t := Next(s, a);
    if t.tryToExpire {
      n := StopReturns(t, rest);
      assert steps[..n + 1][1..] == rest[..n];
      n := n + 1;
    } else {
      OnlyResetClears(s, a);
      ResetReturns(s);
      n := 1;
      assert steps[..1][1..] == [];
    }
  }

  lemma WaitingIsNotOver(s: State)
    requires Inv(s) && s.tryToExpire
    ensures 0 < Measure(s) <= 33
  {
  }

  lemma ResetReturns(s: State)
    requires Inv(s) && s.control == StopReset
    ensures Stopped(Next(s, ControlStep))
  {
    StopReturnsStopped(s);
  }
}
