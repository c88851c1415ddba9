/**
 The bounded queue of Queue.hpp. `Queue` is one call at a time; `QueueThreads` splits each
 call where the original does: the size is tested without the lock, the queue changed under it.
 */
module BoundedQueue {
  import opened Basics

  class Queue<T> {
    var q: seq<T>
    var max: int
    var isSetMax: bool

    constructor ()
      ensures q == [] && !isSetMax
    {
      q := [];
      max := 0;
      isSetMax := false;
    }

    method SetMax(value: int)
      modifies this
      ensures max == value && isSetMax && q == old(q)
    {
      max := value;
      isSetMax := true;
    }

    predicate Full()
      reads this
    {
      isSetMax && 0 <= max <= |q|
    }

    method Push(t: T) returns (ok: bool)
      modifies `q
      ensures ok <==> !isSetMax || max < 0 || |old(q)| < max
      ensures q == if ok then old(q) + [t] else old(q)
    {
      // The size is unsigned, so a negative bound never refuses.
      if isSetMax && 0 <= max && |q| >= max {
        return false;
      }
      q := q + [t];
      ok := true;
    }

    method Pop() returns (t: Option<T>)
      modifies `q
      ensures if old(q) == [] then t == None && q == [] else t == Some(old(q)[0]) && q == old(q)[1..]
    {
      if q == [] {
        return None;
      }
      t := Some(q[0]);
      q := q[1..];
    }
  }
}

module QueueThreads {
  import opened Basics
  import opened BoundedQueue

  /** `pushers[i]` holds the item whose size test thread i has passed; `poppers[j]` says that
      thread j has seen the queue non-empty. `pushed` and `popped` record what went through,
      `underflow` that a front was taken from an empty queue. */
  datatype State<T> = State(
    max: nat, q: seq<T>, pushers: seq<Option<T>>, poppers: seq<bool>,
    pushed: seq<T>, popped: seq<T>, underflow: bool)

  datatype Action<T> =
    | PushCheck(i: nat, item: T)
    | PushBody(i: nat)
    | PopCheck(i: nat)
    | PopBody(i: nat)

  function Initial<T>(max: nat, pushers: nat, poppers: nat): State<T> {
    State(max, [], seq(pushers, _ => None), seq(poppers, _ => false), [], [], false)
  }

  function Next<T>(s: State<T>, a: Action<T>): State<T> {
    match a
    case PushCheck(i, item) =>
      if i < |s.pushers| && s.pushers[i] == None && |s.q| < s.max then s.(pushers := s.pushers[i := Some(item)])
      else s
    case PushBody(i) =>
      if i < |s.pushers| && s.pushers[i].Some? then
        var item := s.pushers[i].value;
        s.(pushers := s.pushers[i := None], q := s.q + [item], pushed := s.pushed + [item])
      else s
    case PopCheck(i) =>
      if i < |s.poppers| && !s.poppers[i] && s.q != [] then s.(poppers := s.poppers[i := true]) else s
    case PopBody(i) =>
      if i >= |s.poppers| || !s.poppers[i] then s
      else if s.q == [] then s.(poppers := s.poppers[i := false], underflow := true)
      else s.(poppers := s.poppers[i := false], q := s.q[1..], popped := s.popped + [s.q[0]])
  }

  function Run<T>(s: State<T>, actions: seq<Action<T>>): State<T>
    decreases |actions|
  {
    if actions == [] then s else Run(Next(s, actions[0]), actions[1..])
  }

  // ---- Without other threads in between ----

  lemma RunTwo<T>(s: State<T>, a: Action<T>, b: Action<T>)
    ensures Run(s, [a, b]) == Next(Next(s, a), b)
  {
    hide Next;
    assert [a, b][1..] == [b] && [b][1..] == [];
    assert Run(Next(s, a), [b]) == Run(Next(Next(s, a), b), []);
  }

  /** A push appends exactly when the queue is below its bound. */
  lemma UndisturbedPush<T>(s: State<T>, i: nat, item: T)
    requires i < |s.pushers| && s.pushers[i] == None
    ensures Run(s, [PushCheck(i, item), PushBody(i)])
         == if |s.q| < s.max then s.(q := s.q + [item], pushed := s.pushed + [item]) else s
  {
    RunTwo(s, PushCheck(i, item), PushBody(i));
    assert s.pushers[i := Some(item)][i := None] == s.pushers;
  }

  /** A pop takes exactly the front of a queue that has one. */
  lemma UndisturbedPop<T>(s: State<T>, i: nat)
    requires i < |s.poppers| && !s.poppers[i]
    ensures Run(s, [PopCheck(i), PopBody(i)])
         == if s.q != [] then s.(q := s.q[1..], popped := s.popped + [s.q[0]]) else s
  {
    RunTwo(s, PopCheck(i), PopBody(i));
    assert s.poppers[i := true][i := false] == s.poppers;
  }

  /** How many pushers are past their size test. */
  function Passed<T>(pushers: seq<Option<T>>): (n: nat)
    ensures n <= |pushers|
  {
    if pushers == [] then 0 else (if pushers[0].Some? then 1 else 0) + Passed(pushers[1..])
  }

  lemma {:induction false} PassedUpdate<T>(pushers: seq<Option<T>>, i: nat, o: Option<T>)
    requires i < |pushers|
    ensures Passed(pushers[i := o])
         == Passed(pushers) + (if o.Some? then 1 else 0) - (if pushers[i].Some? then 1 else 0)
  {
    if i > 0 {
      assert pushers[i := o][1..] == pushers[1..][i - 1 := o];
      PassedUpdate(pushers[1..], i - 1, o);
    } else {
      assert pushers[i := o][1..] == pushers[1..];
    }
  }

  lemma {:induction false} PassedNone<T>(n: nat)
    ensures Passed(seq(n, _ => Option<T>.None)) == 0
  {
    if n > 0 {
      assert seq(n, _ => Option<T>.None)[1..] == seq(n - 1, _ => Option<T>.None);
      PassedNone<T>(n - 1);
    }
  }

  lemma SomeonePassed<T>(pushers: seq<Option<T>>, i: nat)
    requires i < |pushers| && pushers[i] == None
    ensures Passed(pushers) < |pushers|
  {
    if pushers[0].Some? {
      SomeonePassed(pushers[1..], i - 1);
    }
  }

  ghost predicate Safe<T>(s: State<T>) {
    && (|s.pushers| > 0 ==> |s.q| + Passed(s.pushers) <= s.max + |s.pushers| - 1)
    && (|s.pushers| == 0 ==> s.q == [])
    && (|s.poppers| <= 1 ==> !s.underflow && (|s.poppers| == 1 && s.poppers[0] ==> s.q != []))
    && s.pushed == s.popped + s.q
  }

  lemma NextSafe<T>(s: State<T>, a: Action<T>)
    requires Safe(s)
    ensures Safe(Next(s, a))
  {
    match a
    case PushCheck(i, item) =>
      if i < |s.pushers| {
        PassedUpdate(s.pushers, i, Some(item));
      }
    case PushBody(i) =>
      if i < |s.pushers| {
        PassedUpdate(s.pushers, i, None);
      }
    case PopCheck(i) =>
    case PopBody(i) =>
  }

  /** In every interleaving of N pushers and any poppers the items queued or about to be are
      at most max + N - 1, one popper alone never takes the front of an empty queue, and
      what was pushed is what was popped followed by what is queued. */
  lemma {:induction false} EveryInterleaving<T>(s: State<T>, actions: seq<Action<T>>)
    requires Safe(s)
    ensures var t := Run(s, actions);
            Safe(t) && t.max == s.max && |t.pushers| == |s.pushers| && |t.poppers| == |s.poppers|
    decreases |actions|
  {
    if actions != [] {
      NextSafe(s, actions[0]);
      EveryInterleaving(Next(s, actions[0]), actions[1..]);
    }
  }

  /** One pusher never exceeds the bound; N pushers exceed it by at most N - 1. */
  lemma QueueBound<T>(max: nat, pushers: nat, poppers: nat, actions: seq<Action<T>>)
    requires pushers > 0
    ensures |Run(Initial<T>(max, pushers, poppers), actions).q| <= max + pushers - 1
    ensures poppers <= 1 ==> !Run(Initial<T>(max, pushers, poppers), actions).underflow
    ensures var t := Run(Initial<T>(max, pushers, poppers), actions); t.pushed == t.popped + t.q
  {
    PassedNone<T>(pushers);
    EveryInterleaving(Initial<T>(max, pushers, poppers), actions);
  }

  // ---- Both limits are sharp ----

  lemma {:induction false} RunConcat<T>(s: State<T>, a: seq<Action<T>>, b: seq<Action<T>>)
    ensures Run(s, a + b) == Run(Run(s, a), b)
    decreases |a|
  {
    if a == [] {
      assert a + b == b;
    } else {
      assert (a + b)[1..] == a[1..] + b;
      RunConcat(Next(s, a[0]), a[1..], b);
    }
  }

  ghost predicate AllIdle<T>(s: State<T>) {
    forall i | 0 <= i < |s.pushers| :: s.pushers[i] == None
  }

  // One pusher fills the queue up to `size` items.
  lemma {:induction false} Fill<T>(s: State<T>, item: T, size: nat) returns (actions: seq<Action<T>>)
    requires |s.pushers| > 0 && AllIdle(s) && |s.q| <= size <= s.max
    ensures var t := Run(s, actions);
            t.max == s.max && |t.pushers| == |s.pushers| && AllIdle(t) && |t.q| == size
    decreases size - |s.q|
  {
    if |s.q| == size {
      actions := [];
    } else {
      var one := [PushCheck(0, item), PushBody(0)];
      var s1 := Next(s, one[0]);
      var s2 := Next(s1, one[1]);
      assert one[1..] == [PushBody(0)];
      assert Run(s1, [PushBody(0)]) == Run(s2, []);
      var rest := Fill(s2, item, size);
      RunConcat(s, one, rest);
      actions := one + rest;
    }
  }

  // From pusher i on, everyone passes the size test before anyone pushes.
  lemma {:induction false} CheckAll<T>(s: State<T>, item: T, i: nat) returns (actions: seq<Action<T>>)
    requires i <= |s.pushers| && |s.q| < s.max
    requires forall k | 0 <= k < |s.pushers| :: s.pushers[k].Some? <==> k < i
    ensures var t := Run(s, actions);
            t.q == s.q && |t.pushers| == |s.pushers| && forall k | 0 <= k < |t.pushers| :: t.pushers[k].Some?
    decreases |s.pushers| - i
  {
    if i == |s.pushers| {
      actions := [];
    } else {
      var rest := CheckAll(Next(s, PushCheck(i, item)), item, i + 1);
      actions := [PushCheck(i, item)] + rest;
    }
  }

  lemma {:induction false} PushAll<T>(s: State<T>, i: nat) returns (actions: seq<Action<T>>)
    requires i <= |s.pushers|
    requires forall k | i <= k < |s.pushers| :: s.pushers[k].Some?
    ensures |Run(s, actions).q| == |s.q| + |s.pushers| - i
    decreases |s.pushers| - i
  {
    if i == |s.pushers| {
      actions := [];
    } else {
      var rest := PushAll(Next(s, PushBody(i)), i + 1);
      actions := [PushBody(i)] + rest;
    }
  }

  /** For every bound and every number of pushers the excess of N - 1 does happen. */
  lemma BoundIsReached<T>(max: nat, pushers: nat, poppers: nat, item: T) returns (actions: seq<Action<T>>)
    requires max > 0 && pushers > 0
    ensures |Run(Initial<T>(max, pushers, poppers), actions).q| == max + pushers - 1
  {
    var s := Initial<T>(max, pushers, poppers);
    var fill := Fill(s, item, max - 1);
    var full := Run(s, fill);
    var check := CheckAll(full, item, 0);
    var push := PushAll(Run(full, check), 0);
    RunConcat(full, check, push);
    RunConcat(s, fill, check + push);
    actions := fill + (check + push);
  }

  /** More than one popper can take the front of an empty queue. */
  lemma TwoPoppersUnderflow<T>(max: nat, pushers: nat, poppers: nat, item: T) returns (actions: seq<Action<T>>)
    requires max > 0 && pushers > 0 && poppers >= 2
    ensures Run(Initial<T>(max, pushers, poppers), actions).underflow
  {
    var s0 := Initial<T>(max, pushers, poppers);
    var s1 := Next(s0, PushCheck(0, item));
    var s2 := Next(s1, PushBody(0));
    var s3 := Next(s2, PopCheck(0));
    var s4 := Next(s3, PopCheck(1));
    var s5 := Next(s4, PopBody(0));
    var tail := [PopBody(1)];
    assert Run(s5, tail) == Run(Next(s5, tail[0]), []);
    tail := [PopBody(0)] + tail;
    assert Run(s4, tail) == Run(s5, tail[1..]);
    tail := [PopCheck(1)] + tail;
    assert Run(s3, tail) == Run(s4, tail[1..]);
    tail := [PopCheck(0)] + tail;
    assert Run(s2, tail) == Run(s3, tail[1..]);
    tail := [PushBody(0)] + tail;
    assert Run(s1, tail) == Run(s2, tail[1..]);
    actions := [PushCheck(0, item)] + tail;
    assert Run(s0, actions) == Run(s1, actions[1..]);
  }
}
