/** The data unit object, refined to the functions of Alignment. */
module DataUnitObject {
  import opened Basics
  import opened Alignment
  import AlignmentThreads

  class DataUnit {
    const cap: nat
    const cache: nat
    const fs: Interval
    const interval: Interval
    var queues: seq<Road>
    var maxSizeIndex: int
    var taskSearchCount: nat
    var timestampStore: Time
    var curTimestamp: Time
    var oneFrame: seq<Option<Message>>
    var xRoadTimestamp: seq<Time>

    function State(): Unit
      reads this
    {
      Unit(cap, cache, fs, interval, queues, maxSizeIndex, taskSearchCount, timestampStore, curTimestamp,
           oneFrame, xRoadTimestamp)
    }

    constructor (cap: nat, fs: Interval, numI: nat, cache: nat, interval: Interval)
      ensures State() == Unit(cap, cache, fs, interval, seq(numI, _ => []), -1, 0, 0, 0,
                              seq(numI, _ => None), seq(numI, _ => 0))
      ensures AlignmentThreads.Safe(AlignmentThreads.System(State(), AlignmentThreads.Idle, []))
    {
      this.cap, this.cache, this.fs, this.interval := cap, cache, fs, interval;
      queues := seq(numI, _ => []);
      maxSizeIndex, taskSearchCount := -1, 0;
      timestampStore, curTimestamp := 0, 0;
      oneFrame := seq(numI, _ => None);
      xRoadTimestamp := seq(numI, _ => 0);
    }

    /** A road that does not exist is an exception that pushI turns into a refusal. */
    method PushI(message: Message, index: int) returns (ok: bool)
      modifies `queues
      ensures ok == (0 <= index < |old(queues)|)
      ensures queues == if ok then old(queues)[index := Pushed(old(queues)[index], message, cap)] else old(queues)
    {
      if index < 0 || index >= |queues| {
        return false;
      }
      var q := queues[index] + [message];
      if |q| > cap {
        q := q[1..];
      }
      queues := queues[index := q];
      ok := true;
    }

    method MaxSizeIndexNext()
      modifies `maxSizeIndex, `taskSearchCount
      ensures State() == Rotated(old(State()))
    {
      maxSizeIndex := maxSizeIndex + 1;
      if maxSizeIndex > |queues| {
        maxSizeIndex := 0;
      }
      taskSearchCount := 0;
    }

    method GetIOffset(index: int, offset: nat) returns (i: Option<Message>)
      ensures i == At(State(), index, offset)
    {
      if index < 0 || index >= |queues| {
        return None;
      }
      if offset >= |queues[index]| {
        return None;
      }
      i := Some(queues[index][offset]);
    }

    /** Searches one road while nothing is pushed onto it; a road without a message in range
        keeps its old slot and time. */
    method ThreadGetDataInRange(index: nat, time: Time)
      requires index < |queues| == |oneFrame| == |xRoadTimestamp|
      modifies `oneFrame, `xRoadTimestamp
      ensures var p := Pick(queues[index], time, fs);
              if p.Some? then
                && oneFrame == old(oneFrame)[index := p]
                && xRoadTimestamp == old(xRoadTimestamp)[index := p.value.timestamp]
              else
                oneFrame == old(oneFrame) && xRoadTimestamp == old(xRoadTimestamp)
    {
      var road := queues[index];
      var i := 0;
      while i < |road|
        invariant i <= |road|
        invariant Pick(road[i..], time, fs) == Pick(road, time, fs)
        invariant oneFrame == old(oneFrame) && xRoadTimestamp == old(xRoadTimestamp)
      {
        var refer := road[i];
        assert road[i..][1..] == road[i + 1..];
        var difference := refer.timestamp as int - time as int;
        if (if difference < 0 then -difference else difference) < fs as int {
          xRoadTimestamp := xRoadTimestamp[index := refer.timestamp];
          oneFrame := oneFrame[index := Some(refer)];
          return;
        }
        i := i + 1;
      }
    }

    method FindOneFrame(offset: nat) returns (code: int)
      requires Valid(State())
      modifies this
      ensures (State(), Result(code)) == Alignment.FindOneFrame(old(State()), offset)
    {
      hide Pick;
      var refer := GetIOffset(maxSizeIndex, offset);
      if refer.None? {
        MaxSizeIndexNext();
        return -1;
      }
      if timestampStore + fs > refer.value.timestamp {
        taskSearchCount := taskSearchCount + 1;
        var spent := Spent(taskSearchCount);
        if spent {
          MaxSizeIndexNext();
        }
        return -2;
      }
      taskSearchCount := 0;
      timestampStore := refer.value.timestamp;
      curTimestamp := refer.value.timestamp;
      CollectFrame();
      code := 0;
    }

    // The wait of 2.5 times fs, in halves.
    method Spent(count: nat) returns (spent: bool)
      ensures spent == Impatient(State(), count)
    {
      spent := 2 * (count * interval) >= 5 * fs;
    }

    // One slot per road, emptied and then searched for.
    method CollectFrame()
      requires |xRoadTimestamp| == |queues|
      modifies `oneFrame, `xRoadTimestamp
      ensures oneFrame == Picked(queues, curTimestamp, fs)
      ensures xRoadTimestamp == Times(old(xRoadTimestamp), oneFrame)
    {
      hide Pick, Picked, Alignment.Times;
      oneFrame := seq(|queues|, _ => None);
      for i := 0 to |queues|
        invariant |oneFrame| == |queues| == |xRoadTimestamp|
        invariant forall k | 0 <= k < i :: oneFrame[k] == Pick(queues[k], curTimestamp, fs)
        invariant forall k | i <= k < |queues| :: oneFrame[k] == None
        invariant forall k | 0 <= k < i ::
                    xRoadTimestamp[k] == (if oneFrame[k].Some? then oneFrame[k].value.timestamp
                                          else old(xRoadTimestamp)[k])
        invariant forall k | i <= k < |queues| :: xRoadTimestamp[k] == old(xRoadTimestamp)[k]
      {
        ThreadGetDataInRange(i, curTimestamp);
      }
      Collected(queues, curTimestamp, fs, old(xRoadTimestamp), oneFrame, xRoadTimestamp);
    }

    lemma Collected(roads: seq<Road>, time: Time, fs: Interval,
                    kept: seq<Time>, frame: seq<Option<Message>>, times: seq<Time>)
      requires |frame| == |roads| == |kept| == |times|
      requires forall k | 0 <= k < |roads| :: frame[k] == Pick(roads[k], time, fs)
      requires forall k | 0 <= k < |roads| :: times[k] == if frame[k].Some? then frame[k].value.timestamp else kept[k]
      ensures frame == Picked(roads, time, fs) && times == Alignment.Times(kept, frame)
    {
      hide Pick;
    }

    ghost function Result(code: int): Alignment.Result {
      if code == -1 then Miss else if code == -2 then Waiting else Found
    }

    method RunTask() returns (code: int)
      requires Valid(State())
      modifies this
      ensures (State(), Result(code)) == Alignment.RunTask(old(State()))
    {
      var maxSize, maxIndex := 0, 0;
      for i := 0 to |queues|
        invariant (maxSize, maxIndex) == LongestOf(queues, i)
      {
        if |queues[i]| > maxSize {
          maxSize := |queues[i]|;
          maxIndex := i;
        }
      }
      code := -1;
      if maxSize >= cache {
        if maxSizeIndex == -1 {
          maxSizeIndex := maxIndex;
        }
        code := FindOneFrame(cache / 2);
      }
    }
  }
}
