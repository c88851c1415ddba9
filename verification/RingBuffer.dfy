/** The bounded byte ring of ringbuffer/RingBuffer.cpp, refined to a first-in-first-out queue. */
module RingBuffer {
  import opened Basics

  lemma RemainderIsWrap(position: nat, size: nat)
    requires 0 < size && position <= size
    ensures position % size == Wrap(position, size)
  {
  }

  // ---- Slices of a ring of bytes ----

  function Wrap(position: nat, size: nat): (p: nat)
    requires position < 2 * size
    ensures p < size
  {
    if position < size then position else position - size
  }

  /** The `n` bytes that start at `start` and continue at the front of the ring. */
  function Slice(ring: seq<Byte>, start: nat, n: nat): (s: seq<Byte>)
    requires start < |ring| && n <= |ring|
    ensures |s| == n
    ensures forall k | 0 <= k < n :: s[k] == ring[Wrap(start + k, |ring|)]
  {
    if start + n <= |ring| then ring[start..start + n] else ring[start..] + ring[..start + n - |ring|]
  }

  lemma SliceDrop(ring: seq<Byte>, start: nat, n: nat, count: nat)
    requires start < |ring| && count <= n <= |ring|
    ensures Slice(ring, Wrap(start + count, |ring|), n - count) == Slice(ring, start, n)[count..]
  {
    var dropped := Slice(ring, Wrap(start + count, |ring|), n - count);
    forall k | 0 <= k < n - count
      ensures dropped[k] == Slice(ring, start, n)[count..][k]
    {
      assert Slice(ring, start, n)[count..][k] == Slice(ring, start, n)[count + k];
    }
  }

  lemma SliceTake(ring: seq<Byte>, start: nat, n: nat, count: nat)
    requires start < |ring| && count <= n <= |ring|
    ensures Slice(ring, start, count) == Slice(ring, start, n)[..count]
  {
  }

  lemma SliceParts(ring: seq<Byte>, start: nat, n: nat)
    requires start < |ring| && n <= |ring|
    ensures Slice(ring, start, n)
         == if start + n > |ring| then ring[start..] + ring[..start + n - |ring|] else ring[start..start + n]
  {
  }

  /** `source` laid into `target` from `at` on, as memcpy does. */
  function Overlay(target: seq<Byte>, at: nat, source: seq<Byte>): (s: seq<Byte>)
    requires at + |source| <= |target|
    ensures |s| == |target|
  {
    target[..at] + source + target[at + |source|..]
  }

  lemma OverlayTwice(target: seq<Byte>, at: nat, a: seq<Byte>, b: seq<Byte>)
    requires at + |a| + |b| <= |target|
    ensures Overlay(Overlay(target, at, a), at + |a|, b) == Overlay(target, at, a + b)
  {
  }

  /** `data` laid into the ring from `at` on, continued at the front. */
  function Put(ring: seq<Byte>, at: nat, data: seq<Byte>): (s: seq<Byte>)
    requires at < |ring| && |data| <= |ring|
    ensures |s| == |ring|
  {
    if at + |data| <= |ring| then Overlay(ring, at, data)
    else
      var len := |ring| - at;
      Overlay(Overlay(ring, at, data[..len]), 0, data[len..])
  }

  lemma PutAt(ring: seq<Byte>, at: nat, data: seq<Byte>, k: nat)
    requires at < |ring| && |data| <= |ring| && k < |ring|
    ensures Put(ring, at, data)[Wrap(at + k, |ring|)] == if k < |data| then data[k] else ring[Wrap(at + k, |ring|)]
  {
    var p := Wrap(at + k, |ring|);
    if at + |data| <= |ring| {
      OverlayAt(ring, at, data, p);
    } else {
      var len := |ring| - at;
      var first := Overlay(ring, at, data[..len]);
      OverlayAt(ring, at, data[..len], p);
      OverlayAt(first, 0, data[len..], p);
      hide Overlay;
    }
  }

  lemma OverlayAt(target: seq<Byte>, at: nat, source: seq<Byte>, p: nat)
    requires at + |source| <= |target| && p < |target|
    ensures Overlay(target, at, source)[p] == if at <= p < at + |source| then source[p - at] else target[p]
  {
  }

  /** Putting `data` behind a slice extends the slice by it. */
  lemma PutExtends(ring: seq<Byte>, start: nat, n: nat, data: seq<Byte>)
    requires start < |ring| && n + |data| <= |ring| && start + n < 2 * |ring|
    ensures Slice(Put(ring, Wrap(start + n, |ring|), data), start, n + |data|) == Slice(ring, start, n) + data
  {
    var size := |ring|;
    var at := Wrap(start + n, size);
    var changed := Put(ring, at, data);
    var all := Slice(changed, start, n + |data|);
    forall k | 0 <= k < n + |data|
      ensures all[k] == (Slice(ring, start, n) + data)[k]
    {
      var ahead := if k < n then size - n + k else k - n;
      PutAt(ring, at, data, ahead);
      assert Wrap(at + ahead, size) == Wrap(start + k, size);
    }
  }

  method Copy(target: array<Byte>, at: nat, source: seq<Byte>)
    requires at + |source| <= target.Length
    modifies target
    ensures target[..] == Overlay(old(target[..]), at, source)
  {
    forall k | 0 <= k < |source| {
      target[at + k] := source[k];
    }
  }

  class RingBuffer {
    const buff: array<Byte>
    const capacity: nat
    var readPos: nat
    var writePos: nat
    var availableForRead: nat
    var availableForWrite: nat

    ghost predicate Valid()
      reads this
    {
      && 0 < capacity == buff.Length <= INT_MAX
      && readPos < capacity
      && availableForRead <= capacity
      && availableForWrite == capacity - availableForRead
      && writePos == Wrap(readPos + availableForRead, capacity)
    }

    /** The stored bytes, oldest first. */
    ghost function Contents(): (s: seq<Byte>)
      requires Valid()
      reads this, buff
      ensures |s| == availableForRead
    {
      Slice(buff[..], readPos, availableForRead)
    }

    constructor (capacity: nat)
      requires 0 < capacity <= INT_MAX
      ensures Valid() && fresh(buff) && this.capacity == capacity && Contents() == []
    {
      this.capacity := capacity;
      buff := new Byte[capacity];
      readPos := 0;
      writePos := 0;
      availableForRead := 0;
      availableForWrite := capacity;
    }

    method GetReadLen() returns (n: nat)
      requires Valid()
      ensures n == |Contents()|
    {
      n := availableForRead;
    }

    method GetWriteLen() returns (n: nat)
      requires Valid()
      ensures n == capacity - |Contents()|
    {
      n := availableForWrite;
    }

    // Both halves of a read or write: the copy in one or two pieces, and the position after it.

    method CopyOut(data: array<Byte>, at: nat, count: nat)
      requires Valid() && data != buff && at + count <= data.Length && count <= availableForRead
      modifies data
      ensures data[..] == Overlay(old(data[..]), at, Slice(buff[..], readPos, count))
    {
      hide Overlay, Slice;
      SliceParts(buff[..], readPos, count);
      if readPos + count > capacity {
        var len := capacity - readPos;
        assert buff[..][readPos..] == buff[readPos..readPos + len] && buff[..][..count - len] == buff[..count - len];
        OverlayTwice(data[..], at, buff[readPos..readPos + len], buff[..count - len]);
        Copy(data, at, buff[readPos..readPos + len]);
        Copy(data, at + len, buff[..count - len]);
      } else {
        assert buff[..][readPos..readPos + count] == buff[readPos..readPos + count];
        Copy(data, at, buff[readPos..readPos + count]);
      }
    }

    method CopyIn(data: seq<Byte>)
      requires Valid() && |data| <= availableForWrite
      modifies buff
      ensures buff[..] == Put(old(buff[..]), writePos, data)
    {
      hide Overlay;
      if writePos + |data| > capacity {
        var len := capacity - writePos;
        Copy(buff, writePos, data[..len]);
        Copy(buff, 0, data[len..]);
      } else {
        Copy(buff, writePos, data);
      }
    }

    method Advance(position: nat, count: nat) returns (p: nat)
      requires position < capacity && count <= capacity
      ensures p == Wrap(position + count, capacity)
    {
      if position + count > capacity {
        var len := capacity - position;
        p := count - len;
      } else {
        p := position + count;
      }
      RemainderIsWrap(p, capacity);
      p := p % capacity;
    }

    /** Takes the oldest `count` bytes into `data` from position `at` on, or nothing at all. */
    method Read(data: array<Byte>, at: nat, count: nat) returns (n: nat)
      requires Valid() && data != buff && at + count <= data.Length
      modifies this, data
      ensures Valid()
      ensures if count <= |old(Contents())| then
                && n == count
                && Contents() == old(Contents())[count..]
                && data[..] == Overlay(old(data[..]), at, old(Contents())[..count])
              else
                n == 0 && Contents() == old(Contents()) && data[..] == old(data[..])
    {
      hide Overlay, Slice;
      if availableForRead >= count {
        SliceTake(buff[..], readPos, availableForRead, count);
        SliceDrop(buff[..], readPos, availableForRead, count);
        CopyOut(data, at, count);
        readPos := Advance(readPos, count);
        availableForRead := availableForRead - count;
        availableForWrite := capacity - availableForRead;
        n := count;
      } else {
        n := 0;
      }
    }

    /** Stores all of `data` behind what is there, or nothing at all. */
    method Write(data: seq<Byte>) returns (n: nat)
      requires Valid()
      modifies this, buff
      ensures Valid()
      ensures if |data| <= capacity - |old(Contents())| then n == |data| && Contents() == old(Contents()) + data
              else n == 0 && Contents() == old(Contents())
    {
      hide Put, Slice;
      var count := |data|;
      if availableForWrite >= count {
        PutExtends(buff[..], readPos, availableForRead, data);
        CopyIn(data);
        writePos := Advance(writePos, count);
        availableForRead := availableForRead + count;
        availableForWrite := capacity - availableForRead;
        n := count;
      } else {
        n := 0;
      }
    }
  }
}
