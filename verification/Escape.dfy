/**
 Escaping of signalControlCom.cpp: a reserved byte between the first and the last byte of a
 message is preceded by the escape byte `tf`.
 */
module Escape {
  import opened Basics

  /** `Throws` is the out_of_range that both functions raise on an empty message, whose
      size minus one wraps around. */
  datatype Outcome = Message(bytes: seq<Byte>) | Throws

  predicate Reserved(b: Byte, needSet: seq<Byte>) {
    b in needSet
  }

  // ---- What the loops compute ----

  function Escaped(interior: seq<Byte>, tf: Byte, needSet: seq<Byte>): seq<Byte> {
    if interior == [] then []
    else
      (if Reserved(interior[0], needSet) then [tf, interior[0]] else [interior[0]])
      + Escaped(interior[1..], tf, needSet)
  }

  // The trailer is looked at behind an escape byte, never removed itself.
  function Unescaped(tail: seq<Byte>, tf: Byte, needSet: seq<Byte>): seq<Byte> {
    if |tail| <= 1 then tail
    else if tail[0] == tf && Reserved(tail[1], needSet) then [tail[1]] + Unescaped(tail[2..], tf, needSet)
    else [tail[0]] + Unescaped(tail[1..], tf, needSet)
  }

  function Transfer(message: seq<Byte>, tf: Byte, needSet: seq<Byte>): Outcome {
    if message == [] then Throws
    else if |message| == 1 then Message(message)
    else
      var last := |message| - 1;
      Message([message[0]] + Escaped(message[1..last], tf, needSet) + [message[last]])
  }

  function DeTransfer(message: seq<Byte>, tf: Byte, needSet: seq<Byte>): Outcome {
    if message == [] then Throws else Message([message[0]] + Unescaped(message[1..], tf, needSet))
  }

  lemma {:induction false} EscapedAppend(a: seq<Byte>, b: Byte, tf: Byte, needSet: seq<Byte>)
    ensures Escaped(a + [b], tf, needSet)
         == Escaped(a, tf, needSet) + if Reserved(b, needSet) then [tf, b] else [b]
  {
    hide Reserved;
    if a == [] {
      assert a + [b] == [b];
    } else {
      assert (a + [b])[1..] == a[1..] + [b];
      EscapedAppend(a[1..], b, tf, needSet);
    }
  }

  method IsInSet(b: Byte, needSet: seq<Byte>) returns (found: bool)
    ensures found <==> b in needSet
  {
    found := false;
    for k := 0 to |needSet|
      invariant !found && b !in needSet[..k]
    {
      if needSet[k] == b {
        return true;
      }
    }
  }

  // The message while its first k bytes are done, and where byte k then stands.
  function Progress(message: seq<Byte>, k: nat, tf: Byte, needSet: seq<Byte>): seq<Byte>
    requires 1 <= k <= |message|
  {
    [message[0]] + Escaped(message[1..k], tf, needSet) + message[k..]
  }

  function Position(message: seq<Byte>, k: nat, tf: Byte, needSet: seq<Byte>): nat
    requires 1 <= k <= |message|
  {
    1 + |Escaped(message[1..k], tf, needSet)|
  }

  lemma ProgressStep(message: seq<Byte>, k: nat, tf: Byte, needSet: seq<Byte>)
    requires 1 <= k < |message|
    ensures var out, i := Progress(message, k, tf, needSet), Position(message, k, tf, needSet);
            var reserved := Reserved(message[k], needSet);
            && |out| - i == |message| - k
            && out[i] == message[k]
            && Progress(message, k + 1, tf, needSet) == (if reserved then out[..i] + [tf] + out[i..] else out)
            && Position(message, k + 1, tf, needSet) == i + if reserved then 2 else 1
  {
    hide Reserved, Escaped;
    EscapedAppend(message[1..k], message[k], tf, needSet);
    assert message[1..k + 1] == message[1..k] + [message[k]];
    assert message[k..] == [message[k]] + message[k + 1..];
  }

  lemma ProgressEnds(message: seq<Byte>, tf: Byte, needSet: seq<Byte>)
    requires message != []
    ensures Progress(message, 1, tf, needSet) == message && Position(message, 1, tf, needSet) == 1
    ensures var k := if |message| == 1 then 1 else |message| - 1;
            Transfer(message, tf, needSet) == Message(Progress(message, k, tf, needSet))
            && |Progress(message, k, tf, needSet)| - Position(message, k, tf, needSet) == |message| - k
  {
    assert message[1..1] == [];
  }

  method TransferMean(message: seq<Byte>, tf: Byte, needSet: seq<Byte>) returns (r: Outcome)
    ensures r == Transfer(message, tf, needSet)
  {
    var out := message;
    if |out| == 0 {
      return Throws;
    }
    var i := 1;
    ghost var k := 1;
    ProgressEnds(message, tf, needSet);
    while i < |out| - 1
      invariant 1 <= k <= |message| && (|message| == 1 || k < |message|)
      invariant out == Progress(message, k, tf, needSet) && i == Position(message, k, tf, needSet)
      invariant |out| - i == |message| - k
      decreases |message| - k
    {
      hide Progress, Position, Reserved;
      ProgressStep(message, k, tf, needSet);
      var reserved := IsInSet(out[i], needSet);
      if reserved {
        out := out[..i] + [tf] + out[i..];
        i := i + 1;
      }
      i := i + 1;
      k := k + 1;
    }
    r := Message(out);
  }

  method DeTransferMean(message: seq<Byte>, tf: Byte, needSet: seq<Byte>) returns (r: Outcome)
    ensures r == DeTransfer(message, tf, needSet)
  {
    var out := message;
    if |out| == 0 {
      return Throws;
    }
    var i := 1;
    while i < |out| - 1
      invariant 1 <= i <= |out|
      invariant [message[0]] + Unescaped(message[1..], tf, needSet) == out[..i] + Unescaped(out[i..], tf, needSet)
      decreases |out| - i
    {
      hide Unescaped, Reserved;
      UnescapedStep(out, i, tf, needSet);
      if out[i] == tf && i < |out| - 1 {
        var reserved := IsInSet(out[i + 1], needSet);
        if reserved {
          out := out[..i] + out[i + 1..];
        }
      }
      i := i + 1;
    }
    r := Message(out);
  }

  lemma UnescapedStep(out: seq<Byte>, i: nat, tf: Byte, needSet: seq<Byte>)
    requires i < |out| - 1
    ensures var kept := if out[i] == tf && Reserved(out[i + 1], needSet) then out[..i] + out[i + 1..] else out;
            out[..i] + Unescaped(out[i..], tf, needSet) == kept[..i + 1] + Unescaped(kept[i + 1..], tf, needSet)
  {
    hide Reserved;
    var tail := out[i..];
    if out[i] == tf && Reserved(out[i + 1], needSet) {
      var kept := out[..i] + out[i + 1..];
      assert kept[..i + 1] == out[..i] + [out[i + 1]];
      assert kept[i + 1..] == tail[2..];
    } else {
      assert out[..i + 1] == out[..i] + [out[i]];
      assert out[i + 1..] == tail[1..];
    }
  }

  // ---- Round trip ----

  /** The one message the original cannot restore: its last inner byte is an unreserved `tf`
      and its trailer is reserved. */
  predicate Ambiguous(message: seq<Byte>, tf: Byte, needSet: seq<Byte>) {
    && !Reserved(tf, needSet)
    && |message| >= 3
    && message[|message| - 2] == tf
    && Reserved(message[|message| - 1], needSet)
  }

  lemma UnescapePair(b: Byte, rest: seq<Byte>, tf: Byte, needSet: seq<Byte>)
    requires Reserved(b, needSet)
    ensures Unescaped([tf, b] + rest, tf, needSet) == [b] + Unescaped(rest, tf, needSet)
  {
    assert ([tf, b] + rest)[2..] == rest;
  }

  lemma UnescapePlain(b: Byte, rest: seq<Byte>, tf: Byte, needSet: seq<Byte>)
    requires |rest| > 0 && !(b == tf && Reserved(rest[0], needSet))
    ensures Unescaped([b] + rest, tf, needSet) == [b] + Unescaped(rest, tf, needSet)
  {
    assert ([b] + rest)[1..] == rest;
  }

  lemma Regroup(e: seq<Byte>, n: nat, trailer: Byte)
    requires 1 <= n <= |e|
    ensures e + [trailer] == e[..n] + (e[n..] + [trailer])
    ensures n == 1 ==> e[..n] == [e[0]]
    ensures n == 2 ==> e[..n] == [e[0], e[1]]
  {
  }

  // The escape byte would swallow itself: the last inner byte of an ambiguous message.
  predicate Swallows(w: seq<Byte>, trailer: Byte, tf: Byte, needSet: seq<Byte>) {
    w != [] && !Reserved(tf, needSet) && w[|w| - 1] == tf && Reserved(trailer, needSet)
  }

  function Restored(w: seq<Byte>, trailer: Byte, tf: Byte, needSet: seq<Byte>): seq<Byte> {
    (if Swallows(w, trailer, tf, needSet) then w[..|w| - 1] else w) + [trailer]
  }

  lemma SwallowsTail(w: seq<Byte>, trailer: Byte, tf: Byte, needSet: seq<Byte>)
    requires w != [] && !(|w| == 1 && Swallows(w, trailer, tf, needSet))
    ensures Restored(w, trailer, tf, needSet) == [w[0]] + Restored(w[1..], trailer, tf, needSet)
  {
    hide Reserved;
    assert w == [w[0]] + w[1..];
  }

  lemma EscapedCons(w: seq<Byte>, trailer: Byte, tf: Byte, needSet: seq<Byte>)
    requires w != []
    ensures Escaped(w, tf, needSet) + [trailer]
         == (if Reserved(w[0], needSet) then [tf, w[0]] else [w[0]]) + (Escaped(w[1..], tf, needSet) + [trailer])
  {
    hide Reserved;
  }

  // The first byte sent is reserved only if it is an escape byte or the trailer.
  lemma FirstSent(w: seq<Byte>, trailer: Byte, tf: Byte, needSet: seq<Byte>)
    ensures Reserved((Escaped(w, tf, needSet) + [trailer])[0], needSet) ==>
              Reserved(tf, needSet) || (w == [] && Reserved(trailer, needSet))
  {
    hide Reserved;
    if w != [] {
      EscapedCons(w, trailer, tf, needSet);
    }
  }

  lemma {:induction false} UnescapeEscaped(w: seq<Byte>, trailer: Byte, tf: Byte, needSet: seq<Byte>)
    ensures Unescaped(Escaped(w, tf, needSet) + [trailer], tf, needSet) == Restored(w, trailer, tf, needSet)
  {
    if w == [] {
      UnescapeShort([trailer], tf, needSet);
      assert Escaped(w, tf, needSet) + [trailer] == [trailer] == w + [trailer];
    } else {
      EscapedCons(w, trailer, tf, needSet);
      FirstSent(w[1..], trailer, tf, needSet);
      hide Reserved, Escaped, Unescaped, Restored;
      if |w| == 1 && Swallows(w, trailer, tf, needSet) {
        SwallowedLast(w, trailer, tf, needSet);
      } else {
        var rest := Escaped(w[1..], tf, needSet) + [trailer];
        UnescapeEscaped(w[1..], trailer, tf, needSet);
        SwallowsTail(w, trailer, tf, needSet);
        if Reserved(w[0], needSet) {
          UnescapePair(w[0], rest, tf, needSet);
        } else {
          UnescapePlain(w[0], rest, tf, needSet);
        }
      }
    }
  }

  lemma SwallowedLast(w: seq<Byte>, trailer: Byte, tf: Byte, needSet: seq<Byte>)
    requires |w| == 1 && Swallows(w, trailer, tf, needSet)
    ensures Unescaped(Escaped(w, tf, needSet) + [trailer], tf, needSet) == Restored(w, trailer, tf, needSet)
  {
    hide Reserved;
    assert Escaped(w, tf, needSet) + [trailer] == [tf, trailer] + [];
    UnescapePair(trailer, [], tf, needSet);
  }

  lemma UnescapeShort(tail: seq<Byte>, tf: Byte, needSet: seq<Byte>)
    requires |tail| <= 1
    ensures Unescaped(tail, tf, needSet) == tail
  {
  }

  /** Unescaping restores every message except the ambiguous ones. */
  lemma RoundTrip(message: seq<Byte>, tf: Byte, needSet: seq<Byte>)
    requires message != []
    ensures Transfer(message, tf, needSet).Message?
    ensures DeTransfer(Transfer(message, tf, needSet).bytes, tf, needSet) == Message(message)
       <==> !Ambiguous(message, tf, needSet)
  {
    hide Escaped, Unescaped, Reserved, Restored;
    if |message| == 1 {
      UnescapeShort(message[1..], tf, needSet);
    } else {
      var last := |message| - 1;
      var interior := message[1..last];
      var sent := Transfer(message, tf, needSet).bytes;
      UnescapeEscaped(interior, message[last], tf, needSet);
      assert sent[1..] == Escaped(interior, tf, needSet) + [message[last]];
      RestoredIsTail(message, tf, needSet);
    }
  }

  lemma RestoredIsTail(message: seq<Byte>, tf: Byte, needSet: seq<Byte>)
    requires |message| >= 2
    ensures var last := |message| - 1;
            [message[0]] + Restored(message[1..last], message[last], tf, needSet) == message
            <==> !Ambiguous(message, tf, needSet)
  {
    hide Reserved;
    var last := |message| - 1;
    assert message == [message[0]] + (message[1..last] + [message[last]]);
  }

  /** Both functions throw on the empty message only, and neither touches the first or, in
      escaping, the last byte. */
  lemma EndsStay(message: seq<Byte>, tf: Byte, needSet: seq<Byte>)
    ensures Transfer(message, tf, needSet) == Throws <==> message == []
    ensures DeTransfer(message, tf, needSet) == Throws <==> message == []
    ensures message != [] ==>
              var sent := Transfer(message, tf, needSet).bytes;
              && sent != [] && sent[0] == message[0] && sent[|sent| - 1] == message[|message| - 1]
              && DeTransfer(message, tf, needSet).bytes[0] == message[0]
  {
    hide Escaped, Unescaped;
  }

  // ---- Transparency ----

  /** Every reserved byte belongs to a pair of the escape byte and the byte it protects. */
  predicate Protected(interior: seq<Byte>, tf: Byte, needSet: seq<Byte>) {
    if interior == [] then true
    else if !Reserved(interior[0], needSet) then Protected(interior[1..], tf, needSet)
    else |interior| >= 2 && interior[0] == tf && Reserved(interior[1], needSet) && Protected(interior[2..], tf, needSet)
  }

  lemma {:induction false} EscapedIsProtected(w: seq<Byte>, tf: Byte, needSet: seq<Byte>)
    requires Reserved(tf, needSet)
    ensures Protected(Escaped(w, tf, needSet), tf, needSet)
  {
    hide Reserved;
    if w != [] {
      var rest := Escaped(w[1..], tf, needSet);
      EscapedIsProtected(w[1..], tf, needSet);
      if Reserved(w[0], needSet) {
        assert ([tf, w[0]] + rest)[2..] == rest;
      } else {
        assert ([w[0]] + rest)[1..] == rest;
      }
    }
  }

  lemma {:induction false} EscapeUnescaped(e: seq<Byte>, trailer: Byte, tf: Byte, needSet: seq<Byte>)
    returns (w: seq<Byte>)
    requires Reserved(tf, needSet) && Protected(e, tf, needSet)
    ensures Unescaped(e + [trailer], tf, needSet) == w + [trailer] && Escaped(w, tf, needSet) == e
  {
    hide Reserved, Unescaped;
    if e == [] {
      w := [];
      assert e + [trailer] == [trailer];
      UnescapeShort([trailer], tf, needSet);
    } else {
      var n := if Reserved(e[0], needSet) then 2 else 1;
      var rest := EscapeUnescaped(e[n..], trailer, tf, needSet);
      w := [e[n - 1]] + rest;
      assert w[1..] == rest;
      Regroup(e, n, trailer);
      if n == 2 {
        UnescapePair(e[1], e[2..] + [trailer], tf, needSet);
      } else {
        UnescapePlain(e[0], e[1..] + [trailer], tf, needSet);
      }
    }
  }

  /** The escaped messages are exactly the protected ones: escaping always produces one, and
      each one is restored by unescaping and escaping again. */
  lemma Transparency(message: seq<Byte>, tf: Byte, needSet: seq<Byte>)
    requires |message| >= 2 && Reserved(tf, needSet)
    ensures var sent := Transfer(message, tf, needSet).bytes;
            Protected(sent[1..|sent| - 1], tf, needSet)
    ensures Protected(message[1..|message| - 1], tf, needSet) ==>
              DeTransfer(message, tf, needSet).Message?
              && Transfer(DeTransfer(message, tf, needSet).bytes, tf, needSet) == Message(message)
  {
    hide Escaped, Unescaped, Reserved, Protected;
    var last := |message| - 1;
    var sent := Transfer(message, tf, needSet).bytes;
    assert sent[1..|sent| - 1] == Escaped(message[1..last], tf, needSet);
    EscapedIsProtected(message[1..last], tf, needSet);
    if Protected(message[1..last], tf, needSet) {
      var w := EscapeUnescaped(message[1..last], message[last], tf, needSet);
      assert message[1..] == message[1..last] + [message[last]];
      var restored := [message[0]] + (w + [message[last]]);
      assert restored[1..|restored| - 1] == w;
    }
  }
}
