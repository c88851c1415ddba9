/**
 What a well-formed byte stream delivers: packages as the sender packs them, noise between
 them, and frames damaged on the way.
 */
module Stream {
  import opened Basics
  import opened Crc
  import opened CrcTable
  import opened Package
  import opened Parser

  datatype Segment =
    | Noise(bytes: seq<Byte>)
    | Sent(pkg: Pkg)
    | Damaged(frame: seq<Byte>)

  /** A package that Pack accepts, with the default tag and a size the receiver can index. */
  predicate Sendable(pkg: Pkg) {
    pkg.head.tag == TAG && Announced(pkg) && Size(pkg.head) <= INT_MAX
  }

  /** A frame whose tag and length field survived and whose CRC check fails. */
  predicate Broken(frame: seq<Byte>) {
    Partial(frame) && |frame| == LengthField(frame) && !Intact(frame)
  }

  predicate WellFormed(segment: Segment) {
    match segment
    case Noise(bytes) => TAG !in bytes
    case Sent(pkg) => Sendable(pkg)
    case Damaged(frame) => Broken(frame)
  }

  function Wire(segment: Segment): seq<Byte> {
    match segment
    case Noise(bytes) => bytes
    case Sent(pkg) => Encode(pkg)
    case Damaged(frame) => frame
  }

  function WireAll(segments: seq<Segment>): seq<Byte> {
    if segments == [] then [] else Wire(segments[0]) + WireAll(segments[1..])
  }

  function Delivered(segment: Segment): seq<Pkg> {
    if segment.Sent? then [Checked(segment.pkg)] else []
  }

  /** The packages sent intact, in order, with the checksums Pack gave them. */
  function Packages(segments: seq<Segment>): seq<Pkg> {
    if segments == [] then []
    else Delivered(segments[0]) + Packages(segments[1..])
  }

  lemma {:induction false} FramesSkipNoise(noise: seq<Byte>, rest: seq<Byte>)
    requires TAG !in noise
    ensures Frames(noise + rest) == Frames(rest)
  {
    hide Size, HeadOf, Ccitt;
    if noise == [] {
      assert noise + rest == rest;
    } else {
      assert (noise + rest)[1..] == noise[1..] + rest;
      FramesSkipNoise(noise[1..], rest);
    }
  }

  lemma EncodedFrame(pkg: Pkg)
    requires Sendable(pkg)
    ensures Partial(Encode(pkg)) && |Encode(pkg)| == LengthField(Encode(pkg)) && Intact(Encode(pkg))
    ensures Decode(Encode(pkg)) == Checked(pkg)
  {
    hide Size, HeadOf, Ccitt;
    UnpackOfPack(pkg);
    var content := HeadBytes(pkg.head) + pkg.body;
    HeadRoundTrip(pkg.head, pkg.body + Bytes16(Ccitt(content)));
    assert Encode(pkg) == HeadBytes(pkg.head) + (pkg.body + Bytes16(Ccitt(content)));
  }

  lemma FramesOfSegment(segment: Segment, rest: seq<Byte>)
    requires WellFormed(segment)
    ensures Frames(Wire(segment) + rest) == Delivered(segment) + Frames(rest)
  {
    hide Size, HeadOf, Ccitt, Frames, Encode, Intact, Decode;
    match segment
    case Noise(bytes) =>
      FramesSkipNoise(bytes, rest);
    case Sent(pkg) =>
      EncodedFrame(pkg);
      FramesOfFrame(Encode(pkg), rest);
    case Damaged(frame) =>
      FramesOfFrame(frame, rest);
  }

  /** The parse of a stream is exactly its intact packages: noise is skipped and a damaged
      frame costs no other frame. */
  lemma {:induction false} FramesOfStream(segments: seq<Segment>, rest: seq<Byte>)
    requires forall s | s in segments :: WellFormed(s)
    ensures Frames(WireAll(segments) + rest) == Packages(segments) + Frames(rest)
  {
    hide WellFormed, Frames, Wire, Delivered;
    if segments == [] {
      assert WireAll(segments) + rest == rest;
    } else {
      var more := WireAll(segments[1..]) + rest;
      assert WireAll(segments) + rest == Wire(segments[0]) + more;
      FramesOfStream(segments[1..], rest);
      FramesOfSegment(segments[0], more);
    }
  }

  lemma StreamDelivers(segments: seq<Segment>)
    requires forall s | s in segments :: WellFormed(s)
    ensures Frames(WireAll(segments)) == Packages(segments)
  {
    hide Size, HeadOf, Ccitt;
    FramesOfStream(segments, []);
    assert WireAll(segments) + [] == WireAll(segments);
  }

  /** A frame hit by an error burst of up to sixteen bits that spares tag and length field
      is a damaged segment, so only that frame is lost. */
  lemma BurstIsIsolated(pkg: Pkg, received: seq<Byte>, at: nat)
    requires Sendable(pkg)
    requires |received| == |Encode(pkg)|
    requires received[0] == TAG && received[9..HEAD_SIZE] == Encode(pkg)[9..HEAD_SIZE]
    requires DifferInBurst(MessageBits(Encode(pkg), 1), MessageBits(received, 1), at)
    ensures WellFormed(Damaged(received))
  {
    var frame := Encode(pkg);
    EncodedFrame(pkg);
    hide Size, Ccitt, Encode, Intact, MessageBits;
    BurstBreaksFrame(frame, received, at);
    assert forall k | 9 <= k < HEAD_SIZE :: received[k] == received[9..HEAD_SIZE][k - 9];
    assert forall k | 9 <= k < HEAD_SIZE :: frame[k] == frame[9..HEAD_SIZE][k - 9];
    assert LengthField(received) == LengthField(frame);
  }
}
