/** The QEMU socket's frame format: a 32-bit big-endian length, then the frame. */
module Framing {
  import opened Bytes
  import opened BigEndian

  const MAX_FRAME := 4096  // the size of the receive buffer
  const MIN_FRAME := 60

  const TWO_TO_THE_32 := 0x1_0000_0000

  /** What is sent to QEMU for a frame. The length is cut to 32 bits. */
  function Encode(frame: seq<byte>): (bs: seq<byte>)
    ensures |bs| == 4 + |frame|
  {
    EncodeBe(4, |frame| % TWO_TO_THE_32) + frame
  }

  function EncodeAll(frames: seq<seq<byte>>): seq<byte> {
    if |frames| == 0 then [] else Encode(frames[0]) + EncodeAll(frames[1..])
  }

  /** Short frames are filled up with zeros before they are sent on. */
  function Pad(body: seq<byte>): (frame: seq<byte>)
    ensures |frame| == if |body| < MIN_FRAME then MIN_FRAME else |body|
  {
    if |body| < MIN_FRAME then body + Zeros(MIN_FRAME - |body|) else body
  }

  function PadAll(bodies: seq<seq<byte>>): (frames: seq<seq<byte>>)
    ensures |frames| == |bodies|
  {
    if |bodies| == 0 then [] else [Pad(bodies[0])] + PadAll(bodies[1..])
  }

  function SizeField(stream: seq<byte>): nat
    requires |stream| >= 4
  {
    DecodeBe(stream[..4])
  }

  /** The stream does not begin with a complete frame of acceptable size. */
  predicate Blocked(stream: seq<byte>) {
    |stream| < 4 || SizeField(stream) > MAX_FRAME || |stream| < 4 + SizeField(stream)
  }

  /** The frames a stream is decoded to: the padded bodies of its complete frames, up to the first that is too large. */
  function Frames(stream: seq<byte>): seq<seq<byte>>
    decreases |stream|
  {
    if Blocked(stream) then []
    else [Pad(stream[4..4 + SizeField(stream)])] + Frames(stream[4 + SizeField(stream)..])
  }

  /** The stream consists of complete frames of acceptable size. */
  predicate Whole(stream: seq<byte>)
    decreases |stream|
  {
    |stream| == 0 || (!Blocked(stream) && Whole(stream[4 + SizeField(stream)..]))
  }

  lemma EncodedSize(frame: seq<byte>, rest: seq<byte>)
    ensures SizeField(Encode(frame) + rest) == |frame| % TWO_TO_THE_32 <= |frame|
  {
    var size := |frame| % TWO_TO_THE_32;
    assert (Encode(frame) + rest)[..4] == EncodeBe(4, size);
    Fits4(size);
    DecodeEncode(4, size);
  }

  lemma EncodedFrame(frame: seq<byte>, rest: seq<byte>)
    requires |frame| <= MAX_FRAME
    ensures SizeField(Encode(frame) + rest) == |frame|
    ensures (Encode(frame) + rest)[4..4 + |frame|] == frame && (Encode(frame) + rest)[4 + |frame|..] == rest
  {
    EncodedSize(frame, rest);
  }

  /**
   However a stream is split into encoded frames of acceptable size and a blocked rest, it is decoded
   to exactly those frames, padded.
   */
  lemma FramesOfSplit(bodies: seq<seq<byte>>, rest: seq<byte>)
    requires forall i :: 0 <= i < |bodies| ==> |bodies[i]| <= MAX_FRAME
    requires Blocked(rest)
    ensures Frames(EncodeAll(bodies) + rest) == PadAll(bodies)
  {
    FramesBehind(bodies, rest);
    assert PadAll(bodies) + [] == PadAll(bodies);
  }

  /** Every stream has such a split, so that its decoding is that of its longest prefix of acceptable frames. */
  lemma EveryStreamSplits(stream: seq<byte>) returns (bodies: seq<seq<byte>>, rest: seq<byte>)
    ensures stream == EncodeAll(bodies) + rest && Blocked(rest)
    ensures forall i :: 0 <= i < |bodies| ==> |bodies[i]| <= MAX_FRAME
    ensures Frames(stream) == PadAll(bodies)
  {
    bodies, rest := Split(stream);
    FramesOfSplit(bodies, rest);
  }

  lemma {:induction false} Split(stream: seq<byte>) returns (bodies: seq<seq<byte>>, rest: seq<byte>)
    ensures stream == EncodeAll(bodies) + rest && Blocked(rest)
    ensures forall i :: 0 <= i < |bodies| ==> |bodies[i]| <= MAX_FRAME
    decreases |stream|
  {
    if Blocked(stream) {
      bodies, rest := [], stream;
      assert EncodeAll(bodies) + rest == stream;
    } else {
      var size := SizeField(stream);
      bodies, rest := Split(stream[4 + size..]);
      FirstFrame(stream);
      EncodeFirst(stream[4..4 + size], bodies, rest);
      bodies := [stream[4..4 + size]] + bodies;
    }
  }

  lemma EncodeFirst(body: seq<byte>, bodies: seq<seq<byte>>, rest: seq<byte>)
    ensures EncodeAll([body] + bodies) + rest == Encode(body) + (EncodeAll(bodies) + rest)
  {
    assert ([body] + bodies)[1..] == bodies;
  }

  lemma FirstFrame(stream: seq<byte>)
    requires !Blocked(stream)
    ensures stream == Encode(stream[4..4 + SizeField(stream)]) + stream[4 + SizeField(stream)..]
  {
    var size := SizeField(stream);
    assert Encode(stream[4..4 + size]) == stream[..4] + stream[4..4 + size] by { EncodeDecode(stream[..4]); }
    assert stream == stream[..4] + stream[4..4 + size] + stream[4 + size..];
  }

  /** The number of frames before the first that is too large. */
  function Acceptable(frames: seq<seq<byte>>): (n: nat)
    ensures n <= |frames|
    ensures forall i :: 0 <= i < n ==> |frames[i]| <= MAX_FRAME
    ensures n < |frames| ==> |frames[n]| > MAX_FRAME
  {
    if |frames| == 0 || |frames[0]| > MAX_FRAME then 0 else 1 + Acceptable(frames[1..])
  }

  /**
   Decoding what was sent for any frames gives back those before the first that is too large, padded,
   exactly when the 32 bits of that frame's length say that it is too large. Then nothing is left over
   exactly when no frame was too large.
   */
  lemma FramingRoundTrip(frames: seq<seq<byte>>)
    ensures var n := Acceptable(frames);
            Frames(EncodeAll(frames)) == PadAll(frames[..n])
            <==> (n < |frames| ==> |frames[n]| % TWO_TO_THE_32 > MAX_FRAME)
    ensures var n := Acceptable(frames);
            (n < |frames| ==> |frames[n]| % TWO_TO_THE_32 > MAX_FRAME) ==> (Whole(EncodeAll(frames)) <==> n == |frames|)
  {
    var n := Acceptable(frames);
    var rest := EncodeAll(frames[n..]);
    assert frames == frames[..n] + frames[n..];
    EncodeAllAppend(frames[..n], frames[n..]);
    FramesBehind(frames[..n], rest);
    WholePrefix(frames[..n], rest);
    if n < |frames| {
      assert frames[n..][0] == frames[n];
      RestOfTooLarge(frames[n], EncodeAll(frames[n..][1..]));
    }
  }

  /**
   A frame that was written in part is not read as a frame, exactly when what was written ends before the
   bytes its length announces, or announces too many.
   */
  lemma PartOfFrame(frame: seq<byte>, n: nat)
    requires n <= |Encode(frame)|
    ensures Blocked(Encode(frame)[..n])
            <==> n < 4 + |frame| % TWO_TO_THE_32 || |frame| % TWO_TO_THE_32 > MAX_FRAME
  {
    if n >= 4 {
      EncodedSize(frame, []);
      assert Encode(frame)[..n][..4] == (Encode(frame) + [])[..4];
    }
  }

  /** Then the frames before it are what the stream decodes to, and only then. */
  lemma FailedWrite(frames: seq<seq<byte>>, frame: seq<byte>, room: nat)
    requires forall i :: 0 <= i < |frames| ==> |frames[i]| <= MAX_FRAME
    requires room <= |Encode(frame)|
    ensures Frames(EncodeAll(frames) + Limit(Encode(frame), room)) == PadAll(frames)
            <==> room < 4 + |frame| % TWO_TO_THE_32 || |frame| % TWO_TO_THE_32 > MAX_FRAME
  {
    var part := Limit(Encode(frame), room);
    PartOfFrame(frame, room);
    FramesBehind(frames, part);
    assert Blocked(part) <==> Frames(part) == [];
    assert PadAll(frames) + [] == PadAll(frames);
  }

  /** A frame whose length loses bits is not read as too large, if what is left of its length is small. */
  lemma RestOfTooLarge(frame: seq<byte>, rest: seq<byte>)
    requires |frame| > MAX_FRAME
    ensures var stream := Encode(frame) + rest;
            |stream| > 0 && (Blocked(stream) <==> |frame| % TWO_TO_THE_32 > MAX_FRAME)
            && (!Blocked(stream) ==> |Frames(stream)| > 0)
  {
    EncodedSize(frame, rest);
  }

  /** Acceptable frames in front are decoded, and the rest as if it came alone. */
  lemma {:induction false} FramesBehind(bodies: seq<seq<byte>>, rest: seq<byte>)
    requires forall i :: 0 <= i < |bodies| ==> |bodies[i]| <= MAX_FRAME
    ensures Frames(EncodeAll(bodies) + rest) == PadAll(bodies) + Frames(rest)
  {
    if |bodies| == 0 {
      assert EncodeAll(bodies) + rest == rest;
    } else {
      var tail := EncodeAll(bodies[1..]) + rest;
      assert EncodeAll(bodies) + rest == Encode(bodies[0]) + tail;
      EncodedFrame(bodies[0], tail);
      FramesBehind(bodies[1..], rest);
    }
  }

  lemma {:induction false} EncodeAllAppend(a: seq<seq<byte>>, b: seq<seq<byte>>)
    ensures EncodeAll(a + b) == EncodeAll(a) + EncodeAll(b)
  {
    if |a| == 0 {
      assert a + b == b;
    } else {
      assert (a + b)[1..] == a[1..] + b;
      EncodeAllAppend(a[1..], b);
      assert Encode(a[0]) + (EncodeAll(a[1..]) + EncodeAll(b)) == Encode(a[0]) + EncodeAll(a[1..]) + EncodeAll(b);
    }
  }

  lemma {:induction false} WholePrefix(bodies: seq<seq<byte>>, rest: seq<byte>)
    requires forall i :: 0 <= i < |bodies| ==> |bodies[i]| <= MAX_FRAME
    ensures Whole(EncodeAll(bodies) + rest) <==> Whole(rest)
  {
    if |bodies| == 0 {
      assert EncodeAll(bodies) + rest == rest;
    } else {
      var tail := EncodeAll(bodies[1..]) + rest;
      assert EncodeAll(bodies) + rest == Encode(bodies[0]) + tail;
      EncodedFrame(bodies[0], tail);
      WholePrefix(bodies[1..], rest);
    }
  }

  /** Complete frames are decoded independently of what follows them. */
  lemma {:induction false} FramesAppend(whole: seq<byte>, rest: seq<byte>)
    requires Whole(whole)
    ensures Frames(whole + rest) == Frames(whole) + Frames(rest)
    ensures Whole(whole + rest) <==> Whole(rest)
    decreases |whole|
  {
    if |whole| == 0 {
      assert whole + rest == rest;
    } else {
      FirstFrameDecoded(whole, rest);
      FramesAppend(whole[4 + SizeField(whole)..], rest);
    }
  }

  lemma FirstFrameDecoded(stream: seq<byte>, rest: seq<byte>)
    requires !Blocked(stream)
    ensures var tail := stream[4 + SizeField(stream)..];
            (Frames(tail + rest) == Frames(tail) + Frames(rest) ==>
               Frames(stream + rest) == Frames(stream) + Frames(rest))
            && (Whole(stream + rest) <==> Whole(tail + rest))
  {
    var size := SizeField(stream);
    var tail := stream[4 + size..];
    FirstFrameStays(stream, rest);
    FrameInFront(stream, size, tail);
    FrameInFront(stream + rest, size, tail + rest);
    WholeBehind(stream + rest, size, tail + rest);
    Associative([Pad(stream[4..4 + size])], Frames(tail), Frames(rest));
  }

  lemma FrameInFront(stream: seq<byte>, size: nat, tail: seq<byte>)
    requires !Blocked(stream) && size == SizeField(stream) && tail == stream[4 + size..]
    ensures Frames(stream) == [Pad(stream[4..4 + size])] + Frames(tail)
  {
  }

  lemma WholeBehind(stream: seq<byte>, size: nat, tail: seq<byte>)
    requires !Blocked(stream) && size == SizeField(stream) && tail == stream[4 + size..]
    ensures Whole(stream) <==> Whole(tail)
  {
  }

  lemma Associative(a: seq<seq<byte>>, b: seq<seq<byte>>, c: seq<seq<byte>>)
    ensures a + (b + c) == a + b + c
  {
  }

  /** More bytes do not change the first complete frame. */
  lemma FirstFrameStays(stream: seq<byte>, rest: seq<byte>)
    requires !Blocked(stream)
    ensures var size := SizeField(stream);
            !Blocked(stream + rest) && SizeField(stream + rest) == size
            && (stream + rest)[4..4 + size] == stream[4..4 + size]
            && (stream + rest)[4 + size..] == stream[4 + size..] + rest
  {
    assert (stream + rest)[..4] == stream[..4];
  }

  /** What complete frames that are read into the front of one buffer leave in it. */
  function Overlay(buffer: seq<byte>, stream: seq<byte>): (r: seq<byte>)
    requires |buffer| == MAX_FRAME
    ensures |r| == MAX_FRAME
    decreases |stream|
  {
    if Blocked(stream) then buffer
    else Overlay(Overwrite(buffer, 0, stream[4..4 + SizeField(stream)]), stream[4 + SizeField(stream)..])
  }

  lemma {:induction false} OverlayAppend(buffer: seq<byte>, whole: seq<byte>, rest: seq<byte>)
    requires |buffer| == MAX_FRAME && Whole(whole)
    ensures Overlay(buffer, whole + rest) == Overlay(Overlay(buffer, whole), rest)
    decreases |whole|
  {
    if |whole| == 0 {
      assert whole + rest == rest;
    } else {
      FirstFrameStays(whole, rest);
      OverlayAppend(Overwrite(buffer, 0, whole[4..4 + SizeField(whole)]), whole[4 + SizeField(whole)..], rest);
    }
  }
}
