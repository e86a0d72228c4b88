/**
 Runs in which a frame is sent after the shutdown: QEMU sends a frame, the length of a second one and a part
 of it, and closes the connection. The adapter sends the part, continued with the first frame.
 */
module LateFrames {
  import opened Bytes
  import opened Framing
  import opened Adapter
  import opened AdapterRuns

  /** One adapter alone. */
  function Single(l: Link, h: HostState): World {
    World([l], h)
  }

  /** Some run leads to a state of the adapter. */
  ghost predicate Reached(w: World, l: Link, h: HostState) {
    exists run :: Leads(w, run, Single(l, h))
  }

  lemma ReachedInv(w: World, l: Link, h: HostState)
    requires Reached(w, l, h)
    ensures Inv(Single(l, h)) && l.Valid() && (h.stopped.None? ==> Running(l))
  {
    var run :| Leads(w, run, Single(l, h));
    RunInv(w, run);
    assert Single(l, h).links[0] == l;
  }

  lemma RunOneMore(w: World, run: seq<Action>, a: Action)
    requires Inv(w) && IsRun(w, run) && Inv(Final(w, run)) && Enabled(Final(w, run), a)
    ensures IsRun(w, run + [a]) && Final(w, run + [a]) == Next(Final(w, run), a)
  {
    NextInv(Final(w, run), a);
    var none: seq<Action> := [];
    LeadsFirst(Final(w, run), a, none, Next(Final(w, run), a));
    assert [a] + none == [a];
    RunsAppend(w, run, Final(w, run), [a], Next(Final(w, run), a));
  }

  /** One step more. */
  lemma Extend(w: World, l: Link, h: HostState, a: Action, l': Link, h': HostState)
    requires Reached(w, l, h) && ValidLinks(Single(l, h)) && Enabled(Single(l, h), a)
    requires Next(Single(l, h), a).links[0] == l' && Next(Single(l, h), a).host == h'
    ensures Reached(w, l', h')
  {
    var run :| Leads(w, run, Single(l, h));
    RunInv(w, run);
    RunOneMore(w, run, a);
    assert Next(Single(l, h), a).links == [l'];
    assert Leads(w, run + [a], Single(l', h'));
  }

  lemma Arrives(w: World, l: Link, h: HostState, stream: seq<byte>)
    requires Reached(w, l, h) && l.open && l.inbox == []
    ensures Reached(w, l.(inbox := stream, arrived := l.arrived + stream), h)
  {
    ReachedInv(w, l, h);
    assert [] + stream == stream;
    Extend(w, l, h, Arrive(0, stream), l.(inbox := stream, arrived := l.arrived + stream), h);
  }

  /** The read under way takes the front of what has arrived. */
  lemma Takes(w: World, l: Link, h: HostState, n: nat, l': Link)
    requires Reached(w, l, h) && h.stopped.None? && l.open && l.Valid()
    requires 0 < n <= |l.inbox| && l.received + n <= l.Wanted() && l' == AfterReadSome(l, n)
    ensures Reached(w, l', h)
  {
    Extend(w, l, h, ReadSome(0, n), l', h);
  }

  /** The read of a length takes all of it. */
  lemma SizeTaken(w: World, l: Link, h: HostState, prefix: seq<byte>)
    requires Reached(w, l, h) && h.stopped.None? && l.phase.ReadSize? && l.received == 0
    requires |prefix| == 4 && |l.inbox| >= 4 && l.inbox[..4] == prefix
    ensures Reached(w, l.(sizeBuffer := prefix, received := 4, inbox := l.inbox[4..]), h)
  {
    ReachedInv(w, l, h);
    assert Overwrite(l.sizeBuffer, 0, prefix) == prefix;
    Takes(w, l, h, 4, l.(sizeBuffer := prefix, received := 4, inbox := l.inbox[4..]));
  }

  lemma SizeAccepted(l: Link, h: HostState, size: nat)
    requires |l.sizeBuffer| == 4 && SizeField(l.sizeBuffer) == size <= MAX_FRAME
    ensures AfterSize(0, l, h, false) == (l.(phase := ReadBody(size), received := 0), h)
  {
  }

  /** A length is read and its handler starts the read of the body. */
  lemma SizeRead(w: World, l: Link, h: HostState, prefix: seq<byte>, size: nat)
    requires Reached(w, l, h) && h.stopped.None? && l.phase.ReadSize? && l.received == 0
    requires |prefix| == 4 && SizeField(prefix) == size <= MAX_FRAME && |l.inbox| >= 4 && l.inbox[..4] == prefix
    ensures Reached(w, l.(sizeBuffer := prefix, phase := ReadBody(size), inbox := l.inbox[4..]), h)
  {
    var l1 := l.(sizeBuffer := prefix, received := 4, inbox := l.inbox[4..]);
    SizeTaken(w, l, h, prefix);
    ReachedInv(w, l1, h);
    SizeAccepted(l1, h, size);
    Extend(w, l1, h, Complete(0), l1.(phase := ReadBody(size), received := 0), h);
  }

  /** The adapter after a body was read and handed on. */
  function Handed(l: Link, body: seq<byte>): Link
    requires |body| <= |l.inbox| && |body| <= |l.dataBuffer|
  {
    l.(dataBuffer := Overwrite(l.dataBuffer, 0, body), phase := ReadSize, inbox := l.inbox[|body|..],
       delivered := l.delivered + 4 + |body|)
  }

  function SendNext(h: HostState, frame: seq<byte>): HostState {
    h.(transmitId := h.transmitId + 1, log := h.log + [SentFrame(0, h.transmitId + 1, frame)])
  }

  /** A body is read and its handler hands it on. */
  lemma BodyRead(w: World, l: Link, h: HostState, body: seq<byte>)
    requires Reached(w, l, h) && h.stopped.None? && l.phase.ReadBody? && l.phase.frameSize == |body| && l.received == 0
    requires 0 < |body| <= MAX_FRAME == |l.dataBuffer| && |l.inbox| >= |body| && l.inbox[..|body|] == body
    ensures Reached(w, Handed(l, body), SendNext(h, Pad(body)))
  {
    ReachedInv(w, l, h);
    var l1 := l.(dataBuffer := Overwrite(l.dataBuffer, 0, body), received := |body|, inbox := l.inbox[|body|..]);
    Takes(w, l, h, |body|, l1);
    ReachedInv(w, l1, h);
    assert l1.dataBuffer[..|body|] == body;
    CompleteBodyEffect(Single(l1, h), 0);
    Extend(w, l1, h, Complete(0), Handed(l, body), SendNext(h, Pad(body)));
  }

  /** The read of a body takes a part of it, which is all that has arrived. */
  lemma PartTaken(w: World, l: Link, h: HostState, part: seq<byte>, size: nat)
    requires Reached(w, l, h) && h.stopped.None? && l.phase.ReadBody? && l.received == 0 && l.inbox == part
    requires |part| < size == l.phase.frameSize && size <= MAX_FRAME == |l.dataBuffer|
    ensures Reached(w, l.(dataBuffer := Overwrite(l.dataBuffer, 0, part), received := |part|, inbox := []), h)
  {
    ReachedInv(w, l, h);
    if |part| == 0 {
      assert Overwrite(l.dataBuffer, 0, part) == l.dataBuffer;
    } else {
      assert part[..|part|] == part && part[|part|..] == [];
      Takes(w, l, h, |part|, l.(dataBuffer := Overwrite(l.dataBuffer, 0, part), received := |part|, inbox := []));
    }
  }

  /** The read of a body fails. */
  lemma BodyFails(w: World, l: Link, h: HostState, size: nat)
    requires Reached(w, l, h) && h.stopped.None? && l.phase.ReadBody? && l.received < l.phase.frameSize == size
    requires size <= |l.dataBuffer|
    ensures Reached(w, l.(open := false, phase := ReadSize, received := 0),
                    SendNext(h.(stopped := Some(BodyReadFailed(0, size, l.received))), Pad(l.dataBuffer[..size])))
  {
    ReachedInv(w, l, h);
    assert FrameData(l.dataBuffer, size) == l.dataBuffer[..size];
    Extend(w, l, h, Fail(0), l.(open := false, phase := ReadSize, received := 0),
           SendNext(h.(stopped := Some(BodyReadFailed(0, size, l.received))), Pad(l.dataBuffer[..size])));
  }

  /** The adapter when a frame and some bytes behind it have arrived, and the frame was handed on. */
  function FirstDone(l: Link, prefix: seq<byte>, body: seq<byte>, tail: seq<byte>): Link
    requires |body| <= |l.dataBuffer|
  {
    l.(sizeBuffer := prefix, dataBuffer := Overwrite(l.dataBuffer, 0, body), inbox := tail,
       arrived := l.arrived + (prefix + body + tail), delivered := l.delivered + 4 + |body|)
  }

  lemma StreamParts(prefix: seq<byte>, body: seq<byte>, tail: seq<byte>)
    requires |prefix| == 4
    ensures (prefix + body + tail)[..4] == prefix && (prefix + body + tail)[4..] == body + tail
    ensures (body + tail)[..|body|] == body && (body + tail)[|body|..] == tail
  {
  }

  lemma FirstFrameRead(w: World, l: Link, h: HostState, prefix: seq<byte>, body: seq<byte>, tail: seq<byte>)
    requires Reached(w, l, h) && h.stopped.None? && l.open && l.phase.ReadSize? && l.received == 0 && l.inbox == []
    requires 0 < |body| <= MAX_FRAME == |l.dataBuffer| && |prefix| == 4 && SizeField(prefix) == |body|
    ensures Reached(w, FirstDone(l, prefix, body, tail), SendNext(h, Pad(body)))
  {
    var stream := prefix + body + tail;
    var l1 := l.(inbox := stream, arrived := l.arrived + stream);
    Arrives(w, l, h, stream);
    StreamParts(prefix, body, tail);
    SizeRead(w, l1, h, prefix, |body|);
    var l2 := l1.(sizeBuffer := prefix, phase := ReadBody(|body|), inbox := body + tail);
    BodyRead(w, l2, h, body);
    assert Handed(l2, body) == FirstDone(l, prefix, body, tail);
  }

  /** The frame in the log, the cause of the stop, and the late frame in the log. */
  function TwoSent(h: HostState, body: seq<byte>, size: nat, received: nat, late: seq<byte>): HostState {
    SendNext(SendNext(h, Pad(body)).(stopped := Some(BodyReadFailed(0, size, received))), Pad(late))
  }

  /** The part of a body that was read, continued with what is in the buffer. */
  function Mixed(buffer: seq<byte>, part: seq<byte>, size: nat): seq<byte>
    requires |part| <= size <= |buffer|
  {
    part + buffer[|part|..size]
  }

  /**
   An idle adapter hands on a frame, reads the length of a second one and a part of it, and loses the
   connection. It sends the part, continued with what the buffer held.
   */
  lemma SecondFails(w: World, l: Link, h: HostState, prefix: seq<byte>, body: seq<byte>,
                    second: seq<byte>, part: seq<byte>, size: nat)
    requires Reached(w, l, h) && h.stopped.None? && l.open && l.phase.ReadSize? && l.received == 0 && l.inbox == []
    requires 0 < |body| <= MAX_FRAME == |l.dataBuffer| && |prefix| == 4 && SizeField(prefix) == |body|
    requires |second| == 4 && SizeField(second) == size <= MAX_FRAME && |part| < size
    ensures var buffer := Overwrite(l.dataBuffer, 0, body);
            Reached(w, Interrupted(l, prefix, body, second, part),
                    TwoSent(h, body, size, |part|, Mixed(buffer, part, size)))
  {
    var buffer := Overwrite(l.dataBuffer, 0, body);
    var l2 := SecondStarted(w, l, h, prefix, body, second, part, size);
    var h1 := SendNext(h, Pad(body));
    PartTaken(w, l2, h1, part, size);
    var l3 := l2.(dataBuffer := Overwrite(buffer, 0, part), received := |part|, inbox := []);
    MixedInBuffer(buffer, part, size);
    BodyFails(w, l3, h1, size);
  }

  /** The adapter after all that. */
  function Interrupted(l: Link, prefix: seq<byte>, body: seq<byte>, second: seq<byte>, part: seq<byte>): Link
    requires |body| <= |l.dataBuffer| && |part| <= |l.dataBuffer|
  {
    FirstDone(l, prefix, body, second + part)
    .(sizeBuffer := second, dataBuffer := Overwrite(Overwrite(l.dataBuffer, 0, body), 0, part),
      open := false, inbox := [])
  }

  lemma MixedInBuffer(buffer: seq<byte>, part: seq<byte>, size: nat)
    requires |part| <= size <= |buffer|
    ensures Overwrite(buffer, 0, part)[..size] == Mixed(buffer, part, size)
  {
  }

  /** The first frame was handed on, and the length of the second one read. */
  lemma SecondStarted(w: World, l: Link, h: HostState, prefix: seq<byte>, body: seq<byte>,
                      second: seq<byte>, part: seq<byte>, size: nat) returns (l': Link)
    requires Reached(w, l, h) && h.stopped.None? && l.open && l.phase.ReadSize? && l.received == 0 && l.inbox == []
    requires 0 < |body| <= MAX_FRAME == |l.dataBuffer| && |prefix| == 4 && SizeField(prefix) == |body|
    requires |second| == 4 && SizeField(second) == size <= MAX_FRAME
    ensures l' == FirstDone(l, prefix, body, second + part)
                  .(sizeBuffer := second, phase := ReadBody(size), inbox := part)
    ensures Reached(w, l', SendNext(h, Pad(body)))
  {
    FirstFrameRead(w, l, h, prefix, body, second + part);
    assert (second + part)[..4] == second && (second + part)[4..] == part;
    SizeRead(w, FirstDone(l, prefix, body, second + part), SendNext(h, Pad(body)), second, size);
    l' := FirstDone(l, prefix, body, second + part).(sizeBuffer := second, phase := ReadBody(size), inbox := part);
  }

  /** What a single adapter has sent when its second frame fails. */
  predicate SentLate(w: World, body: seq<byte>, size: nat, received: nat, late: seq<byte>) {
    w.host.stopped == Some(BodyReadFailed(0, size, received))
    && w.host.log == [SentFrame(0, 1, Pad(body)), SentFrame(0, 2, Pad(late))]
  }

  /** A run in which just these bytes arrive, and which ends so. */
  ghost predicate SendsLate(w: World, run: seq<Action>, stream: seq<byte>, body: seq<byte>, size: nat, received: nat,
                            late: seq<byte>) {
    Inv(w) && IsRun(w, run) && Received(run, 0) == stream && SentLate(Final(w, run), body, size, received, late)
  }

  /**
   From the start: after a frame, the length of a second one and a part of it, the late frame is the part,
   continued with the first frame and, behind that, with the zeros the buffer began with.
   */
  lemma LateFrameFromStart(body: seq<byte>, second: seq<byte>, part: seq<byte>, size: nat) returns (run: seq<Action>)
    requires 0 < |body| <= MAX_FRAME && |second| == 4 && SizeField(second) == size <= MAX_FRAME && |part| < size
    ensures SendsLate(Start(1), run, Encode(body) + (second + part), body, size, |part|,
                      part + (body + Zeros(MAX_FRAME - |body|))[|part|..size])
  {
    var buffer := Overwrite(Start(1).links[0].dataBuffer, 0, body);
    FilledBuffer(MAX_FRAME, body);
    run := FromConnected(Start(1), body, second, part, size, buffer);
  }

  /** Nothing of a second frame of the same size arrives but its length: the first frame is sent again. */
  lemma FrameSentAgainFromStart(body: seq<byte>) returns (run: seq<Action>)
    requires 0 < |body| <= MAX_FRAME
    ensures SendsLate(Start(1), run, Encode(body) + Encode(body)[..4], body, |body|, 0, body)
  {
    var prefix := LengthOf(body);
    assert prefix == Encode(body)[..4] && prefix + [] == prefix;
    assert [] + (body + Zeros(MAX_FRAME - |body|))[0..|body|] == body;
    run := LateFrameFromStart(body, prefix, [], |body|);
  }

  lemma FromConnected(w: World, body: seq<byte>, second: seq<byte>, part: seq<byte>, size: nat, buffer: seq<byte>)
    returns (run: seq<Action>)
    requires Inv(w) && |w.links| == 1 && w.host == HostState(None, 0, [])
    requires var l := w.links[0];
             l.open && l.phase.ReadSize? && l.received == 0 && l.inbox == [] && l.arrived == []
             && |body| <= |l.dataBuffer| && buffer == Overwrite(l.dataBuffer, 0, body)
    requires 0 < |body| <= MAX_FRAME && |second| == 4 && SizeField(second) == size <= MAX_FRAME && |part| < size
    ensures SendsLate(w, run, Encode(body) + (second + part), body, size, |part|, Mixed(buffer, part, size))
  {
    var l, h := w.links[0], w.host;
    var prefix := LengthOf(body);
    ReachedAtOnce(w);
    SecondFails(w, l, h, prefix, body, second, part, size);
    StreamSent(prefix, body, second + part);
    run := Witness(w, Interrupted(l, prefix, body, second, part), h, body, size, |part|, Mixed(buffer, part, size));
  }

  lemma FilledBuffer(max: nat, body: seq<byte>)
    requires |body| <= max
    ensures Overwrite(Zeros(max), 0, body) == body + Zeros(max - |body|)
  {
  }

  lemma StreamSent(prefix: seq<byte>, body: seq<byte>, tail: seq<byte>)
    requires Encode(body) == prefix + body
    ensures [] + (prefix + body + tail) == Encode(body) + tail
  {
  }

  lemma LogOfTwo(h: HostState, body: seq<byte>, size: nat, received: nat, late: seq<byte>)
    requires h == HostState(None, 0, [])
    ensures TwoSent(h, body, size, received, late).log == [SentFrame(0, 1, Pad(body)), SentFrame(0, 2, Pad(late))]
  {
    assert TwoSent(h, body, size, received, late).log
           == [] + [SentFrame(0, 1, Pad(body))] + [SentFrame(0, 2, Pad(late))];
  }

  lemma ReachedAtOnce(w: World)
    requires Inv(w) && |w.links| == 1
    ensures w.links[0].Valid() && Reached(w, w.links[0], w.host)
  {
    var none: seq<Action> := [];
    assert w == Single(w.links[0], w.host) && Leads(w, none, Single(w.links[0], w.host));
  }

  lemma Witness(w: World, l: Link, h: HostState, body: seq<byte>, size: nat, received: nat, late: seq<byte>)
    returns (run: seq<Action>)
    requires |w.links| == 1 && w.links[0].arrived == [] && h == HostState(None, 0, [])
    requires Reached(w, l, TwoSent(h, body, size, received, late))
    ensures SendsLate(w, run, l.arrived, body, size, received, late)
  {
    run :| Leads(w, run, Single(l, TwoSent(h, body, size, received, late)));
    ArrivedIsReceived(w, run, 0);
    assert [] + Received(run, 0) == Received(run, 0);
    LogOfTwo(h, body, size, received, late);
  }

  /** The four bytes in front of a frame. */
  lemma LengthOf(body: seq<byte>) returns (prefix: seq<byte>)
    requires |body| < TWO_TO_THE_32
    ensures |prefix| == 4 && SizeField(prefix) == |body| && Encode(body) == prefix + body
  {
    prefix := Encode(body)[..4];
    EncodedSize(body, []);
    assert Encode(body) + [] == Encode(body);
    assert prefix[..4] == prefix;
    assert Encode(body) == prefix + body;
  }
}
