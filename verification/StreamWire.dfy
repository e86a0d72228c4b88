/** The stream between QEMU and the adapter, in numbers: the length field, the receive limit and the padding. */
module StreamWire {
  import opened Bytes
  import opened BigEndian
  import opened Framing
  import opened Adapter
  import opened AdapterRuns

  /** The frame is the body, filled up with zeros to 60 bytes if it is shorter. */
  predicate FilledUp(frame: seq<byte>, body: seq<byte>) {
    && |frame| == (if |body| < 60 then 60 else |body|)
    && frame[..|body|] == body
    && forall k :: |body| <= k < |frame| ==> frame[k] == 0
  }

  /** Four bytes as the number they stand for. */
  function Number(bs: seq<byte>): nat
    requires |bs| == 4
  {
    bs[0] as int * 0x100_0000 + bs[1] as int * 0x1_0000 + bs[2] as int * 0x100 + bs[3]
  }

  /** What is sent for a frame: its length, cut to 32 bits, with the highest byte first, and the frame. */
  lemma EncodedInNumbers(frame: seq<byte>)
    ensures Encode(frame)[4..] == frame
    ensures Number(Encode(frame)[..4]) == |frame| % 0x1_0000_0000
  {
    EncodedSize(frame, []);
    assert Encode(frame) + [] == Encode(frame);
    assert Encode(frame)[..4] == (Encode(frame) + [])[..4];
    Decode4(Encode(frame)[..4]);
  }

  lemma {:induction false} AllFilledUp(bodies: seq<seq<byte>>)
    ensures forall k :: 0 <= k < |bodies| ==> FilledUp(PadAll(bodies)[k], bodies[k])
  {
    if |bodies| > 0 {
      AllFilledUp(bodies[1..]);
      forall k | 0 <= k < |bodies|
        ensures FilledUp(PadAll(bodies)[k], bodies[k])
      {
        if k > 0 {
          assert PadAll(bodies)[k] == PadAll(bodies[1..])[k - 1];
        }
      }
    }
  }

  /**
   In any run, what arrived for an adapter is bodies of at most 4096 bytes, each behind its length, and a rest.
   Every frame sent before the stop is the next body, filled up to 60 bytes.
   */
  lemma SentFilledUp(n: nat, run: seq<Action>, i: nat) returns (bodies: seq<seq<byte>>, rest: seq<byte>)
    requires IsRun(Start(n), run) && i < n
    ensures Received(run, i) == EncodeAll(bodies) + rest
    ensures forall k :: 0 <= k < |bodies| ==> |bodies[k]| <= 4096
    ensures var sent := SentBy(BeforeStop(Final(Start(n), run).host), i);
            |sent| <= |bodies| && forall k :: 0 <= k < |sent| ==> FilledUp(sent[k], bodies[k])
  {
    bodies, rest := EveryStreamSplits(Received(run, i));
    StreamIsDecoded(n, run, i);
    AllFilledUp(bodies);
  }

  /** A settled adapter that runs has sent every body of at most 4096 bytes that arrived behind its length. */
  lemma LimitPasses(n: nat, run: seq<Action>, i: nat, prefix: seq<byte>, body: seq<byte>)
    requires IsRun(Start(n), run) && i < |Final(Start(n), run).links| && i < n && Settled(Final(Start(n), run), i)
    requires |prefix| == 4 && Number(prefix) == |body| <= 4096 && Received(run, i) == prefix + body
    ensures var sent := SentBy(BeforeStop(Final(Start(n), run).host), i);
            |sent| == 1 && FilledUp(sent[0], body)
  {
    StreamIsDecoded(n, run, i);
    OneBody(prefix, body);
  }

  lemma OneBody(prefix: seq<byte>, body: seq<byte>)
    requires |prefix| == 4 && Number(prefix) == |body| <= 4096
    ensures Frames(prefix + body) == [Pad(body)] && FilledUp(Pad(body), body)
  {
    var stream := prefix + body;
    assert stream[..4] == prefix;
    Decode4(prefix);
    assert stream[4..4 + SizeField(stream)] == body;
    OneFrame(stream);
  }

  /** An announced length of more than 4096 bytes stops the io_context; the frames before it have been sent. */
  lemma TooLargeStops(n: nat, run: seq<Action>, i: nat, bodies: seq<seq<byte>>, prefix: seq<byte>, rest: seq<byte>)
    requires IsRun(Start(n), run) && i < |Final(Start(n), run).links| && i < n && Settled(Final(Start(n), run), i)
    requires forall k :: 0 <= k < |bodies| ==> |bodies[k]| <= 4096
    requires |prefix| == 4 && Number(prefix) > 4096 && Received(run, i) == EncodeAll(bodies) + (prefix + rest)
    ensures Final(Start(n), run).host.stopped == Some(FrameTooLarge(i))
    ensures SentBy(BeforeStop(Final(Start(n), run).host), i) == PadAll(bodies)
  {
    var tail := prefix + rest;
    assert SizeField(tail) > 4096 by {
      assert tail[..4] == prefix;
      Decode4(prefix);
    }
    RunInv(Start(n), run);
    ArrivedIsReceived(Start(n), run, i);
    assert [] + Received(run, i) == Received(run, i);
    TooLargeStopped(Final(Start(n), run), i, bodies, tail);
  }

  lemma TooLargeStopped(w: World, i: nat, bodies: seq<seq<byte>>, tail: seq<byte>)
    requires Inv(w) && i < |w.links| && Settled(w, i) && w.links[i].arrived == EncodeAll(bodies) + tail
    requires forall k :: 0 <= k < |bodies| ==> |bodies[k]| <= MAX_FRAME
    requires |tail| >= 4 && SizeField(tail) > MAX_FRAME
    ensures w.host.stopped == Some(FrameTooLarge(i)) && SentBy(BeforeStop(w.host), i) == PadAll(bodies)
  {
    var l := w.links[i];
    FramesOfSplit(bodies, tail);
    SettledIsDecoded(w, i);
    assert l.delivered <= |l.arrived| && l.arrived[l.delivered..] == tail by {
      assert l.arrived == l.arrived[..l.delivered] + l.arrived[l.delivered..];
      SplitUnique(l.arrived[..l.delivered], l.arrived[l.delivered..], bodies, tail);
    }
    TooLargeCause(w, i, tail);
  }

  /** There is only one way to split a stream into so many frames and a rest. */
  lemma {:induction false} SplitUnique(whole: seq<byte>, behind: seq<byte>, bodies: seq<seq<byte>>, tail: seq<byte>)
    requires Whole(whole) && |Frames(whole)| == |bodies| && whole + behind == EncodeAll(bodies) + tail
    requires forall k :: 0 <= k < |bodies| ==> |bodies[k]| <= MAX_FRAME
    ensures behind == tail
    decreases |bodies|
  {
    if |bodies| == 0 {
      assert whole == [];
      assert whole + behind == behind && EncodeAll(bodies) + tail == tail;
    } else {
      var after := EncodeAll(bodies[1..]) + tail;
      assert whole + behind == Encode(bodies[0]) + after;
      EncodedFrame(bodies[0], after);
      FirstFrameStays(whole, behind);
      SplitUnique(whole[4 + SizeField(whole)..], behind, bodies[1..], tail);
    }
  }

  /** An adapter that is settled in front of too large a length has stopped because of it. */
  lemma TooLargeCause(w: World, i: nat, tail: seq<byte>)
    requires Inv(w) && i < |w.links| && Settled(w, i)
    requires w.links[i].delivered <= |w.links[i].arrived| && w.links[i].arrived[w.links[i].delivered..] == tail
    ensures w.host.stopped == Some(FrameTooLarge(i)) || |tail| < 4 || SizeField(tail) <= MAX_FRAME
  {
    var l := w.links[i];
    match w.host.stopped {
      case None =>
        RunningSplit(l);
        assert !Enabled(w, ReadSome(i, 1));
        assert l.received < l.Wanted() && l.inbox == [];
        assert Unfinished(l) == tail;
      case Some(FrameTooLarge(_)) =>
      case Some(SizeReadFailed(_)) =>
        assert Unfinished(l) == tail;
      case Some(BodyReadFailed(_, _, _)) =>
        assert Unfinished(l) == tail;
      case Some(StoppedFromOutside) =>
    }
  }
}
