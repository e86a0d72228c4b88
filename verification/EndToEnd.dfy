/** A guest behind QEMU that talks to a device through the adapter. */
module EndToEnd {
  import opened Bytes
  import opened BigEndian
  import opened Framing
  import opened EchoDevice
  import opened AdapterRuns
  import opened DeviceTheorems
  import opened CutFrames
  import Ethernet
  import Arp
  import Ip4
  import Icmp4

  /** The answers of a device to a sequence of frames. */
  function AnswersTo(me: Addresses, frames: seq<seq<byte>>): seq<seq<byte>> {
    if |frames| == 0 then []
    else (match Respond(me, frames[0]) case Sent(reply) => [reply] case _ => []) + AnswersTo(me, frames[1..])
  }

  /**
   A device answers a frame that the adapter padded exactly when it answers the frame itself, then with
   the padded answer, or when the frame is a cut request that zeros complete. On the latter it throws.
   */
  lemma PaddedAnswer(me: Addresses, frame: seq<byte>)
    ensures Respond(me, frame).Sent? ==> Respond(me, Pad(frame)) == Sent(Pad(Respond(me, frame).frame))
    ensures Respond(me, Pad(frame)).Sent? <==> Respond(me, frame).Sent? || Cut(frame, me.ip4)
    ensures Cut(frame, me.ip4) ==> Respond(me, frame).Threw?
  {
    AnswersPadded(me, frame);
    CutExactly(me, frame);
  }

  lemma AnswersPadded(me: Addresses, frame: seq<byte>)
    ensures Respond(me, frame).Sent? ==> Respond(me, Pad(frame)) == Sent(Pad(Respond(me, frame).frame))
    ensures Respond(me, frame).Silent? ==> Respond(me, Pad(frame)) == Silent
  {
    var r := Respond(me, frame);
    if r.Sent? {
      AnswerLength(me, frame);
    }
    if |frame| < MIN_FRAME {
      var zeros := MIN_FRAME - |frame|;
      assert Pad(frame) == frame + Zeros(zeros);
      PaddingCommutes(me, frame, zeros);
    } else {
      assert Pad(frame) == frame;
    }
  }

  function CutCount(me: Addresses, frames: seq<seq<byte>>): nat {
    if |frames| == 0 then 0 else (if Cut(frames[0], me.ip4) then 1 else 0) + CutCount(me, frames[1..])
  }

  /** Every cut frame costs one answer more; without any, padding and answering commute. */
  lemma {:induction false} PaddedAnswersCount(me: Addresses, frames: seq<seq<byte>>)
    ensures |AnswersTo(me, PadAll(frames))| == |AnswersTo(me, frames)| + CutCount(me, frames)
    ensures CutCount(me, frames) == 0 ==> AnswersTo(me, PadAll(frames)) == PadAll(AnswersTo(me, frames))
  {
    if |frames| > 0 {
      PaddedAnswersCount(me, frames[1..]);
      PaddedAnswer(me, frames[0]);
      assert PadAll(frames)[1..] == PadAll(frames[1..]);
      var rest := AnswersTo(me, frames[1..]);
      if Respond(me, frames[0]).Sent? {
        assert ([Respond(me, frames[0]).frame] + rest)[1..] == rest;
      } else {
        assert [] + rest == rest;
        assert [] + PadAll(rest) == PadAll(rest);
      }
    }
  }

  lemma {:induction false} CutCountZero(me: Addresses, frames: seq<seq<byte>>)
    ensures CutCount(me, frames) == 0 <==> forall k :: 0 <= k < |frames| ==> !Cut(frames[k], me.ip4)
  {
    if |frames| > 0 {
      CutCountZero(me, frames[1..]);
      assert forall k :: 0 < k < |frames| ==> frames[k] == frames[1..][k - 1];
      if forall k :: 0 <= k < |frames| ==> !Cut(frames[k], me.ip4) {
        assert forall k :: 0 <= k < |frames[1..]| ==> frames[1..][k] == frames[k + 1];
      }
    }
  }

  /** The answers to padded frames are the padded answers exactly when none of the frames is cut. */
  lemma PaddedAnswers(me: Addresses, frames: seq<seq<byte>>)
    ensures AnswersTo(me, PadAll(frames)) == PadAll(AnswersTo(me, frames))
            <==> forall k :: 0 <= k < |frames| ==> !Cut(frames[k], me.ip4)
  {
    PaddedAnswersCount(me, frames);
    CutCountZero(me, frames);
  }

  /** A cut frame gets an answer only when it is padded. */
  lemma CutAlone(me: Addresses, frame: seq<byte>)
    requires Cut(frame, me.ip4)
    ensures AnswersTo(me, [frame]) == [] && |AnswersTo(me, PadAll([frame]))| == 1
  {
    var one := [frame];
    assert one[1..] == [];
    PaddedAnswersCount(me, one);
    PaddedAnswer(me, frame);
  }

  /** An ARP request for an address that ends in zero, without its last byte. */
  lemma CutArpExample(me: Addresses, h: EthernetHeader, p: ArpIp4Packet)
    requires Ethernet.Canonical(h) && h.etherType == Ethernet.ARP && h.vlanTag8021ad.None? && h.vlanTag8021q.None?
    requires p.operation == Arp.REQUEST && p.targetProtocolAddress == me.ip4 && me.ip4 == [10, 0, 0, 0]
    ensures var frame := (Ethernet.EthernetBytes(h) + Arp.ArpBytes(p))[..41];
            Cut(frame, me.ip4) && AnswersTo(me, [frame]) == [] && |AnswersTo(me, PadAll([frame]))| == 1
  {
    var data := Arp.ArpBytes(p)[..27];
    var frame := (Ethernet.EthernetBytes(h) + Arp.ArpBytes(p))[..41];
    assert frame == Ethernet.EthernetBytes(h) + data;
    Ethernet.ParseAfterWrite(h, data);
    assert (data + Zeros(20))[24..28] == data[24..27] + Zeros(1) == me.ip4;
    assert data[..6] == Arp.PREAMBLE && Be16(data, 6) == p.operation;
    CutAlone(me, frame);
  }

  /** An echo request without payload to any address, without up to three bytes at its end. */
  lemma CutEchoExample(me: Addresses, k: nat)
    requires 35 <= k < 38
    ensures var frame := EchoFrame(me, 24, [])[..k];
            Cut(frame, me.ip4) && AnswersTo(me, [frame]) == [] && |AnswersTo(me, PadAll([frame]))| == 1
  {
    var e := Ethernet.EthernetHeader(Zeros(6), Zeros(6), None, None, Ethernet.IP4);
    var h := Ip4.Ip4Header(24, 0, false, false, 0, 64, Ip4.ICMP, 0, Zeros(4), me.ip4);
    var message := Icmp4.MessageBytes(Icmp4.Icmp4Header(Icmp4.ECHO_REQUEST, 0, 0), []);
    var data := Ip4.Ip4Bytes(h) + message[..k - 34];
    var frame := EchoFrame(me, 24, [])[..k];
    assert frame == Ethernet.EthernetBytes(e) + data;
    assert Ethernet.Parse(frame) == Ok(ParseResult(e, data)) by { Ethernet.ParseAfterWrite(e, data); }
    CutEchoPacket(h, message[..k - 34], MIN_FRAME - k);
    CutAlone(me, frame);
  }

  lemma CutEchoPacket(h: Ip4Header, front: seq<byte>, n: nat)
    requires h.totalLength == 24 && h.protocol == Ip4.ICMP && n >= 3
    requires !h.dontFragment && !h.moreFragments && h.fragmentOffset == 0
    requires 1 <= |front| <= 3 && front[0] == Icmp4.ECHO_REQUEST
    ensures CutEchoRequest(Ip4.Ip4Bytes(h) + front, n, h.destinationAddress)
  {
    Ip4.FieldsOfBytes(h, Ip4.HeaderChecksum(h), front);
    var data := Ip4.Ip4Bytes(h) + front;
    assert Ip4.Fields(data).protocol == data[9] && Ip4.Fields(data).destinationAddress == data[16..20];
  }

  /** Answers to padded frames need no padding, and fit the receive buffer. */
  lemma {:induction false} AnswerSizes(me: Addresses, frames: seq<seq<byte>>)
    requires forall k :: 0 <= k < |frames| ==> |frames[k]| <= MAX_FRAME
    ensures var answers := AnswersTo(me, PadAll(frames));
            PadAll(answers) == answers && forall k :: 0 <= k < |answers| ==> |answers[k]| <= MAX_FRAME
  {
    if |frames| > 0 {
      AnswerSizes(me, frames[1..]);
      assert PadAll(frames)[1..] == PadAll(frames[1..]);
      var rest := AnswersTo(me, PadAll(frames[1..]));
      var r := Respond(me, Pad(frames[0]));
      if r.Sent? {
        AnswerLength(me, Pad(frames[0]));
        assert ([r.frame] + rest)[1..] == rest;
      } else {
        assert [] + rest == rest;
      }
    }
  }

  /**
   The guest sends any frames of at most 4096 bytes. When the adapter is settled, the device has answered
   the padded frames, in order, and what goes back to QEMU decodes to exactly these answers. They are the
   padded answers to the frames themselves exactly when none of them is cut.
   */
  lemma PingThroughAdapter(n: nat, run: seq<Action>, i: nat, frames: seq<seq<byte>>, me: Addresses)
    requires IsRun(Start(n), run) && i < n && Received(run, i) == EncodeAll(frames)
    requires var w := Final(Start(n), run);
             i < |w.links| && w.host.stopped.None? && Settled(w, i)
    requires forall k :: 0 <= k < |frames| ==> |frames[k]| <= MAX_FRAME
    ensures var answers := AnswersTo(me, SentBy(Final(Start(n), run).host.log, i));
            answers == AnswersTo(me, PadAll(frames)) && Frames(EncodeAll(answers)) == answers
            && (answers == PadAll(AnswersTo(me, frames))
                <==> forall k :: 0 <= k < |frames| ==> !Cut(frames[k], me.ip4))
  {
    FramesGoThrough(n, run, i, frames);
    PaddedAnswers(me, frames);
    AnswersGoBack(me, frames);
  }

  lemma AnswersGoBack(me: Addresses, frames: seq<seq<byte>>)
    requires forall k :: 0 <= k < |frames| ==> |frames[k]| <= MAX_FRAME
    ensures var answers := AnswersTo(me, PadAll(frames));
            Frames(EncodeAll(answers)) == answers
  {
    AnswerSizes(me, frames);
    var answers := AnswersTo(me, PadAll(frames));
    FramingRoundTrip(answers);
    AllAcceptable(answers);
    assert answers[..|answers|] == answers;
  }
}
