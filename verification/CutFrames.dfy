/**
 Frames that the adapter's padding completes: requests of which the end is missing, and whose missing
 bytes are zeros.
 */
module CutFrames {
  import opened Bytes
  import opened BigEndian
  import opened Framing
  import opened EchoDevice
  import opened DeviceTheorems
  import Ethernet
  import Ip4
  import Arp
  import Icmp4

  /** The front of an ARP request for an address, up to its operation at least; zeros complete the address. */
  predicate CutArpRequest(data: seq<byte>, ip: Ip4.Ip4Address) {
    && 8 <= |data| < 28
    && data[..6] == Arp.PREAMBLE && Be16(data, 6) == Arp.REQUEST
    && (data + Zeros(20))[24..28] == ip
  }

  /** The packet has the headers of an echo request to the address, up to its ICMP type. */
  predicate StartsRequest(data: seq<byte>, ip: Ip4.Ip4Address) {
    && |data| > 20 && data[0] / 16 == 4 && 20 <= Ip4.HeaderLength(data) < |data|
    && data[7] % 2 == 0 && data[9] == Ip4.ICMP && data[16..20] == ip
    && data[Ip4.HeaderLength(data)] == Icmp4.ECHO_REQUEST
  }

  /** An echo request to an address that needs more bytes than it has, but not more than `n` more. */
  predicate CutEchoRequest(data: seq<byte>, n: nat, ip: Ip4.Ip4Address) {
    StartsRequest(data, ip) && |data| < Needed(data) <= |data| + n
  }

  /** How many bytes a packet needs: its headers, and its total length where that is looked at. */
  function Needed(data: seq<byte>): nat
    requires |data| > 20
  {
    var headers := Ip4.HeaderLength(data) + 4;
    if Ip4.HeaderLength(data) <= Be16(data, 2) && headers < Be16(data, 2) then Be16(data, 2) else headers
  }

  /** A short frame with a complete Ethernet header, around the front of a request for the address. */
  predicate Cut(frame: seq<byte>, ip: Ip4.Ip4Address) {
    && |frame| < MIN_FRAME && Ethernet.Parse(frame).Ok?
    && var ParseResult(h, data) := Ethernet.Parse(frame).value;
       || (h.etherType == Ethernet.ARP && CutArpRequest(data, ip))
       || (h.etherType == Ethernet.IP4 && CutEchoRequest(data, MIN_FRAME - |frame|, ip))
  }

  /** Exactly on these frames a device throws, and answers them when they are padded. */
  lemma CutExactly(me: Addresses, frame: seq<byte>)
    ensures Respond(me, frame).Threw? && Respond(me, Pad(frame)).Sent? <==> Cut(frame, me.ip4)
  {
    if |frame| < MIN_FRAME {
      ShortCut(me, frame, MIN_FRAME - |frame|, Pad(frame));
    } else {
      assert Pad(frame) == frame;
    }
  }

  lemma ShortCut(me: Addresses, frame: seq<byte>, n: nat, padded: seq<byte>)
    requires |frame| + n == MIN_FRAME && n > 0 && padded == frame + Zeros(n)
    ensures Respond(me, frame).Threw? && Respond(me, padded).Sent? <==> Cut(frame, me.ip4)
  {
    if Ethernet.Parse(frame).Ok? {
      var p := Ethernet.Parse(frame).value;
      EthernetPrefix(frame, n);
      PayloadCut(me, frame, padded, p.header, p.remaining, n);
    } else {
      EthernetCut(me, frame, n);
    }
  }

  lemma PayloadCut(me: Addresses, frame: seq<byte>, padded: seq<byte>, h: EthernetHeader, data: seq<byte>, n: nat)
    requires Ethernet.Parse(frame) == Ok(ParseResult(h, data)) && |frame| + n == MIN_FRAME
    requires Ethernet.Parse(padded) == Ok(ParseResult(h, data + Zeros(n)))
    ensures Respond(me, frame).Threw? && Respond(me, padded).Sent?
            <==> || (h.etherType == Ethernet.ARP && CutArpRequest(data, me.ip4))
                 || (h.etherType == Ethernet.IP4 && CutEchoRequest(data, n, me.ip4))
  {
    assert |data| + n >= 28 by { Ethernet.WriteAfterParse(frame); }
    ArpCut(me, h, data, n);
    Ip4Cut(me, h, data, n);
  }

  /** A frame that is cut inside its Ethernet header is not completed: its payload would be zeros. */
  lemma EthernetCut(me: Addresses, frame: seq<byte>, n: nat)
    requires Ethernet.Parse(frame).Err?
    ensures !Respond(me, frame + Zeros(n)).Sent?
  {
    var padded := frame + Zeros(n);
    if Ethernet.Parse(padded).Ok? {
      var ParseResult(h, data) := Ethernet.Parse(padded).value;
      Ethernet.WriteAfterParse(padded);
      HeaderInFront(frame, n, h, data);
      assert data == Zeros(|data|);
      ZerosRejected(me, h, data);
    }
  }

  /** A frame that has the whole Ethernet header of its padded form is accepted. */
  lemma HeaderInFront(frame: seq<byte>, n: nat, h: EthernetHeader, data: seq<byte>)
    requires frame + Zeros(n) == Ethernet.EthernetBytes(h) + data && Ethernet.Canonical(h)
    ensures |Ethernet.EthernetBytes(h)| <= |frame| ==> Ethernet.Parse(frame).Ok?
    ensures |Ethernet.EthernetBytes(h)| > |frame| ==> data == Zeros(|data|)
  {
    var e := |Ethernet.EthernetBytes(h)|;
    if e <= |frame| {
      assert frame[..e] == (frame + Zeros(n))[..e] == Ethernet.EthernetBytes(h);
      assert frame == Ethernet.EthernetBytes(h) + frame[e..];
      Ethernet.ParseAfterWrite(h, frame[e..]);
    } else {
      assert data == (frame + Zeros(n))[e..];
    }
  }

  lemma ZerosRejected(me: Addresses, h: EthernetHeader, data: seq<byte>)
    requires data == Zeros(|data|)
    ensures RespondToArp(h, data, me).Threw? && RespondToIp4(h, data, me).Threw?
  {
    Arp.ParseCharacterised(data);
    assert Arp.PREAMBLE[1] == 1;
    assert |data| >= 28 ==> data[..6][1] == 0;
  }

  lemma ArpCut(me: Addresses, h: EthernetHeader, data: seq<byte>, n: nat)
    requires |data| + n >= 28
    ensures RespondToArp(h, data, me).Threw? && RespondToArp(h, data + Zeros(n), me).Sent?
            <==> CutArpRequest(data, me.ip4)
  {
    Arp.ParseCharacterised(data);
    Arp.ParseCharacterised(data + Zeros(n));
  }

  lemma Ip4Cut(me: Addresses, h: EthernetHeader, data: seq<byte>, n: nat)
    ensures RespondToIp4(h, data, me).Threw? && RespondToIp4(h, data + Zeros(n), me).Sent?
            <==> CutEchoRequest(data, n, me.ip4)
  {
    var padded := data + Zeros(n);
    WhichAnswered(me, h, data);
    WhichAnswered(me, h, padded);
    if StartsRequest(padded, me.ip4) {
      assert |data| > 0 && Ip4.HeaderLength(padded) < |data| by {
        assert padded[0] / 16 == 4 && padded[Ip4.HeaderLength(padded)] == Icmp4.ECHO_REQUEST;
      }
      SameStart(data, n, me.ip4);
    } else if StartsRequest(data, me.ip4) {
      SameStart(data, n, me.ip4);
    }
  }

  /** Such a packet is answered when it has all it needs, and throws when not; no other is answered. */
  lemma WhichAnswered(me: Addresses, h: EthernetHeader, data: seq<byte>)
    ensures RespondToIp4(h, data, me).Sent? <==> StartsRequest(data, me.ip4) && Needed(data) <= |data|
    ensures StartsRequest(data, me.ip4) ==> (RespondToIp4(h, data, me).Threw? <==> |data| < Needed(data))
  {
    if Ip4.Parse(data).Ok? {
      var message := Ip4.Parse(data).value.remaining;
      Icmp4.WriteAfterParse(message);
      if |message| >= 4 {
        var p := Icmp4.ParseIcmp4Header(message).value;
        assert message[0] == p.header.typ by { assert message == Icmp4.MessageBytes(p.header, p.remaining); }
      }
    }
  }

  lemma SameStart(data: seq<byte>, n: nat, ip: Ip4.Ip4Address)
    requires |data| > 0 && 20 <= Ip4.HeaderLength(data) < |data|
    ensures StartsRequest(data + Zeros(n), ip) <==> StartsRequest(data, ip)
    ensures Needed(data + Zeros(n)) == Needed(data)
  {
    assert (data + Zeros(n))[16..20] == data[16..20];
  }
}
