/** What the answers of a device are to those who receive them. */
module DeviceTheorems {
  import opened Bytes
  import opened BigEndian
  import opened Checksum
  import opened EchoDevice
  import Ethernet
  import Ip4
  import Arp
  import Icmp4

  /** The parts of a frame whose Ethernet, IPv4 and ICMP headers are accepted. */
  datatype EchoParts = EchoParts(
    ethernet: EthernetHeader, packet: seq<byte>, ip: Ip4Header, message: seq<byte>, icmp: Icmp4Header,
    payload: seq<byte>)

  /** What a receiver that looks through all three headers sees. */
  function Dissect(frame: seq<byte>): Option<EchoParts> {
    match Ethernet.Parse(frame)
    case Err(_) => None
    case Ok(ParseResult(ethernet, packet)) =>
      if ethernet.etherType != Ethernet.IP4 then None
      else match Ip4.Parse(packet)
        case Err(_) => None
        case Ok(ParseResult(ip, message)) =>
          if ip.protocol != Ip4.ICMP then None
          else match Icmp4.ParseIcmp4Header(message)
            case Err(_) => None
            case Ok(ParseResult(icmp, payload)) => Some(EchoParts(ethernet, packet, ip, message, icmp, payload))
  }

  predicate IsIcmp(frame: seq<byte>) {
    Dissect(frame).Some?
  }

  function Parts(frame: seq<byte>): EchoParts
    requires IsIcmp(frame)
  {
    Dissect(frame).value
  }

  /** The length of the IP options of a packet, which a reply does not repeat. */
  function Options(frame: seq<byte>): nat
    requires IsIcmp(frame)
  {
    Ip4.HeaderLength(Parts(frame).packet) - 20
  }

  predicate IsEchoRequest(frame: seq<byte>, ip: Ip4.Ip4Address) {
    IsIcmp(frame) && Parts(frame).icmp.typ == Icmp4.ECHO_REQUEST && Parts(frame).ip.destinationAddress == ip
  }

  predicate IsArp(frame: seq<byte>) {
    && Ethernet.Parse(frame).Ok?
    && Ethernet.Parse(frame).value.header.etherType == Ethernet.ARP
    && Arp.ParseArpIp4Packet(Ethernet.Parse(frame).value.remaining).Ok?
  }

  function ArpPart(frame: seq<byte>): ArpIp4Packet
    requires IsArp(frame)
  {
    Arp.ParseArpIp4Packet(Ethernet.Parse(frame).value.remaining).value
  }

  predicate IsArpRequest(frame: seq<byte>, ip: Ip4.Ip4Address) {
    IsArp(frame) && ArpPart(frame).operation == Arp.REQUEST && ArpPart(frame).targetProtocolAddress == ip
  }

  /** Exactly the ARP and echo requests for the device's IP address are answered. */
  lemma AnsweredFrames(me: Addresses, frame: seq<byte>)
    ensures Respond(me, frame).Sent? <==> IsArpRequest(frame, me.ip4) || IsEchoRequest(frame, me.ip4)
  {
  }

  // ---------------------------------------------------------------------------------------------
  // Echo replies

  /**
   What the answer to an echo request says: the request's Ethernet and IPv4 headers with the addresses
   turned around and the checksum of the written IPv4 header, type 0, and the payload followed by as
   many zero bytes as the request had IP options.
   */
  function ReplyParts(me: Addresses, frame: seq<byte>): EchoParts
    requires IsIcmp(frame)
  {
    var q := Parts(frame);
    var payload := q.payload + Zeros(Options(frame));
    var icmp := Icmp4.Sealed(Icmp4.ECHO_REPLY, q.icmp.code, payload);
    var message := Icmp4.MessageBytes(icmp, payload);
    var ip := q.ip.(sourceAddress := me.ip4, destinationAddress := q.ip.sourceAddress);
    EchoParts(q.ethernet.(destination := q.ethernet.source, source := me.ethernet),
              Ip4.Ip4Bytes(ip) + message, ip.(checksum := Ip4.HeaderChecksum(ip)), message, icmp, payload)
  }

  /** The answer to an echo request has the request's length, and a receiver finds in it what it should say. */
  lemma EchoReplyOnTheWire(me: Addresses, frame: seq<byte>)
    requires IsEchoRequest(frame, me.ip4)
    ensures Respond(me, frame).Sent? && |Respond(me, frame).frame| == |frame|
    ensures Dissect(Respond(me, frame).frame) == Some(ReplyParts(me, frame))
    ensures Options(Respond(me, frame).frame) == 0
  {
    var q := Parts(frame);
    var e, h := ReplyEthernetHeader(q.ethernet, q.ethernet.source, me), ReplyIp4Header(q.ip, me);
    var body := EchoBody(q.payload, Options(frame));
    AcceptedShape(frame);
    EchoReplyLayers(me, frame);
    DissectWritten(e, h, Icmp4.Sealed(Icmp4.ECHO_REPLY, q.icmp.code, body), body);
  }

  /** How the sizes of an accepted frame fit together, and what its headers can be. */
  lemma AcceptedShape(frame: seq<byte>)
    requires IsIcmp(frame)
    ensures var q := Parts(frame);
            |frame| == |Ethernet.EthernetBytes(q.ethernet)| + |q.packet|
            && |q.packet| == 24 + Options(frame) + |q.payload| && q.payload == q.packet[24 + Options(frame)..]
            && q.ip.totalLength <= |q.packet| && q.message == Icmp4.MessageBytes(q.icmp, q.payload)
            && Ethernet.Canonical(q.ethernet) && q.ethernet.etherType == Ethernet.IP4
            && q.ip.fragmentOffset % 2 == 0 && q.ip.fragmentOffset < 0x2000 && q.ip.protocol == Ip4.ICMP
  {
    Ethernet.WriteAfterParse(frame);
    PacketShape(Parts(frame).packet);
  }

  /** The same for the packet in the frame. */
  lemma PacketShape(packet: seq<byte>)
    requires Ip4.Parse(packet).Ok? && Icmp4.ParseIcmp4Header(Ip4.Parse(packet).value.remaining).Ok?
    ensures var ip := Ip4.Parse(packet).value.header;
            var message := Ip4.Parse(packet).value.remaining;
            var icmp := Icmp4.ParseIcmp4Header(message).value;
            var at := 24 + (Ip4.HeaderLength(packet) - 20);
            |packet| == at + |icmp.remaining| && icmp.remaining == packet[at..] && ip.totalLength <= |packet|
            && message == Icmp4.MessageBytes(icmp.header, icmp.remaining)
            && ip.fragmentOffset % 2 == 0 && ip.fragmentOffset < 0x2000
  {
    Ip4.AcceptedLength(packet);
    Ip4.ParsedOffset(packet);
    Icmp4.WriteAfterParse(Ip4.Parse(packet).value.remaining);
  }

  /** The three layers of the answer, as bytes. */
  lemma EchoReplyLayers(me: Addresses, frame: seq<byte>)
    requires IsEchoRequest(frame, me.ip4)
    ensures var q := Parts(frame);
            var body := EchoBody(q.payload, Options(frame));
            Respond(me, frame) == Sent(
              Ethernet.EthernetBytes(ReplyEthernetHeader(q.ethernet, q.ethernet.source, me))
              + Ip4.Ip4Bytes(ReplyIp4Header(q.ip, me))
              + Icmp4.MessageBytes(Icmp4.Sealed(Icmp4.ECHO_REPLY, q.icmp.code, body), body))
  {
  }

  /** A receiver finds again the three headers that were written. */
  lemma DissectWritten(e: EthernetHeader, h: Ip4Header, icmp: Icmp4Header, body: seq<byte>)
    requires Ethernet.Canonical(e) && e.etherType == Ethernet.IP4
    requires h.fragmentOffset % 2 == 0 && h.fragmentOffset < 0x2000 && h.protocol == Ip4.ICMP
             && h.totalLength <= 24 + |body|
    ensures var message := Icmp4.MessageBytes(icmp, body);
            Dissect(Ethernet.EthernetBytes(e) + Ip4.Ip4Bytes(h) + message)
            == Some(EchoParts(e, Ip4.Ip4Bytes(h) + message, h.(checksum := Ip4.HeaderChecksum(h)), message, icmp, body))
    ensures Ip4.HeaderLength(Ip4.Ip4Bytes(h) + Icmp4.MessageBytes(icmp, body)) == 20
  {
    var message := Icmp4.MessageBytes(icmp, body);
    var packet := Ip4.Ip4Bytes(h) + message;
    assert Ethernet.EthernetBytes(e) + Ip4.Ip4Bytes(h) + message == Ethernet.EthernetBytes(e) + packet;
    assert Ethernet.Parse(Ethernet.EthernetBytes(e) + packet) == Ok(ParseResult(e, packet)) by {
      Ethernet.ParseAfterWrite(e, packet);
    }
    assert Ip4.Parse(packet) == Ok(ParseResult(h.(checksum := Ip4.HeaderChecksum(h)), message)) by {
      Ip4.ParseAfterWrite(h, message);
    }
    Icmp4.ParseAfterWrite(icmp, body);
    assert Ip4.HeaderLength(packet) == 20 by { Ip4.FieldsOfBytes(h, Ip4.HeaderChecksum(h), message); }
  }

  /** The ICMP message of the answer is the sealed one. */
  lemma EchoReplyMessage(me: Addresses, frame: seq<byte>)
    requires IsEchoRequest(frame, me.ip4)
    ensures Respond(me, frame).Sent? && IsIcmp(Respond(me, frame).frame)
    ensures var q, r := Parts(frame), Parts(Respond(me, frame).frame);
            var body := EchoBody(q.payload, Options(frame));
            r.icmp == Icmp4.Sealed(Icmp4.ECHO_REPLY, q.icmp.code, body) && r.message == Icmp4.MessageBytes(r.icmp, body)
  {
    EchoReplyOnTheWire(me, frame);
    Icmp4.WriteAfterParse(Parts(Respond(me, frame).frame).message);
  }

  /** What the checksum of the answer is computed over, by the bytes of the request. */
  function ZeroedReply(frame: seq<byte>): seq<byte>
    requires IsIcmp(frame)
  {
    Icmp4.MessageBytes(Icmp4.Icmp4Header(Icmp4.ECHO_REPLY, Parts(frame).icmp.code, 0),
                       EchoBody(Parts(frame).payload, Options(frame)))
  }

  /**
   A receiver accepts the ICMP message of an answer exactly when the unread high bits of the
   accumulator agree with the carry of its fold; for messages of at most 131074 bytes, when the fold
   makes no second carry.
   */
  lemma EchoReplyVerifies(me: Addresses, frame: seq<byte>)
    requires IsEchoRequest(frame, me.ip4)
    ensures Respond(me, frame).Sent? && IsIcmp(Respond(me, frame).frame)
    ensures var message := Parts(Respond(me, frame).frame).message;
            var zeroed := ZeroedReply(frame);
            (|message| <= 131074 ==> OnesSum(message) == if NoSecondCarry(zeroed) then 0xFFFF else 1)
            && (Verifies(message)
                <==> Overflow(WordSum(zeroed)) % 0xFFFF == if NoSecondCarry(zeroed) then 0 else 0xFFFE)
  {
    var q := Parts(frame);
    EchoReplyMessage(me, frame);
    Icmp4.SealedSum(Icmp4.ECHO_REPLY, q.icmp.code, EchoBody(q.payload, Options(frame)));
  }

  /**
   A receiver accepts the IPv4 header of an answer exactly when the fields of the request make no second
   carry: the answer has the same words in another order.
   */
  lemma EchoReplyHeaderVerifies(me: Addresses, frame: seq<byte>)
    requires IsEchoRequest(frame, me.ip4)
    ensures Respond(me, frame).Sent? && IsIcmp(Respond(me, frame).frame)
    ensures var packet := Parts(Respond(me, frame).frame).packet;
            |packet| >= 20
            && (Verifies(packet[..20]) <==> NoSecondCarry(Ip4.BytesWithChecksum(Parts(frame).ip, 0)))
  {
    EchoReplyOnTheWire(me, frame);
    ReversedVerifies(Parts(frame).ip, ReplyIp4Header(Parts(frame).ip, me));
    assert ReplyParts(me, frame).packet[..20] == Ip4.Ip4Bytes(ReplyIp4Header(Parts(frame).ip, me));
  }

  lemma ReversedVerifies(h: Ip4Header, reversed: Ip4Header)
    requires reversed == Ip4.Reversed(h)
    ensures Verifies(Ip4.Ip4Bytes(reversed)) <==> NoSecondCarry(Ip4.BytesWithChecksum(h, 0))
  {
    Ip4.WrittenHeaderSum(reversed);
    Ip4.HeaderWordSum(h, 0);
    Ip4.HeaderWordSum(reversed, 0);
  }

  /** Every device gets an echo request whose answer has an IPv4 header that no receiver accepts. */
  lemma UnverifiableReplyHeader(me: Addresses) returns (frame: seq<byte>)
    ensures IsEchoRequest(frame, me.ip4) && Respond(me, frame).Sent? && IsIcmp(Respond(me, frame).frame)
    ensures var packet := Parts(Respond(me, frame).frame).packet;
            |packet| >= 20 && !Verifies(packet[..20])
  {
    var h := Ip4.Ip4Header(24, 0, false, false, 0, 64, Ip4.ICMP, 0, me.ip4, Zeros(4));
    var identification, sender := Ip4.UnverifiableHeader(h);
    var reply := h.(identification := identification, destinationAddress := sender);
    var request := reply.(sourceAddress := sender, destinationAddress := me.ip4);
    var e := Ethernet.EthernetHeader(Zeros(6), Zeros(6), None, None, Ethernet.IP4);
    var icmp := Icmp4.Icmp4Header(Icmp4.ECHO_REQUEST, 0, 0);
    frame := Ethernet.EthernetBytes(e) + Ip4.Ip4Bytes(request) + Icmp4.MessageBytes(icmp, []);
    DissectWritten(e, request, icmp, []);
    var checksum := Ip4.HeaderChecksum(request);
    ReversedVerifies(request.(checksum := checksum), reply.(checksum := checksum));
    EchoReplyHeaderVerifies(me, frame);
  }

  /** The new checksum is the old one plus 0x0800, by which the type got smaller, modulo 65535. */
  predicate TypeChangeApplied(before: u16, after: u16) {
    after as int % 0xFFFF == (before as int + 0x0800) % 0xFFFF
  }

  /**
   The incremental update of section 3 of RFC 1624: when the request's message verified, the answer's
   does exactly when the change of the type from 8 to 0 was applied to the request's checksum.
   */
  lemma EchoReplyChecksumUpdate(me: Addresses, frame: seq<byte>)
    requires IsEchoRequest(frame, me.ip4) && Verifies(Parts(frame).message)
    ensures Respond(me, frame).Sent? && IsIcmp(Respond(me, frame).frame)
    ensures var reply := Parts(Respond(me, frame).frame);
            Verifies(reply.message) <==> TypeChangeApplied(Parts(frame).icmp.checksum, reply.icmp.checksum)
  {
    var q := Parts(frame);
    EchoReplyMessage(me, frame);
    Icmp4.WriteAfterParse(q.message);
    SealedUpdate(q.icmp, q.payload, Options(frame));
  }

  lemma SealedUpdate(request: Icmp4Header, payload: seq<byte>, options: nat)
    requires request.typ == Icmp4.ECHO_REQUEST && Verifies(Icmp4.MessageBytes(request, payload))
    ensures var body := EchoBody(payload, options);
            var sealed_ := Icmp4.Sealed(Icmp4.ECHO_REPLY, request.code, body);
            Verifies(Icmp4.MessageBytes(sealed_, body)) <==> TypeChangeApplied(request.checksum, sealed_.checksum)
  {
    var body := EchoBody(payload, options);
    var sealed_ := Icmp4.Sealed(Icmp4.ECHO_REPLY, request.code, body);
    WordSumPadding(payload, options);
    Icmp4.MessageWordSum(request, payload);
    Icmp4.MessageWordSum(sealed_, body);
    OnesSumIsResidue(Icmp4.MessageBytes(request, payload));
    OnesSumIsResidue(Icmp4.MessageBytes(sealed_, body));
    SealedPositive(request.code, body);
    UpdateArithmetic(request.code + WordSum(payload), request.checksum, sealed_.checksum);
  }

  lemma SealedPositive(code: byte, body: seq<byte>)
    ensures WordSum(Icmp4.MessageBytes(Icmp4.Sealed(Icmp4.ECHO_REPLY, code, body), body)) > 0
  {
    Icmp4.MessageWordSum(Icmp4.Icmp4Header(Icmp4.ECHO_REPLY, code, 0), body);
    Icmp4.MessageWordSum(Icmp4.Sealed(Icmp4.ECHO_REPLY, code, body), body);
    ChecksumOfIsFold(Icmp4.MessageBytes(Icmp4.Icmp4Header(Icmp4.ECHO_REPLY, code, 0), body));
  }

  lemma UpdateArithmetic(rest: nat, before: u16, after: u16)
    requires Residue(0x0800 + before as int + rest) == 0xFFFF && after as int + rest > 0
    ensures Residue(after as int + rest) == 0xFFFF <==> TypeChangeApplied(before, after)
  {
    FullResidue(0x0800 + before as int + rest);
    FullResidue(after as int + rest);
    SameResidue(before as int + 0x0800, after, rest);
  }

  lemma SameResidue(m: nat, n: nat, rest: nat)
    ensures Congruent(m + rest, n + rest) <==> Congruent(m, n)
  {
    if m <= n {
      CongruentSum(n - m, m);
      CongruentSum(n - m, m + rest);
    } else {
      CongruentSum(m - n, n);
      CongruentSum(m - n, n + rest);
    }
  }

  /** The part of the answer's ICMP message that its total length covers. */
  function Covered(me: Addresses, frame: seq<byte>): seq<byte>
    requires IsIcmp(frame) && 20 <= Parts(frame).ip.totalLength
  {
    Limit(ReplyParts(me, frame).message, Parts(frame).ip.totalLength - 20)
  }

  /** What is covered verifies when it is not all zero and the rest counts as much as the whole, modulo 65535. */
  predicate DecidedByRest(me: Addresses, frame: seq<byte>)
    requires IsIcmp(frame) && 20 <= Parts(frame).ip.totalLength
  {
    var message := ReplyParts(me, frame).message;
    Verifies(Covered(me, frame))
    <==> WordSum(Covered(me, frame)) > 0
         && Congruent(RestSum(message, Parts(frame).ip.totalLength - 20), WordSum(message))
  }

  /**
   The checksum is computed to the end of the frame and not to the total length. A receiver that stops
   at the total length accepts the message exactly when what it covers is not all zero and what it does
   not cover counts as much as the whole message, modulo 65535.
   */
  lemma EchoReplyWithinTotalLength(me: Addresses, frame: seq<byte>)
    requires IsEchoRequest(frame, me.ip4) && 20 <= Parts(frame).ip.totalLength
    ensures Respond(me, frame).Sent? && Dissect(Respond(me, frame).frame) == Some(ReplyParts(me, frame))
    ensures DecidedByRest(me, frame)
  {
    EchoReplyOnTheWire(me, frame);
    CoveredVerifies(me, frame);
  }

  lemma CoveredVerifies(me: Addresses, frame: seq<byte>)
    requires IsIcmp(frame) && 20 <= Parts(frame).ip.totalLength
    ensures DecidedByRest(me, frame)
  {
    PartVerifies(ReplyParts(me, frame).message, Parts(frame).ip.totalLength - 20, Covered(me, frame));
  }

  /** The covered part is what the answer's packet holds between its header and its total length. */
  lemma CoveredInPacket(me: Addresses, frame: seq<byte>)
    requires IsEchoRequest(frame, me.ip4) && 20 <= Parts(frame).ip.totalLength
    ensures var r := ReplyParts(me, frame);
            r.ip.totalLength <= |r.packet| && Covered(me, frame) == r.packet[20..r.ip.totalLength]
  {
    AcceptedShape(frame);
    var r := ReplyParts(me, frame);
    FrontOf(r.packet[..20], r.message, Parts(frame).ip.totalLength);
    assert r.packet == r.packet[..20] + r.message;
  }

  lemma FrontOf(header: seq<byte>, message: seq<byte>, length: nat)
    requires |header| == 20 <= length <= 20 + |message|
    ensures Limit(message, length - 20) == (header + message)[20..length]
  {
  }

  /**
   What the bytes of a request that end up behind the total length of its answer count: those that
   follow the total length by the length of the options.
   */
  function TrailerSum(packet: seq<byte>, totalLength: nat, options: nat): nat {
    WordSum(Aligned(totalLength, Advance(packet, totalLength + options)))
  }

  /** Something other than zero is covered: a code, payload, or a checksum that is not zero. */
  predicate CoversSomething(code: byte, body: seq<byte>, totalLength: nat, trailer: nat)
    requires 24 <= totalLength
  {
    code > 0 || WordSum(Limit(body, totalLength - 24)) > 0 || FoldOnce(trailer) != 0
  }

  /**
   The front of a sealed message verifies exactly when something is covered and the trailer counts as much
   as the checksum is off: nothing without a second carry, and one with it, as long as the high bits stay
   zero. So for a message that verifies itself the trailer must count a multiple of 65535.
   */
  predicate DecidedBy(trailer: nat, some: bool, zeroed: seq<byte>, message: seq<byte>, front: seq<byte>) {
    && (Verifies(front) <==> some && Congruent(trailer, Excess(zeroed)))
    && (|zeroed| <= 131074 ==>
          (Verifies(front) <==> some && trailer % 0xFFFF == if NoSecondCarry(zeroed) then 0 else 1))
    && (Verifies(message) ==> (Verifies(front) <==> some && Congruent(trailer, 0)))
  }

  /** The covered part of an answer is decided by the request: its trailer, and what its answer is computed from. */
  predicate DecidedByRequest(me: Addresses, frame: seq<byte>)
    requires IsIcmp(frame) && 24 <= Parts(frame).ip.totalLength
  {
    var q := Parts(frame);
    var trailer := TrailerSum(q.packet, q.ip.totalLength, Options(frame));
    var some := CoversSomething(q.icmp.code, EchoBody(q.payload, Options(frame)), q.ip.totalLength, trailer);
    DecidedBy(trailer, some, ZeroedReply(frame), ReplyParts(me, frame).message, Covered(me, frame))
  }

  /**
   For a total length that covers the ICMP header, stopping there and the second carry are decided together
   by the bytes of the request.
   */
  lemma TrailerDecides(me: Addresses, frame: seq<byte>)
    requires IsEchoRequest(frame, me.ip4) && 24 <= Parts(frame).ip.totalLength
    ensures Respond(me, frame).Sent? && Dissect(Respond(me, frame).frame) == Some(ReplyParts(me, frame))
    ensures DecidedByRequest(me, frame)
  {
    EchoReplyOnTheWire(me, frame);
    TrailerOfReply(me, frame);
  }

  lemma TrailerOfReply(me: Addresses, frame: seq<byte>)
    requires IsIcmp(frame) && 24 <= Parts(frame).ip.totalLength
    ensures DecidedByRequest(me, frame)
  {
    var q := Parts(frame);
    PayloadPosition(frame);
    ReplyMessage(me, frame);
    var trailer := TrailerSum(q.packet, q.ip.totalLength, Options(frame));
    var some := CoversSomething(q.icmp.code, EchoBody(q.payload, Options(frame)), q.ip.totalLength, trailer);
    MessageDecides(q.packet, q.payload, Options(frame), q.ip.totalLength, q.icmp.code, trailer, some,
                   ZeroedReply(frame), ReplyParts(me, frame).message, Covered(me, frame));
  }

  /** The packet is its headers, with options, and the payload. */
  predicate PayloadAt(packet: seq<byte>, payload: seq<byte>, options: nat) {
    |packet| == 24 + options + |payload| && payload == packet[24 + options..]
  }

  lemma ReplyMessage(me: Addresses, frame: seq<byte>)
    requires IsIcmp(frame)
    ensures var q := Parts(frame);
            var body := EchoBody(q.payload, Options(frame));
            ReplyParts(me, frame).message == Icmp4.MessageBytes(Icmp4.Sealed(Icmp4.ECHO_REPLY, q.icmp.code, body), body)
  {
  }

  lemma PayloadPosition(frame: seq<byte>)
    requires IsIcmp(frame)
    ensures var q := Parts(frame);
            PayloadAt(q.packet, q.payload, Options(frame)) && q.ip.totalLength <= |q.packet|
  {
    AcceptedShape(frame);
  }

  lemma MessageRest(packet: seq<byte>, payload: seq<byte>, options: nat, length: nat, icmp: Icmp4Header)
    requires PayloadAt(packet, payload, options) && 24 <= length <= |packet|
    ensures RestSum(Icmp4.MessageBytes(icmp, EchoBody(payload, options)), length - 20)
            == TrailerSum(packet, length, options)
  {
    BodyTail(packet, payload, options, length);
    RestOfMessage(icmp, EchoBody(payload, options), length - 24, length - 20);
  }

  lemma MessageCovered(packet: seq<byte>, payload: seq<byte>, options: nat, length: nat, code: byte)
    requires PayloadAt(packet, payload, options) && 24 <= length <= |packet|
    ensures var body := EchoBody(payload, options);
            var message := Icmp4.MessageBytes(Icmp4.Sealed(Icmp4.ECHO_REPLY, code, body), body);
            WordSum(Limit(message, length - 20)) > 0
            <==> CoversSomething(code, body, length, TrailerSum(packet, length, options))
  {
    BodyTail(packet, payload, options, length);
    CoveredIsZero(code, EchoBody(payload, options), length - 24, length - 20, TrailerSum(packet, length, options));
  }

  lemma MessageDecides(packet: seq<byte>, payload: seq<byte>, options: nat, length: nat, code: byte, trailer: nat,
                       some: bool, zeroed: seq<byte>, message: seq<byte>, front: seq<byte>)
    requires PayloadAt(packet, payload, options) && 24 <= length <= |packet| && front == Limit(message, length - 20)
    requires var body := EchoBody(payload, options);
             zeroed == Icmp4.MessageBytes(Icmp4.Icmp4Header(Icmp4.ECHO_REPLY, code, 0), body)
             && message == Icmp4.MessageBytes(Icmp4.Sealed(Icmp4.ECHO_REPLY, code, body), body)
    requires trailer == TrailerSum(packet, length, options)
    requires some == CoversSomething(code, EchoBody(payload, options), length, trailer)
    ensures DecidedBy(trailer, some, zeroed, message, front)
  {
    assert RestSum(message, length - 20) == trailer by {
      MessageRest(packet, payload, options, length, Icmp4.Sealed(Icmp4.ECHO_REPLY, code, EchoBody(payload, options)));
    }
    assert WordSum(front) > 0 <==> some by { MessageCovered(packet, payload, options, length, code); }
    PartVerifies(message, length - 20, front);
    assert Congruent(WordSum(message), Excess(zeroed)) by { SealedExcess(code, EchoBody(payload, options)); }
    Decide(trailer, some, zeroed, message, front);
  }

  lemma SealedExcess(code: byte, body: seq<byte>)
    ensures Congruent(WordSum(Icmp4.MessageBytes(Icmp4.Sealed(Icmp4.ECHO_REPLY, code, body), body)),
                      Excess(Icmp4.MessageBytes(Icmp4.Icmp4Header(Icmp4.ECHO_REPLY, code, 0), body)))
  {
    var zeroed := Icmp4.Icmp4Header(Icmp4.ECHO_REPLY, code, 0);
    var sealed_ := Icmp4.Sealed(Icmp4.ECHO_REPLY, code, body);
    Icmp4.MessageWordSum(zeroed, body);
    Icmp4.MessageWordSum(sealed_, body);
    FilledCongruent(Icmp4.MessageBytes(zeroed, body), Icmp4.MessageBytes(sealed_, body));
  }

  lemma Decide(trailer: nat, some: bool, zeroed: seq<byte>, message: seq<byte>, front: seq<byte>)
    requires Verifies(front) <==> some && Congruent(trailer, WordSum(message))
    requires Congruent(WordSum(message), Excess(zeroed))
    ensures DecidedBy(trailer, some, zeroed, message, front)
  {
    if |zeroed| <= 131074 {
      ShortTotal(zeroed);
    }
    if Verifies(message) {
      VerifiesIsCongruent(message, trailer);
    }
  }

  /** Behind the covered payload there is the trailer of the request, and zeros. */
  lemma BodyTail(packet: seq<byte>, payload: seq<byte>, options: nat, length: nat)
    requires PayloadAt(packet, payload, options) && 24 <= length <= |packet|
    ensures RestSum(EchoBody(payload, options), length - 24) == TrailerSum(packet, length, options)
  {
    var trailer := Advance(packet, length + options);
    var zeros := BodyBehind(packet, payload, options, length);
    RestWithZeros(EchoBody(payload, options), length - 24, length, trailer, zeros);
  }

  lemma RestWithZeros(body: seq<byte>, n: nat, m: nat, tail: seq<byte>, zeros: nat)
    requires m == n + 24 && n <= |body| && Advance(body, n) == tail + Zeros(zeros)
    ensures RestSum(body, n) == WordSum(Aligned(m, tail))
  {
    assert m % 2 == n % 2;
    AlignedPadding(m, tail, zeros);
  }

  lemma BodyBehind(packet: seq<byte>, payload: seq<byte>, options: nat, length: nat) returns (zeros: nat)
    requires PayloadAt(packet, payload, options) && 24 <= length <= |packet|
    ensures Advance(EchoBody(payload, options), length - 24) == Advance(packet, length + options) + Zeros(zeros)
  {
    zeros := |packet| - length - |Advance(packet, length + options)|;
  }

  lemma AlignedPadding(n: nat, b: seq<byte>, zeros: nat)
    ensures WordSum(Aligned(n, b + Zeros(zeros))) == WordSum(Aligned(n, b))
  {
    assert Aligned(n, b + Zeros(zeros)) == Aligned(n, b) + Zeros(zeros);
    WordSumPadding(Aligned(n, b), zeros);
  }

  lemma AlignedEven(n: nat, words: nat, b: seq<byte>)
    ensures Aligned(n + 2 * words, b) == Aligned(n, b)
  {
  }

  /** The front of a sealed message is zero when code and payload are, and the checksum of the rest is. */
  lemma CoveredIsZero(code: byte, body: seq<byte>, n: nat, m: nat, rest: nat)
    requires m == n + 4 && n <= |body| && rest == RestSum(body, n)
    ensures var message := Icmp4.MessageBytes(Icmp4.Sealed(Icmp4.ECHO_REPLY, code, body), body);
            WordSum(Limit(message, m)) > 0 <==> code > 0 || WordSum(Limit(body, n)) > 0 || FoldOnce(rest) != 0
  {
    var icmp := Icmp4.Sealed(Icmp4.ECHO_REPLY, code, body);
    var zeroed := Icmp4.Icmp4Header(Icmp4.ECHO_REPLY, code, 0);
    assert WordSum(Limit(Icmp4.MessageBytes(icmp, body), m)) == code + icmp.checksum + WordSum(Limit(body, n)) by {
      assert Limit(Icmp4.MessageBytes(icmp, body), m) == Icmp4.MessageBytes(icmp, Limit(body, n));
      Icmp4.MessageWordSum(icmp, Limit(body, n));
    }
    assert icmp.checksum == FoldOnce(code + (WordSum(Limit(body, n)) + rest)) by {
      Icmp4.MessageWordSum(zeroed, body);
      ChecksumOfIsFold(Icmp4.MessageBytes(zeroed, body));
      PartSum(body, n);
    }
    CheckedSumPositive(code, WordSum(Limit(body, n)), rest);
  }

  lemma CheckedSumPositive(code: byte, covered: nat, rest: nat)
    ensures code + FoldOnce(code + (covered + rest)) + covered > 0 <==> code > 0 || covered > 0 || FoldOnce(rest) != 0
  {
    assert code == covered == 0 ==> code + (covered + rest) == rest;
  }

  lemma RestOfMessage(icmp: Icmp4Header, body: seq<byte>, n: nat, m: nat)
    requires m == n + 4 && n <= |body|
    ensures RestSum(Icmp4.MessageBytes(icmp, body), m) == RestSum(body, n)
  {
    assert Advance(Icmp4.MessageBytes(icmp, body), m) == Advance(body, n);
    AlignedEven(n, 2, Advance(body, n));
  }

  /** The bytes from a position on are zero. */
  predicate ZeroFrom(packet: seq<byte>, n: nat) {
    Advance(packet, n) == Zeros(|Advance(packet, n)|)
  }

  /** A receiver that stops at the total length of an answer and one that reads to its end agree. */
  predicate SameVerdict(me: Addresses, frame: seq<byte>)
    requires IsIcmp(frame) && 20 <= Parts(frame).ip.totalLength
  {
    Verifies(Covered(me, frame)) <==> Verifies(ReplyParts(me, frame).message)
  }

  /** Where only zeros follow the total length of the request, stopping there makes no difference. */
  lemma ZeroTrailer(me: Addresses, frame: seq<byte>)
    requires IsEchoRequest(frame, me.ip4) && 24 <= Parts(frame).ip.totalLength
    requires ZeroFrom(Parts(frame).packet, Parts(frame).ip.totalLength)
    ensures Respond(me, frame).Sent? && Dissect(Respond(me, frame).frame) == Some(ReplyParts(me, frame))
    ensures SameVerdict(me, frame)
  {
    EchoReplyOnTheWire(me, frame);
    ZeroTrailerOfReply(me, frame);
  }

  lemma ZeroTrailerOfReply(me: Addresses, frame: seq<byte>)
    requires IsIcmp(frame) && 24 <= Parts(frame).ip.totalLength
    requires ZeroFrom(Parts(frame).packet, Parts(frame).ip.totalLength)
    ensures SameVerdict(me, frame)
  {
    var q := Parts(frame);
    PayloadPosition(frame);
    ReplyMessage(me, frame);
    ZeroRest(q.packet, q.payload, Options(frame), q.ip.totalLength, q.icmp.code,
             ReplyParts(me, frame).message, Covered(me, frame));
  }

  lemma ZeroRest(packet: seq<byte>, payload: seq<byte>, options: nat, length: nat, code: byte,
                 message: seq<byte>, front: seq<byte>)
    requires PayloadAt(packet, payload, options) && 24 <= length <= |packet|
    requires front == Limit(message, length - 20) && ZeroFrom(packet, length)
    requires var body := EchoBody(payload, options);
             message == Icmp4.MessageBytes(Icmp4.Sealed(Icmp4.ECHO_REPLY, code, body), body)
    ensures Verifies(front) <==> Verifies(message)
  {
    assert RestSum(message, length - 20) == 0 by {
      MessageRest(packet, payload, options, length, Icmp4.Sealed(Icmp4.ECHO_REPLY, code, EchoBody(payload, options)));
      ZeroTrailerSum(packet, length, options);
    }
    ZeroPart(message, length - 20);
  }

  lemma ZeroTrailerSum(packet: seq<byte>, n: nat, options: nat)
    requires ZeroFrom(packet, n)
    ensures TrailerSum(packet, n, options) == 0
  {
    var trailer := Advance(packet, n + options);
    assert trailer == Zeros(|trailer|) by { assert trailer == Advance(Advance(packet, n), options); }
    AlignedZeros(n, |trailer|);
  }

  /** An echo request to a device, without tags and options, with a given total length. */
  function EchoFrame(me: Addresses, totalLength: u16, body: seq<byte>): seq<byte> {
    Ethernet.EthernetBytes(Ethernet.EthernetHeader(Zeros(6), Zeros(6), None, None, Ethernet.IP4))
    + Ip4.Ip4Bytes(Ip4.Ip4Header(totalLength, 0, false, false, 0, 64, Ip4.ICMP, 0, Zeros(4), me.ip4))
    + Icmp4.MessageBytes(Icmp4.Icmp4Header(Icmp4.ECHO_REQUEST, 0, 0), body)
  }

  lemma EchoFrameParts(me: Addresses, totalLength: u16, body: seq<byte>)
    requires totalLength <= 24 + |body|
    ensures var frame := EchoFrame(me, totalLength, body);
            IsEchoRequest(frame, me.ip4) && Options(frame) == 0 && Parts(frame).payload == body
            && Parts(frame).icmp.code == 0
            && Parts(frame).ip.totalLength == totalLength
            && |Parts(frame).packet| == 24 + |body| && Parts(frame).packet[24..] == body
  {
    var h := Ip4.Ip4Header(totalLength, 0, false, false, 0, 64, Ip4.ICMP, 0, Zeros(4), me.ip4);
    var icmp := Icmp4.Icmp4Header(Icmp4.ECHO_REQUEST, 0, 0);
    DissectWritten(Ethernet.EthernetHeader(Zeros(6), Zeros(6), None, None, Ethernet.IP4), h, icmp, body);
    assert (Ip4.Ip4Bytes(h) + Icmp4.MessageBytes(icmp, body))[24..] == body;
  }

  /**
   A trailer that counts: the bytes 0, 1 behind a total length of 24 get an answer that verifies to the
   end of the frame, but not to its total length.
   */
  lemma TrailerRejected(me: Addresses, body: seq<byte>)
    requires body == [0] + [1]
    ensures var frame := EchoFrame(me, 24, body);
            IsEchoRequest(frame, me.ip4) && Parts(frame).ip.totalLength == 24
            && Respond(me, frame).Sent? && Dissect(Respond(me, frame).frame) == Some(ReplyParts(me, frame))
            && Verifies(ReplyParts(me, frame).message) && !Verifies(Covered(me, frame))
  {
    var frame := EchoFrame(me, 24, body);
    EchoFrameParts(me, 24, body);
    EchoReplyOnTheWire(me, frame);
    OneInTrailer(me, frame, body);
  }

  lemma OneInTrailer(me: Addresses, frame: seq<byte>, body: seq<byte>)
    requires IsIcmp(frame) && Options(frame) == 0 && body == [0] + [1]
    requires var q := Parts(frame);
             q.payload == body && q.icmp.code == 0 && q.ip.totalLength == 24
             && |q.packet| == 26 && q.packet[24..] == body
    ensures Verifies(ReplyParts(me, frame).message) && !Verifies(Covered(me, frame))
  {
    Ip4.WordSumOfPair(0, 1);
    assert EchoBody(body, 0) == body;
    assert Verifies(ReplyParts(me, frame).message) by {
      ReplyMessage(me, frame);
      OneSum(Icmp4.Icmp4Header(Icmp4.ECHO_REPLY, 0, 0), body);
      Icmp4.SealedSum(Icmp4.ECHO_REPLY, 0, body);
    }
    assert TrailerSum(Parts(frame).packet, 24, 0) == 1;
    TrailerOfReply(me, frame);
    OneCounts(CoversSomething(0, body, 24, 1), ZeroedReply(frame), ReplyParts(me, frame).message, Covered(me, frame));
  }

  lemma OneCounts(some: bool, zeroed: seq<byte>, message: seq<byte>, front: seq<byte>)
    requires DecidedBy(1, some, zeroed, message, front) && Verifies(message)
    ensures !Verifies(front)
  {
  }

  lemma OneSum(zeroed: Icmp4Header, body: seq<byte>)
    requires zeroed == Icmp4.Icmp4Header(Icmp4.ECHO_REPLY, 0, 0) && WordSum(body) == 1
    ensures NoSecondCarry(Icmp4.MessageBytes(zeroed, body)) && Overflow(WordSum(Icmp4.MessageBytes(zeroed, body))) == 0
  {
    Icmp4.MessageWordSum(zeroed, body);
  }

  /** An echo request whose answer no receiver accepts: the words of its payload add up to 0x1FFFF. */
  lemma UnverifiableEchoReply(me: Addresses, body: seq<byte>)
    requires body == [0xFF, 0xFF, 0xFF, 0xFF, 0x00, 0x01]
    ensures var frame := EchoFrame(me, 30, body);
            IsEchoRequest(frame, me.ip4) && Respond(me, frame).Sent? && IsIcmp(Respond(me, frame).frame)
            && !Verifies(Parts(Respond(me, frame).frame).message)
  {
    var frame := EchoFrame(me, 30, body);
    EchoFrameParts(me, 30, body);
    assert EchoBody(body, 0) == body;
    EchoReplyMessage(me, frame);
    Icmp4.UnverifiableEcho(body);
  }

  /** Whether byte `i` of an echo request with Ethernet header length `e` may change in the answer. */
  predicate MayChange(i: nat, e: nat) {
    || i < 12                    // the Ethernet addresses
    || e + 10 <= i < e + 12      // the IPv4 checksum
    || e + 12 <= i < e + 20      // the IPv4 addresses
    || i == e + 20               // the ICMP type
    || e + 22 <= i < e + 24      // the ICMP checksum
  }

  /**
   For a request without IP options, type of service and reserved flag, the answer is the request with
   only the addresses, the ICMP type and the two checksums changed; the IPv4 checksum stays if it was
   the one this code computes.
   */
  lemma EchoReplyInPlace(me: Addresses, frame: seq<byte>)
    requires IsEchoRequest(frame, me.ip4) && Ip4.Plain(Parts(frame).packet)
    ensures Respond(me, frame).Sent? && |Respond(me, frame).frame| == |frame|
    ensures var e := |frame| - |Parts(frame).packet|;
            var reply := Respond(me, frame).frame;
            (forall i {:trigger reply[i]} :: 0 <= i < |frame| && !MayChange(i, e) ==> reply[i] == frame[i])
            && (Parts(frame).ip.checksum == Ip4.HeaderChecksum(Parts(frame).ip) ==>
                  reply[e + 10] == frame[e + 10] && reply[e + 11] == frame[e + 11])
  {
    var q := Parts(frame);
    PlainFrame(frame);
    EchoReplyLayers(me, frame);
    assert EchoBody(q.payload, 0) == q.payload;
    ReplyDiffers(me, q.ethernet, q.ip, q.icmp, q.payload);
  }

  /** A plain frame is made of the fields of its headers and nothing else. */
  lemma PlainFrame(frame: seq<byte>)
    requires IsIcmp(frame) && Ip4.Plain(Parts(frame).packet)
    ensures var q := Parts(frame);
            Options(frame) == 0 && |Ethernet.EthernetBytes(q.ethernet)| == |frame| - |q.packet|
            && frame == Ethernet.EthernetBytes(q.ethernet) + Ip4.BytesWithChecksum(q.ip, q.ip.checksum)
                        + Icmp4.MessageBytes(q.icmp, q.payload)
  {
    var q := Parts(frame);
    Ethernet.WriteAfterParse(frame);
    Ip4.FieldsCoverPlain(q.packet);
    Icmp4.WriteAfterParse(q.message);
    ThreeLayers(Ethernet.EthernetBytes(q.ethernet), q.packet);
  }

  lemma ThreeLayers(front: seq<byte>, packet: seq<byte>)
    requires |packet| >= 20
    ensures front + packet == front + packet[..20] + packet[20..]
  {
  }

  lemma ReplyDiffers(me: Addresses, ethernet: EthernetHeader, ip: Ip4Header, icmp: Icmp4Header, payload: seq<byte>)
    requires ip.destinationAddress == me.ip4
    ensures var e := |Ethernet.EthernetBytes(ethernet)|;
            var frame := Ethernet.EthernetBytes(ethernet) + Ip4.BytesWithChecksum(ip, ip.checksum)
                         + Icmp4.MessageBytes(icmp, payload);
            var reply := Ethernet.EthernetBytes(ReplyEthernetHeader(ethernet, ethernet.source, me))
                         + Ip4.Ip4Bytes(ReplyIp4Header(ip, me))
                         + Icmp4.MessageBytes(Icmp4.Sealed(Icmp4.ECHO_REPLY, icmp.code, payload), payload);
            |reply| == |frame|
            && (forall i {:trigger reply[i]} :: 0 <= i < |frame| && !MayChange(i, e) ==> reply[i] == frame[i])
            && (ip.checksum == Ip4.HeaderChecksum(ip) ==>
                  reply[e + 10] == frame[e + 10] && reply[e + 11] == frame[e + 11])
  {
    var ethernet', ip' := ReplyEthernetHeader(ethernet, ethernet.source, me), ReplyIp4Header(ip, me);
    assert ip' == Ip4.Reversed(ip);
    Ip4.ChecksumOfReversed(ip);
    EthernetTail(ethernet, ethernet');
    LayersDiffer(Ethernet.EthernetBytes(ethernet), Ethernet.EthernetBytes(ethernet'), ip, ip', ip.checksum,
                 Ip4.HeaderChecksum(ip'), icmp, Icmp4.Sealed(Icmp4.ECHO_REPLY, icmp.code, payload), payload);
  }

  lemma EthernetTail(a: EthernetHeader, b: EthernetHeader)
    requires Ethernet.TagsBytes(a) == Ethernet.TagsBytes(b) && a.etherType == b.etherType
    ensures Ethernet.EthernetBytes(a)[12..] == Ethernet.EthernetBytes(b)[12..]
  {
    BehindAddresses(a.destination, a.source, Ethernet.TagsBytes(a), U16(a.etherType));
    BehindAddresses(b.destination, b.source, Ethernet.TagsBytes(b), U16(b.etherType));
  }

  lemma BehindAddresses(to: seq<byte>, source: seq<byte>, tags: seq<byte>, etherType: seq<byte>)
    requires |to| == |source| == 6
    ensures (to + source + tags + etherType)[12..] == tags + etherType
  {
  }

  lemma LayersDiffer(e1: seq<byte>, e2: seq<byte>, ip1: Ip4Header, ip2: Ip4Header, c1: u16, c2: u16,
                     icmp1: Icmp4Header, icmp2: Icmp4Header, body: seq<byte>)
    requires |e1| == |e2| >= 12 && e1[12..] == e2[12..]
    requires Ip4.LeadingBytes(ip1) == Ip4.LeadingBytes(ip2)
    requires icmp1.code == icmp2.code
    ensures var f1 := e1 + Ip4.BytesWithChecksum(ip1, c1) + Icmp4.MessageBytes(icmp1, body);
            var f2 := e2 + Ip4.BytesWithChecksum(ip2, c2) + Icmp4.MessageBytes(icmp2, body);
            (forall i {:trigger f2[i]} :: 0 <= i < |f1| && !MayChange(i, |e1|) ==> f2[i] == f1[i])
            && (c1 == c2 ==> f2[|e1| + 10] == f1[|e1| + 10] && f2[|e1| + 11] == f1[|e1| + 11])
  {
    var f1 := e1 + Ip4.BytesWithChecksum(ip1, c1) + Icmp4.MessageBytes(icmp1, body);
    var f2 := e2 + Ip4.BytesWithChecksum(ip2, c2) + Icmp4.MessageBytes(icmp2, body);
    forall i {:trigger f2[i]} | 0 <= i < |f1| && !MayChange(i, |e1|)
      ensures f2[i] == f1[i]
    {
      if i < |e1| {
        assert e1[12..][i - 12] == e2[12..][i - 12];
      }
    }
  }

  // ---------------------------------------------------------------------------------------------
  // ARP replies

  /**
   The answer to an ARP request has the request's length, and parses to a reply from the device to
   the requester, in a frame to the requester with the request's tags; what follows it is zero.
   */
  lemma ArpReplyOnTheWire(me: Addresses, frame: seq<byte>)
    requires IsArpRequest(frame, me.ip4)
    ensures Respond(me, frame).Sent?
    ensures var reply := Respond(me, frame).frame;
            var p := ArpPart(frame);
            var h := Ethernet.Parse(frame).value.header;
            |reply| == |frame| && IsArp(reply)
            && ArpPart(reply)
               == Arp.ArpIp4Packet(Arp.REPLY, me.ethernet, me.ip4, p.senderHardwareAddress, p.senderProtocolAddress)
            && Ethernet.Parse(reply).value.header == h.(destination := p.senderHardwareAddress, source := me.ethernet)
            && |Ethernet.Parse(reply).value.remaining| >= 28
            && Ethernet.Parse(reply).value.remaining[28..] == Zeros(|Ethernet.Parse(reply).value.remaining| - 28)
  {
    var h, data := Ethernet.Parse(frame).value.header, Ethernet.Parse(frame).value.remaining;
    var p := ArpPart(frame);
    var e, a := ReplyEthernetHeader(h, p.senderHardwareAddress, me), ReplyArpPacket(p, me);
    Ethernet.WriteAfterParse(frame);
    Arp.WriteAfterParse(data);
    assert Respond(me, frame).frame == Ethernet.EthernetBytes(e) + Arp.ArpBytes(a) + Zeros(|data| - 28);
    ArpFrameParsed(e, a, |data| - 28);
  }

  lemma ArpFrameParsed(e: EthernetHeader, a: ArpIp4Packet, n: nat)
    requires Ethernet.Canonical(e) && e.etherType == Ethernet.ARP && a.operation == Arp.REPLY
    ensures var reply := Ethernet.EthernetBytes(e) + Arp.ArpBytes(a) + Zeros(n);
            IsArp(reply) && ArpPart(reply) == a && Ethernet.Parse(reply).value.header == e
            && |Ethernet.Parse(reply).value.remaining| == 28 + n
            && Ethernet.Parse(reply).value.remaining[28..] == Zeros(n)
  {
    var packet := Arp.ArpBytes(a) + Zeros(n);
    assert Ethernet.EthernetBytes(e) + Arp.ArpBytes(a) + Zeros(n) == Ethernet.EthernetBytes(e) + packet;
    Ethernet.ParseAfterWrite(e, packet);
    Arp.ParseAfterWrite(a, Zeros(n));
    assert packet[28..] == Zeros(n);
  }

  // ---------------------------------------------------------------------------------------------
  // Answers are never answered

  lemma AnswerLength(me: Addresses, frame: seq<byte>)
    requires Respond(me, frame).Sent?
    ensures |Respond(me, frame).frame| == |frame|
  {
    AnsweredFrames(me, frame);
    if IsArpRequest(frame, me.ip4) {
      ArpReplyOnTheWire(me, frame);
    } else {
      EchoReplyOnTheWire(me, frame);
    }
  }

  /** No device answers an answer, or throws on it, whatever its addresses are. */
  lemma AnswersAreFinal(me: Addresses, frame: seq<byte>, other: Addresses)
    requires Respond(me, frame).Sent?
    ensures Respond(other, Respond(me, frame).frame) == Silent
  {
    AnsweredFrames(me, frame);
    if IsArpRequest(frame, me.ip4) {
      ArpReplyOnTheWire(me, frame);
    } else {
      EchoReplyOnTheWire(me, frame);
    }
  }

  // ---------------------------------------------------------------------------------------------
  // What the answer does not depend on

  /** Zeros appended to an answered frame are appended to its answer, and change nothing else. */
  lemma PaddingCommutes(me: Addresses, frame: seq<byte>, n: nat)
    ensures Respond(me, frame).Sent? ==> Respond(me, frame + Zeros(n)) == Sent(Respond(me, frame).frame + Zeros(n))
    ensures Respond(me, frame).Silent? ==> Respond(me, frame + Zeros(n)) == Silent
  {
    if !Respond(me, frame).Threw? {
      var h, data := Ethernet.Parse(frame).value.header, Ethernet.Parse(frame).value.remaining;
      EthernetPrefix(frame, n);
      if h.etherType == Ethernet.ARP {
        ArpPadding(me, h, data, n);
      } else if h.etherType == Ethernet.IP4 {
        Ip4Padding(me, h, data, n);
      }
    }
  }

  lemma EthernetPrefix(frame: seq<byte>, n: nat)
    requires Ethernet.Parse(frame).Ok?
    ensures Ethernet.Parse(frame + Zeros(n))
         == Ok(ParseResult(Ethernet.Parse(frame).value.header, Ethernet.Parse(frame).value.remaining + Zeros(n)))
  {
    var p := Ethernet.Parse(frame).value;
    Ethernet.WriteAfterParse(frame);
    Ethernet.ParseAfterWrite(p.header, p.remaining + Zeros(n));
    assert frame + Zeros(n) == Ethernet.EthernetBytes(p.header) + (p.remaining + Zeros(n));
  }

  lemma ArpPadding(me: Addresses, h: EthernetHeader, data: seq<byte>, n: nat)
    requires Arp.ParseArpIp4Packet(data).Ok?
    ensures RespondToArp(h, data + Zeros(n), me)
         == match RespondToArp(h, data, me) case Sent(f) => Sent(f + Zeros(n)) case other => other
  {
    Arp.WriteAfterParse(data);
    var p := Arp.ParseArpIp4Packet(data).value;
    Arp.ParseCharacterised(data);
    assert data + Zeros(n) == Arp.ArpBytes(p) + (data[28..] + Zeros(n));
    Arp.ParseAfterWrite(p, data[28..] + Zeros(n));
    ZerosAppend(|data| - 28, n);
    var front := Ethernet.EthernetBytes(ReplyEthernetHeader(h, p.senderHardwareAddress, me))
                 + Arp.ArpBytes(ReplyArpPacket(p, me));
    assert front + Zeros(|data| - 28 + n) == front + Zeros(|data| - 28) + Zeros(n);
  }

  lemma Ip4Prefix(data: seq<byte>, n: nat)
    requires Ip4.Parse(data).Ok?
    ensures Ip4.Parse(data + Zeros(n))
            == Ok(ParseResult(Ip4.Parse(data).value.header, Ip4.Parse(data).value.remaining + Zeros(n)))
    ensures Ip4.HeaderLength(data + Zeros(n)) == Ip4.HeaderLength(data)
  {
    var data' := data + Zeros(n);
    assert data'[..20] == data[..20];
    assert Be16(data', 2) == Be16(data, 2) && Be16(data', 4) == Be16(data, 4);
    assert Be16(data', 6) == Be16(data, 6) && Be16(data', 10) == Be16(data, 10);
    assert data'[12..16] == data[12..16] && data'[16..20] == data[16..20];
    assert data'[Ip4.HeaderLength(data)..] == data[Ip4.HeaderLength(data)..] + Zeros(n);
  }

  lemma Ip4Padding(me: Addresses, h: EthernetHeader, data: seq<byte>, n: nat)
    requires !RespondToIp4(h, data, me).Threw?
    ensures RespondToIp4(h, data + Zeros(n), me)
         == match RespondToIp4(h, data, me) case Sent(f) => Sent(f + Zeros(n)) case other => other
  {
    var ip, message := Ip4.Parse(data).value.header, Ip4.Parse(data).value.remaining;
    Ip4Prefix(data, n);
    if ip.protocol == Ip4.ICMP {
      IcmpPadding(me, h, ip, message, Ip4.HeaderLength(data) - 20, n);
    }
  }

  lemma IcmpPadding(me: Addresses, h: EthernetHeader, ip: Ip4Header, message: seq<byte>, options: nat, n: nat)
    requires Icmp4.ParseIcmp4Header(message).Ok?
    ensures RespondToIcmp(h, ip, message + Zeros(n), options, me)
         == match RespondToIcmp(h, ip, message, options, me) case Sent(f) => Sent(f + Zeros(n)) case other => other
  {
    Icmp4.WriteAfterParse(message);
    var icmp, payload := Icmp4.ParseIcmp4Header(message).value.header, Icmp4.ParseIcmp4Header(message).value.remaining;
    assert message + Zeros(n) == Icmp4.MessageBytes(icmp, payload + Zeros(n));
    Icmp4.ParseAfterWrite(icmp, payload + Zeros(n));
    var body, body' := EchoBody(payload, options), EchoBody(payload + Zeros(n), options);
    assert body' == body + Zeros(n);
    var zeroed := Icmp4.Icmp4Header(Icmp4.ECHO_REPLY, icmp.code, 0);
    assert Icmp4.MessageBytes(zeroed, body') == Icmp4.MessageBytes(zeroed, body) + Zeros(n);
    PaddingTransparent(Icmp4.MessageBytes(zeroed, body), n);
    var sealed_ := Icmp4.Sealed(Icmp4.ECHO_REPLY, icmp.code, body);
    var front := Ethernet.EthernetBytes(ReplyEthernetHeader(h, h.source, me)) + Ip4.Ip4Bytes(ReplyIp4Header(ip, me));
    assert front + Icmp4.MessageBytes(sealed_, body') == front + Icmp4.MessageBytes(sealed_, body) + Zeros(n);
  }

  /** The answer does not depend on the destination address of the frame: a device answers for any. */
  lemma DestinationIgnored(me: Addresses, frame: seq<byte>, destination: Ethernet.EthernetAddress)
    requires |frame| >= 6
    ensures Respond(me, destination + frame[6..]) == Respond(me, frame)
  {
    if Ethernet.Parse(frame).Ok? {
      AcceptedRedirected(me, frame, destination);
    } else {
      StillRejected(frame, destination);
    }
  }

  lemma AcceptedRedirected(me: Addresses, frame: seq<byte>, destination: Ethernet.EthernetAddress)
    requires |frame| >= 6 && Ethernet.Parse(frame).Ok?
    ensures Respond(me, destination + frame[6..]) == Respond(me, frame)
  {
    var p := Ethernet.Parse(frame).value;
    Redirected(frame, destination);
    SameAnswer(me, p.header, p.header.(destination := destination), p.remaining);
  }

  lemma StillRejected(frame: seq<byte>, destination: Ethernet.EthernetAddress)
    requires |frame| >= 6 && Ethernet.Parse(frame).Err?
    ensures Ethernet.Parse(destination + frame[6..]) == Ethernet.Parse(frame)
  {
    assert forall i {:trigger (destination + frame[6..])[i]} :: 6 <= i < |frame| ==>
             (destination + frame[6..])[i] == frame[i];
  }

  lemma Redirected(frame: seq<byte>, destination: Ethernet.EthernetAddress)
    requires |frame| >= 6 && Ethernet.Parse(frame).Ok?
    ensures var p := Ethernet.Parse(frame).value;
            Ethernet.Parse(destination + frame[6..])
            == Ok(ParseResult(p.header.(destination := destination), p.remaining))
  {
    var p := Ethernet.Parse(frame).value;
    Ethernet.WriteAfterParse(frame);
    RedirectedBytes(p.header, destination, p.remaining);
    Ethernet.ParseAfterWrite(p.header.(destination := destination), p.remaining);
  }

  lemma RedirectedBytes(h: EthernetHeader, destination: Ethernet.EthernetAddress, rest: seq<byte>)
    ensures destination + (Ethernet.EthernetBytes(h) + rest)[6..]
         == Ethernet.EthernetBytes(h.(destination := destination)) + rest
  {
    BehindDestination(h.destination, destination, h.source, Ethernet.TagsBytes(h), U16(h.etherType), rest);
  }

  lemma BehindDestination(to: seq<byte>, other: seq<byte>, source: seq<byte>, tags: seq<byte>,
                          etherType: seq<byte>, rest: seq<byte>)
    requires |to| == 6
    ensures other + (to + source + tags + etherType + rest)[6..] == other + source + tags + etherType + rest
  {
  }

  lemma SameAnswer(me: Addresses, h: EthernetHeader, h': EthernetHeader, data: seq<byte>)
    requires h' == h.(destination := h'.destination)
    ensures RespondToArp(h, data, me) == RespondToArp(h', data, me)
    ensures RespondToIp4(h, data, me) == RespondToIp4(h', data, me)
  {
  }
}
