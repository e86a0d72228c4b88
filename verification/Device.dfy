/** The device that answers ARP requests and ICMP echo requests for its IP address (`Device.cpp`). */
module EchoDevice {
  import opened Bytes
  import opened BigEndian
  import opened Checksum
  import Ethernet
  import Ip4
  import Arp
  import Icmp4

  type EthernetHeader = Ethernet.EthernetHeader
  type Ip4Header = Ip4.Ip4Header
  type Icmp4Header = Icmp4.Icmp4Header
  type ArpIp4Packet = Arp.ArpIp4Packet

  /** The frame handed to the send callback, no frame, or the exception that leaves `Process`. */
  datatype Outcome = Sent(frame: seq<byte>) | Silent | Threw(error: Error)

  datatype Addresses = Addresses(ethernet: Ethernet.EthernetAddress, ip4: Ip4.Ip4Address)

  // ---------------------------------------------------------------------------------------------
  // What is put on the wire

  /** The request's Ethernet header, tags included, turned around. */
  function ReplyEthernetHeader(h: EthernetHeader, destination: Ethernet.EthernetAddress,
                               me: Addresses): EthernetHeader {
    h.(destination := destination, source := me.ethernet)
  }

  function ReplyArpPacket(request: ArpIp4Packet, me: Addresses): ArpIp4Packet {
    Arp.ArpIp4Packet(Arp.REPLY, me.ethernet, me.ip4, request.senderHardwareAddress, request.senderProtocolAddress)
  }

  function ReplyIp4Header(h: Ip4Header, me: Addresses): Ip4Header {
    h.(destinationAddress := h.sourceAddress, sourceAddress := me.ip4)
  }

  /** The ARP reply, filled up with zeros to the length of the request. */
  function ArpReply(h: EthernetHeader, request: ArpIp4Packet, rest: nat, me: Addresses): seq<byte> {
    Ethernet.EthernetBytes(ReplyEthernetHeader(h, request.senderHardwareAddress, me))
    + Arp.ArpBytes(ReplyArpPacket(request, me))
    + Zeros(rest)
  }

  /** What follows the ICMP header in a reply: the request's payload, and zeros in place of the dropped IP options. */
  function EchoBody(payload: seq<byte>, options: nat): seq<byte> {
    payload + Zeros(options)
  }

  function EchoReply(h: EthernetHeader, ip: Ip4Header, icmp: Icmp4Header, payload: seq<byte>, options: nat,
                     me: Addresses): seq<byte> {
    var body := EchoBody(payload, options);
    Ethernet.EthernetBytes(ReplyEthernetHeader(h, h.source, me))
    + Ip4.Ip4Bytes(ReplyIp4Header(ip, me))
    + Icmp4.MessageBytes(Icmp4.Sealed(Icmp4.ECHO_REPLY, icmp.code, body), body)
  }

  function RespondToArp(h: EthernetHeader, data: seq<byte>, me: Addresses): Outcome {
    match Arp.ParseArpIp4Packet(data)
    case Err(e) => Threw(e)
    case Ok(p) =>
      if p.operation == Arp.REQUEST && p.targetProtocolAddress == me.ip4 then
        Arp.WriteAfterParse(data);
        Sent(ArpReply(h, p, |data| - 28, me))
      else Silent
  }

  function RespondToIcmp(h: EthernetHeader, ip: Ip4Header, data: seq<byte>, options: nat, me: Addresses): Outcome {
    match Icmp4.ParseIcmp4Header(data)
    case Err(e) => Threw(e)
    case Ok(ParseResult(icmp, payload)) =>
      if icmp.typ == Icmp4.ECHO_REQUEST && ip.destinationAddress == me.ip4
      then Sent(EchoReply(h, ip, icmp, payload, options, me))
      else Silent
  }

  function RespondToIp4(h: EthernetHeader, data: seq<byte>, me: Addresses): Outcome {
    match Ip4.Parse(data)
    case Err(e) => Threw(e)
    case Ok(ParseResult(ip, payload)) =>
      if ip.protocol == Ip4.ICMP then RespondToIcmp(h, ip, payload, Ip4.HeaderLength(data) - 20, me) else Silent
  }

  /** The answer of a device to a frame. */
  function Respond(me: Addresses, frame: seq<byte>): Outcome {
    match Ethernet.Parse(frame)
    case Err(e) => Threw(e)
    case Ok(ParseResult(h, data)) =>
      if h.etherType == Ethernet.ARP then RespondToArp(h, data, me)
      else if h.etherType == Ethernet.IP4 then RespondToIp4(h, data, me)
      else Silent
  }

  // ---------------------------------------------------------------------------------------------
  // The code

  /** What a call returns and what it hands to the send callback agree with an outcome. */
  predicate Matches(outcome: Outcome, r: Result<()>, before: seq<seq<byte>>, after: seq<seq<byte>>) {
    match outcome
    case Sent(frame) => r == Ok(()) && after == before + [frame]
    case Silent => r == Ok(()) && after == before
    case Threw(e) => r == Err(e) && after == before
  }

  class Device {
    const me: Addresses
    var sent: seq<seq<byte>>  // what was handed to the send callback, oldest first

    constructor (me: Addresses)
      ensures this.me == me && sent == []
    {
      this.me, sent := me, [];
    }

    method AllocateBuffer(size: nat) returns (a: array<byte>)
      ensures fresh(a) && a.Length == size && a[..] == Zeros(size)
    {
      a := new byte[size](_ => 0);
    }

    /** No writer throws and no copy is cut short once the headers of a request have been parsed. */
    method Process(incomingData: seq<byte>) returns (r: Result<()>)
      modifies this
      ensures Matches(Respond(me, incomingData), r, old(sent), sent)
    {
      var ethernet :- Ethernet.ParseEthernetHeader(incomingData);
      Ethernet.WriteAfterParse(incomingData);
      var ethernetHeader, ethernetPayload := ethernet.header, ethernet.remaining;
      if ethernetHeader.etherType == Ethernet.ARP {
        r := ProcessArp(incomingData, ethernetHeader, ethernetPayload);
      } else if ethernetHeader.etherType == Ethernet.IP4 {
        r := ProcessIp4(incomingData, ethernetHeader, ethernetPayload);
      } else {
        r := Ok(());
      }
    }

    /** The `Arp` case of `Process`. */
    method ProcessArp(incomingData: seq<byte>, h: EthernetHeader, data: seq<byte>) returns (r: Result<()>)
      requires |incomingData| == |Ethernet.EthernetBytes(h)| + |data|
      modifies this
      ensures Matches(RespondToArp(h, data, me), r, old(sent), sent)
    {
      var arpPacket :- Arp.ParseArpIp4Packet(data);
      Arp.WriteAfterParse(data);
      if arpPacket.operation == Arp.REQUEST {
        if arpPacket.targetProtocolAddress == me.ip4 {
          AnswerArp(incomingData, h, arpPacket, |data| - 28);
        }
      }
      return Ok(());
    }

    /** The `Ip4` case of `Process`. */
    method ProcessIp4(incomingData: seq<byte>, h: EthernetHeader, data: seq<byte>) returns (r: Result<()>)
      requires |incomingData| == |Ethernet.EthernetBytes(h)| + |data|
      modifies this
      ensures Matches(RespondToIp4(h, data, me), r, old(sent), sent)
    {
      var ip4 :- Ip4.ParseIp4Header(data);
      if ip4.header.protocol == Ip4.ICMP {
        var icmp4 :- Icmp4.ParseIcmp4Header(ip4.remaining);
        Icmp4.WriteAfterParse(ip4.remaining);
        if icmp4.header.typ == Icmp4.ECHO_REQUEST {
          if ip4.header.destinationAddress == me.ip4 {
            AnswerEcho(incomingData, h, ip4.header, icmp4.header, icmp4.remaining, Ip4.HeaderLength(data) - 20);
          }
        }
      }
      return Ok(());
    }

    method AnswerArp(incomingData: seq<byte>, h: EthernetHeader, request: ArpIp4Packet, ghost rest: nat)
      requires |incomingData| == |Ethernet.EthernetBytes(h)| + 28 + rest
      modifies this
      ensures sent == old(sent) + [ArpReply(h, request, rest, me)]
    {
      var replyEthernetHeader := h.(destination := request.senderHardwareAddress, source := me.ethernet);
      var replyArpPacket := Arp.ArpIp4Packet(Arp.REPLY, me.ethernet, me.ip4, request.senderHardwareAddress,
                                             request.senderProtocolAddress);
      var reply := AllocateBuffer(|incomingData|);
      var dst := Slice(reply, 0, reply.Length);

      var n := Ethernet.WriteEthernetHeader(dst, replyEthernetHeader);
      dst := dst.Advance(n.value);
      ghost var e, a := Ethernet.EthernetBytes(replyEthernetHeader), Arp.ArpBytes(replyArpPacket);
      assert dst == Slice(reply, |e|, reply.Length - |e|);
      n := Arp.WriteArpIp4Packet(dst, replyArpPacket);
      dst := dst.Advance(n.value);
      OverwriteAdjacent(Zeros(|incomingData|), 0, e, a);
      assert reply[..] == ArpReply(h, request, rest, me);
      sent := sent + [reply[..]];
    }

    method AnswerEcho(incomingData: seq<byte>, h: EthernetHeader, ip: Ip4Header, icmp: Icmp4Header,
                      icmp4Payload: seq<byte>, ghost options: nat)
      requires |incomingData| == |Ethernet.EthernetBytes(h)| + 24 + |icmp4Payload| + options
      modifies this
      ensures sent == old(sent) + [EchoReply(h, ip, icmp, icmp4Payload, options, me)]
    {
      var replyEthernetHeader := h.(destination := h.source, source := me.ethernet);
      var replyIp4Header := ip.(destinationAddress := ip.sourceAddress, sourceAddress := me.ip4);
      var replyIcmp4Header := icmp.(typ := Icmp4.ECHO_REPLY);
      var reply := AllocateBuffer(|incomingData|);
      var dst := Slice(reply, 0, reply.Length);
      ghost var e, i := Ethernet.EthernetBytes(replyEthernetHeader), Ip4.Ip4Bytes(replyIp4Header);
      ghost var zeroed := Icmp4.Icmp4Header(Icmp4.ECHO_REPLY, icmp.code, 0);
      ghost var m0 := reply[..];

      var front := WriteFront(dst, replyEthernetHeader, replyIp4Header);
      dst := dst.Advance(front);
      assert dst == Slice(reply, |e| + 20, reply.Length - |e| - 20);
      ghost var m1 := reply[..];
      var icmp4Dst := dst;
      var n := Icmp4.WriteIcmp4Header(dst, replyIcmp4Header);
      dst := dst.Advance(n.value);
      assert dst == Slice(reply, |e| + 24, reply.Length - |e| - 24);
      ghost var m2 := reply[..];
      var copied := BufferCopy(dst, icmp4Payload);
      ThreeWrites(m0, m1, m2, 0, e + i, Icmp4.MessageBytes(zeroed, []), icmp4Payload);
      Layout(e + i, zeroed, icmp4Payload, options);
      assert reply[..] == e + i + Icmp4.MessageBytes(zeroed, EchoBody(icmp4Payload, options));
      FillInChecksum(icmp4Dst, e + i, zeroed, EchoBody(icmp4Payload, options));
      sent := sent + [reply[..]];
    }
  }

  /** The Ethernet and the IPv4 header of a reply; neither writer throws where both have room. */
  method WriteFront(target: Slice, h: EthernetHeader, ip: Ip4Header) returns (n: nat)
    requires target.Valid() && |Ethernet.EthernetBytes(h)| + 20 <= target.len
    modifies target.mem
    ensures n == |Ethernet.EthernetBytes(h)| + 20
    ensures target.mem[..] == Overwrite(old(target.mem[..]), target.start, Ethernet.EthernetBytes(h) + Ip4.Ip4Bytes(ip))
  {
    var e := Ethernet.WriteEthernetHeader(target, h);
    var i := Ip4.WriteIp4Header(target.Advance(e.value), ip);
    OverwriteAdjacent(old(target.mem[..]), target.start, Ethernet.EthernetBytes(h), Ip4.Ip4Bytes(ip));
    return e.value + i.value;
  }

  /** The checksum of everything from the ICMP header to the end of the frame goes into that header. */
  method FillInChecksum(icmp4Dst: Slice, ghost front: seq<byte>, ghost zeroed: Icmp4Header, ghost body: seq<byte>)
    requires icmp4Dst.Valid() && icmp4Dst.start == |front| && icmp4Dst.start + icmp4Dst.len == icmp4Dst.mem.Length
    requires icmp4Dst.mem[..] == front + Icmp4.MessageBytes(zeroed, body)
    modifies icmp4Dst.mem
    ensures icmp4Dst.mem[..]
            == front + Icmp4.MessageBytes(zeroed.(checksum := ChecksumOf(Icmp4.MessageBytes(zeroed, body))), body)
  {
    var checksum := new InternetChecksum();
    assert icmp4Dst.Content() == icmp4Dst.mem[..][|front|..] == Icmp4.MessageBytes(zeroed, body);
    checksum.AddBuffer(icmp4Dst.Content());
    var c := checksum.GetChecksum();
    var n := WriteUintBe(icmp4Dst.Advance(2), 2, c);
    U16Encode(c);
    PatchChecksum(front, zeroed, body, c);
  }

  /** The zeros the buffer was allocated with end up behind the payload. */
  lemma Layout(front: seq<byte>, zeroed: Icmp4Header, payload: seq<byte>, options: nat)
    ensures var written := front + Icmp4.MessageBytes(zeroed, []) + payload;
            Overwrite(Zeros(|written| + options), 0, written)
            == front + Icmp4.MessageBytes(zeroed, EchoBody(payload, options))
  {
    var written := front + Icmp4.MessageBytes(zeroed, []) + payload;
    assert Overwrite(Zeros(|written| + options), 0, written) == written + Zeros(options);
    assert Icmp4.MessageBytes(zeroed, EchoBody(payload, options))
           == Icmp4.MessageBytes(zeroed, []) + payload + Zeros(options);
    assert written + Zeros(options) == front + (Icmp4.MessageBytes(zeroed, []) + payload + Zeros(options));
  }

  /** Putting the checksum two bytes behind the start of a message fills its field. */
  lemma PatchChecksum(front: seq<byte>, zeroed: Icmp4Header, body: seq<byte>, c: u16)
    ensures Overwrite(front + Icmp4.MessageBytes(zeroed, body), |front| + 2, U16(c))
         == front + Icmp4.MessageBytes(zeroed.(checksum := c), body)
  {
  }
}
