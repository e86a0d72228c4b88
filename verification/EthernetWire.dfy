/**
 What a device answers, in the numbers of the standards: every constant of the formats stands here a second
 time, as the bytes on the wire.
 */
module EthernetWire {
  import opened Bytes
  import opened BigEndian
  import opened Checksum
  import opened EchoDevice
  import Ethernet
  import Ip4
  import Arp
  import Icmp4

  type Mac = Ethernet.EthernetAddress
  type Ip = Ip4.Ip4Address

  function Word(hi: byte, lo: byte): u16 {
    hi as int * 256 + lo
  }

  // ---------------------------------------------------------------------------------------------
  // Ethernet

  /** No tag, one of the two, or first the one of 802.1ad and then the one of 802.1Q. */
  predicate AreTags(tags: seq<byte>) {
    || |tags| == 0
    || (|tags| == 4 && (HasAd(tags) || HasQ(tags)))
    || (|tags| == 8 && HasAd(tags) && HasQ(tags))
  }

  predicate HasAd(tags: seq<byte>) {
    |tags| >= 4 && tags[0] == 0x88 && tags[1] == 0xA8
  }

  /** The tag of 802.1Q is the last one. */
  predicate HasQ(tags: seq<byte>) {
    |tags| >= 4 && tags[|tags| - 4] == 0x81 && tags[|tags| - 3] == 0x00
  }

  /** What follows the tags is not read as another tag. */
  predicate EndsTags(tags: seq<byte>, hi: byte, lo: byte) {
    (HasQ(tags) || !(hi == 0x81 && lo == 0x00)) && (HasAd(tags) || HasQ(tags) || !(hi == 0x88 && lo == 0xA8))
  }

  function HeaderOf(to: Mac, sender: Mac, tags: seq<byte>, hi: byte, lo: byte)
    : EthernetHeader
  {
    Ethernet.EthernetHeader(
      to, sender,
      if HasAd(tags) then Some(Ethernet.EthernetVlanTag(0x88A8, Word(tags[2], tags[3]))) else None,
      if HasQ(tags) then Some(Ethernet.EthernetVlanTag(0x8100, Word(tags[|tags| - 2], tags[|tags| - 1]))) else None,
      Word(hi, lo))
  }

  lemma WordBytes(hi: byte, lo: byte)
    ensures U16(Word(hi, lo)) == [hi, lo]
  {
  }

  lemma HeaderBytes(to: Mac, sender: Mac, tags: seq<byte>, hi: byte, lo: byte)
    requires AreTags(tags)
    ensures Ethernet.EthernetBytes(HeaderOf(to, sender, tags, hi, lo)) == to + sender + tags + [hi, lo]
  {
    WordBytes(hi, lo);
    var h := HeaderOf(to, sender, tags, hi, lo);
    if HasAd(tags) {
      WordBytes(0x88, 0xA8);
      WordBytes(tags[2], tags[3]);
      assert Ethernet.TagBytes(h.vlanTag8021ad) == tags[..4];
    }
    if HasQ(tags) {
      WordBytes(0x81, 0x00);
      WordBytes(tags[|tags| - 2], tags[|tags| - 1]);
      assert Ethernet.TagBytes(h.vlanTag8021q) == tags[|tags| - 4..];
    }
    assert Ethernet.TagsBytes(h) == tags;
  }

  /** The addresses, the tags, the EtherType and the payload are found where they stand. */
  lemma EthernetParsed(to: Mac, sender: Mac, tags: seq<byte>, hi: byte, lo: byte,
                       data: seq<byte>)
    requires AreTags(tags) && EndsTags(tags, hi, lo)
    ensures Ethernet.Parse(to + sender + tags + [hi, lo] + data)
            == Ok(ParseResult(HeaderOf(to, sender, tags, hi, lo), data))
  {
    HeaderBytes(to, sender, tags, hi, lo);
    Ethernet.ParseAfterWrite(HeaderOf(to, sender, tags, hi, lo), data);
  }

  // ---------------------------------------------------------------------------------------------
  // ARP

  function ArpFrame(to: Mac, sender: Mac, tags: seq<byte>, operation: byte,
                    sha: Mac, spa: Ip, tha: Mac,
                    tpa: Ip, rest: seq<byte>): seq<byte>
  {
    to + sender + tags + [0x08, 0x06] + ([0, 1, 0x08, 0x00, 6, 4, 0, operation] + sha + spa + tha + tpa + rest)
  }

  lemma ArpPacketBytes(operation: byte, sha: Mac, spa: Ip,
                       tha: Mac, tpa: Ip)
    ensures Arp.ArpBytes(Arp.ArpIp4Packet(operation, sha, spa, tha, tpa))
            == [0, 1, 0x08, 0x00, 6, 4, 0, operation] + sha + spa + tha + tpa
  {
    WordBytes(0, operation);
  }

  lemma ArpParsed(operation: byte, sha: Mac, spa: Ip,
                  tha: Mac, tpa: Ip, rest: seq<byte>)
    requires operation == 1 || operation == 2
    ensures var data := [0, 1, 0x08, 0x00, 6, 4, 0, operation] + sha + spa + tha + tpa + rest;
            Arp.ParseArpIp4Packet(data) == Ok(Arp.ArpIp4Packet(operation, sha, spa, tha, tpa)) && |data| == 28 + |rest|
  {
    ArpPacketBytes(operation, sha, spa, tha, tpa);
    Arp.ParseAfterWrite(Arp.ArpIp4Packet(operation, sha, spa, tha, tpa), rest);
  }

  /** A request, operation 1, for the address of the device gets a reply, operation 2; a reply gets no answer. */
  lemma ArpExchange(me: Addresses, to: Mac, sender: Mac, tags: seq<byte>,
                    sha: Mac, spa: Ip, tha: Mac, rest: seq<byte>)
    requires AreTags(tags)
    ensures Respond(me, ArpFrame(to, sender, tags, 1, sha, spa, tha, me.ip4, rest))
            == Sent(ArpFrame(sha, me.ethernet, tags, 2, me.ethernet, me.ip4, sha, spa, Zeros(|rest|)))
    ensures Respond(me, ArpFrame(to, sender, tags, 2, sha, spa, tha, me.ip4, rest)) == Silent
  {
    ArpAnswer(me, to, sender, tags, 1, sha, spa, tha, rest);
    ArpAnswer(me, to, sender, tags, 2, sha, spa, tha, rest);
  }

  lemma ArpAnswer(me: Addresses, to: Mac, sender: Mac, tags: seq<byte>,
                  operation: byte, sha: Mac, spa: Ip, tha: Mac,
                  rest: seq<byte>)
    requires AreTags(tags) && (operation == 1 || operation == 2)
    ensures Respond(me, ArpFrame(to, sender, tags, operation, sha, spa, tha, me.ip4, rest))
            == if operation == 1
               then Sent(ArpFrame(sha, me.ethernet, tags, 2, me.ethernet, me.ip4, sha, spa, Zeros(|rest|)))
               else Silent
  {
    var h := HeaderOf(to, sender, tags, 0x08, 0x06);
    var data := [0, 1, 0x08, 0x00, 6, 4, 0, operation] + sha + spa + tha + me.ip4 + rest;
    EthernetParsed(to, sender, tags, 0x08, 0x06, data);
    ByEtherType(me, to + sender + tags + [0x08, 0x06] + data, h, data);
    ArpParsed(operation, sha, spa, tha, me.ip4, rest);
    ArpReplyBytes(me, to, sender, tags, operation, sha, spa, tha, |rest|);
  }

  lemma ByEtherType(me: Addresses, frame: seq<byte>, h: EthernetHeader, data: seq<byte>)
    requires Ethernet.Parse(frame) == Ok(ParseResult(h, data))
    ensures Respond(me, frame) == if h.etherType == 0x0806 then RespondToArp(h, data, me)
                                  else if h.etherType == 0x0800 then RespondToIp4(h, data, me)
                                  else Silent
  {
  }

  lemma ArpReplyBytes(me: Addresses, to: Mac, sender: Mac, tags: seq<byte>,
                      operation: byte, sha: Mac, spa: Ip,
                      tha: Mac, n: nat)
    requires AreTags(tags)
    ensures ArpReply(HeaderOf(to, sender, tags, 0x08, 0x06), Arp.ArpIp4Packet(operation, sha, spa, tha, me.ip4), n, me)
            == ArpFrame(sha, me.ethernet, tags, 2, me.ethernet, me.ip4, sha, spa, Zeros(n))
  {
    HeaderBytes(sha, me.ethernet, tags, 0x08, 0x06);
    ArpPacketBytes(2, me.ethernet, me.ip4, sha, spa);
  }

  // ---------------------------------------------------------------------------------------------
  // IPv4

  /** The first twelve bytes of an IPv4 header with so many bytes of options. */
  predicate IsHead(head: seq<byte>, options: seq<byte>) {
    |head| == 12 && |options| % 4 == 0 && |options| <= 40 && head[0] as int == 0x45 + |options| / 4
  }

  function Head(head: seq<byte>, source: Ip, destination: Ip): Ip4Header
    requires |head| == 12
  {
    Ip4.Ip4Header(Word(head[2], head[3]), Word(head[4], head[5]), head[6] / 0x40 % 2 == 1, head[6] / 0x20 % 2 == 1,
                  Word(head[6] % 0x20, head[7]), head[8], head[9], Word(head[10], head[11]), source, destination)
  }

  /** The total length does not exceed the packet, or is less than the header and not looked at. */
  predicate LengthFits(head: seq<byte>, options: seq<byte>, size: nat)
    requires |head| == 12
  {
    Word(head[2], head[3]) as int < 20 + |options| || Word(head[2], head[3]) as int <= size
  }

  /** Options of any length are skipped: behind them the payload begins. */
  lemma OptionsSkipped(head: seq<byte>, source: Ip, destination: Ip, options: seq<byte>,
                       payload: seq<byte>)
    requires IsHead(head, options)
    ensures var data := head + source + destination + options + payload;
            Ip4.Parse(data)
            == (if LengthFits(head, options, |data|) && head[7] % 2 == 0
                then Ok(ParseResult(Head(head, source, destination), payload))
                else Err(InvalidIp4PacketError))
            && Ip4.HeaderLength(data) == 20 + |options|
  {
    var data := head + source + destination + options + payload;
    Slices(head, source, destination, options, payload);
    SameBytes(data, head);
    FlagBits(Be16(data, 6), head[6], head[7]);
    FieldsOfHead(data, head, source, destination, Be16(data, 6));
    FirstNibbles(options);
    SkippedOptions(data, head, options, payload);
  }

  lemma Slices(head: seq<byte>, source: Ip, destination: Ip, options: seq<byte>, payload: seq<byte>)
    requires |head| == 12
    ensures var data := head + source + destination + options + payload;
            data[..12] == head && data[12..16] == source && data[16..20] == destination
            && data[20 + |options|..] == payload
  {
  }

  lemma FieldsOfHead(data: seq<byte>, head: seq<byte>, source: Ip, destination: Ip, flags: u16)
    requires |head| == 12 && |data| >= 20 && flags == Be16(data, 6)
    requires data[..12] == head && data[12..16] == source && data[16..20] == destination
    requires Ip4.HasBit(flags, Ip4.DONT_FRAGMENT) == Head(head, source, destination).dontFragment
    requires Ip4.HasBit(flags, Ip4.MORE_FRAGMENTS) == Head(head, source, destination).moreFragments
    requires flags % 0x2000 == Head(head, source, destination).fragmentOffset
    ensures Ip4.Fields(data) == Head(head, source, destination)
  {
    SameBytes(data, head);
  }

  lemma SameBytes(data: seq<byte>, head: seq<byte>)
    requires |head| == 12 <= |data| && data[..12] == head
    ensures data[0] == head[0] && data[2] == head[2] && data[3] == head[3] && data[4] == head[4] && data[5] == head[5]
    ensures data[6] == head[6] && data[7] == head[7] && data[8] == head[8] && data[9] == head[9]
    ensures data[10] == head[10] && data[11] == head[11]
  {
  }

  lemma FirstNibbles(options: seq<byte>)
    requires |options| % 4 == 0 && |options| <= 40
    ensures var first := 0x45 + |options| / 4;
            first / 16 == 4 && first % 16 * 4 == 20 + |options|
  {
  }

  lemma SkippedOptions(data: seq<byte>, head: seq<byte>, options: seq<byte>, payload: seq<byte>)
    requires |data| >= 20 + |options| && |head| == 12 && data[..12] == head
    requires head[0] / 16 == 4 && head[0] % 16 * 4 == 20 + |options| && data[20 + |options|..] == payload
    ensures Ip4.Parse(data) == (if LengthFits(head, options, |data|) && head[7] % 2 == 0
                                then Ok(ParseResult(Ip4.Fields(data), payload))
                                else Err(InvalidIp4PacketError))
            && Ip4.HeaderLength(data) == 20 + |options|
  {
    SameBytes(data, head);
  }

  lemma FlagBits(flags: u16, hi: byte, lo: byte)
    requires flags == Word(hi, lo)
    ensures Ip4.HasBit(flags, Ip4.DONT_FRAGMENT) <==> hi / 0x40 % 2 == 1
    ensures Ip4.HasBit(flags, Ip4.MORE_FRAGMENTS) <==> hi / 0x20 % 2 == 1
    ensures flags % 0x2000 == Word(hi % 0x20, lo)
  {
    assert flags / 0x4000 == hi / 0x40 && flags / 0x2000 == hi / 0x20;
    assert flags as int == 0x2000 * (hi / 0x20) + Word(hi % 0x20, lo);
  }

  /** What is written for such a header: no options, no type of service, no reserved flag, and a new checksum. */
  function WrittenHead(head: seq<byte>, source: Ip, destination: Ip, checksum: u16): seq<byte>
    requires |head| == 12
  {
    [0x45, 0x00] + head[2..6] + [head[6] % 0x80] + head[7..10] + [checksum / 256, checksum % 256] + source + destination
  }

  lemma HeadWritten(head: seq<byte>, h: Ip4Header, checksum: u16)
    requires |head| == 12
    requires h == Head(head, h.sourceAddress, h.destinationAddress)
    ensures Ip4.BytesWithChecksum(h, checksum) == WrittenHead(head, h.sourceAddress, h.destinationAddress, checksum)
  {
    WordBytes(head[2], head[3]);
    WordBytes(head[4], head[5]);
    FlagsWritten(h, head[6], head[7]);
    assert head[2..6] == [head[2], head[3]] + [head[4], head[5]];
    assert head[7..10] == [head[7]] + [head[8]] + [head[9]];
    ThirteenParts(head, U16(checksum), h.sourceAddress, h.destinationAddress);
  }

  lemma FlagsWritten(h: Ip4Header, hi: byte, lo: byte)
    requires h.dontFragment == (hi / 0x40 % 2 == 1) && h.moreFragments == (hi / 0x20 % 2 == 1)
    requires h.fragmentOffset == Word(hi % 0x20, lo)
    ensures U16(Ip4.FlagsAndFragmentOffset(h)) == [hi % 0x80, lo]
  {
    FlagBits(Word(hi, lo), hi, lo);
    Ip4.FlagsOfWord(h, Word(hi, lo));
    Ip4.LowBits(hi, lo);
  }

  lemma ThirteenParts(head: seq<byte>, checksum: seq<byte>, source: seq<byte>, destination: seq<byte>)
    requires |head| == 12
    ensures [0x45] + [0] + [head[2], head[3]] + [head[4], head[5]] + [head[6] % 0x80, head[7]] + [head[8]] + [head[9]]
            + checksum + source + destination
            == [0x45, 0x00] + head[2..6] + [head[6] % 0x80] + head[7..10] + checksum + source + destination
  {
    assert head[2..6] == [head[2], head[3]] + [head[4], head[5]];
    assert head[7..10] == [head[7]] + [head[8]] + [head[9]];
  }

  // ---------------------------------------------------------------------------------------------
  // Echo

  function EchoFrame(to: Mac, sender: Mac, tags: seq<byte>, ip: seq<byte>,
                     typ: byte, code: byte, checksum: seq<byte>, payload: seq<byte>): seq<byte>
  {
    to + sender + tags + [0x08, 0x00] + (ip + ([typ, code] + checksum + payload))
  }

  /** The answer to an echo request: type 0, the payload, and zeros for the options. */
  function EchoAnswer(me: Addresses, to: Mac, tags: seq<byte>, head: seq<byte>, target: Ip,
                      code: byte, payload: seq<byte>): seq<byte>
    requires |head| == 12
  {
    var checksum := ChecksumOf([0, code, 0, 0] + payload);
    EchoFrame(to, me.ethernet, tags,
              WrittenHead(head, me.ip4, target, ChecksumOf(WrittenHead(head, me.ip4, target, 0))),
              0, code, [checksum / 256, checksum % 256], payload)
  }

  /**
   A message of type 8 in a packet of protocol 1 for the address of the device is answered, whatever tags and
   options it has; one of another type, or in a packet of another protocol or for another address, is not.
   */
  lemma EchoExchange(me: Addresses, to: Mac, sender: Mac, tags: seq<byte>,
                     head: seq<byte>, source: Ip, destination: Ip, options: seq<byte>,
                     typ: byte, code: byte, checksum: seq<byte>, payload: seq<byte>)
    requires AreTags(tags) && IsHead(head, options) && |checksum| == 2
    requires LengthFits(head, options, 24 + |options| + |payload|) && head[7] % 2 == 0
    ensures Respond(me, EchoFrame(to, sender, tags, head + source + destination + options,
                                  typ, code, checksum, payload))
            == if head[9] == 1 && typ == 8 && destination == me.ip4
               then Sent(EchoAnswer(me, sender, tags, head, source, code, payload + Zeros(|options|)))
               else Silent
  {
    var message := [typ, code] + checksum + payload;
    var packet := head + source + destination + options + message;
    var h := HeaderOf(to, sender, tags, 0x08, 0x00);
    EthernetParsed(to, sender, tags, 0x08, 0x00, packet);
    ByEtherType(me, to + sender + tags + [0x08, 0x00] + packet, h, packet);
    OptionsSkipped(head, source, destination, options, message);
    MessageAnswered(me, to, sender, tags, head, source, destination, |options|, typ, code, checksum, payload);
  }

  lemma MessageAnswered(me: Addresses, to: Mac, sender: Mac, tags: seq<byte>,
                        head: seq<byte>, source: Ip, destination: Ip, n: nat,
                        typ: byte, code: byte, checksum: seq<byte>, payload: seq<byte>)
    requires AreTags(tags) && |head| == 12 && |checksum| == 2
    ensures RespondToIcmp(HeaderOf(to, sender, tags, 0x08, 0x00), Head(head, source, destination),
                          [typ, code] + checksum + payload, n, me)
            == if typ == 8 && destination == me.ip4
               then Sent(EchoAnswer(me, sender, tags, head, source, code, payload + Zeros(n)))
               else Silent
  {
    var icmp := Icmp4.Icmp4Header(typ, code, Word(checksum[0], checksum[1]));
    assert [typ, code] + checksum + payload == Icmp4.MessageBytes(icmp, payload) by {
      WordBytes(checksum[0], checksum[1]);
    }
    Icmp4.ParseAfterWrite(icmp, payload);
    if typ == 8 && destination == me.ip4 {
      ReplyBytes(me, to, sender, tags, head, source, icmp, payload, n);
    }
  }

  lemma ReplyBytes(me: Addresses, to: Mac, sender: Mac, tags: seq<byte>,
                   head: seq<byte>, source: Ip, icmp: Icmp4Header, payload: seq<byte>, n: nat)
    requires AreTags(tags) && |head| == 12
    ensures EchoReply(HeaderOf(to, sender, tags, 0x08, 0x00), Head(head, source, me.ip4), icmp, payload, n, me)
            == EchoAnswer(me, sender, tags, head, source, icmp.code, payload + Zeros(n))
  {
    HeaderBytes(sender, me.ethernet, tags, 0x08, 0x00);
    HeadSealed(head, ReplyIp4Header(Head(head, source, me.ip4), me));
    SealedMessage(icmp.code, payload + Zeros(n));
    EchoLayers(me, HeaderOf(to, sender, tags, 0x08, 0x00), Head(head, source, me.ip4), icmp, payload, n);
  }

  lemma EchoLayers(me: Addresses, h: EthernetHeader, ip: Ip4Header, icmp: Icmp4Header, payload: seq<byte>, n: nat)
    ensures EchoReply(h, ip, icmp, payload, n, me)
            == Ethernet.EthernetBytes(h.(destination := h.source, source := me.ethernet))
               + (Ip4.Ip4Bytes(ReplyIp4Header(ip, me))
                  + Icmp4.MessageBytes(Icmp4.Sealed(0, icmp.code, payload + Zeros(n)), payload + Zeros(n)))
  {
    Associative(Ethernet.EthernetBytes(ReplyEthernetHeader(h, h.source, me)), Ip4.Ip4Bytes(ReplyIp4Header(ip, me)),
                Icmp4.MessageBytes(Icmp4.Sealed(0, icmp.code, payload + Zeros(n)), payload + Zeros(n)));
  }

  lemma Associative(a: seq<byte>, b: seq<byte>, c: seq<byte>)
    ensures a + b + c == a + (b + c)
  {
  }

  /** The header of the answer, with the checksum computed over its bytes. */
  lemma HeadSealed(head: seq<byte>, ip: Ip4Header)
    requires |head| == 12 && ip == Head(head, ip.sourceAddress, ip.destinationAddress)
    ensures Ip4.Ip4Bytes(ip)
            == WrittenHead(head, ip.sourceAddress, ip.destinationAddress,
                           ChecksumOf(WrittenHead(head, ip.sourceAddress, ip.destinationAddress, 0)))
  {
    HeadWritten(head, ip, 0);
    HeadWritten(head, ip, Ip4.HeaderChecksum(ip));
  }

  lemma SealedMessage(code: byte, body: seq<byte>)
    ensures var c := ChecksumOf([0, code, 0, 0] + body);
            Icmp4.MessageBytes(Icmp4.Sealed(0, code, body), body) == [0, code] + [c / 256, c % 256] + body
  {
    assert [0, code, 0, 0] + body == Icmp4.MessageBytes(Icmp4.Icmp4Header(0, code, 0), body);
  }

  // ---------------------------------------------------------------------------------------------
  // Every frame

  /** Where the EtherType stands. */
  function TypeAt(frame: seq<byte>): nat {
    var at := if |frame| >= 14 && frame[12] == 0x88 && frame[13] == 0xA8 then 16 else 12;
    if |frame| >= at + 2 && frame[at] == 0x81 && frame[at + 1] == 0x00 then at + 4 else at
  }

  /** A field of an ARP packet that is complete and not what it must be. */
  predicate WrongField(p: seq<byte>) {
    || (|p| >= 2 && !(p[0] == 0 && p[1] == 1))
    || (|p| >= 4 && !(p[2] == 0x08 && p[3] == 0x00))
    || (|p| >= 5 && p[4] != 6)
    || (|p| >= 6 && p[5] != 4)
    || (|p| >= 8 && !(p[6] == 0 && (p[7] == 1 || p[7] == 2)))
  }

  /** An IPv4 header that is not accepted. */
  predicate Malformed(p: seq<byte>)
    requires |p| > 0
  {
    var headerLength := p[0] % 16 * 4;
    || p[0] / 16 != 4 || headerLength < 20 || |p| < headerLength
    || (headerLength <= Word(p[2], p[3]) && |p| < Word(p[2], p[3]))
    || p[7] % 2 == 1
  }

  /** What is thrown for the payload of a frame. */
  function ThrownFor(etherType: u16, p: seq<byte>): Option<Error> {
    if etherType == 0x0806 then
      if WrongField(p) then Some(InvalidArpPacketError) else if |p| < 28 then Some(InvalidBufferSize) else None
    else if etherType == 0x0800 then
      if |p| == 0 then Some(InvalidBufferSize)
      else if Malformed(p) then Some(InvalidIp4PacketError)
      else if p[9] == 1 && |p| < p[0] % 16 * 4 + 4 then Some(InvalidBufferSize) else None
    else None
  }

  /** The frames that a device throws on, and the exception. */
  function Thrown(frame: seq<byte>): Option<Error> {
    var at := TypeAt(frame);
    if |frame| < at + 2 then Some(InvalidBufferSize)
    else ThrownFor(Word(frame[at], frame[at + 1]), frame[at + 2..])
  }

  /** A payload that asks for an address: an ARP request, or an echo request. */
  predicate Asks(etherType: u16, p: seq<byte>, ip: Ip)
    requires ThrownFor(etherType, p).None?
  {
    || (etherType == 0x0806 && p[7] == 1 && p[24..28] == ip)
    || (etherType == 0x0800 && p[9] == 1 && p[16..20] == ip && p[p[0] % 16 * 4] == 8)
  }

  /**
   Every frame by its bytes: a device throws exactly on these, answers exactly the requests for its address
   among the others, and is silent on what remains: other EtherTypes, protocols, ICMP types and addresses.
   */
  lemma OutcomeByBytes(me: Addresses, frame: seq<byte>)
    ensures match Thrown(frame)
            case Some(e) => Respond(me, frame) == Threw(e)
            case None =>
              var at := TypeAt(frame);
              !Respond(me, frame).Threw?
              && (Respond(me, frame).Sent? <==> Asks(Word(frame[at], frame[at + 1]), frame[at + 2..], me.ip4))
  {
    EthernetByBytes(frame);
    if Ethernet.Parse(frame).Ok? {
      var p := Ethernet.Parse(frame).value;
      ByEtherType(me, frame, p.header, p.remaining);
      ArpByBytes(me, p.header, p.remaining);
      Ip4ByBytes(me, p.header, p.remaining);
    }
  }

  lemma EthernetByBytes(frame: seq<byte>)
    ensures var at := TypeAt(frame);
            if |frame| < at + 2 then Ethernet.Parse(frame) == Err(InvalidBufferSize)
            else Ethernet.Parse(frame).Ok?
                 && Ethernet.Parse(frame).value.header.etherType == Word(frame[at], frame[at + 1])
                 && Ethernet.Parse(frame).value.remaining == frame[at + 2..]
  {
  }

  lemma ArpByBytes(me: Addresses, h: EthernetHeader, p: seq<byte>)
    ensures match ThrownFor(0x0806, p)
            case Some(e) => RespondToArp(h, p, me) == Threw(e)
            case None => !RespondToArp(h, p, me).Threw?
                         && (RespondToArp(h, p, me).Sent? <==> Asks(0x0806, p, me.ip4))
  {
    Arp.ParseCharacterised(p);
    ArpErrors(p);
  }

  lemma ArpErrors(p: seq<byte>)
    ensures WrongField(p) ==> Arp.ParseArpIp4Packet(p) == Err(InvalidArpPacketError)
    ensures !WrongField(p) && |p| < 28 ==> Arp.ParseArpIp4Packet(p) == Err(InvalidBufferSize)
  {
    WordField(p, 0);
    WordField(p, 2);
    ByteField(p, 4);
    ByteField(p, 5);
    WordField(p, 6);
  }

  lemma WordField(p: seq<byte>, at: nat)
    ensures ReadBe(2, Advance(p, at)) == if |p| < at + 2 then Err(InvalidBufferSize) else Ok(Word(p[at], p[at + 1]))
  {
    if |p| >= at + 2 {
      AdvanceTake(p, at, 2);
      Decode2(p[at..at + 2]);
    }
  }

  lemma ByteField(p: seq<byte>, at: nat)
    ensures ReadBe(1, Advance(p, at)) == if |p| < at + 1 then Err(InvalidBufferSize) else Ok(p[at] as nat)
  {
    if |p| >= at + 1 {
      AdvanceTake(p, at, 1);
      Decode1(p[at..at + 1]);
    }
  }

  lemma Ip4ByBytes(me: Addresses, h: EthernetHeader, p: seq<byte>)
    ensures match ThrownFor(0x0800, p)
            case Some(e) => RespondToIp4(h, p, me) == Threw(e)
            case None => !RespondToIp4(h, p, me).Threw?
                         && (RespondToIp4(h, p, me).Sent? <==> Asks(0x0800, p, me.ip4))
  {
    if |p| > 0 && !Malformed(p) {
      Icmp4.WriteAfterParse(p[p[0] % 16 * 4..]);
    }
  }
}
