/** ARP packets for IPv4 over Ethernet (`ArpIp4Packet.hpp`). */
module Arp {
  import opened Bytes
  import opened BigEndian
  import opened Ethernet
  import opened Ip4

  const REQUEST: u16 := 1
  const REPLY: u16 := 2

  datatype ArpIp4Packet = ArpIp4Packet(
    operation: u16,
    senderHardwareAddress: EthernetAddress,
    senderProtocolAddress: Ip4Address,
    targetHardwareAddress: EthernetAddress,
    targetProtocolAddress: Ip4Address)

  /** Hardware type Ethernet, protocol type IPv4 and the lengths of their addresses. */
  const PREAMBLE: seq<byte> := [0, 1] + [0x08, 0x00] + [6] + [4]

  function ArpBytes(p: ArpIp4Packet): (bs: seq<byte>)
    ensures |bs| == 28
  {
    PREAMBLE + U16(p.operation)
    + (p.senderHardwareAddress + p.senderProtocolAddress)
    + (p.targetHardwareAddress + p.targetProtocolAddress)
  }

  // ---------------------------------------------------------------------------------------------
  // The code

  function ReadIp4Address(buffer: seq<byte>): (r: Result<Ip4Address>)
    ensures r == if |buffer| < 4 then Err(InvalidBufferSize) else Ok(buffer[..4])
  {
    var data :- ReadArray(buffer, 4);
    Ok(data)
  }

  function ParseArpIp4Packet(data: seq<byte>): (r: Result<ArpIp4Packet>) {
    var htype :- ReadBe(2, Advance(data, 0));
    if htype != 1 then Err(InvalidArpPacketError) else
    var ptype :- ReadBe(2, Advance(data, 2));
    if ptype != 0x0800 then Err(InvalidArpPacketError) else
    var hlen :- ReadBe(1, Advance(data, 4));
    if hlen != 6 then Err(InvalidArpPacketError) else
    var plen :- ReadBe(1, Advance(data, 5));
    if plen != 4 then Err(InvalidArpPacketError) else
    var operation :- ReadBe(2, Advance(data, 6));
    if operation != 1 && operation != 2 then Err(InvalidArpPacketError) else
    var sha :- ReadEthernetAddress(Advance(data, 8));
    var spa :- ReadIp4Address(Advance(data, 14));
    var tha :- ReadEthernetAddress(Advance(data, 18));
    var tpa :- ReadIp4Address(Advance(data, 24));
    Ok(ArpIp4Packet(operation, sha, spa, tha, tpa))
  }

  method WriteArpIp4Packet(target: Slice, p: ArpIp4Packet) returns (r: Result<nat>)
    requires target.Valid()
    modifies target.mem
    ensures r == if target.len < 28 then Err(InvalidBufferSize) else Ok(28)
    ensures r.Ok? ==> target.mem[..] == Overwrite(old(target.mem[..]), target.start, ArpBytes(p))
  {
    var dst := target;
    var n :- WriteKind(dst, p.operation);
    dst := dst.Advance(n);
    n :- WriteAddresses(dst, p);
    dst := dst.Advance(n);
    OverwriteAdjacent(old(target.mem[..]), target.start, KindBytes(p.operation), AddressBytes(p));
    BytesInHalves(p);
    return Ok(target.len - dst.len);
  }

  function KindBytes(operation: u16): (bs: seq<byte>)
    ensures |bs| == 8
  {
    PREAMBLE + U16(operation)
  }

  function AddressBytes(p: ArpIp4Packet): (bs: seq<byte>)
    ensures |bs| == 20
  {
    p.senderHardwareAddress + p.senderProtocolAddress + (p.targetHardwareAddress + p.targetProtocolAddress)
  }

  lemma BytesInHalves(p: ArpIp4Packet)
    ensures ArpBytes(p) == KindBytes(p.operation) + AddressBytes(p)
  {
  }

  /** The fields that every packet has alike, and the operation. */
  method WriteKind(target: Slice, operation: u16) returns (r: Result<nat>)
    requires target.Valid()
    modifies target.mem
    ensures r == if target.len < 8 then Err(InvalidBufferSize) else Ok(8)
    ensures r.Ok? ==> target.mem[..] == Overwrite(old(target.mem[..]), target.start, KindBytes(operation))
  {
    var dst := target;
    var n :- WritePreamble(dst);
    dst := dst.Advance(n);
    n :- WriteUintBe(dst, 2, operation);
    dst := dst.Advance(n);
    U16Encode(operation);
    OverwriteAdjacent(old(target.mem[..]), target.start, PREAMBLE, U16(operation));
    return Ok(target.len - dst.len);
  }

  /** The four addresses. */
  method WriteAddresses(target: Slice, p: ArpIp4Packet) returns (r: Result<nat>)
    requires target.Valid()
    modifies target.mem
    ensures r == if target.len < 20 then Err(InvalidBufferSize) else Ok(20)
    ensures r.Ok? ==> target.mem[..] == Overwrite(old(target.mem[..]), target.start, AddressBytes(p))
  {
    var dst := target;
    var n :- WriteArrays(dst, p.senderHardwareAddress, p.senderProtocolAddress);
    dst := dst.Advance(n);
    n :- WriteArrays(dst, p.targetHardwareAddress, p.targetProtocolAddress);
    dst := dst.Advance(n);
    OverwriteAdjacent(old(target.mem[..]), target.start, p.senderHardwareAddress + p.senderProtocolAddress,
                      p.targetHardwareAddress + p.targetProtocolAddress);
    return Ok(target.len - dst.len);
  }

  /** Two integers, one after the other. */
  method WriteTwo(target: Slice, width1: nat, value1: nat, width2: nat, value2: nat) returns (r: Result<nat>)
    requires target.Valid()
    modifies target.mem
    ensures r == if target.len < width1 + width2 then Err(InvalidBufferSize) else Ok(width1 + width2)
    ensures r.Ok? ==>
              target.mem[..] == Overwrite(old(target.mem[..]), target.start,
                                          EncodeBe(width1, value1) + EncodeBe(width2, value2))
  {
    var dst := target;
    var n :- WriteUintBe(dst, width1, value1);
    dst := dst.Advance(n);
    n :- WriteUintBe(dst, width2, value2);
    dst := dst.Advance(n);
    OverwriteAdjacent(old(target.mem[..]), target.start, EncodeBe(width1, value1), EncodeBe(width2, value2));
    return Ok(target.len - dst.len);
  }

  method WritePreamble(target: Slice) returns (r: Result<nat>)
    requires target.Valid()
    modifies target.mem
    ensures r == if target.len < 6 then Err(InvalidBufferSize) else Ok(6)
    ensures r.Ok? ==> target.mem[..] == Overwrite(old(target.mem[..]), target.start, PREAMBLE)
  {
    var dst := target;
    var n :- WriteTwo(dst, 2, 1, 2, IP4);
    dst := dst.Advance(n);
    n :- WriteTwo(dst, 1, 6, 1, 4);
    dst := dst.Advance(n);
    PreambleEncoded();
    OverwriteAdjacent(old(target.mem[..]), target.start, EncodeBe(2, 1) + EncodeBe(2, IP4),
                      EncodeBe(1, 6) + EncodeBe(1, 4));
    return Ok(target.len - dst.len);
  }

  lemma PreambleEncoded()
    ensures EncodeBe(2, 1) + EncodeBe(2, IP4) + (EncodeBe(1, 6) + EncodeBe(1, 4)) == PREAMBLE
  {
    U16Encode(1);
    U16Encode(IP4);
    ByteEncode(6);
    ByteEncode(4);
  }

  // ---------------------------------------------------------------------------------------------
  // The codec is exact in both directions

  /** Which packets are accepted, and what they say. */
  lemma ParseCharacterised(data: seq<byte>)
    ensures ParseArpIp4Packet(data).Ok?
            <==> |data| >= 28 && data[..6] == PREAMBLE && (Be16(data, 6) == REQUEST || Be16(data, 6) == REPLY)
    ensures |data| >= 28 && ParseArpIp4Packet(data).Ok? ==>
              ParseArpIp4Packet(data).value == ArpIp4Packet(Be16(data, 6), data[8..14], data[14..18],
                                                            data[18..24], data[24..28])
  {
    if |data| >= 8 {
      Decode2(data[0..2]);
      Decode2(data[2..4]);
      Decode1(data[4..5]);
      Decode1(data[5..6]);
      Decode2(data[6..8]);
      AdvanceTake(data, 0, 2);
      AdvanceTake(data, 2, 2);
      AdvanceTake(data, 4, 1);
      AdvanceTake(data, 5, 1);
      AdvanceTake(data, 6, 2);
      assert data[..6] == [data[0], data[1], data[2], data[3], data[4], data[5]];
      assert PREAMBLE == [0, 1, 8, 0, 6, 4];
    }
    if |data| >= 28 {
      AdvanceTake(data, 8, 6);
      AdvanceTake(data, 14, 4);
      AdvanceTake(data, 18, 6);
      AdvanceTake(data, 24, 4);
    }
  }

  /** Every accepted packet is the wire format of what was parsed, followed by ignored bytes. */
  lemma WriteAfterParse(data: seq<byte>)
    requires ParseArpIp4Packet(data).Ok?
    ensures |data| >= 28 && data[..28] == ArpBytes(ParseArpIp4Packet(data).value)
  {
    ParseCharacterised(data);
    U16Be16(data, 6);
    assert data[..28] == data[..6] + data[6..8] + (data[8..14] + data[14..18]) + (data[18..24] + data[24..28]);
  }

  /** Parsing gives back a written packet exactly for the two operations. */
  lemma ParseAfterWrite(p: ArpIp4Packet, rest: seq<byte>)
    ensures ParseArpIp4Packet(ArpBytes(p) + rest) == Ok(p) <==> p.operation == REQUEST || p.operation == REPLY
    ensures ParseArpIp4Packet(ArpBytes(p) + rest).Ok? <==> p.operation == REQUEST || p.operation == REPLY
  {
    var data := ArpBytes(p) + rest;
    ParseCharacterised(data);
    assert data[..6] == PREAMBLE && Be16(data, 6) == p.operation;
    FourFields(KindBytes(p.operation), p.senderHardwareAddress, p.senderProtocolAddress,
               p.targetHardwareAddress, p.targetProtocolAddress, rest);
  }

  lemma FourFields(kind: seq<byte>, a: seq<byte>, b: seq<byte>, c: seq<byte>, d: seq<byte>, rest: seq<byte>)
    requires |kind| == 8 && |a| == |c| == 6 && |b| == |d| == 4
    ensures var data := kind + (a + b) + (c + d) + rest;
            data[8..14] == a && data[14..18] == b && data[18..24] == c && data[24..28] == d
  {
    var data := kind + (a + b) + (c + d) + rest;
    assert data == kind + a + (b + (c + d) + rest);
    assert data == (kind + a) + b + ((c + d) + rest);
    assert data == (kind + a + b) + c + (d + rest);
    assert data == (kind + a + b + c) + d + rest;
    Middle(kind, a, b + (c + d) + rest);
    Middle(kind + a, b, (c + d) + rest);
    Middle(kind + a + b, c, d + rest);
    Middle(kind + a + b + c, d, rest);
  }
}
