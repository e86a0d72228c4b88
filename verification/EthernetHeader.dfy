/** Ethernet headers with optional 802.1ad and 802.1Q tags (`EthernetHeader.hpp`, `EthernetAddress.hpp`). */
module Ethernet {
  import opened Bytes
  import opened BigEndian

  type EthernetAddress = data: seq<byte> | |data| == 6 witness [0, 0, 0, 0, 0, 0]

  const IP4: u16 := 0x0800
  const ARP: u16 := 0x0806
  const VLAN_802_1Q: u16 := 0x8100
  const VLAN_802_1AD: u16 := 0x88A8

  datatype EthernetVlanTag = EthernetVlanTag(tpid: u16, data: u16)

  datatype EthernetHeader = EthernetHeader(
    destination: EthernetAddress,
    source: EthernetAddress,
    vlanTag8021ad: Option<EthernetVlanTag>,
    vlanTag8021q: Option<EthernetVlanTag>,
    etherType: u16)

  function TagBytes(tag: Option<EthernetVlanTag>): (bs: seq<byte>)
    ensures |bs| == if tag.Some? then 4 else 0
  {
    if tag.None? then [] else U16(tag.value.tpid) + U16(tag.value.data)
  }

  function TagsBytes(h: EthernetHeader): (bs: seq<byte>)
    ensures |bs| == |TagBytes(h.vlanTag8021ad)| + |TagBytes(h.vlanTag8021q)|
  {
    TagBytes(h.vlanTag8021ad) + TagBytes(h.vlanTag8021q)
  }

  /** The wire format: the addresses, the tags that are present and the EtherType. */
  function EthernetBytes(h: EthernetHeader): (bs: seq<byte>)
    ensures |bs| == 14 + |TagsBytes(h)|
  {
    h.destination + h.source + TagsBytes(h) + U16(h.etherType)
  }

  /** Tags carry their own TPID, and the EtherType is not the TPID of a tag that could have stood in its place. */
  predicate Canonical(h: EthernetHeader) {
    && (h.vlanTag8021ad.Some? ==> h.vlanTag8021ad.value.tpid == VLAN_802_1AD)
    && (h.vlanTag8021q.Some? ==> h.vlanTag8021q.value.tpid == VLAN_802_1Q)
    && (h.vlanTag8021q.None? ==> h.etherType != VLAN_802_1Q)
    && (h.vlanTag8021q.None? && h.vlanTag8021ad.None? ==> h.etherType != VLAN_802_1AD)
  }

  /** What the bytes at fixed positions say: the tags first, then the EtherType behind them. */
  function Parse(data: seq<byte>): Result<ParseResult<EthernetHeader>> {
    var ad := |data| >= 14 && Be16(data, 12) == VLAN_802_1AD;
    var at := if ad then 16 else 12;
    var q := |data| >= at + 2 && Be16(data, at) == VLAN_802_1Q;
    var end := if q then at + 4 else at;
    if |data| < end + 2 then Err(InvalidBufferSize)
    else Ok(ParseResult(
              EthernetHeader(
                data[..6],
                data[6..12],
                if ad then Some(EthernetVlanTag(VLAN_802_1AD, Be16(data, 14))) else None,
                if q then Some(EthernetVlanTag(VLAN_802_1Q, Be16(data, at + 2))) else None,
                Be16(data, end)),
              data[end + 2..]))
  }

  // ---------------------------------------------------------------------------------------------
  // The code

  /** `asio::buffer_copy` of the front of `buffer` into an array of `size` bytes, which must fill it. */
  function ReadArray(buffer: seq<byte>, size: nat): (r: Result<seq<byte>>)
    ensures r.Ok? ==> |r.value| == size
  {
    if Min(size, |buffer|) != size then Err(InvalidBufferSize) else Ok(buffer[..size])
  }

  function ReadEthernetAddress(buffer: seq<byte>): (r: Result<EthernetAddress>)
    ensures r == if |buffer| < 6 then Err(InvalidBufferSize) else Ok(buffer[..6])
  {
    var data :- ReadArray(buffer, 6);
    Ok(data)
  }

  method ReadUint16(buffer: seq<byte>) returns (r: Result<u16>)
    ensures r == if |buffer| < 2 then Err(InvalidBufferSize) else Ok(Be16(buffer, 0))
  {
    var value :- ReadUintBe(2, buffer);
    Decode2(buffer[..2]);
    return Ok(value);
  }

  method ParseEthernetHeader(data: seq<byte>) returns (r: Result<ParseResult<EthernetHeader>>)
    ensures r == Parse(data)
  {
    var remaining := data;
    var destination :- ReadEthernetAddress(remaining);
    remaining := Advance(remaining, 6);
    var source :- ReadEthernetAddress(remaining);
    remaining := Advance(remaining, 6);
    assert remaining == data[12..] && source == data[6..12];

    var vlanTag8021ad :- ReadTag(remaining, VLAN_802_1AD);
    if vlanTag8021ad.Some? {
      remaining := Advance(remaining, 4);
    }
    ghost var at := if vlanTag8021ad.Some? then 16 else 12;
    assert remaining == data[at..];
    var vlanTag8021q :- ReadTag(remaining, VLAN_802_1Q);
    if vlanTag8021q.Some? {
      remaining := Advance(remaining, 4);
    }
    ghost var end := if vlanTag8021q.Some? then at + 4 else at;
    assert remaining == data[end..];
    var etherType :- ReadUint16(remaining);
    assert etherType == Be16(data, end);
    remaining := Advance(remaining, 2);
    assert remaining == data[end + 2..];
    return Ok(ParseResult(EthernetHeader(destination, source, vlanTag8021ad, vlanTag8021q, etherType), remaining));
  }

  /** A tag, if one with the expected TPID stands at the front. */
  method ReadTag(remaining: seq<byte>, expected: u16) returns (r: Result<Option<EthernetVlanTag>>)
    ensures r == if |remaining| < 2 then Err(InvalidBufferSize)
                 else if Be16(remaining, 0) != expected then Ok(None)
                 else if |remaining| < 4 then Err(InvalidBufferSize)
                 else Ok(Some(EthernetVlanTag(expected, Be16(remaining, 2))))
  {
    var tpid :- ReadUint16(remaining);
    if tpid != expected {
      return Ok(None);
    }
    var tag :- ReadUint16(Advance(remaining, 2));
    return Ok(Some(EthernetVlanTag(tpid, tag)));
  }

  /** Copies an address array; when it does not fit, what fits has been written before the exception. */
  method WriteArray(target: Slice, data: seq<byte>) returns (r: Result<nat>)
    requires target.Valid()
    modifies target.mem
    ensures r == if target.len < |data| then Err(InvalidBufferSize) else Ok(|data|)
    ensures r.Ok? ==> target.mem[..] == Overwrite(old(target.mem[..]), target.start, data)
    ensures r.Err? ==> target.mem[..] == Overwrite(old(target.mem[..]), target.start, data[..target.len])
  {
    var n := BufferCopy(target, data);
    if n != |data| {
      return Err(InvalidBufferSize);
    }
    return Ok(|data|);
  }

  /** Two address arrays, one after the other. */
  method WriteArrays(target: Slice, first: seq<byte>, second: seq<byte>) returns (r: Result<nat>)
    requires target.Valid()
    modifies target.mem
    ensures r == if target.len < |first| + |second| then Err(InvalidBufferSize) else Ok(|first| + |second|)
    ensures r.Ok? ==> target.mem[..] == Overwrite(old(target.mem[..]), target.start, first + second)
  {
    var dst := target;
    var n :- WriteArray(dst, first);
    dst := dst.Advance(n);
    n :- WriteArray(dst, second);
    dst := dst.Advance(n);
    OverwriteAdjacent(old(target.mem[..]), target.start, first, second);
    return Ok(target.len - dst.len);
  }

  method WriteEthernetVlanTag(target: Slice, tag: EthernetVlanTag) returns (r: Result<nat>)
    requires target.Valid()
    modifies target.mem
    ensures r == if target.len < 4 then Err(InvalidBufferSize) else Ok(4)
    ensures r.Ok? ==> target.mem[..] == Overwrite(old(target.mem[..]), target.start, TagBytes(Some(tag)))
  {
    var dst := target;
    var n :- WriteUintBe(dst, 2, tag.tpid);
    dst := dst.Advance(n);
    n :- WriteUintBe(dst, 2, tag.data);
    U16Encode(tag.tpid);
    U16Encode(tag.data);
    OverwriteAdjacent(old(target.mem[..]), target.start, U16(tag.tpid), U16(tag.data));
    return Ok(4);
  }

  /** The tags a header has, the 802.1ad tag first. */
  method WriteTags(target: Slice, h: EthernetHeader) returns (r: Result<nat>)
    requires target.Valid()
    modifies target.mem
    ensures r == if target.len < |TagsBytes(h)| then Err(InvalidBufferSize) else Ok(|TagsBytes(h)|)
    ensures r.Ok? ==> target.mem[..] == Overwrite(old(target.mem[..]), target.start, TagsBytes(h))
  {
    var dst := target;
    if h.vlanTag8021ad.Some? {
      var n :- WriteEthernetVlanTag(dst, h.vlanTag8021ad.value);
      dst := dst.Advance(n);
    }
    assert dst == Slice(target.mem, target.start + |TagBytes(h.vlanTag8021ad)|,
                        target.len - |TagBytes(h.vlanTag8021ad)|);
    if h.vlanTag8021q.Some? {
      var n :- WriteEthernetVlanTag(dst, h.vlanTag8021q.value);
      dst := dst.Advance(n);
      OverwriteAdjacent(old(target.mem[..]), target.start, TagBytes(h.vlanTag8021ad), TagBytes(h.vlanTag8021q));
    }
    return Ok(target.len - dst.len);
  }

  method WriteEthernetHeader(target: Slice, h: EthernetHeader) returns (r: Result<nat>)
    requires target.Valid()
    modifies target.mem
    ensures r == if target.len < |EthernetBytes(h)| then Err(InvalidBufferSize) else Ok(|EthernetBytes(h)|)
    ensures r.Ok? ==> target.mem[..] == Overwrite(old(target.mem[..]), target.start, EthernetBytes(h))
  {
    var dst := target;
    var n :- WriteArrays(dst, h.destination, h.source);
    dst := dst.Advance(n);
    n :- WriteTagsAndType(dst, h);
    dst := dst.Advance(n);
    OverwriteAdjacent(old(target.mem[..]), target.start, h.destination + h.source, TagsBytes(h) + U16(h.etherType));
    assert h.destination + h.source + (TagsBytes(h) + U16(h.etherType)) == EthernetBytes(h);
    return Ok(target.len - dst.len);
  }

  method WriteTagsAndType(target: Slice, h: EthernetHeader) returns (r: Result<nat>)
    requires target.Valid()
    modifies target.mem
    ensures r == if target.len < |TagsBytes(h)| + 2 then Err(InvalidBufferSize) else Ok(|TagsBytes(h)| + 2)
    ensures r.Ok? ==> target.mem[..] == Overwrite(old(target.mem[..]), target.start, TagsBytes(h) + U16(h.etherType))
  {
    var dst := target;
    var n :- WriteTags(dst, h);
    dst := dst.Advance(n);
    n :- WriteUintBe(dst, 2, h.etherType);
    dst := dst.Advance(n);
    U16Encode(h.etherType);
    OverwriteAdjacent(old(target.mem[..]), target.start, TagsBytes(h), U16(h.etherType));
    return Ok(target.len - dst.len);
  }

  // ---------------------------------------------------------------------------------------------
  // The codec is exact in both directions

  /** Every accepted frame is the wire format of the parsed header followed by the payload. */
  lemma WriteAfterParse(data: seq<byte>)
    requires Parse(data).Ok?
    ensures var p := Parse(data).value;
            data == EthernetBytes(p.header) + p.remaining && Canonical(p.header)
  {
    var p := Parse(data).value;
    var h := p.header;
    var at := 12 + |TagBytes(h.vlanTag8021ad)|;
    var end := at + |TagBytes(h.vlanTag8021q)|;
    assert data[12..at] == TagBytes(h.vlanTag8021ad) by { TagFound(data, 12, h.vlanTag8021ad); }
    assert data[at..end] == TagBytes(h.vlanTag8021q) by { TagFound(data, at, h.vlanTag8021q); }
    assert data[end..end + 2] == U16(h.etherType) by { U16Be16(data, end); }
    SplitHeader(data, at, end);
  }

  /** A tag read at a position is what stands there. */
  lemma TagFound(data: seq<byte>, at: nat, tag: Option<EthernetVlanTag>)
    requires at <= |data|
    requires tag.Some? ==> at + 4 <= |data| && tag.value == EthernetVlanTag(Be16(data, at), Be16(data, at + 2))
    ensures at + |TagBytes(tag)| <= |data| && data[at..at + |TagBytes(tag)|] == TagBytes(tag)
  {
    if tag.Some? {
      U16Be16(data, at);
      U16Be16(data, at + 2);
      assert data[at..at + 4] == data[at..at + 2] + data[at + 2..at + 4];
    }
  }

  lemma SplitHeader(data: seq<byte>, at: nat, end: nat)
    requires 12 <= at <= end && end + 2 <= |data|
    ensures data == data[..6] + data[6..12] + (data[12..at] + data[at..end]) + data[end..end + 2] + data[end + 2..]
  {
  }

  /** Parsing gives back a written header and its payload for canonical headers, and only for those. */
  lemma ParseAfterWrite(h: EthernetHeader, payload: seq<byte>)
    ensures Parse(EthernetBytes(h) + payload) == Ok(ParseResult(h, payload)) <==> Canonical(h)
  {
    var data := EthernetBytes(h) + payload;
    var ad, q := h.vlanTag8021ad, h.vlanTag8021q;
    var at := 12 + |TagBytes(ad)|;
    var end := at + |TagBytes(q)|;
    assert data[..6] == h.destination && data[6..12] == h.source;
    assert ad.Some? ==> Be16(data, 12) == ad.value.tpid && Be16(data, 14) == ad.value.data;
    assert q.Some? ==> Be16(data, at) == q.value.tpid && Be16(data, at + 2) == q.value.data;
    assert Be16(data, end) == h.etherType;
    assert data[end + 2..] == payload;
    if Parse(data) == Ok(ParseResult(h, payload)) {
      WriteAfterParse(data);
    }
  }
}
