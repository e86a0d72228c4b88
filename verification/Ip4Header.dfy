/** IPv4 headers (`Ip4Header.hpp`, `Ip4Address.hpp`). The writer fills in the checksum of its own bytes. */
module Ip4 {
  import opened Bytes
  import opened BigEndian
  import opened Checksum
  import opened Buffers

  type Ip4Address = data: seq<byte> | |data| == 4 witness [0, 0, 0, 0]

  const ICMP: byte := 1

  datatype Ip4Header = Ip4Header(
    totalLength: u16,
    identification: u16,
    dontFragment: bool,
    moreFragments: bool,
    fragmentOffset: u16,
    timeToLive: byte,
    protocol: byte,
    checksum: u16,
    sourceAddress: Ip4Address,
    destinationAddress: Ip4Address)

  const MORE_FRAGMENTS: u16 := 0x2000
  const DONT_FRAGMENT: u16 := 0x4000

  /** `word & bit` is not zero. */
  predicate HasBit(word: u16, bit: u16)
    requires bit == MORE_FRAGMENTS || bit == DONT_FRAGMENT
  {
    word / bit % 2 == 1
  }

  /** `word | bit` */
  function SetBit(word: u16, bit: u16): u16
    requires bit == MORE_FRAGMENTS || bit == DONT_FRAGMENT
  {
    if HasBit(word, bit) then word else word + bit
  }

  /** The flags or-ed into the fragment offset, which the writer does not cut to 13 bits. */
  function FlagsAndFragmentOffset(h: Ip4Header): u16 {
    var more := if h.moreFragments then SetBit(h.fragmentOffset, MORE_FRAGMENTS) else h.fragmentOffset;
    if h.dontFragment then SetBit(more, DONT_FRAGMENT) else more
  }

  /** Version 4 and header length 20, type of service zero, total length and identification. */
  function StartBytes(h: Ip4Header): (bs: seq<byte>)
    ensures |bs| == 6
  {
    [0x45] + [0] + U16(h.totalLength) + U16(h.identification)
  }

  /** The part of the header before the checksum. */
  function LeadingBytes(h: Ip4Header): (bs: seq<byte>)
    ensures |bs| == 10
  {
    StartBytes(h) + U16(FlagsAndFragmentOffset(h)) + [h.timeToLive] + [h.protocol]
  }

  /** The 20 bytes of a header with a given checksum field. */
  function BytesWithChecksum(h: Ip4Header, checksum: u16): (bs: seq<byte>)
    ensures |bs| == 20
  {
    LeadingBytes(h) + U16(checksum) + h.sourceAddress + h.destinationAddress
  }

  function HeaderChecksum(h: Ip4Header): u16 {
    ChecksumOf(BytesWithChecksum(h, 0))
  }

  /** What is written for a header: version 4, no options, type of service zero, and its own checksum. */
  function Ip4Bytes(h: Ip4Header): (bs: seq<byte>)
    ensures |bs| == 20
  {
    BytesWithChecksum(h, HeaderChecksum(h))
  }

  /** The header length the packet claims. */
  function HeaderLength(data: seq<byte>): nat
    requires |data| > 0
  {
    data[0] % 16 * 4
  }

  /** The header fields at their fixed positions. */
  function Fields(data: seq<byte>): Ip4Header
    requires |data| >= 20
  {
    var flags := Be16(data, 6);
    Ip4Header(Be16(data, 2), Be16(data, 4), HasBit(flags, DONT_FRAGMENT), HasBit(flags, MORE_FRAGMENTS), flags % 0x2000,
              data[8], data[9], Be16(data, 10), data[12..16], data[16..20])
  }

  function Parse(data: seq<byte>): Result<ParseResult<Ip4Header>> {
    if |data| == 0 then Err(InvalidBufferSize)
    else if data[0] / 16 != 4 || HeaderLength(data) < 20 || |data| < HeaderLength(data) then Err(InvalidIp4PacketError)
    else if HeaderLength(data) <= Be16(data, 2) && |data| < Be16(data, 2) then Err(InvalidIp4PacketError)
    else if data[7] % 2 != 0 then Err(InvalidIp4PacketError)
    else Ok(ParseResult(Fields(data), data[HeaderLength(data)..]))
  }

  // ---------------------------------------------------------------------------------------------
  // The code

  method ReadByte(reader: BufferReader) returns (r: Result<byte>)
    requires reader.offset < 0x1_0000
    modifies reader, reader.checksum
    ensures r == if old(reader.offset) + 1 <= |reader.buffer| then Ok(reader.buffer[old(reader.offset)])
                 else Err(InvalidBufferSize)
    ensures r.Ok? ==> reader.offset == old(reader.offset) + 1
  {
    var value :- reader.ReadBe(1);
    Decode1(GetAt(reader.buffer, old(reader.offset), 1).value);
    return Ok(value);
  }

  method ReadWord(reader: BufferReader) returns (r: Result<u16>)
    requires reader.offset < 0x1_0000
    modifies reader, reader.checksum
    ensures r == if old(reader.offset) + 2 <= |reader.buffer| then Ok(Be16(reader.buffer, old(reader.offset)))
                 else Err(InvalidBufferSize)
    ensures r.Ok? ==> reader.offset == old(reader.offset) + 2
  {
    var value :- reader.ReadBe(2);
    Decode2(GetAt(reader.buffer, old(reader.offset), 2).value);
    return Ok(value);
  }

  method ReadAddress(reader: BufferReader) returns (r: Result<Ip4Address>)
    requires reader.offset < 0x1_0000
    modifies reader, reader.checksum
    ensures r == if old(reader.offset) + 4 <= |reader.buffer|
                 then Ok(reader.buffer[old(reader.offset)..old(reader.offset) + 4])
                 else Err(InvalidBufferSize)
    ensures r.Ok? ==> reader.offset == old(reader.offset) + 4
  {
    var data :- reader.ReadInto(4);
    assert Advance(reader.buffer, old(reader.offset))[..4] == reader.buffer[old(reader.offset)..old(reader.offset) + 4];
    return Ok(data);
  }

  /** The fields behind the flags. */
  method ReadTail(reader: BufferReader)
    returns (timeToLive: byte, protocol: byte, checksum: u16, source: Ip4Address, destination: Ip4Address)
    requires reader.offset == 8 && |reader.buffer| >= 20
    modifies reader, reader.checksum
    ensures timeToLive == reader.buffer[8] && protocol == reader.buffer[9] && checksum == Be16(reader.buffer, 10)
    ensures source == reader.buffer[12..16] && destination == reader.buffer[16..20]
  {
    var field1 := ReadByte(reader);
    var field2 := ReadByte(reader);
    var field3 := ReadWord(reader);
    var field4 := ReadAddress(reader);
    var field5 := ReadAddress(reader);
    return field1.value, field2.value, field3.value, field4.value, field5.value;
  }

  method ParseIp4Header(data: seq<byte>) returns (r: Result<ParseResult<Ip4Header>>)
    ensures r == Parse(data)
  {
    var reader := new BufferReader(data);

    var byte0 :- ReadByte(reader);
    var ipVersion := byte0 / 16;
    var internetHeaderLength := byte0 % 16 * 4;
    if ipVersion != 4 {
      return Err(InvalidIp4PacketError);
    }
    if internetHeaderLength < 20 || internetHeaderLength > 60 || |data| < internetHeaderLength {
      return Err(InvalidIp4PacketError);
    }
    // the header is complete, so that no read throws from here on
    var typeOfService := ReadByte(reader);  // ignored

    var lengthField := ReadWord(reader);
    var totalLength := lengthField.value;
    if internetHeaderLength <= totalLength && |data| < totalLength {
      return Err(InvalidIp4PacketError);
    }
    var identification := ReadWord(reader);
    var flagsField := ReadWord(reader);
    var flagsAndFragmentOffset := flagsField.value;
    if flagsAndFragmentOffset % 2 != 0 {
      return Err(InvalidIp4PacketError);
    }
    var dontFragment := HasBit(flagsAndFragmentOffset, DONT_FRAGMENT);
    var moreFragments := HasBit(flagsAndFragmentOffset, MORE_FRAGMENTS);
    var fragmentOffset := flagsAndFragmentOffset % 0x2000;

    var timeToLive, protocol, checksum, sourceAddress, destinationAddress := ReadTail(reader);
    return Ok(ParseResult(
                Ip4Header(totalLength, identification.value, dontFragment, moreFragments, fragmentOffset,
                          timeToLive, protocol, checksum, sourceAddress, destinationAddress),
                Advance(data, internetHeaderLength)));
  }

  /** A writer made over `original` has sequentially written `written`, and nothing else. */
  ghost predicate Wrote(writer: BufferWriter, original: seq<byte>, written: seq<byte>)
    reads writer, writer.buffer.mem, writer.checksum
  {
    writer.Valid() && |written| <= |original| == writer.buffer.len && |written| < TWO_TO_THE_64
    && writer.State() == WriterState(Overwrite(original, 0, written), |written|, Feed(EMPTY, written))
  }

  /** What such a writer leaves in the memory. */
  lemma WroteMemory(writer: BufferWriter, original: seq<byte>, written: seq<byte>)
    requires Wrote(writer, original, written)
    requires original == writer.memory[writer.buffer.start..writer.buffer.start + writer.buffer.len]
    ensures writer.buffer.mem[..] == Overwrite(writer.memory, writer.buffer.start, written)
  {
    var start := writer.buffer.start;
    OverwriteNested(writer.memory, start, original, 0, written);
    assert Overwrite(writer.memory, start, original) == writer.memory;
  }

  method WriteByte(writer: BufferWriter, value: byte, ghost original: seq<byte>, ghost written: seq<byte>)
    returns (r: Result<nat>)
    requires Wrote(writer, original, written) && |written| <= 16
    modifies writer, writer.buffer.mem, writer.checksum
    ensures r == if |written| + 1 <= |original| then Ok(|written|) else Err(InvalidBufferSize)
    ensures r.Ok? ==> Wrote(writer, original, written + [value])
  {
    ByteEncode(value);
    WriteStep(writer.State(), original, written, [value]);
    r := writer.WriteBe(1, value);
  }

  method WriteWord(writer: BufferWriter, value: u16, ghost original: seq<byte>, ghost written: seq<byte>)
    returns (r: Result<nat>)
    requires Wrote(writer, original, written) && |written| <= 16
    modifies writer, writer.buffer.mem, writer.checksum
    ensures r == if |written| + 2 <= |original| then Ok(|written|) else Err(InvalidBufferSize)
    ensures r.Ok? ==> Wrote(writer, original, written + U16(value))
  {
    U16Encode(value);
    WriteStep(writer.State(), original, written, U16(value));
    r := writer.WriteBe(2, value);
  }

  method WriteAddress(writer: BufferWriter, address: Ip4Address, ghost original: seq<byte>, ghost written: seq<byte>)
    returns (r: Result<nat>)
    requires Wrote(writer, original, written) && |written| <= 16
    modifies writer, writer.buffer.mem, writer.checksum
    ensures r == if |written| + 4 <= |original| then Ok(|written|) else Err(InvalidBufferSize)
    ensures r.Ok? ==> Wrote(writer, original, written + address)
  {
    WriteStep(writer.State(), original, written, address);
    r := writer.Write(address);
  }

  /** Version, header length, type of service, total length and identification. */
  method WriteStart(writer: BufferWriter, h: Ip4Header, ghost original: seq<byte>) returns (r: Result<()>)
    requires Wrote(writer, original, [])
    modifies writer, writer.buffer.mem, writer.checksum
    ensures r.Err? ==> |original| < 6 && r.error == InvalidBufferSize
    ensures r.Ok? ==> Wrote(writer, original, StartBytes(h))
  {
    var _ :- WriteByte(writer, 0x45, original, []);
    ghost var done: seq<byte> := [0x45];
    assert [] + [0x45] == done;
    var _ :- WriteByte(writer, 0, original, done);
    done := done + [0];
    var _ :- WriteWord(writer, h.totalLength, original, done);
    done := done + U16(h.totalLength);
    var _ :- WriteWord(writer, h.identification, original, done);
    return Ok(());
  }

  /** The fields before the checksum. */
  method WriteLeading(writer: BufferWriter, h: Ip4Header, ghost original: seq<byte>) returns (r: Result<()>)
    requires Wrote(writer, original, [])
    modifies writer, writer.buffer.mem, writer.checksum
    ensures r.Err? ==> |original| < 10 && r.error == InvalidBufferSize
    ensures r.Ok? ==> Wrote(writer, original, LeadingBytes(h))
  {
    var _ :- WriteStart(writer, h, original);
    ghost var done := StartBytes(h);
    var _ :- WriteWord(writer, FlagsAndFragmentOffset(h), original, done);
    done := done + U16(FlagsAndFragmentOffset(h));
    var _ :- WriteByte(writer, h.timeToLive, original, done);
    done := done + [h.timeToLive];
    var _ :- WriteByte(writer, h.protocol, original, done);
    return Ok(());
  }

  method WriteIp4Header(target: Slice, h: Ip4Header) returns (r: Result<nat>)
    requires target.Valid()
    modifies target.mem
    ensures r == if target.len < 20 then Err(InvalidBufferSize) else Ok(20)
    ensures r.Ok? ==> target.mem[..] == Overwrite(old(target.mem[..]), target.start, Ip4Bytes(h))
  {
    var writer := new BufferWriter(target);
    ghost var original := target.Content();
    var _ :- WriteLeading(writer, h, original);
    ghost var done := LeadingBytes(h);
    var checksumOffset :- WriteWord(writer, 0, original, done);
    done := done + U16(0);
    var _ :- WriteAddress(writer, h.sourceAddress, original, done);
    done := done + h.sourceAddress;
    var _ :- WriteAddress(writer, h.destinationAddress, original, done);

    PatchIn(writer, checksumOffset, h, original);
    OverwriteNested(old(target.mem[..]), target.start, original, 0, Ip4Bytes(h));
    return Ok(writer.offset);
  }

  /** The checksum of everything written so far goes into its field behind the cursor. */
  method PatchIn(writer: BufferWriter, checksumOffset: nat, h: Ip4Header, ghost original: seq<byte>)
    requires checksumOffset == 10 && Wrote(writer, original, BytesWithChecksum(h, 0))
    modifies writer.buffer.mem
    ensures writer.buffer.mem[..] == Overwrite(writer.memory, writer.buffer.start, Overwrite(original, 0, Ip4Bytes(h)))
  {
    var checksum := writer.GetChecksum();
    var patched := writer.PutBe(checksumOffset, 2, checksum);
    assert patched.Ok?;
    U16Encode(checksum);
    assert writer.buffer.Content() == Overwrite(original, 0, Ip4Bytes(h)) by { Patch(original, h); }
  }

  /** Putting the checksum at its position completes the header. */
  lemma Patch(original: seq<byte>, h: Ip4Header)
    requires |original| >= 20
    ensures Overwrite(Overwrite(original, 0, BytesWithChecksum(h, 0)), 10, U16(HeaderChecksum(h)))
            == Overwrite(original, 0, Ip4Bytes(h))
  {
  }

  // ---------------------------------------------------------------------------------------------
  // The checksum of a written header

  lemma WordSumOfPair(a: byte, b: byte)
    ensures WordSum([a] + [b]) == a as int * 256 + b
  {
    assert ([a] + [b])[2..] == [];
  }

  lemma WordSumOfWord(value: u16)
    ensures WordSum(U16(value)) == value
  {
    assert U16(value)[2..] == [];
  }

  /** The words of a header, added up. */
  lemma HeaderWordSum(h: Ip4Header, checksum: u16)
    ensures WordSum(BytesWithChecksum(h, checksum))
         == 0x4500 + h.totalLength as int + h.identification + FlagsAndFragmentOffset(h)
            + h.timeToLive as int * 256 + h.protocol + checksum + WordSum(h.sourceAddress)
            + WordSum(h.destinationAddress)
  {
    var head := [0x45] + [0] + U16(h.totalLength) + U16(h.identification) + U16(FlagsAndFragmentOffset(h));
    var pair := [h.timeToLive] + [h.protocol];
    assert LeadingBytes(h) == head + pair;
    WordSumOfPair(0x45, 0);
    WordSumOfPair(h.timeToLive, h.protocol);
    WordSumOfWord(h.totalLength);
    WordSumOfWord(h.identification);
    WordSumOfWord(FlagsAndFragmentOffset(h));
    WordSumOfWord(checksum);
    WordSumAppend([0x45] + [0], U16(h.totalLength));
    WordSumAppend([0x45] + [0] + U16(h.totalLength), U16(h.identification));
    WordSumAppend([0x45] + [0] + U16(h.totalLength) + U16(h.identification), U16(FlagsAndFragmentOffset(h)));
    WordSumAppend(head, pair);
    WordSumAppend(LeadingBytes(h), U16(checksum));
    WordSumAppend(LeadingBytes(h) + U16(checksum), h.sourceAddress);
    WordSumAppend(LeadingBytes(h) + U16(checksum) + h.sourceAddress, h.destinationAddress);
  }

  /**
   A written header sums to all ones, as a receiver requires, exactly when the fold made no second
   carry; otherwise it sums to one.
   */
  lemma WrittenHeaderSum(h: Ip4Header)
    ensures OnesSum(Ip4Bytes(h)) == if NoSecondCarry(BytesWithChecksum(h, 0)) then 0xFFFF else 1
    ensures Verifies(Ip4Bytes(h)) <==> NoSecondCarry(BytesWithChecksum(h, 0))
  {
    HeaderWordSum(h, 0);
    HeaderWordSum(h, HeaderChecksum(h));
    ShortTotal(BytesWithChecksum(h, 0));
    FilledSum(BytesWithChecksum(h, 0), Ip4Bytes(h));
  }

  /** Every header gets an identification and a destination with which no receiver accepts what is written. */
  lemma UnverifiableHeader(h: Ip4Header) returns (identification: u16, destination: Ip4Address)
    ensures !Verifies(Ip4Bytes(h.(identification := identification, destinationAddress := destination)))
  {
    var rest := 0x4500 + h.totalLength as int + FlagsAndFragmentOffset(h) + h.timeToLive as int * 256 + h.protocol
                + WordSum(h.sourceAddress);
    WordSumBound(h.sourceAddress);
    var missing := if rest <= 0x1_FFFF then 0x1_FFFF - rest else 0xFFFF - rest % 0x1_0000;
    identification := Min(missing, 0xFFFF);
    destination := U16(missing - identification) + U16(0);
    var h' := h.(identification := identification, destinationAddress := destination);
    assert WordSum(BytesWithChecksum(h', 0)) == rest + missing by {
      HeaderWordSum(h', 0);
      WordSumOfWords(missing - identification, 0);
    }
    LowHalfFull(rest, missing);
    WrittenHeaderSum(h');
  }

  lemma WordSumOfWords(a: u16, b: u16)
    ensures WordSum(U16(a) + U16(b)) == a as int + b
  {
    WordSumOfWord(a);
    WordSumOfWord(b);
    WordSumAppend(U16(a), U16(b));
  }

  /** A sum above 0x10000 whose low half is 0xFFFF makes a second carry. */
  lemma LowHalfFull(rest: nat, missing: nat)
    requires rest < 0x10_0000
    requires missing == if rest <= 0x1_FFFF then 0x1_FFFF - rest else 0xFFFF - rest % 0x1_0000
    ensures HalvesSum(rest + missing) >= 0x1_0000
  {
    var n := rest + missing;
    assert n % 0x1_0000 == 0xFFFF && n / 0x1_0000 == if rest <= 0x1_FFFF then 1 else rest / 0x1_0000;
  }

  function Reversed(h: Ip4Header): Ip4Header {
    h.(sourceAddress := h.destinationAddress, destinationAddress := h.sourceAddress)
  }

  /** Exchanging the addresses, as a reply does, keeps the checksum. */
  lemma ChecksumOfReversed(h: Ip4Header)
    ensures HeaderChecksum(Reversed(h)) == HeaderChecksum(h)
  {
    HeaderWordSum(h, 0);
    HeaderWordSum(Reversed(h), 0);
    ChecksumOfIsFold(BytesWithChecksum(h, 0));
    ChecksumOfIsFold(BytesWithChecksum(Reversed(h), 0));
  }

  // ---------------------------------------------------------------------------------------------
  // How far the codec is exact

  /** The total length of an accepted packet never exceeds its data, although the guard on it is conditional. */
  lemma AcceptedLength(data: seq<byte>)
    requires Parse(data).Ok?
    ensures Parse(data).value.header.totalLength <= |data|
    ensures 20 <= HeaderLength(data) <= 60
  {
  }

  /** Only even fragment offsets of 13 bits are accepted. */
  lemma ParsedOffset(data: seq<byte>)
    requires Parse(data).Ok?
    ensures Parse(data).value.header.fragmentOffset < 0x2000 && Parse(data).value.header.fragmentOffset % 2 == 0
  {
  }

  /** The fields of the first 20 bytes, whatever follows. */
  lemma FieldsOfBytes(h: Ip4Header, checksum: u16, rest: seq<byte>)
    ensures var f := Fields(BytesWithChecksum(h, checksum) + rest);
            var w := FlagsAndFragmentOffset(h);
            f == Ip4Header(h.totalLength, h.identification, HasBit(w, DONT_FRAGMENT), HasBit(w, MORE_FRAGMENTS),
                           w % 0x2000,
                           h.timeToLive, h.protocol, checksum, h.sourceAddress, h.destinationAddress)
    ensures (BytesWithChecksum(h, checksum) + rest)[0] == 0x45
    ensures (BytesWithChecksum(h, checksum) + rest)[7] == FlagsAndFragmentOffset(h) % 256
    ensures (BytesWithChecksum(h, checksum) + rest)[20..] == rest
  {
    var data := BytesWithChecksum(h, checksum) + rest;
    assert Be16(data, 2) == h.totalLength;
    assert Be16(data, 4) == h.identification;
    assert Be16(data, 6) == FlagsAndFragmentOffset(h);
    assert Be16(data, 10) == checksum;
    assert data[12..16] == h.sourceAddress;
    assert data[16..20] == h.destinationAddress;
  }

  lemma FlagsSum(h: Ip4Header)
    requires h.fragmentOffset < 0x2000
    ensures FlagsAndFragmentOffset(h)
            == (if h.dontFragment then 0x4000 else 0) + (if h.moreFragments then 0x2000 else 0) + h.fragmentOffset
  {
  }

  /** The flags and the fragment offset can be told apart exactly when the offset fits its 13 bits. */
  lemma FlagsRoundTrip(h: Ip4Header)
    ensures var w := FlagsAndFragmentOffset(h);
            HasBit(w, DONT_FRAGMENT) == h.dontFragment && HasBit(w, MORE_FRAGMENTS) == h.moreFragments
            && w % 0x2000 == h.fragmentOffset
            <==> h.fragmentOffset < 0x2000
  {
  }

  /**
   Parsing gives back a written header with its computed checksum, and the payload, exactly when
   the fragment offset is even and fits 13 bits and the total length does not exceed the packet.
   */
  lemma ParseAfterWrite(h: Ip4Header, payload: seq<byte>)
    ensures Parse(Ip4Bytes(h) + payload) == Ok(ParseResult(h.(checksum := HeaderChecksum(h)), payload))
            <==> h.fragmentOffset % 2 == 0 && h.fragmentOffset < 0x2000 && h.totalLength <= 20 + |payload|
  {
    var data := Ip4Bytes(h) + payload;
    var f := Fields(data);
    assert f == h.(checksum := HeaderChecksum(h)) <==> h.fragmentOffset < 0x2000 by {
      FieldsOfBytes(h, HeaderChecksum(h), payload);
      FlagsRoundTrip(h);
    }
    ParseOfBytes(h, payload);
  }

  lemma WrittenLengths(h: Ip4Header, payload: seq<byte>)
    ensures var data := Ip4Bytes(h) + payload;
            data[0] / 16 == 4 && HeaderLength(data) == 20 && data[20..] == payload && Be16(data, 2) == h.totalLength
  {
    FieldsOfBytes(h, HeaderChecksum(h), payload);
    assert Be16(Ip4Bytes(h) + payload, 2) == Fields(Ip4Bytes(h) + payload).totalLength;
  }

  lemma WrittenParity(h: Ip4Header, payload: seq<byte>)
    ensures (Ip4Bytes(h) + payload)[7] % 2 == h.fragmentOffset % 2
  {
    assert (Ip4Bytes(h) + payload)[7] == U16(FlagsAndFragmentOffset(h))[1];
    LowByteParity(FlagsAndFragmentOffset(h));
    FlagsParity(h);
  }

  lemma LowByteParity(word: u16)
    ensures U16(word)[1] % 2 == word % 2
  {
  }

  lemma FlagsParity(h: Ip4Header)
    ensures FlagsAndFragmentOffset(h) % 2 == h.fragmentOffset % 2
  {
  }

  /** Whether a written header is accepted again. */
  lemma ParseOfBytes(h: Ip4Header, payload: seq<byte>)
    ensures var data := Ip4Bytes(h) + payload;
            Parse(data) == if h.totalLength <= |data| && h.fragmentOffset % 2 == 0
                           then Ok(ParseResult(Fields(data), payload))
                           else Err(InvalidIp4PacketError)
  {
    WrittenLengths(h, payload);
    WrittenParity(h, payload);
  }

  /** The reserved flag, bit 15 of the fourth word. */
  predicate Reserved(data: seq<byte>)
    requires |data| >= 20
  {
    data[6] >= 0x80
  }

  /** The header bytes hold nothing that parsing forgets, apart from the checksum. */
  predicate Plain(data: seq<byte>) {
    |data| >= 20 && HeaderLength(data) == 20 && data[1] == 0 && !Reserved(data)
  }

  /** Taking the flags out of a word and putting them together again loses the reserved bit only. */
  lemma FlagsOfWord(h: Ip4Header, word: u16)
    requires h.fragmentOffset == word % 0x2000
    requires h.dontFragment == HasBit(word, DONT_FRAGMENT) && h.moreFragments == HasBit(word, MORE_FRAGMENTS)
    ensures FlagsAndFragmentOffset(h) == word % 0x8000
  {
    FlagsSum(h);
    var reserved, dont, more := word / 0x8000, word / 0x4000 % 2, word / 0x2000 % 2;
    assert word == 0x8000 * reserved + 0x4000 * dont + 0x2000 * more + word % 0x2000;
  }

  /** The fields keep the flags word but for its reserved bit. */
  lemma FlagsKept(data: seq<byte>)
    requires |data| >= 20
    ensures U16(FlagsAndFragmentOffset(Fields(data))) == [data[6] % 0x80, data[7]]
  {
    FlagsOfWord(Fields(data), Be16(data, 6));
    LowBits(data[6], data[7]);
  }

  lemma LowBits(hi: byte, lo: byte)
    ensures U16((hi as int * 256 + lo) % 0x8000) == [hi % 0x80, lo]
  {
    var low := hi % 0x80 * 256 + lo;
    assert hi as int * 256 + lo == 0x8000 * (hi / 0x80) + low;
    assert (hi as int * 256 + lo) % 0x8000 == low;
    assert U16(low) == [hi % 0x80, lo];
  }

  /** What writing the fields of an accepted packet with the checksum they hold gives. */
  lemma RewrittenFields(data: seq<byte>)
    requires Parse(data).Ok?
    ensures var h := Fields(data);
            BytesWithChecksum(h, h.checksum) == [0x45, 0] + data[2..6] + [data[6] % 0x80] + data[7..20]
  {
    var h := Fields(data);
    FlagsKept(data);
    U16Be16(data, 2);
    U16Be16(data, 4);
    U16Be16(data, 10);
    assert data[2..6] == data[2..4] + data[4..6];
    assert data[7..20] == [data[7]] + [data[8]] + [data[9]] + data[10..12] + data[12..16] + data[16..20];
  }

  /** Nothing else is lost: writing the fields gives back the 20 bytes of a plain header, and only of a plain one. */
  lemma FieldsCoverPlain(data: seq<byte>)
    requires Parse(data).Ok?
    ensures BytesWithChecksum(Fields(data), Fields(data).checksum) == data[..20] <==> Plain(data)
  {
    RewrittenFields(data);
    var bs := [0x45, 0] + data[2..6] + [data[6] % 0x80] + data[7..20];
    assert bs[0] == 0x45 && bs[1] == 0 && bs[6] == data[6] % 0x80;
    if bs == data[..20] {
      assert data[..20][0] == bs[0] && data[..20][1] == bs[1] && data[..20][6] == bs[6];
    }
    if Plain(data) {
      assert data[..20] == [data[0], data[1]] + data[2..6] + [data[6]] + data[7..20];
    }
  }

  /**
   Writing a parsed header gives back its 20 bytes exactly when there are no options, the type of
   service and the reserved flag are zero, and the packet carries the checksum this code computes.
   */
  lemma WriteAfterParse(data: seq<byte>)
    requires Parse(data).Ok?
    ensures var h := Parse(data).value.header;
            Ip4Bytes(h) == data[..20] <==> Plain(data) && h.checksum == HeaderChecksum(h)
  {
    var h := Fields(data);
    FieldsCoverPlain(data);
    if Ip4Bytes(h) == data[..20] {
      FieldsOfBytes(h, HeaderChecksum(h), data[20..]);
      assert data == Ip4Bytes(h) + data[20..];
    }
  }
}
