/** ICMP headers (`Icmp4Header.hpp`). The writer leaves the checksum zero; the device fills it in. */
module Icmp4 {
  import opened Bytes
  import opened BigEndian
  import opened Checksum
  import opened Buffers
  import opened Ip4

  const ECHO_REPLY: byte := 0
  const ECHO_REQUEST: byte := 8

  datatype Icmp4Header = Icmp4Header(typ: byte, code: byte, checksum: u16)

  /** A whole ICMP message. */
  function MessageBytes(h: Icmp4Header, payload: seq<byte>): (bs: seq<byte>)
    ensures |bs| == 4 + |payload|
  {
    [h.typ] + [h.code] + U16(h.checksum) + payload
  }

  // ---------------------------------------------------------------------------------------------
  // The code

  function ParseIcmp4Header(data: seq<byte>): Result<ParseResult<Icmp4Header>> {
    var typ :- ReadBe(1, Advance(data, 0));
    var code :- ReadBe(1, Advance(data, 1));
    var checksum :- ReadBe(2, Advance(data, 2));
    ByteRange(Advance(data, 0));
    ByteRange(Advance(data, 1));
    WordRange(Advance(data, 2));
    Ok(ParseResult(Icmp4Header(typ, code, checksum), Advance(data, 4)))
  }

  lemma ByteRange(data: seq<byte>)
    requires |data| >= 1
    ensures DecodeBe(data[..1]) == data[0]
  {
    Decode1(data[..1]);
  }

  lemma WordRange(data: seq<byte>)
    requires |data| >= 2
    ensures DecodeBe(data[..2]) == Be16(data, 0)
  {
    Decode2(data[..2]);
  }

  /** Type, code and a zero in place of the checksum. */
  method WriteFields(writer: BufferWriter, h: Icmp4Header, ghost original: seq<byte>) returns (r: Result<()>)
    requires Wrote(writer, original, [])
    modifies writer, writer.buffer.mem, writer.checksum
    ensures r.Err? ==> |original| < 4 && r.error == InvalidBufferSize
    ensures r.Ok? ==> Wrote(writer, original, MessageBytes(h.(checksum := 0), []))
  {
    ghost var done: seq<byte> := [];
    var _ :- WriteByte(writer, h.typ, original, done);
    done := done + [h.typ];
    var _ :- WriteByte(writer, h.code, original, done);
    done := done + [h.code];
    var _ :- WriteWord(writer, 0, original, done);
    FieldsOnly(h.(checksum := 0));
    return Ok(());
  }

  lemma FieldsOnly(h: Icmp4Header)
    ensures MessageBytes(h, []) == [] + [h.typ] + [h.code] + U16(h.checksum)
  {
  }

  method WriteIcmp4Header(target: Slice, h: Icmp4Header) returns (r: Result<nat>)
    requires target.Valid()
    modifies target.mem
    ensures r == if target.len < 4 then Err(InvalidBufferSize) else Ok(4)
    ensures r.Ok? ==>
              target.mem[..] == Overwrite(old(target.mem[..]), target.start, MessageBytes(h.(checksum := 0), []))
  {
    var writer := new BufferWriter(target);
    ghost var original := target.Content();
    var _ :- WriteFields(writer, h, original);
    WroteMemory(writer, original, MessageBytes(h.(checksum := 0), []));
    return Ok(writer.offset);
  }

  // ---------------------------------------------------------------------------------------------
  // The codec and the checksum

  /** Every message of at least four bytes is accepted, and nothing of it is lost. */
  lemma WriteAfterParse(data: seq<byte>)
    ensures ParseIcmp4Header(data).Ok? <==> |data| >= 4
    ensures |data| >= 4 ==>
              MessageBytes(ParseIcmp4Header(data).value.header, ParseIcmp4Header(data).value.remaining) == data
  {
    if |data| >= 4 {
      ByteRange(Advance(data, 0));
      ByteRange(Advance(data, 1));
      WordRange(Advance(data, 2));
      U16Be16(data, 2);
      assert data == [data[0]] + [data[1]] + data[2..4] + data[4..];
    }
  }

  lemma ParseAfterWrite(h: Icmp4Header, payload: seq<byte>)
    ensures ParseIcmp4Header(MessageBytes(h, payload)) == Ok(ParseResult(h, payload))
  {
    var data := MessageBytes(h, payload);
    ByteRange(Advance(data, 0));
    ByteRange(Advance(data, 1));
    WordRange(Advance(data, 2));
    assert Be16(Advance(data, 2), 0) == h.checksum;
    assert Advance(data, 4) == payload;
  }

  lemma MessageWordSum(h: Icmp4Header, payload: seq<byte>)
    ensures WordSum(MessageBytes(h, payload)) == h.typ as int * 256 + h.code + h.checksum + WordSum(payload)
  {
    WordSumOfPair(h.typ, h.code);
    WordSumOfWord(h.checksum);
    WordSumAppend([h.typ] + [h.code], U16(h.checksum));
    WordSumAppend([h.typ] + [h.code] + U16(h.checksum), payload);
  }

  /** The message with the checksum that is computed over it while the field is zero. */
  function Sealed(typ: byte, code: byte, payload: seq<byte>): Icmp4Header {
    Icmp4Header(typ, code, ChecksumOf(MessageBytes(Icmp4Header(typ, code, 0), payload)))
  }

  /**
   A sealed message verifies exactly when the unread high bits of its accumulator agree with the carry of
   the fold.
   */
  lemma SealedSum(typ: byte, code: byte, payload: seq<byte>)
    ensures var zeroed := MessageBytes(Icmp4Header(typ, code, 0), payload);
            var filled := MessageBytes(Sealed(typ, code, payload), payload);
            (|payload| <= 131070 ==> OnesSum(filled) == if NoSecondCarry(zeroed) then 0xFFFF else 1)
            && (Verifies(filled) <==> Overflow(WordSum(zeroed)) % 0xFFFF == if NoSecondCarry(zeroed) then 0 else 0xFFFE)
  {
    var zeroed := MessageBytes(Icmp4Header(typ, code, 0), payload);
    MessageWordSum(Icmp4Header(typ, code, 0), payload);
    MessageWordSum(Sealed(typ, code, payload), payload);
    FilledSum(zeroed, MessageBytes(Sealed(typ, code, payload), payload));
    if |payload| <= 131070 {
      ShortTotal(zeroed);
    }
  }

  /** A payload whose echo reply no receiver accepts: its words add up to 0x1FFFF. */
  lemma UnverifiableEcho(payload: seq<byte>)
    requires payload == [0xFF, 0xFF, 0xFF, 0xFF, 0x00, 0x01]
    ensures !Verifies(MessageBytes(Sealed(ECHO_REPLY, 0, payload), payload))
  {
    var zeroed := Icmp4Header(ECHO_REPLY, 0, 0);
    assert WordSum(payload) == 0x1_FFFF by {
      assert payload[2..][2..] == [0x00] + [0x01];
      WordSumOfPair(0x00, 0x01);
    }
    var n := WordSum(MessageBytes(zeroed, payload));
    assert n == 0x1_FFFF by { MessageWordSum(zeroed, payload); }
    assert HalvesSum(n) == 0x1_0000;
    SealedSum(ECHO_REPLY, 0, payload);
  }
}
