/**
 Big-endian integers (`ReadUintBe.hpp`, `WriteUintBe.hpp`). The width is the `sizeof(T)` of the
 C++ templates. An `or` of bytes shifted to different positions is a sum.
 */
module BigEndian {
  import opened Bytes

  /** `value >> (8 * i)` */
  function Shr8(value: nat, i: nat): nat
    decreases i
  {
    if i == 0 then value else Shr8(value / 256, i - 1)
  }

  /** `value << (8 * i)` */
  function Shl8(value: nat, i: nat): nat {
    if i == 0 then value else 256 * Shl8(value, i - 1)
  }

  function EncodeBe(width: nat, value: nat): (bs: seq<byte>)
    ensures |bs| == width
  {
    if width == 0 then [] else EncodeBe(width - 1, value / 256) + [value % 256]
  }

  function DecodeBe(bs: seq<byte>): nat {
    if |bs| == 0 then 0 else 256 * DecodeBe(bs[..|bs| - 1]) + bs[|bs| - 1]
  }

  lemma {:induction false} EncodeBeAt(width: nat, value: nat, i: nat)
    requires i < width
    ensures EncodeBe(width, value)[width - 1 - i] == Shr8(value, i) % 256
    decreases i
  {
    if i > 0 {
      EncodeBeAt(width - 1, value / 256, i - 1);
    }
  }

  lemma {:induction false} DecodeBePrepend(b: byte, bs: seq<byte>)
    ensures DecodeBe([b] + bs) == Shl8(b, |bs|) + DecodeBe(bs)
  {
    if |bs| > 0 {
      assert ([b] + bs)[..|bs|] == [b] + bs[..|bs| - 1];
      DecodeBePrepend(b, bs[..|bs| - 1]);
    }
  }

  /** Decoding an encoded value gives it back exactly when it fits the width. */
  lemma {:induction false} DecodeEncode(width: nat, value: nat)
    ensures DecodeBe(EncodeBe(width, value)) == value <==> Shr8(value, width) == 0
    ensures DecodeBe(EncodeBe(width, value)) <= value
  {
    if width > 0 {
      assert EncodeBe(width, value)[..width - 1] == EncodeBe(width - 1, value / 256);
      DecodeEncode(width - 1, value / 256);
    }
  }

  lemma {:induction false} EncodeDecode(bs: seq<byte>)
    ensures EncodeBe(|bs|, DecodeBe(bs)) == bs
    ensures Shr8(DecodeBe(bs), |bs|) == 0
  {
    if |bs| > 0 {
      EncodeDecode(bs[..|bs| - 1]);
    }
  }

  /** The two bytes of a 16-bit value. */
  function U16(value: u16): (bs: seq<byte>)
    ensures |bs| == 2
  {
    [value / 256, value % 256]
  }

  function Be16(bs: seq<byte>, at: nat): u16
    requires at + 2 <= |bs|
  {
    bs[at] as int * 256 + bs[at + 1]
  }

  lemma U16Be16(bs: seq<byte>, at: nat)
    requires at + 2 <= |bs|
    ensures U16(Be16(bs, at)) == bs[at..at + 2]
  {
  }

  lemma U16Encode(value: u16)
    ensures EncodeBe(2, value) == U16(value)
  {
    assert EncodeBe(1, value / 256) == EncodeBe(0, value / 65536) + [value / 256];
  }

  lemma ByteEncode(value: byte)
    ensures EncodeBe(1, value) == [value]
  {
    assert EncodeBe(0, value / 256) == [];
  }

  lemma Decode2(bs: seq<byte>)
    requires |bs| == 2
    ensures DecodeBe(bs) == Be16(bs, 0)
  {
    assert bs[..1][..0] == [];
    assert DecodeBe(bs[..1]) == bs[0];
  }

  lemma Decode1(bs: seq<byte>)
    requires |bs| == 1
    ensures DecodeBe(bs) == bs[0]
  {
    assert bs[..0] == [];
  }

  lemma Decode4(bs: seq<byte>)
    requires |bs| == 4
    ensures DecodeBe(bs) == bs[0] as int * 0x100_0000 + bs[1] as int * 0x1_0000 + bs[2] as int * 0x100 + bs[3]
  {
    Decode2(bs[..2]);
    assert bs[..3][..2] == bs[..2];
    assert DecodeBe(bs[..3]) == 256 * DecodeBe(bs[..2]) + bs[2];
  }

  lemma Fits4(value: nat)
    ensures Shr8(value, 4) == 0 <==> value < 0x1_0000_0000
  {
    assert Shr8(value, 4) == Shr8(value / 256, 3) == Shr8(value / 256 / 256, 2)
        == Shr8(value / 256 / 256 / 256, 1) == Shr8(value / 256 / 256 / 256 / 256, 0);
  }

  /** What reading a big-endian integer at the front of `buffer` gives. */
  function ReadBe(width: nat, buffer: seq<byte>): Result<nat> {
    if |buffer| < width then Err(InvalidBufferSize) else Ok(DecodeBe(buffer[..width]))
  }

  method ReadUintBe(width: nat, buffer: seq<byte>) returns (r: Result<nat>)
    ensures r == ReadBe(width, buffer)
  {
    if |buffer| < width {
      return Err(InvalidBufferSize);
    }
    var result := 0;
    ghost var read: seq<byte> := [];
    for i := 0 to width
      invariant |read| == i && read == buffer[width - i..width]
      invariant result == DecodeBe(read)
    {
      var b := buffer[width - 1 - i];
      DecodeBePrepend(b, read);
      result := result + Shl8(b, i);
      read := [b] + read;
    }
    assert read == buffer[..width];
    return Ok(result);
  }

  /** Writes nothing when there is no room, otherwise exactly the encoding of the value. */
  method WriteUintBe(buffer: Slice, width: nat, value: nat) returns (r: Result<nat>)
    requires buffer.Valid()
    modifies buffer.mem
    ensures r == if buffer.len < width then Err(InvalidBufferSize) else Ok(width)
    ensures buffer.mem[..] == if r.Err? then old(buffer.mem[..])
                              else Overwrite(old(buffer.mem[..]), buffer.start, EncodeBe(width, value))
  {
    if buffer.len < width {
      return Err(InvalidBufferSize);
    }
    for i := 0 to width
      invariant buffer.mem[..] == Overwrite(old(buffer.mem[..]), buffer.start + width - i,
                                            EncodeBe(width, value)[width - i..])
    {
      EncodeBeAt(width, value, i);
      buffer.mem[buffer.start + width - 1 - i] := Shr8(value, i) % 256;
    }
    assert EncodeBe(width, value)[0..] == EncodeBe(width, value);
    return Ok(width);
  }
}
