/**
 Cursors over byte buffers that add up a checksum while they move (`BufferWriter.hpp`,
 `BufferReader.hpp`), and what any sequence of operations on them does.
 */
module Buffers {
  import opened Bytes
  import opened BigEndian
  import opened Checksum

  /** A `size_t` sum. */
  function AddSize(offset: u64, byteCount: nat): u64 {
    (offset + byteCount) % TWO_TO_THE_64
  }

  lemma AddSizeTwice(offset: u64, a: nat, b: nat)
    ensures AddSize(AddSize(offset, a), b) == AddSize(offset, a + b)
  {
    ModAdd(offset + a, b);
  }

  lemma NoWrap(offset: u64, byteCount: nat)
    requires offset + byteCount < TWO_TO_THE_64
    ensures AddSize(offset, byteCount) == offset + byteCount
  {
  }

  /** What a writer holds: the buffer's bytes, the cursor and the running checksum. */
  datatype WriterState = WriterState(content: seq<byte>, offset: u64, checksum: ChecksumState)

  /** A call on a writer. `WriteBe(v)` and `PutBe(v)` write the big-endian bytes of `v`. */
  datatype WriterOp =
    | Write(bytes: seq<byte>)
    | Skip(byteCount: nat)
    | Put(at: nat, bytes: seq<byte>)
  {
    /** `CheckPutAt` throws when fewer bytes are left than are to be written. */
    predicate Fits(s: WriterState) {
      match this
      case Write(bytes) => |bytes| <= |Advance(s.content, s.offset)|
      case Put(at, bytes) => |bytes| <= |Advance(s.content, at)|
      case Skip(_) => true
    }
  }

  /** Replaces bytes from a checked position on. An empty write is accepted anywhere. */
  function PutAt(content: seq<byte>, at: nat, bytes: seq<byte>): (r: seq<byte>)
    requires |bytes| <= |Advance(content, at)|
    ensures |r| == |content|
  {
    if |bytes| == 0 then content else Overwrite(content, at, bytes)
  }

  /** The state after a call; a call that throws changes nothing. */
  function Apply(s: WriterState, op: WriterOp): WriterState {
    if !op.Fits(s) then s
    else match op
      case Write(bytes) => WriterState(PutAt(s.content, s.offset, bytes), AddSize(s.offset, |bytes|),
                                       Feed(s.checksum, bytes))
      case Skip(byteCount) => s.(offset := AddSize(s.offset, byteCount))
      case Put(at, bytes) => s.(content := PutAt(s.content, at, bytes))
  }

  /** Writing inside a part of the memory changes that part and nothing else. */
  lemma PutInside(now: seq<byte>, memory: seq<byte>, start: nat, len: nat, at: nat, bytes: seq<byte>)
    requires |now| == |memory| && start + len <= |now| && Min(at, len) + |bytes| <= len
    requires now == Overwrite(memory, start, now[start..start + len])
    ensures var next := Overwrite(now, start + Min(at, len), bytes);
            next[start..start + len] == PutAt(now[start..start + len], at, bytes)
            && next == Overwrite(memory, start, next[start..start + len])
  {
    if |bytes| == 0 {
      assert Overwrite(now, start + Min(at, len), bytes) == now;
    } else {
      var next := Overwrite(now, start + at, bytes);
      assert next[start..start + len] == Overwrite(now[start..start + len], at, bytes);
    }
  }

  /** So a write that happens when there is room has on the writer the effect of a put. */
  lemma PutEffect(memory: seq<byte>, before: seq<byte>, after: seq<byte>, start: nat, len: nat, at: nat,
                  bytes: seq<byte>, ok: bool, s: WriterState, s': WriterState)
    requires |before| == |memory| && start + len <= |before| && (ok <==> |bytes| <= len - Min(at, len))
    requires before == Overwrite(memory, start, before[start..start + len])
    requires after == if ok then Overwrite(before, start + Min(at, len), bytes) else before
    requires s.content == before[start..start + len]
    requires s' == s.(content := after[start..start + len])
    ensures after == Overwrite(memory, start, s'.content) && s' == Apply(s, WriterOp.Put(at, bytes))
    ensures ok <==> WriterOp.Put(at, bytes).Fits(s)
  {
    if ok {
      PutInside(before, memory, start, len, at, bytes);
    }
  }

  /** What was put is found where it was put. */
  lemma PutThenRead(content: seq<byte>, at: nat, bytes: seq<byte>)
    requires |bytes| <= |Advance(content, at)|
    ensures Limit(Advance(PutAt(content, at, bytes), at), |bytes|) == bytes
  {
    if |bytes| > 0 {
      var put := Overwrite(content, at, bytes);
      assert put[at..][..|bytes|] == put[at..at + |bytes|] == bytes;
    }
  }

  class BufferWriter {
    const buffer: Slice
    var offset: u64
    const checksum: InternetChecksum
    ghost const memory: seq<byte>  // what the underlying array held when the writer was made

    /** Nothing but the writer's own part of the memory has changed. */
    ghost predicate Valid()
      reads buffer.mem
    {
      buffer.Valid() && |memory| == buffer.mem.Length
      && buffer.mem[..] == Overwrite(memory, buffer.start, buffer.Content())
    }

    function State(): (s: WriterState)
      requires buffer.Valid()
      reads this, buffer.mem, checksum
    {
      WriterState(buffer.Content(), offset, checksum.State())
    }

    constructor (buffer: Slice)
      requires buffer.Valid()
      ensures this.buffer == buffer && fresh(checksum)
      ensures Valid() && memory == buffer.mem[..]
      ensures State() == WriterState(buffer.Content(), 0, EMPTY)
    {
      var c := new InternetChecksum();
      this.buffer, offset, checksum, memory := buffer, 0, c, buffer.mem[..];
    }

    method Skip(byteCount: nat) returns (skipOffset: u64)
      requires Valid()
      modifies this
      ensures Valid() && State() == Apply(old(State()), WriterOp.Skip(byteCount))
      ensures skipOffset == old(offset)
    {
      skipOffset := offset;
      offset := AddSize(offset, byteCount);
    }

    method Write(bytes: seq<byte>) returns (r: Result<nat>)
      requires Valid()
      modifies this, buffer.mem, checksum
      ensures Valid() && State() == Apply(old(State()), WriterOp.Write(bytes))
      ensures r == if WriterOp.Write(bytes).Fits(old(State())) then Ok(old(offset)) else Err(InvalidBufferSize)
    {
      var putOffset := offset;
      var byteCount :- Put(putOffset, bytes);
      AdvanceContent(buffer, putOffset);
      PutThenRead(old(buffer.Content()), putOffset, bytes);
      checksum.AddBuffer(Limit(buffer.Advance(putOffset).Content(), byteCount));
      offset := AddSize(offset, byteCount);
      return Ok(putOffset);
    }

    method WriteBe(width: nat, value: nat) returns (r: Result<nat>)
      requires Valid()
      modifies this, buffer.mem, checksum
      ensures Valid() && State() == Apply(old(State()), WriterOp.Write(EncodeBe(width, value)))
      ensures r == if WriterOp.Write(EncodeBe(width, value)).Fits(old(State())) then Ok(old(offset))
                   else Err(InvalidBufferSize)
    {
      var putOffset := offset;
      var byteCount :- PutBe(putOffset, width, value);
      AdvanceContent(buffer, putOffset);
      PutThenRead(old(buffer.Content()), putOffset, EncodeBe(width, value));
      checksum.AddBuffer(Limit(buffer.Advance(putOffset).Content(), byteCount));
      offset := AddSize(offset, byteCount);
      return Ok(putOffset);
    }

    method Put(at: nat, bytes: seq<byte>) returns (r: Result<nat>)
      requires Valid()
      modifies buffer.mem
      ensures Valid() && State() == Apply(old(State()), WriterOp.Put(at, bytes))
      ensures r == if WriterOp.Put(at, bytes).Fits(old(State())) then Ok(|bytes|) else Err(InvalidBufferSize)
    {
      if buffer.Advance(at).len < |bytes| {
        return Err(InvalidBufferSize);
      }
      var n := BufferCopy(buffer.Advance(at), bytes);
      PutInside(old(buffer.mem[..]), memory, buffer.start, buffer.len, at, bytes);
      return Ok(n);
    }

    method PutBe(at: nat, width: nat, value: nat) returns (r: Result<nat>)
      requires Valid()
      modifies buffer.mem
      ensures Valid() && State() == Apply(old(State()), WriterOp.Put(at, EncodeBe(width, value)))
      ensures r == if WriterOp.Put(at, EncodeBe(width, value)).Fits(old(State())) then Ok(width)
                   else Err(InvalidBufferSize)
    {
      // the check and the byte loop are those of WriteUintBe
      r := WriteUintBe(buffer.Advance(at), width, value);
      PutEffect(memory, old(buffer.mem[..]), buffer.mem[..], buffer.start, buffer.len, at, EncodeBe(width, value),
                r.Ok?, old(State()), State());
    }

    method GetChecksum() returns (c: u16)
      ensures c == FoldOnce(Total(checksum.State()))
    {
      c := checksum.GetChecksum();
    }
  }

  // ---------------------------------------------------------------------------------------------
  // Runs of a writer

  function Run(s: WriterState, ops: seq<WriterOp>): WriterState
    decreases |ops|
  {
    if |ops| == 0 then s else Run(Apply(s, ops[0]), ops[1..])
  }

  /** The bytes the sequential writes of a run put down; a write that throws puts down none. */
  function Written(s: WriterState, ops: seq<WriterOp>): seq<byte>
    decreases |ops|
  {
    if |ops| == 0 then [] else WrittenBy(s, ops[0]) + Written(Apply(s, ops[0]), ops[1..])
  }

  /** The bytes one call writes sequentially. */
  function WrittenBy(s: WriterState, op: WriterOp): seq<byte> {
    if op.Write? && op.Fits(s) then op.bytes else []
  }

  lemma OneCall(s: WriterState, op: WriterOp)
    ensures Apply(s, op).checksum == Feed(s.checksum, WrittenBy(s, op))
    ensures Apply(s, op).offset == AddSize(s.offset, |WrittenBy(s, op)| + if op.Skip? then op.byteCount else 0)
    ensures |Apply(s, op).content| == |s.content|
  {
  }

  /** Where a call that fits puts bytes: at the cursor, or at the given position. */
  function Place(s: WriterState, op: WriterOp): (nat, seq<byte>) {
    match op
    case Write(bytes) => (s.offset, bytes)
    case Put(at, bytes) => (at, bytes)
    case Skip(_) => (0, [])
  }

  /** Every byte of the buffer after a call: what the call puts there, or what was there. */
  lemma EveryByte(s: WriterState, op: WriterOp, k: nat)
    requires k < |s.content|
    ensures var (at, bytes) := Place(s, op);
            |Apply(s, op).content| == |s.content|
            && Apply(s, op).content[k] == if op.Fits(s) && at <= k < at + |bytes| then bytes[k - at] else s.content[k]
  {
  }

  /** The calls of a run put nothing at a position. */
  predicate LeavesAlone(s: WriterState, ops: seq<WriterOp>, k: nat)
    decreases |ops|
  {
    |ops| > 0 ==>
      var (at, bytes) := Place(s, ops[0]);
      !(ops[0].Fits(s) && at <= k < at + |bytes|) && LeavesAlone(Apply(s, ops[0]), ops[1..], k)
  }

  /** After any calls, every position to which nothing was written is as before. */
  lemma {:induction false} OthersUnchanged(s: WriterState, ops: seq<WriterOp>, k: nat)
    requires k < |s.content| && LeavesAlone(s, ops, k)
    ensures |Run(s, ops).content| == |s.content| && Run(s, ops).content[k] == s.content[k]
    decreases |ops|
  {
    if |ops| > 0 {
      EveryByte(s, ops[0], k);
      OthersUnchanged(Apply(s, ops[0]), ops[1..], k);
    }
  }

  function Skipped(ops: seq<WriterOp>): nat {
    if |ops| == 0 then 0 else (if ops[0].Skip? then ops[0].byteCount else 0) + Skipped(ops[1..])
  }

  /**
   After any calls, failed ones included, the checksum has seen the sequentially written bytes
   and nothing else, and the cursor has moved over them and the skipped bytes, as far as a `size_t` goes.
   */
  lemma {:induction false} WriterInvariant(s: WriterState, ops: seq<WriterOp>)
    ensures Run(s, ops).checksum == Feed(s.checksum, Written(s, ops))
    ensures Run(s, ops).offset == (s.offset + |Written(s, ops)| + Skipped(ops)) % 0x1_0000_0000_0000_0000
    ensures |Run(s, ops).content| == |s.content|
    decreases |ops|
  {
    if |ops| > 0 {
      var s' := Apply(s, ops[0]);
      OneCall(s, ops[0]);
      WriterInvariant(s', ops[1..]);
      var first := WrittenBy(s, ops[0]);
      FeedAppend(s.checksum, first, Written(s', ops[1..]));
      var moved := |first| + if ops[0].Skip? then ops[0].byteCount else 0;
      AddSizeTwice(s.offset, moved, |Written(s', ops[1..])| + Skipped(ops[1..]));
    }
  }

  /** Without skips and puts the written bytes lie in the buffer, one after the other. */
  lemma {:induction false} SequentialRun(s: WriterState, ops: seq<WriterOp>)
    requires forall i :: 0 <= i < |ops| ==> ops[i].Write?
    requires s.offset <= |s.content| < TWO_TO_THE_64
    ensures s.offset + |Written(s, ops)| <= |s.content|
    ensures Run(s, ops).content == Overwrite(s.content, s.offset, Written(s, ops))
    decreases |ops|
  {
    if |ops| > 0 {
      var s' := Apply(s, ops[0]);
      if ops[0].Fits(s) {
        NoWrap(s.offset, |ops[0].bytes|);
        assert s'.content == Overwrite(s.content, s.offset, ops[0].bytes);
        SequentialRun(s', ops[1..]);
        OverwriteAdjacent(s.content, s.offset, ops[0].bytes, Written(s', ops[1..]));
      } else {
        SequentialRun(s', ops[1..]);
      }
    }
  }

  /** One more successful sequential write, in the form the header writers use it. */
  lemma WriteStep(s: WriterState, original: seq<byte>, written: seq<byte>, bytes: seq<byte>)
    requires |written| <= |original| && |written| + |bytes| < TWO_TO_THE_64
    requires s == WriterState(Overwrite(original, 0, written), |written|, Feed(EMPTY, written))
    ensures WriterOp.Write(bytes).Fits(s) <==> |written| + |bytes| <= |original|
    ensures |written| + |bytes| <= |original| ==>
              Apply(s, WriterOp.Write(bytes))
              == WriterState(Overwrite(original, 0, written + bytes), |written + bytes|, Feed(EMPTY, written + bytes))
  {
    if |written| + |bytes| <= |original| {
      NoWrap(|written|, |bytes|);
      FeedAppend(EMPTY, written, bytes);
      assert PutAt(s.content, s.offset, bytes) == Overwrite(original, 0, written + bytes) by {
        OverwriteAdjacent(original, 0, written, bytes);
      }
    }
  }

  // ---------------------------------------------------------------------------------------------
  // Reading

  datatype ReaderState = ReaderState(offset: u64, checksum: ChecksumState)

  class BufferReader {
    const buffer: seq<byte>
    var offset: u64
    const checksum: InternetChecksum

    function State(): ReaderState
      reads this, checksum
    {
      ReaderState(offset, checksum.State())
    }

    constructor (buffer: seq<byte>)
      ensures this.buffer == buffer && fresh(checksum)
      ensures State() == ReaderState(0, EMPTY)
    {
      var c := new InternetChecksum();
      this.buffer, offset, checksum := buffer, 0, c;
    }

    method Skip(byteCount: nat) returns (skipOffset: u64)
      modifies this
      ensures skipOffset == old(offset)
      ensures State() == old(State()).(offset := AddSize(old(offset), byteCount))
    {
      skipOffset := offset;
      offset := AddSize(offset, byteCount);
    }

    /** Reads the `size` bytes of the destination. The offset moves past them, or nothing happens. */
    method ReadInto(size: nat) returns (r: Result<seq<byte>>)
      modifies this, checksum
      ensures r == GetAt(buffer, old(offset), size)
      ensures State() == AfterRead(old(State()), r)
    {
      var bytes :- Get(offset, size);
      FrontAt(buffer, offset, size);
      checksum.AddBuffer(Limit(Advance(buffer, offset), |bytes|));
      offset := AddSize(offset, |bytes|);
      return Ok(bytes);
    }

    method ReadBe(width: nat) returns (r: Result<nat>)
      modifies this, checksum
      ensures r == DecodeResult(GetAt(buffer, old(offset), width))
      ensures State() == AfterRead(old(State()), GetAt(buffer, old(offset), width))
    {
      var value :- GetBe(offset, width);
      FrontAt(buffer, offset, width);
      checksum.AddBuffer(Limit(Advance(buffer, offset), width));
      offset := AddSize(offset, width);
      return Ok(value);
    }

    method Get(at: nat, size: nat) returns (r: Result<seq<byte>>)
      ensures r.Ok? <==> size == 0 || at + size <= |buffer|
      ensures r.Ok? ==> |r.value| == size && (size > 0 ==> r.value == buffer[at..at + size])
      ensures r.Err? ==> r.error == InvalidBufferSize
    {
      if |Advance(buffer, at)| < size {
        return Err(InvalidBufferSize);
      }
      return Ok(Advance(buffer, at)[..size]);
    }

    method GetBe(at: nat, width: nat) returns (r: Result<nat>)
      ensures r == DecodeResult(GetAt(buffer, at, width))
    {
      // the check and the accumulation loop are those of ReadUintBe
      r := ReadUintBe(width, Advance(buffer, at));
      FrontAt(buffer, at, width);
    }

    method GetChecksum() returns (c: u16)
      ensures c == FoldOnce(Total(checksum.State()))
    {
      c := checksum.GetChecksum();
    }
  }

  /** The `size` bytes at a position, if the buffer has them. No bytes are found anywhere. */
  function GetAt(buffer: seq<byte>, at: nat, size: nat): Result<seq<byte>> {
    if size == 0 then Ok([]) else if at + size <= |buffer| then Ok(buffer[at..at + size]) else Err(InvalidBufferSize)
  }

  /** They are the front of the buffer behind that position. */
  lemma FrontAt(buffer: seq<byte>, at: nat, size: nat)
    ensures GetAt(buffer, at, size)
         == if |Advance(buffer, at)| < size then Err(InvalidBufferSize) else Ok(Limit(Advance(buffer, at), size))
    ensures |Advance(buffer, at)| >= size ==> Limit(Advance(buffer, at), size) == Advance(buffer, at)[..size]
  {
    if 0 < size <= |Advance(buffer, at)| {
      assert Advance(buffer, at)[..size] == buffer[at..at + size];
    }
  }

  function DecodeResult(r: Result<seq<byte>>): Result<nat> {
    match r
    case Ok(bytes) => Ok(DecodeBe(bytes))
    case Err(e) => Err(e)
  }

  function AfterRead(s: ReaderState, r: Result<seq<byte>>): ReaderState {
    match r
    case Ok(bytes) => ReaderState(AddSize(s.offset, |bytes|), Feed(s.checksum, bytes))
    case Err(_) => s
  }

  /** The state after reading fields of the given sizes; a read that throws changes nothing. */
  function ReadAll(buffer: seq<byte>, s: ReaderState, sizes: seq<nat>): ReaderState
    decreases |sizes|
  {
    if |sizes| == 0 then s else ReadAll(buffer, AfterRead(s, GetAt(buffer, s.offset, sizes[0])), sizes[1..])
  }

  /** However a reader divides its buffer into fields, its checksum is that of the bytes it passed. */
  lemma {:induction false} ReaderInvariant(buffer: seq<byte>, s: ReaderState, sizes: seq<nat>)
    requires s.offset <= |buffer| < TWO_TO_THE_64
    ensures s.offset <= ReadAll(buffer, s, sizes).offset <= |buffer|
    ensures ReadAll(buffer, s, sizes).checksum == Feed(s.checksum, buffer[s.offset..ReadAll(buffer, s, sizes).offset])
    decreases |sizes|
  {
    if |sizes| > 0 {
      var r := GetAt(buffer, s.offset, sizes[0]);
      var s' := AfterRead(s, r);
      OneRead(buffer, s, sizes[0]);
      ReaderInvariant(buffer, s', sizes[1..]);
      if r.Ok? {
        var end := ReadAll(buffer, s', sizes[1..]).offset;
        assert buffer[s.offset..end] == buffer[s.offset..s'.offset] + buffer[s'.offset..end];
        FeedAppend(s.checksum, r.value, buffer[s'.offset..end]);
      }
    }
  }

  lemma OneRead(buffer: seq<byte>, s: ReaderState, size: nat)
    requires s.offset <= |buffer| < TWO_TO_THE_64
    ensures var r := GetAt(buffer, s.offset, size);
            var s' := AfterRead(s, r);
            s.offset <= s'.offset <= |buffer| && (r.Ok? ==> r.value == buffer[s.offset..s'.offset])
            && s'.checksum == if r.Ok? then Feed(s.checksum, r.value) else s.checksum
  {
    var r := GetAt(buffer, s.offset, size);
    if r.Ok? {
      NoWrap(s.offset, |r.value|);
    }
  }

  /**
   A reader that passes over exactly what a writer wrote sequentially gets the writer's checksum,
   however the two divide the bytes into fields.
   */
  lemma ReaderMatchesWriter(content: seq<byte>, ops: seq<WriterOp>, sizes: seq<nat>)
    requires forall i :: 0 <= i < |ops| ==> ops[i].Write?
    requires |content| < TWO_TO_THE_64
    requires var w := Run(WriterState(content, 0, EMPTY), ops);
             ReadAll(w.content, ReaderState(0, EMPTY), sizes).offset == w.offset
    ensures var w := Run(WriterState(content, 0, EMPTY), ops);
            ReadAll(w.content, ReaderState(0, EMPTY), sizes).checksum == w.checksum
  {
    var s := WriterState(content, 0, EMPTY);
    var w := Run(s, ops);
    assert w.checksum == Feed(EMPTY, Written(s, ops)) && |w.content| == |content| by { WriterInvariant(s, ops); }
    assert w.content[0..w.offset] == Written(s, ops) by { WrittenLies(content, ops); }
    ReaderInvariant(w.content, ReaderState(0, EMPTY), sizes);
  }

  /** What was written sequentially lies in front of the cursor. */
  lemma WrittenLies(content: seq<byte>, ops: seq<WriterOp>)
    requires forall i :: 0 <= i < |ops| ==> ops[i].Write?
    requires |content| < TWO_TO_THE_64
    ensures var s := WriterState(content, 0, EMPTY);
            var w := Run(s, ops);
            w.offset <= |w.content| && w.content[0..w.offset] == Written(s, ops)
  {
    var s := WriterState(content, 0, EMPTY);
    SequentialRun(s, ops);
    assert Run(s, ops).offset == |Written(s, ops)| by {
      WriterInvariant(s, ops);
      NoSkips(ops);
      NoWrap(0, |Written(s, ops)|);
    }
    FrontOverwritten(content, Written(s, ops));
  }

  lemma FrontOverwritten(content: seq<byte>, bytes: seq<byte>)
    requires |bytes| <= |content|
    ensures Overwrite(content, 0, bytes)[0..|bytes|] == bytes
  {
  }

  lemma {:induction false} NoSkips(ops: seq<WriterOp>)
    requires forall i :: 0 <= i < |ops| ==> ops[i].Write?
    ensures Skipped(ops) == 0
  {
    if |ops| > 0 {
      NoSkips(ops[1..]);
    }
  }
}
