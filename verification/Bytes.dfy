/**
 Machine words, error results and asio's buffer arithmetic.

 A `const_buffer` is the sequence of bytes it denotes. A `mutable_buffer` is a `Slice` of an
 array, so that a cursor moving over a buffer and the buffer share their memory.
 */
module Bytes {

  type byte = x: int | 0 <= x < 0x100
  type u16 = x: int | 0 <= x < 0x1_0000
  type u32 = x: int | 0 <= x < 0x1_0000_0000
  type u64 = x: int | 0 <= x < 0x1_0000_0000_0000_0000

  datatype Option<+T> = None | Some(value: T)

  /** The exceptions the codecs throw. */
  datatype Error = InvalidBufferSize | InvalidArpPacketError | InvalidIp4PacketError

  /** A returned value, or a thrown exception. */
  datatype Result<+T> = Ok(value: T) | Err(error: Error) {
    predicate IsFailure() {
      Err?
    }

    function PropagateFailure<U>(): Result<U>
      requires Err?
    {
      Err(error)
    }

    function Extract(): T
      requires Ok?
    {
      value
    }
  }

  /** A parsed header and the bytes that follow it. */
  datatype ParseResult<+T> = ParseResult(header: T, remaining: seq<byte>)

  function Min(a: nat, b: nat): nat {
    if a <= b then a else b
  }

  function Zeros(n: nat): (z: seq<byte>)
    ensures |z| == n
    ensures forall i :: 0 <= i < n ==> z[i] == 0
  {
    seq<byte>(n, _ => 0)
  }

  lemma ZerosAppend(m: nat, n: nat)
    ensures Zeros(m) + Zeros(n) == Zeros(m + n)
  {
  }

  /** `buffer + n`: moves the start of a buffer forward, saturating at its end. */
  function Advance(buffer: seq<byte>, n: nat): seq<byte> {
    buffer[Min(n, |buffer|)..]
  }

  /** `asio::buffer(buffer, n)`: at most the first `n` bytes. */
  function Limit(buffer: seq<byte>, n: nat): seq<byte> {
    buffer[..Min(n, |buffer|)]
  }

  lemma AdvanceTake(data: seq<byte>, at: nat, n: nat)
    requires at + n <= |data|
    ensures Advance(data, at)[..n] == data[at..at + n]
  {
  }

  lemma Middle(a: seq<byte>, b: seq<byte>, c: seq<byte>)
    ensures (a + b + c)[|a|..|a| + |b|] == b
  {
  }

  /** The bytes `s` with those from position `at` on replaced by `bs`. */
  function Overwrite(s: seq<byte>, at: nat, bs: seq<byte>): (r: seq<byte>)
    requires at + |bs| <= |s|
    ensures |r| == |s|
    ensures forall i {:trigger r[i]} :: 0 <= i < |s| ==> r[i] == if at <= i < at + |bs| then bs[i - at] else s[i]
  {
    s[..at] + bs + s[at + |bs|..]
  }

  /** Two adjacent writes are one write of the concatenation. */
  lemma OverwriteAdjacent(s: seq<byte>, at: nat, a: seq<byte>, b: seq<byte>)
    requires at + |a| + |b| <= |s|
    ensures Overwrite(Overwrite(s, at, a), at + |a|, b) == Overwrite(s, at, a + b)
  {
  }

  /** Three adjacent writes, one after the other. */
  lemma ThreeWrites(m0: seq<byte>, m1: seq<byte>, m2: seq<byte>, at: nat, a: seq<byte>, b: seq<byte>, c: seq<byte>)
    requires at + |a| + |b| + |c| <= |m0|
    requires m1 == Overwrite(m0, at, a) && m2 == Overwrite(m1, at + |a|, b)
    ensures Overwrite(m2, at + |a| + |b|, c) == Overwrite(m0, at, a + b + c)
  {
    OverwriteAdjacent(m0, at, a, b);
    OverwriteAdjacent(m0, at, a + b, c);
  }

  /** Writing inside a part of the memory is writing that part with the change made. */
  lemma OverwriteNested(s: seq<byte>, start: nat, part: seq<byte>, at: nat, bs: seq<byte>)
    requires start + |part| <= |s| && at + |bs| <= |part|
    ensures Overwrite(Overwrite(s, start, part), start + at, bs) == Overwrite(s, start, Overwrite(part, at, bs))
  {
  }

  /** An `asio::mutable_buffer`. */
  datatype Slice = Slice(mem: array<byte>, start: nat, len: nat) {
    predicate Valid() {
      start + len <= mem.Length
    }

    function Content(): (s: seq<byte>)
      requires Valid()
      reads mem
      ensures |s| == len
    {
      mem[start..start + len]
    }

    /** `buffer + n`. */
    function Advance(n: nat): (s: Slice)
      requires Valid()
      ensures s.Valid() && s.mem == mem
    {
      Slice(mem, start + Min(n, len), len - Min(n, len))
    }
  }

  lemma AdvanceContent(s: Slice, n: nat)
    requires s.Valid()
    ensures s.Advance(n).Content() == Advance(s.Content(), n)
  {
  }

  /** `asio::buffer_copy`: copies as many bytes as both buffers have. */
  method BufferCopy(target: Slice, source: seq<byte>) returns (n: nat)
    requires target.Valid()
    modifies target.mem
    ensures n == Min(target.len, |source|)
    ensures target.mem[..] == Overwrite(old(target.mem[..]), target.start, source[..n])
    ensures n == |source| ==> target.mem[..] == Overwrite(old(target.mem[..]), target.start, source)
  {
    n := Min(target.len, |source|);
    for i := 0 to n
      invariant target.mem[..] == Overwrite(old(target.mem[..]), target.start, source[..i])
    {
      target.mem[target.start + i] := source[i];
    }
    assert n == |source| ==> source[..n] == source;
  }
}
