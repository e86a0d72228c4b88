/**
 The incremental Internet checksum (`InternetChecksum.hpp`), compared with the checksum of
 section 1 of RFC 1071.
 */
module Checksum {
  import opened Bytes

  const TWO_TO_THE_64 := 0x1_0000_0000_0000_0000

  /** The two fields of the C++ class. */
  datatype ChecksumState = ChecksumState(accumulator: u64, partial: Option<byte>)

  const EMPTY := ChecksumState(0, None)

  function AddWord(accumulator: u64, high: byte, low: byte): u64 {
    (accumulator + high as int * 256 + low) % TWO_TO_THE_64
  }

  /** The effect of one more byte on the state. */
  function FeedByte(s: ChecksumState, x: byte): ChecksumState {
    match s.partial
    case None => s.(partial := Some(x))
    case Some(high) => ChecksumState(AddWord(s.accumulator, high, x), None)
  }

  /** The effect of a byte string, one byte at a time. */
  function Feed(s: ChecksumState, bs: seq<byte>): ChecksumState
    decreases |bs|
  {
    if |bs| == 0 then s else Feed(FeedByte(s, bs[0]), bs[1..])
  }

  /** The value of `accumulator` on the first line of `GetChecksum`. */
  function Total(s: ChecksumState): u64 {
    match s.partial
    case None => s.accumulator
    case Some(high) => AddWord(s.accumulator, high, 0)
  }

  /** The single fold of `GetChecksum`: bits 16 to 31 plus bits 0 to 15, complemented, cut to 16 bits. */
  function FoldOnce(total: nat): u16 {
    (0xFFFF - (total / 0x1_0000 % 0x1_0000 + total % 0x1_0000)) % 0x1_0000
  }

  /** What `GetChecksum` returns after exactly `bs` was added. */
  function ChecksumOf(bs: seq<byte>): u16 {
    FoldOnce(Total(Feed(EMPTY, bs)))
  }

  class InternetChecksum {
    var accumulator: u64
    var partial: Option<byte>

    function State(): ChecksumState
      reads this
    {
      ChecksumState(accumulator, partial)
    }

    constructor ()
      ensures State() == EMPTY
    {
      accumulator, partial := 0, None;
    }

    method AddPair(a: byte, b: byte)
      modifies this
      ensures State() == ChecksumState(AddWord(old(accumulator), a, b), old(partial))
    {
      accumulator := (accumulator + (a as int * 256 + b)) % TWO_TO_THE_64;
    }

    method AddByte(x: byte)
      modifies this
      ensures State() == FeedByte(old(State()), x)
    {
      if partial.Some? {
        AddPair(partial.value, x);
        partial := None;
      } else {
        partial := Some(x);
      }
    }

    /** Feeding pairs from the second byte of a split pair on is feeding byte by byte. */
    method AddBuffer(bytes: seq<byte>)
      modifies this
      ensures State() == Feed(old(State()), bytes)
    {
      if |bytes| == 0 {
        return;
      }
      var buffer := bytes;
      if partial.Some? {
        AddByte(buffer[0]);
        buffer := Advance(buffer, 1);
      }
      ghost var before, whole := State(), buffer;
      assert Feed(old(State()), bytes) == Feed(before, whole);
      var bytePairCount := |buffer| / 2;
      for i := 0 to bytePairCount
        invariant State() == Feed(before, whole[..i * 2]) && partial.None?
      {
        AddPair(buffer[i * 2 + 0], buffer[i * 2 + 1]);
        FeedPair(before, whole, i);
      }
      buffer := Advance(buffer, bytePairCount * 2);
      assert whole == whole[..bytePairCount * 2] + buffer;
      FeedAppend(before, whole[..bytePairCount * 2], buffer);
      if |buffer| == 1 {
        AddByte(buffer[0]);
        buffer := Advance(buffer, 1);
      }
      assert |buffer| == 0;
    }

    method GetChecksum() returns (c: u16)
      ensures c == FoldOnce(Total(State()))
    {
      var sum := (accumulator + (if partial.Some? then partial.value as int else 0) * 256) % TWO_TO_THE_64;
      c := (-1 - ((sum / 0x1_0000) % 0x1_0000 + sum % 0x1_0000)) % 0x1_0000;
    }
  }

  // ---------------------------------------------------------------------------------------------
  // The state depends only on the concatenation of what was added.

  lemma {:induction false} FeedAppend(s: ChecksumState, a: seq<byte>, b: seq<byte>)
    ensures Feed(s, a + b) == Feed(Feed(s, a), b)
    decreases |a|
  {
    if |a| == 0 {
      assert a + b == b;
    } else {
      assert (a + b)[1..] == a[1..] + b;
      FeedAppend(FeedByte(s, a[0]), a[1..], b);
    }
  }

  lemma FeedPair(s: ChecksumState, buffer: seq<byte>, i: nat)
    requires i * 2 + 2 <= |buffer|
    ensures Feed(s, buffer[..(i + 1) * 2])
            == FeedByte(FeedByte(Feed(s, buffer[..i * 2]), buffer[i * 2]), buffer[i * 2 + 1])
  {
    var pair := [buffer[i * 2], buffer[i * 2 + 1]];
    assert buffer[..(i + 1) * 2] == buffer[..i * 2] + pair;
    FeedAppend(s, buffer[..i * 2], pair);
    assert pair[1..] == [buffer[i * 2 + 1]];
    assert Feed(Feed(s, buffer[..i * 2]), pair) == Feed(FeedByte(Feed(s, buffer[..i * 2]), pair[0]), [pair[1]]);
  }

  /** Any division of a message into chunks, including odd and empty ones. */
  function FeedChunks(s: ChecksumState, chunks: seq<seq<byte>>): ChecksumState
    decreases |chunks|
  {
    if |chunks| == 0 then s else FeedChunks(Feed(s, chunks[0]), chunks[1..])
  }

  function Concat(chunks: seq<seq<byte>>): seq<byte> {
    if |chunks| == 0 then [] else chunks[0] + Concat(chunks[1..])
  }

  lemma {:induction false} FeedChunksIsFeedConcat(s: ChecksumState, chunks: seq<seq<byte>>)
    ensures FeedChunks(s, chunks) == Feed(s, Concat(chunks))
    decreases |chunks|
  {
    if |chunks| > 0 {
      FeedAppend(s, chunks[0], Concat(chunks[1..]));
      FeedChunksIsFeedConcat(Feed(s, chunks[0]), chunks[1..]);
    }
  }

  // ---------------------------------------------------------------------------------------------
  // RFC 1071

  /** The ordinary sum of the 16-bit words of a message, an odd last byte padded with zero. */
  function WordSum(bs: seq<byte>): nat {
    if |bs| == 0 then 0
    else if |bs| == 1 then bs[0] as int * 256
    else bs[0] as int * 256 + bs[1] + WordSum(bs[2..])
  }

  /** One's-complement addition, with end-around carry. */
  function OnesAdd(a: u16, b: u16): u16 {
    if a + b >= 0x1_0000 then a + b - 0xFFFF else a + b
  }

  /** The one's-complement sum of the words of a message. */
  function OnesSum(bs: seq<byte>): u16 {
    if |bs| == 0 then 0
    else if |bs| == 1 then bs[0] as int * 256
    else OnesAdd(bs[0] as int * 256 + bs[1], OnesSum(bs[2..]))
  }

  function Rfc1071(bs: seq<byte>): u16 {
    0xFFFF - OnesSum(bs)
  }

  /** A message whose checksum field is filled in verifies when its sum is all ones. */
  predicate Verifies(bs: seq<byte>) {
    OnesSum(bs) == 0xFFFF
  }

  /** The one's-complement representative of a number: zero only for zero. */
  function Residue(n: nat): u16 {
    if n == 0 then 0 else 1 + (n - 1) % 0xFFFF
  }

  /** The representative of a number given as a small remainder and a multiple of 65535. */
  lemma ResidueOf(n: nat, k: nat, m: nat)
    requires n == 0xFFFF * k + m && m <= 3 * 0xFFFF
    ensures Residue(n) == if n == 0 then 0 else if m == 0 then 0xFFFF
                          else if m <= 0xFFFF then m else if m <= 0x1_FFFE then m - 0xFFFF else m - 0x1_FFFE
  {
  }

  lemma ResidueAdd(a: u16, n: nat)
    ensures Residue(a + n) == OnesAdd(a, Residue(n))
  {
    if n > 0 {
      var k, m := (n - 1) / 0xFFFF, 1 + (n - 1) % 0xFFFF;
      ResidueOf(n, k, m);
      ResidueOf(a + n, k, a + m);
    }
  }

  lemma {:induction false} OnesSumIsResidue(bs: seq<byte>)
    ensures OnesSum(bs) == Residue(WordSum(bs))
  {
    if |bs| >= 2 {
      OnesSumIsResidue(bs[2..]);
      ResidueAdd(bs[0] as int * 256 + bs[1], WordSum(bs[2..]));
    }
  }

  lemma {:induction false} WordSumAppend(a: seq<byte>, b: seq<byte>)
    requires |a| % 2 == 0
    ensures WordSum(a + b) == WordSum(a) + WordSum(b)
  {
    if |a| == 0 {
      assert a + b == b;
    } else {
      assert (a + b)[2..] == a[2..] + b;
      WordSumAppend(a[2..], b);
    }
  }

  lemma {:induction false} WordSumZeros(n: nat)
    ensures WordSum(Zeros(n)) == 0
  {
    if n >= 2 {
      assert Zeros(n)[2..] == Zeros(n - 2);
      WordSumZeros(n - 2);
    }
  }

  /** Appended zeros never count, whatever the parity of the message. */
  lemma {:induction false} WordSumPadding(bs: seq<byte>, n: nat)
    ensures WordSum(bs + Zeros(n)) == WordSum(bs)
  {
    if |bs| == 0 {
      assert bs + Zeros(n) == Zeros(n);
      WordSumZeros(n);
    } else if |bs| == 1 {
      if n > 0 {
        assert (bs + Zeros(n))[2..] == Zeros(n - 1);
        WordSumZeros(n - 1);
      }
    } else {
      assert (bs + Zeros(n))[2..] == bs[2..] + Zeros(n);
      WordSumPadding(bs[2..], n);
    }
  }

  lemma {:induction false} WordSumBound(bs: seq<byte>)
    ensures WordSum(bs) <= (|bs| + 1) / 2 * 0xFFFF
  {
    if |bs| >= 2 {
      WordSumBound(bs[2..]);
    }
  }

  lemma ModAdd(a: nat, b: nat)
    ensures (a % TWO_TO_THE_64 + b) % TWO_TO_THE_64 == (a + b) % TWO_TO_THE_64
  {
    var q := a / TWO_TO_THE_64;
    assert a + b == q * TWO_TO_THE_64 + (a % TWO_TO_THE_64 + b);
  }

  /** The 64-bit total is the word sum, modulo 2^64. */
  lemma {:induction false} TotalIsWordSum(s: ChecksumState, bs: seq<byte>)
    requires s.partial.None?
    ensures Total(Feed(s, bs)) == (s.accumulator + WordSum(bs)) % 0x1_0000_0000_0000_0000
    decreases |bs|
  {
    if |bs| == 1 {
      assert Feed(s, bs) == Feed(FeedByte(s, bs[0]), []);
    } else if |bs| >= 2 {
      var s' := FeedByte(FeedByte(s, bs[0]), bs[1]);
      assert bs[1..][1..] == bs[2..];
      assert Feed(s, bs) == Feed(FeedByte(s, bs[0]), bs[1..]) == Feed(s', bs[2..]);
      TotalIsWordSum(s', bs[2..]);
      ModAdd(s.accumulator + bs[0] as int * 256 + bs[1], WordSum(bs[2..]));
    }
  }

  lemma Halves(k: nat, low: u16)
    ensures (0x1_0000 * k + low) / 0x1_0000 == k && (0x1_0000 * k + low) % 0x1_0000 == low
  {
  }

  lemma FoldOnceIgnoresWrap(n: nat)
    ensures FoldOnce(n % TWO_TO_THE_64) == FoldOnce(n)
  {
    var q, r := n / TWO_TO_THE_64, n % TWO_TO_THE_64;
    var top, hi, lo := r / 0x1_0000 / 0x1_0000, r / 0x1_0000 % 0x1_0000, r % 0x1_0000;
    var top' := 0x1_0000_0000 * q + top;
    assert r == 0x1_0000 * (0x1_0000 * top + hi) + lo;
    assert n == 0x1_0000 * (0x1_0000 * top' + hi) + lo;
    Halves(0x1_0000 * top' + hi, lo);
    Halves(top', hi);
  }

  lemma ChecksumOfIsFold(bs: seq<byte>)
    ensures ChecksumOf(bs) == FoldOnce(WordSum(bs))
  {
    TotalIsWordSum(EMPTY, bs);
    FoldOnceIgnoresWrap(WordSum(bs));
  }

  // ---------------------------------------------------------------------------------------------
  // How far GetChecksum is from RFC 1071

  /** Bits 16 to 31 plus bits 0 to 15 of the accumulator. */
  function HalvesSum(total: nat): nat {
    total / 0x1_0000 % 0x1_0000 + total % 0x1_0000
  }

  /** The bits that `GetChecksum` never looks at. */
  function Overflow(total: nat): nat {
    total / 0x1_0000_0000
  }

  /** The fold of `GetChecksum` produces no second carry. */
  predicate NoSecondCarry(bs: seq<byte>) {
    HalvesSum(WordSum(bs)) < 0x1_0000
  }

  /** 2^16 and 2^32 are one modulo 65535. */
  lemma SplitHalves(n: nat) returns (k: nat)
    ensures n == 0xFFFF * k + Overflow(n) % 0xFFFF + HalvesSum(n)
    ensures n == 0 <==> Overflow(n) == HalvesSum(n) == 0
  {
    var top, hi, lo := Overflow(n), n / 0x1_0000 % 0x1_0000, n % 0x1_0000;
    assert n / 0x1_0000 == top * 0x1_0000 + hi;
    k := top / 0xFFFF + top * 0x1_0001 + hi;
  }

  lemma FoldOnceOfHalves(n: nat)
    ensures FoldOnce(n) == if HalvesSum(n) < 0x1_0000 then 0xFFFF - HalvesSum(n) else 0x1_FFFF - HalvesSum(n)
  {
  }

  lemma FoldVersusResidue(n: nat)
    requires n < 0x1_0000_0000
    ensures FoldOnce(n) == 0xFFFF - Residue(n) + if HalvesSum(n) < 0x1_0000 then 0 else 1
  {
    FoldOnceOfHalves(n);
    var k := SplitHalves(n);
    ResidueOf(n, k, HalvesSum(n));
  }

  /** At most 131074 bytes never reach bit 32 of the accumulator. */
  lemma ShortTotal(bs: seq<byte>)
    requires |bs| <= 131074
    ensures Total(Feed(EMPTY, bs)) == WordSum(bs) < 0x1_0000_0000
  {
    WordSumBound(bs);
    assert (|bs| + 1) / 2 <= 65537;
    TotalIsWordSum(EMPTY, bs);
  }

  /**
   Messages of at most 131074 bytes never reach bit 32 of the accumulator. For them `GetChecksum`
   is the RFC 1071 checksum if the fold makes no second carry, and one more if it does.
   */
  lemma ChecksumCharacterised(bs: seq<byte>)
    requires |bs| <= 131074
    ensures Total(Feed(EMPTY, bs)) == WordSum(bs) < 0x1_0000_0000
    ensures ChecksumOf(bs) as int == if NoSecondCarry(bs) then Rfc1071(bs) else Rfc1071(bs) as int + 1
  {
    ShortTotal(bs);
    ChecksumOfIsFold(bs);
    OnesSumIsResidue(bs);
    FoldVersusResidue(WordSum(bs));
  }

  lemma ResidueOfParts(n: nat)
    ensures var m := Overflow(n) % 0xFFFF + HalvesSum(n);
            Residue(n) == if n == 0 then 0 else if m == 0 then 0xFFFF
                          else if m <= 0xFFFF then m else if m <= 0x1_FFFE then m - 0xFFFF else m - 0x1_FFFE
    ensures n == 0 <==> Overflow(n) == HalvesSum(n) == 0
    ensures HalvesSum(n) <= 0x1_FFFE
  {
    var k := SplitHalves(n);
    ResidueOf(n, k, Overflow(n) % 0xFFFF + HalvesSum(n));
  }

  /**
   Messages of any length: the unread high bits must vanish modulo 65535 if there is no second
   carry, and must make up for it if there is one.
   */
  lemma ChecksumExact(bs: seq<byte>)
    ensures var n := WordSum(bs);
            ChecksumOf(bs) == Rfc1071(bs)
            <==> if NoSecondCarry(bs) then Overflow(n) % 0xFFFF == 0 && (HalvesSum(n) == 0 ==> Overflow(n) == 0)
                 else Overflow(n) % 0xFFFF == 0xFFFE && HalvesSum(n) != 0x1_0000
  {
    ChecksumOfIsFold(bs);
    OnesSumIsResidue(bs);
    var n := WordSum(bs);
    ResidueOfParts(n);
    FoldOnceOfHalves(n);
    FoldVersusParts(Overflow(n) % 0xFFFF, HalvesSum(n), n == 0, Residue(n), FoldOnce(n));
  }

  lemma FoldVersusParts(high: nat, halves: nat, zero: bool, residue: nat, fold: int)
    requires high < 0xFFFF && halves <= 0x1_FFFE && (zero ==> high == halves == 0)
    requires fold == if halves < 0x1_0000 then 0xFFFF - halves else 0x1_FFFF - halves
    requires var m := high + halves;
             residue == if zero then 0 else if m == 0 then 0xFFFF
                        else if m <= 0xFFFF then m else if m <= 0x1_FFFE then m - 0xFFFF else m - 0x1_FFFE
    ensures fold == 0xFFFF - residue
            <==> if halves < 0x1_0000 then high == 0 && (halves == 0 ==> zero) else high == 0xFFFE && halves != 0x1_0000
  {
  }

  /** Six bytes for which `GetChecksum` misses the second carry. */
  lemma SecondCarryExample()
    ensures var bs := [0xFF, 0xFF, 0xFF, 0xFF, 0x00, 0x01];
            ChecksumOf(bs) == 0xFFFF && Rfc1071(bs) == 0xFFFE && !NoSecondCarry(bs)
  {
    var bs: seq<byte> := [0xFF, 0xFF, 0xFF, 0xFF, 0x00, 0x01];
    assert bs[2..] == [0xFF, 0xFF, 0x00, 0x01] && bs[2..][2..] == [0x00, 0x01] && bs[2..][2..][2..] == [];
    assert WordSum(bs) == 0x1_FFFF;
    ChecksumCharacterised(bs);
    OnesSumIsResidue(bs);
  }

  /** Trailing zeros change neither the computed checksum nor whether a message verifies. */
  lemma PaddingTransparent(bs: seq<byte>, n: nat)
    ensures ChecksumOf(bs + Zeros(n)) == ChecksumOf(bs)
    ensures Verifies(bs + Zeros(n)) == Verifies(bs)
  {
    WordSumPadding(bs, n);
    ChecksumOfIsFold(bs);
    ChecksumOfIsFold(bs + Zeros(n));
    OnesSumIsResidue(bs);
    OnesSumIsResidue(bs + Zeros(n));
  }

  /** The number whose fold has been added to it. */
  lemma FilledResidue(n: nat)
    ensures var r := Residue(n + FoldOnce(n));
            var carry := HalvesSum(n) >= 0x1_0000;
            (Overflow(n) == 0 ==> r == if carry then 1 else 0xFFFF)
            && (r == 0xFFFF <==> Overflow(n) % 0xFFFF == if carry then 0xFFFE else 0)
  {
    var high, halves, fold := Overflow(n) % 0xFFFF, HalvesSum(n), FoldOnce(n);
    var k := SplitHalves(n);
    assert halves <= 0x1_FFFE;
    FoldOnceOfHalves(n);
    ResidueOf(n + fold, k, high + halves + fold);
    FoldAdded(high, halves, fold, Residue(n + fold));
  }

  lemma FoldAdded(high: nat, halves: nat, fold: nat, residue: nat)
    requires high < 0xFFFF && halves <= 0x1_FFFE
    requires fold == if halves < 0x1_0000 then 0xFFFF - halves else 0x1_FFFF - halves
    requires var m := high + halves + fold;
             residue == if m <= 0xFFFF then m else if m <= 0x1_FFFE then m - 0xFFFF else m - 0x1_FFFE
    ensures high == 0 ==> residue == if halves >= 0x1_0000 then 1 else 0xFFFF
    ensures residue == 0xFFFF <==> high == if halves >= 0x1_0000 then 0xFFFE else 0
  {
  }

  /**
   A message that holds the checksum of itself taken with a zero field: `zeroed` is the message
   with the field zero and `filled` the message with the field filled in. It verifies exactly
   when the fold makes no second carry, as long as the high bits stay zero; it then sums to all ones,
   and otherwise to one.
   */
  lemma FilledSum(zeroed: seq<byte>, filled: seq<byte>)
    requires WordSum(filled) == WordSum(zeroed) + ChecksumOf(zeroed)
    ensures Overflow(WordSum(zeroed)) == 0 ==> OnesSum(filled) == if NoSecondCarry(zeroed) then 0xFFFF else 1
    ensures Verifies(filled) <==> Overflow(WordSum(zeroed)) % 0xFFFF == if NoSecondCarry(zeroed) then 0 else 0xFFFE
  {
    ChecksumOfIsFold(zeroed);
    OnesSumIsResidue(filled);
    FilledResidue(WordSum(zeroed));
  }

  // ---------------------------------------------------------------------------------------------
  // The parts of a message

  predicate Congruent(m: nat, n: nat) {
    m % 0xFFFF == n % 0xFFFF
  }

  /** The bytes `b` as they count behind `n` bytes: with a zero in front when they start inside a word. */
  function Aligned(n: nat, b: seq<byte>): seq<byte> {
    if n % 2 == 0 then b else [0] + b
  }

  lemma {:induction false} WordSumSplit(a: seq<byte>, b: seq<byte>)
    ensures WordSum(a + b) == WordSum(a) + WordSum(Aligned(|a|, b))
  {
    if |a| == 0 {
      assert a + b == b;
    } else if |a| == 1 {
      if |b| > 0 {
        assert (a + b)[2..] == b[1..];
        assert ([0] + b)[2..] == b[1..];
      } else {
        assert a + b == a;
      }
    } else {
      assert (a + b)[2..] == a[2..] + b;
      WordSumSplit(a[2..], b);
    }
  }

  lemma CongruentSum(m: nat, n: nat)
    ensures Congruent(n, m + n) <==> m % 0xFFFF == 0
  {
    var k, r, l, t := m / 0xFFFF, m % 0xFFFF, n / 0xFFFF, n % 0xFFFF;
    if r + t < 0xFFFF {
      assert m + n == 0xFFFF * (k + l) + (r + t);
    } else {
      assert m + n == 0xFFFF * (k + l + 1) + (r + t - 0xFFFF);
    }
  }

  /**
   What a message sums to, modulo 65535, once its checksum is filled in: the unread high bits and the
   second carry of the message with a zero field.
   */
  function Excess(zeroed: seq<byte>): nat {
    Overflow(WordSum(zeroed)) + if NoSecondCarry(zeroed) then 0 else 1
  }

  lemma FilledCongruent(zeroed: seq<byte>, filled: seq<byte>)
    requires WordSum(filled) == WordSum(zeroed) + ChecksumOf(zeroed)
    ensures Congruent(WordSum(filled), Excess(zeroed))
  {
    var n := WordSum(zeroed);
    ChecksumOfIsFold(zeroed);
    var k := SplitHalves(n);
    FoldOnceOfHalves(n);
    FoldAddedCongruent(n, k, Overflow(n), HalvesSum(n), FoldOnce(n), if NoSecondCarry(zeroed) then 0 else 1);
  }

  lemma FoldAddedCongruent(n: nat, k: nat, high: nat, halves: nat, fold: nat, carry: nat)
    requires n == 0xFFFF * k + high % 0xFFFF + halves && halves + fold == 0xFFFF * (1 + carry) + carry
    ensures Congruent(n + fold, high + carry)
  {
    Multiples(k + 1 + carry, high % 0xFFFF + carry);
    Multiples(high / 0xFFFF, high % 0xFFFF + carry);
  }

  lemma Multiples(k: nat, m: nat)
    ensures Congruent(0xFFFF * k + m, m)
  {
  }

  lemma FullResidue(n: nat)
    ensures Residue(n) == 0xFFFF <==> n > 0 && n % 0xFFFF == 0
  {
  }

  /** What the bytes behind the first `n` count. */
  function RestSum(message: seq<byte>, n: nat): nat {
    WordSum(Aligned(Min(n, |message|), Advance(message, n)))
  }

  lemma PartSum(message: seq<byte>, n: nat)
    ensures WordSum(message) == WordSum(Limit(message, n)) + RestSum(message, n)
  {
    WordSumSplit(Limit(message, n), Advance(message, n));
    assert message == Limit(message, n) + Advance(message, n);
  }

  /** The front of a message verifies exactly when it is not zero and the rest counts as much as the whole. */
  lemma PartVerifies(message: seq<byte>, n: nat, front: seq<byte>)
    requires front == Limit(message, n)
    ensures Verifies(front) <==> WordSum(front) > 0 && Congruent(RestSum(message, n), WordSum(message))
  {
    PartSum(message, n);
    OnesSumIsResidue(front);
    FullResidue(WordSum(front));
    CongruentSum(WordSum(front), RestSum(message, n));
  }

  lemma AlignedZeros(n: nat, m: nat)
    ensures WordSum(Aligned(n, Zeros(m))) == 0
  {
    assert Aligned(n, Zeros(m)) == Zeros(|Aligned(n, Zeros(m))|);
    WordSumZeros(|Aligned(n, Zeros(m))|);
  }

  lemma VerifiesIsCongruent(message: seq<byte>, n: nat)
    requires Verifies(message)
    ensures Congruent(n, WordSum(message)) <==> Congruent(n, 0)
  {
    OnesSumIsResidue(message);
    FullResidue(WordSum(message));
  }

  /** A rest that counts nothing. */
  lemma ZeroPart(message: seq<byte>, n: nat)
    requires RestSum(message, n) == 0
    ensures Verifies(Limit(message, n)) <==> Verifies(message)
  {
    PartSum(message, n);
    OnesSumIsResidue(Limit(message, n));
    OnesSumIsResidue(message);
  }
}
