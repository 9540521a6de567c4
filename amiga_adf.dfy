/**
 * The Amiga disk image check (src/amiga.ts:1-72): an ADF image is a
 * whole number of 512-byte blocks, and the root block sits at the middle
 * block. It is accepted when its primary type (the big-endian word at
 * byte 0) is HEADER = 2, its secondary type (the last word) is ROOT = 1,
 * and the stored checksum (word 5, signed) equals the negated 32-bit sum
 * of the other 127 words. An accepted block yields three timestamps, each
 * three big-endian words: days since 1 February 1978, minutes into the
 * day, and ticks of 1/50 second.
 */
module AmigaAdf {
  import opened Bytes

  const BlockSize: int := 512
  const WordCount: int := 128
  const TypeHeader: int := 2
  const SecondaryTypeRoot: int := 1
  const ChecksumWord: int := 5

  /** A raw ADF timestamp: the three fields as stored. */
  datatype AdfDate = AdfDate(days: int, minutes: int, ticks: int)

  /** The three timestamps of an accepted root block. */
  datatype RootInfo = RootInfo(rootLastModifiedAt: AdfDate, diskLastModifiedAt: AdfDate, formattedAt: AdfDate)

  /** The error the `DataView` constructor throws for a view past the buffer's end. */
  datatype AdfError = RangeError

  const MsPerDay: int := 1000 * 60 * 60 * 24
  const MsPerMinute: int := 1000 * 60
  const MsPerTick: int := 20

  /** `readADFDate` without the `Date`: the three big-endian fields at offset. */
  function ReadDate(block: seq<byte>, offset: nat): (d: AdfDate)
    requires offset + 12 <= |block|
    ensures 0 <= d.days < TWO32 && 0 <= d.minutes < TWO32 && 0 <= d.ticks < TWO32
  {
    AdfDate(BE32(block, offset), BE32(block, offset + 4), BE32(block, offset + 8))
  }

  /** The instant a timestamp denotes, in milliseconds after the start of 1 February 1978. */
  function MillisAfterEpoch(d: AdfDate): int
  {
    d.days * MsPerDay + d.minutes * MsPerMinute + d.ticks * MsPerTick
  }

  /** Word i of a block, big-endian (`getUint32(i * 4, false)`). */
  function Word(block: seq<byte>, i: nat): (w: int)
    requires 4 * i + 4 <= |block|
    ensures 0 <= w < TWO32
  {
    BE32(block, 4 * i)
  }

  /** The sum of the first n words. */
  function WordsSum(block: seq<byte>, n: nat): int
    requires 4 * n <= |block|
  {
    if n == 0 then 0 else WordsSum(block, n - 1) + Word(block, n - 1)
  }

  /** The sum of the first n words, skipping the checksum word. */
  function OthersSum(block: seq<byte>, n: nat): int
    requires 4 * n <= |block|
  {
    if n == 0 then 0
    else OthersSum(block, n - 1) + (if n - 1 == ChecksumWord then 0 else Word(block, n - 1))
  }

  lemma {:induction false} OthersSumSplit(block: seq<byte>, n: nat)
    requires 4 * n <= |block|
    ensures WordsSum(block, n) == OthersSum(block, n) + (if n > ChecksumWord then Word(block, ChecksumWord) else 0)
  {
    if n > 0 {
      OthersSumSplit(block, n - 1);
    }
  }

  /**
   * The checksum test as written: the other words summed with `| 0` after
   * every addition, the result negated as a JavaScript number, and
   * compared with the stored word read as a signed 32-bit integer.
   */
  predicate ChecksumMatches(block: seq<byte>)
    requires |block| == BlockSize
  {
    -ToInt32(OthersSum(block, WordCount)) == ToInt32(Word(block, ChecksumWord))
  }

  /** `verifyRootBlock` on the 512 bytes of a block. */
  function RootBlock(block: seq<byte>): (r: Option<RootInfo>)
    requires |block| == BlockSize
    ensures r.Some? ==> BE32(block, 0) == TypeHeader && BE32(block, BlockSize - 4) == SecondaryTypeRoot
  {
    if BE32(block, 0) != TypeHeader then None
    else if BE32(block, BlockSize - 4) != SecondaryTypeRoot then None
    else if !ChecksumMatches(block) then None
    else Some(RootInfo(ReadDate(block, BlockSize - 92), ReadDate(block, BlockSize - 40), ReadDate(block, BlockSize - 28)))
  }

  /** One step of the checksum loop, `(checksum + word) | 0`, keeps the sum modulo 2^32. */
  lemma AddWrapped(a: int, w: int)
    ensures ToInt32(ToInt32(a) + w) == ToInt32(a + w)
  {
    var m := (ToInt32(a) - a) / TWO32;
    assert ToInt32(a) + w == a + w + TWO32 * m;
    ToInt32Congruent(a + w, m);
  }

  /** `verifyRootBlock`: the type tags, then the checksum loop over the words but word 5, then the dates. */
  method VerifyRootBlock(block: seq<byte>) returns (r: Option<RootInfo>)
    requires |block| == BlockSize
    ensures r == RootBlock(block)
  {
    if BE32(block, 0) != TypeHeader {
      return None;
    }
    if BE32(block, |block| - 4) != SecondaryTypeRoot {
      return None;
    }
    var checksum := 0;
    for i := 0 to |block| / 4
      invariant checksum == ToInt32(OthersSum(block, i))
    {
      if i == 5 {
        continue;
      }
      AddWrapped(OthersSum(block, i), BE32(block, i * 4));
      checksum := ToInt32(checksum + BE32(block, i * 4));
    }
    checksum := -checksum;
    if checksum != ToInt32(BE32(block, 20)) {
      return None;
    }
    return Some(RootInfo(ReadDate(block, |block| - 92), ReadDate(block, |block| - 40), ReadDate(block, |block| - 28)));
  }

  /** The byte offset of the middle block of an image of n bytes. */
  function RootBlockStart(n: nat): nat
  {
    (n / BlockSize) / 2 * BlockSize
  }

  /** The root block of a non-empty image of whole blocks lies inside it. */
  lemma RootBlockInside(n: nat)
    requires n > 0 && n % BlockSize == 0
    ensures RootBlockStart(n) + BlockSize <= n
  {
    var c := n / BlockSize;
    assert n == c * BlockSize;
    assert c / 2 < c;
    assert (c / 2) * BlockSize + BlockSize <= c * BlockSize;
  }

  /**
   * `getADFStructure` up to its last statement: `null` (None) for a length
   * that is not a multiple of 512, the `DataView` constructor's RangeError
   * for an empty image, and otherwise what `verifyRootBlock` makes of the
   * middle block.
   */
  function AdfStructure(data: seq<byte>): (r: Result<Option<RootInfo>, AdfError>)
    ensures r.Err? <==> |data| == 0
    ensures |data| % BlockSize != 0 ==> r == Ok(None)
  {
    if |data| % BlockSize != 0 then Ok(None)
    else if |data| == 0 then Err(RangeError)
    else
      RootBlockInside(|data|);
      var start := RootBlockStart(|data|);
      Ok(RootBlock(data[start..start + BlockSize]))
  }

  /** `getADFStructure`: check the length, view the middle block, verify it. */
  method GetADFStructure(data: array<byte>) returns (r: Result<Option<RootInfo>, AdfError>)
    ensures r == AdfStructure(data[..])
  {
    if data.Length % BlockSize != 0 {
      return Ok(None);
    }
    var blockCount := data.Length / BlockSize;
    var rootBlockOffset := blockCount / 2;
    if rootBlockOffset * BlockSize + BlockSize > data.Length {
      return Err(RangeError);
    }
    var rootBlock := VerifyRootBlock(data[rootBlockOffset * BlockSize..rootBlockOffset * BlockSize + BlockSize]);
    return Ok(rootBlock);
  }

  /** The image examined is exactly the middle block: bytes elsewhere do not matter. */
  lemma OnlyMiddleBlockMatters(a: seq<byte>, b: seq<byte>)
    requires |a| == |b| && |a| % BlockSize == 0 && |a| > 0
    requires a[RootBlockStart(|a|)..RootBlockStart(|a|) + BlockSize] == b[RootBlockStart(|b|)..RootBlockStart(|b|) + BlockSize]
    ensures AdfStructure(a) == AdfStructure(b)
  {
  }

  /**
   * The checksum test accepts exactly when all 128 words sum to 0 modulo
   * 2^32, except when the other words alone sum to 0x80000000 modulo 2^32:
   * then `-(x | 0)` is 2^31, which no signed 32-bit word equals.
   */
  lemma ChecksumAcceptance(block: seq<byte>)
    requires |block| == BlockSize
    ensures ChecksumMatches(block) <==>
      WordsSum(block, WordCount) % TWO32 == 0 && OthersSum(block, WordCount) % TWO32 != TWO31
  {
    OthersSumSplit(block, WordCount);
    var s, w := OthersSum(block, WordCount), Word(block, ChecksumWord);
    NegatedInt32(s, w);
  }

  /** -ToInt32(s) == ToInt32(w) exactly when s + w is 0 modulo 2^32 and s is not 2^31 modulo 2^32. */
  lemma NegatedInt32(s: int, w: int)
    ensures -ToInt32(s) == ToInt32(w) <==> (s + w) % TWO32 == 0 && s % TWO32 != TWO31
  {
    var m, n := s % TWO32, w % TWO32;
    assert (s + w) % TWO32 == (m + n) % TWO32;
    assert (m + n) % TWO32 == 0 <==> m + n == 0 || m + n == TWO32;
  }

  /**
   * The block whose other words sum to 0x80000000 modulo 2^32 and whose
   * stored checksum is 0x80000000: its words sum to 0 modulo 2^32, yet the
   * test rejects it.
   */
  lemma ChecksumEdgeRejected(block: seq<byte>)
    requires |block| == BlockSize
    requires OthersSum(block, WordCount) % TWO32 == TWO31 && Word(block, ChecksumWord) == TWO31
    ensures WordsSum(block, WordCount) % TWO32 == 0
    ensures !ChecksumMatches(block)
    ensures RootBlock(block) == None
  {
    OthersSumSplit(block, WordCount);
    ChecksumAcceptance(block);
  }

  /**
   * The comparison the checksum evidently intends: the stored word equals
   * the negated sum of the others modulo 2^32 (`((-checksum) | 0)`).
   */
  predicate ChecksumMatchesIntended(block: seq<byte>)
    requires |block| == BlockSize
  {
    ToInt32(-OthersSum(block, WordCount)) == ToInt32(Word(block, ChecksumWord))
  }

  /** With the intended comparison, a block is accepted exactly when its 128 words sum to 0 modulo 2^32. */
  lemma ChecksumIntendedAcceptance(block: seq<byte>)
    requires |block| == BlockSize
    ensures ChecksumMatchesIntended(block) <==> WordsSum(block, WordCount) % TWO32 == 0
  {
    OthersSumSplit(block, WordCount);
    var s, w := OthersSum(block, WordCount), Word(block, ChecksumWord);
    NegatedInt32Intended(s, w);
  }

  /** ToInt32(-s) == ToInt32(w) exactly when s + w is 0 modulo 2^32. */
  lemma NegatedInt32Intended(s: int, w: int)
    ensures ToInt32(-s) == ToInt32(w) <==> (s + w) % TWO32 == 0
  {
    ResidueEqual(-s, w);
    ResidueNegated(s, w);
  }

  /** Two values have the same 32-bit signed view exactly when they agree modulo 2^32. */
  lemma ResidueEqual(a: int, b: int)
    ensures ToInt32(a) == ToInt32(b) <==> a % TWO32 == b % TWO32
  {
  }

  /** -s and w agree modulo 2^32 exactly when s + w is a multiple of 2^32. */
  lemma ResidueNegated(s: int, w: int)
    ensures (-s) % TWO32 == w % TWO32 <==> (s + w) % TWO32 == 0
  {
    var qs, qw, rs, rw := s / TWO32, w / TWO32, s % TWO32, w % TWO32;
    assert s == TWO32 * qs + rs && w == TWO32 * qw + rw;
    assert (-s) % TWO32 == (if rs == 0 then 0 else TWO32 - rs) by {
      if rs == 0 {
        assert -s == TWO32 * -qs;
      } else {
        assert -s == TWO32 * (-qs - 1) + (TWO32 - rs);
      }
    }
    assert (s + w) % TWO32 == (if rs + rw < TWO32 then rs + rw else rs + rw - TWO32) by {
      if rs + rw < TWO32 {
        assert s + w == TWO32 * (qs + qw) + (rs + rw);
      } else {
        assert s + w == TWO32 * (qs + qw + 1) + (rs + rw - TWO32);
      }
    }
  }

  /** The intended test also accepts the block the written test rejects. */
  lemma ChecksumEdgeIntended(block: seq<byte>)
    requires |block| == BlockSize
    requires OthersSum(block, WordCount) % TWO32 == TWO31 && Word(block, ChecksumWord) == TWO31
    ensures ChecksumMatchesIntended(block)
  {
    OthersSumSplit(block, WordCount);
    var s := OthersSum(block, WordCount);
    assert WordsSum(block, WordCount) == s + TWO31;
    assert (s + TWO31) % TWO32 == 0 by {
      assert s + TWO31 == TWO32 * (s / TWO32 + 1);
    }
    ChecksumIntendedAcceptance(block);
  }

  /** The block with bit b of byte j flipped. */
  function FlipBit(block: seq<byte>, j: nat, b: nat): (r: seq<byte>)
    requires j < |block| && b < 8
    ensures |r| == |block|
  {
    Pow2Monotone(b, 7);
    assert Pow2(7) == 128;
    block[j := XorByte(block[j], Pow2(b))]
  }

  /** XOR with 2^b clears bit b when it is set and sets it when it is clear. */
  lemma {:induction false} XorPow2(x: int, b: nat)
    requires x >= 0
    ensures Xor(x, Pow2(b)) == if BitOf(x, b) == 1 then x - Pow2(b) else x + Pow2(b)
  {
    XorStep(x, Pow2(b));
    if b == 0 {
      XorZero(x / 2);
    } else {
      XorPow2(x / 2, b - 1);
      assert Pow2(b) / 2 == Pow2(b - 1) && Pow2(b) % 2 == 0;
    }
  }

  /** The weight of byte r (0..3) within a big-endian word. */
  function ByteWeight(r: int): int
  {
    if r == 0 then 0x100_0000 else if r == 1 then 0x1_0000 else if r == 2 then 0x100 else 1
  }

  /** Changing one byte changes its word by the change times the byte's weight. */
  lemma WordUpdate(block: seq<byte>, j: nat, v: byte, i: nat)
    requires j < |block| && 4 * i + 4 <= |block|
    ensures Word(block[j := v], i) == Word(block, i) + (if j / 4 == i then (v - block[j]) * ByteWeight(j % 4) else 0)
  {
  }

  /** Changing one byte changes the sum of the words by the change in its word. */
  lemma {:induction false} WordsSumUpdate(block: seq<byte>, j: nat, v: byte, n: nat)
    requires j < |block| && 4 * n <= |block|
    ensures WordsSum(block[j := v], n) == WordsSum(block, n) + (if j / 4 < n then (v - block[j]) * ByteWeight(j % 4) else 0)
  {
    if n > 0 {
      WordsSumUpdate(block, j, v, n - 1);
      WordUpdate(block, j, v, n - 1);
    }
  }

  /** A change of ±d with 0 < d < 2^32 takes a multiple of 2^32 to a non-multiple. */
  lemma OffMultiple(t: int, d: int)
    requires t % TWO32 == 0 && 0 < d < TWO32
    ensures (t + d) % TWO32 != 0 && (t - d) % TWO32 != 0
  {
    var q := t / TWO32;
    assert t + d == TWO32 * q + d;
    assert t - d == TWO32 * (q - 1) + (TWO32 - d);
  }

  /** Flipping one bit moves the sum of the words by a power of two below 2^32. */
  lemma FlipMovesSum(block: seq<byte>, j: nat, b: nat, n: nat)
    requires |block| == 4 * n && j < |block| && b < 8
    ensures var d := Pow2(b) * ByteWeight(j % 4);
      0 < d < TWO32
      && (WordsSum(FlipBit(block, j, b), n) == WordsSum(block, n) + d
          || WordsSum(FlipBit(block, j, b), n) == WordsSum(block, n) - d)
  {
    var v := FlipDelta(block, j, b);
    assert j / 4 < n;
    WordsSumUpdate(block, j, v, n);
    WeightedBounds(Pow2(b), j % 4);
    SignedShift(WordsSum(block[j := v], n), WordsSum(block, n), v as int - block[j] as int, Pow2(b), ByteWeight(j % 4));
  }

  /** The flipped byte v differs from the old one by ±2^b, with 2^b at most 128. */
  lemma FlipDelta(block: seq<byte>, j: nat, b: nat) returns (v: byte)
    requires j < |block| && b < 8
    ensures FlipBit(block, j, b) == block[j := v]
    ensures 1 <= Pow2(b) <= 128 && (v as int - block[j] as int == Pow2(b) || v as int - block[j] as int == -Pow2(b))
  {
    Pow2Monotone(b, 7);
    assert Pow2(7) == 128;
    v := XorByte(block[j], Pow2(b));
    XorPow2(block[j], b);
  }

  lemma SignedShift(after: int, before: int, delta: int, p: int, w: int)
    requires after == before + delta * w && (delta == p || delta == -p)
    ensures after == before + p * w || after == before - p * w
  {
  }

  lemma WeightedBounds(p: int, r: int)
    requires 1 <= p <= 128
    ensures 0 < p * ByteWeight(r) < TWO32
  {
  }

  /** An accepted root block with any single bit flipped is rejected. */
  lemma SingleBitFlipRejected(block: seq<byte>, j: nat, b: nat)
    requires |block| == BlockSize && j < |block| && b < 8
    requires RootBlock(block).Some?
    ensures RootBlock(FlipBit(block, j, b)) == None
  {
    ChecksumAcceptance(block);
    ChecksumAcceptance(FlipBit(block, j, b));
    FlipMovesSum(block, j, b, WordCount);
    OffMultiple(WordsSum(block, WordCount), Pow2(b) * ByteWeight(j % 4));
  }

  /** `setUint32(offset, value, false)`: the low 32 bits of value, big-endian, at offset. */
  function PutBE32(s: seq<byte>, offset: nat, value: int): (r: seq<byte>)
    requires offset + 4 <= |s|
    ensures |r| == |s|
    ensures BE32(r, offset) == ToUint32(value)
    ensures forall k :: 0 <= k < |s| && !(offset <= k < offset + 4) ==> r[k] == s[k]
  {
    var u := ToUint32(value);
    var q1 := u / 256;
    var q2 := q1 / 256;
    var b0, b1, b2, b3 := q2 / 256, q2 % 256, q1 % 256, u % 256;
    assert u == 256 * q1 + b3 && q1 == 256 * q2 + b2 && q2 == 256 * b0 + b1;
    var r := s[..offset] + [b0, b1, b2, b3] + s[offset + 4..];
    assert r[offset] == b0 && r[offset + 1] == b1 && r[offset + 2] == b2 && r[offset + 3] == b3;
    assert u == 0x100_0000 * b0 + 0x1_0000 * b1 + 0x100 * b2 + b3;
    r
  }

  /** `writeADFDate`'s split of a millisecond offset into days, minutes and ticks (`Math.floor` each time). */
  function SplitMillis(ms: int): (d: AdfDate)
  {
    var days := ms / MsPerDay;
    var rest := ms - days * MsPerDay;
    var minutes := rest / MsPerMinute;
    var rest2 := rest - minutes * MsPerMinute;
    AdfDate(days, minutes, rest2 / MsPerTick)
  }

  /** `writeADFDate` as written: all three `setUint32` calls go to the same offset. */
  function WriteDateAsWritten(block: seq<byte>, offset: nat, ms: int): (r: seq<byte>)
    requires offset + 12 <= |block|
    ensures |r| == |block|
  {
    var d := SplitMillis(ms);
    PutBE32(PutBE32(PutBE32(block, offset, d.days), offset, d.minutes), offset, d.ticks)
  }

  /** `writeADFDate` as intended: days, minutes and ticks at offset, offset + 4 and offset + 8. */
  function WriteDate(block: seq<byte>, offset: nat, ms: int): (r: seq<byte>)
    requires offset + 12 <= |block|
    ensures |r| == |block|
  {
    var d := SplitMillis(ms);
    PutBE32(PutBE32(PutBE32(block, offset, d.days), offset + 4, d.minutes), offset + 8, d.ticks)
  }

  /** The split keeps every millisecond but the last ones below a tick, and each part fits its field. */
  lemma SplitMillisParts(ms: int)
    requires 0 <= ms
    ensures var d := SplitMillis(ms);
      MillisAfterEpoch(d) == ms - ms % MsPerTick
      && 0 <= d.days && 0 <= d.minutes < 1440 && 0 <= d.ticks < 3000
  {
    var d := SplitMillis(ms);
    var rest := ms - d.days * MsPerDay;
    var rest2 := rest - d.minutes * MsPerMinute;
    assert 0 <= rest < MsPerDay;
    assert 0 <= rest2 < MsPerMinute;
    assert rest2 == d.ticks * MsPerTick + rest2 % MsPerTick;
    assert ms == d.days * MsPerDay + d.minutes * MsPerMinute + rest2;
    assert MsPerDay == MsPerTick * 4320000 && MsPerMinute == MsPerTick * 3000;
    assert (d.days * 4320000 + d.minutes * 3000 + d.ticks) * MsPerTick + rest2 % MsPerTick == ms;
    assert ms % MsPerTick == rest2 % MsPerTick;
  }

  /**
   * As intended, a date written and read back is the same instant, to the
   * tick, for any date from 1978 on whose day count fits 32 bits.
   */
  lemma WriteReadDate(block: seq<byte>, offset: nat, ms: int)
    requires offset + 12 <= |block| && 0 <= ms < TWO32 * MsPerDay
    ensures ReadDate(WriteDate(block, offset, ms), offset) == SplitMillis(ms)
    ensures MillisAfterEpoch(ReadDate(WriteDate(block, offset, ms), offset)) == ms - ms % MsPerTick
  {
    var d := SplitMillis(ms);
    SplitMillisParts(ms);
    assert d.days < TWO32;
    var s1 := PutBE32(block, offset, d.days);
    var s2 := PutBE32(s1, offset + 4, d.minutes);
    var s3 := PutBE32(s2, offset + 8, d.ticks);
    assert s3[offset..offset + 4] == s2[offset..offset + 4] == s1[offset..offset + 4];
    assert s3[offset + 4..offset + 8] == s2[offset + 4..offset + 8];
    BE32OfSlice(s3, s1, offset);
    BE32OfSlice(s3, s2, offset + 4);
    ToUint32Small(d.days);
    ToUint32Small(d.minutes);
    ToUint32Small(d.ticks);
  }

  /** Two byte sequences agreeing on four bytes read the same big-endian word there. */
  lemma BE32OfSlice(a: seq<byte>, b: seq<byte>, offset: nat)
    requires offset + 4 <= |a| && offset + 4 <= |b| && a[offset..offset + 4] == b[offset..offset + 4]
    ensures BE32(a, offset) == BE32(b, offset)
  {
    assert a[offset] == a[offset..offset + 4][0] && a[offset + 3] == a[offset..offset + 4][3];
    assert a[offset + 1] == a[offset..offset + 4][1] && a[offset + 2] == a[offset..offset + 4][2];
  }

  /**
   * As written, the days field ends up holding the ticks: one day after the
   * epoch, written over zero bytes, reads back as the epoch itself.
   */
  lemma WriteDateAsWrittenLosesDays(block: seq<byte>)
    requires |block| == 12 && forall k :: 0 <= k < 12 ==> block[k] == 0
    ensures SplitMillis(MsPerDay) == AdfDate(1, 0, 0)
    ensures ReadDate(WriteDateAsWritten(block, 0, MsPerDay), 0) == AdfDate(0, 0, 0)
    ensures ReadDate(WriteDate(block, 0, MsPerDay), 0) == AdfDate(1, 0, 0)
  {
    var r := WriteDateAsWritten(block, 0, MsPerDay);
    assert forall k :: 4 <= k < 12 ==> r[k] == 0;
    ToUint32Small(0);
    WriteReadDate(block, 0, MsPerDay);
  }
}
