/**
 * One LZH archive entry (src/amiga.ts:74-130): `readLZHEntry` reads the
 * header level at offset + 5 (the digit of a method id such as "-lh5-";
 * LHA headers keep the level at byte 20), works out the header length for levels 0-3,
 * reads the packed size, and cuts the buffer into a header slice and the
 * payload slice right after it; the entry's getters read fixed header
 * fields. Slicing follows `Uint8Array.prototype.subarray`: negative bounds
 * count from the end and every bound is clamped into the buffer.
 */
module AmigaLzh {
  import opened Bytes

  const MaxLevel: int := 3

  /**
   * An entry: `kind` is the index of its class in `LZHEntry.LEVELS` (the
   * level it was read with), `header` and `payload` the two slices.
   */
  datatype LZHEntry = LZHEntry(kind: nat, header: seq<byte>, payload: seq<byte>)
  {
    /** `level`: header byte 5, or nothing (`undefined`) when the header is shorter. */
    function Level(): (r: Option<byte>)
      ensures r.Some? <==> |header| > 5
      ensures r.Some? ==> r.value == header[5]
    {
      if |header| > 5 then Some(header[5]) else None
    }

    /** `packedSize`: the unsigned little-endian word at header byte 7. */
    function PackedSize(): (r: int)
      requires |header| >= 11
      ensures 0 <= r < TWO32
      ensures r % 256 == header[7] && r / 0x100_0000 == header[10]
    {
      LE32(header, 7)
    }

    /** `originalSize`: the unsigned little-endian word at header byte 11. */
    function OriginalSize(): (r: int)
      requires |header| >= 15
      ensures 0 <= r < TWO32
      ensures r % 256 == header[11] && r / 0x100_0000 == header[14]
    {
      LE32(header, 11)
    }

    /** `method`: header bytes 2-6 (as many as there are) as text. */
    function Method(): (t: Text)
      ensures |t| == Clamp(|header|, 7) - Clamp(|header|, 2)
      ensures forall i :: 0 <= i < |t| ==> StoredByte(t[i]) == header[2 + i]
    {
      UnitsOfBytes(Subarray(header, 2, 7))
    }

    /**
     * `name` of a level-0 entry: the name length is header byte 21 and the
     * name follows it; with no byte 21 the end bound is NaN, which
     * `subarray` reads as 0.
     */
    function Name(): (t: Text)
      requires kind == 0
      ensures |header| > 21 ==> |t| == Clamp(|header|, 22 + header[21] as int) - Clamp(|header|, 22)
      ensures |header| <= 21 ==> t == []
      ensures forall i :: 0 <= i < |t| ==> StoredByte(t[i]) == header[22 + i]
    {
      UnitsOfBytes(Subarray(header, 22, NameEnd(header)))
    }

    /**
     * `crc16` of a level-0 entry: the little-endian 16-bit field right
     * after the name; with no byte 21 the NaN offset reads as 0.
     */
    function Crc16(): (r: int)
      requires kind == 0
      requires NameEnd(header) + 2 <= |header|
      ensures 0 <= r < 0x1_0000
      ensures r % 256 == header[NameEnd(header)] && r / 256 == header[NameEnd(header) + 1]
    {
      LE16(header, NameEnd(header))
    }
  }

  /** Where a level-0 name ends: 22 + header[21] as int, or 0 (NaN) when there is no byte 21. */
  function NameEnd(header: seq<byte>): (e: nat)
    ensures |header| > 21 ==> e == 22 + header[21] as int
  {
    if |header| > 21 then 22 + header[21] as int else 0
  }

  /** What `readLZHEntry` returns: the entry and the offset just past its payload. */
  datatype EntryRead = EntryRead(entry: LZHEntry, endOffset: int)

  /**
   * Where the level-3 header length and the packed size are read from:
   * `Absolute` is the code as written (bytes 24-27 and 7-10 of the whole
   * buffer, combined with `|` and `<<` into a signed 32-bit value);
   * `Relative` reads them at those distances from the entry's offset, as
   * the unsigned fields of the entry's own header.
   */
  datatype FieldRule = Absolute | Relative

  /**
   * Which header byte gives the level: `MethodIdDigit` is the code as
   * written (byte 5, the fourth byte of the method id, '0'-'7' in "-lh0-"
   * to "-lh7-"); `LevelField` is byte 20, where an LHA header of every
   * level keeps it.
   */
  datatype LevelRule = MethodIdDigit | LevelField

  function LevelPos(lr: LevelRule): nat
  {
    if lr == MethodIdDigit then 5 else 20
  }

  /** A bound of `subarray` turned into an index: negative counts from the end, then clamped. */
  function Clamp(len: nat, x: int): (i: nat)
    ensures i <= len
    ensures 0 <= x <= len ==> i == x
  {
    if x < 0 then (if len + x < 0 then 0 else len + x) else if x > len then len else x
  }

  /** `s.subarray(begin, end)`. */
  function Subarray(s: seq<byte>, begin: int, end: int): (r: seq<byte>)
    ensures |r| == if Clamp(|s|, end) <= Clamp(|s|, begin) then 0 else Clamp(|s|, end) - Clamp(|s|, begin)
    ensures 0 <= begin <= end <= |s| ==> r == s[begin..end]
  {
    var b, e := Clamp(|s|, begin), Clamp(|s|, end);
    if e <= b then [] else s[b..e]
  }

  /** The four bytes at i, little-endian, each past the end reading 0. */
  function LooseLE32(s: seq<byte>, i: int): (r: int)
    ensures 0 <= r < TWO32
    ensures 0 <= i && i + 4 <= |s| ==> r == LE32(s, i)
  {
    ByteAt(s, i) + 0x100 * ByteAt(s, i + 1) + 0x1_0000 * ByteAt(s, i + 2) + 0x100_0000 * ByteAt(s, i + 3)
  }

  /** A 32-bit size field at the given distance under a rule. */
  function SizeField(bytes: seq<byte>, rule: FieldRule, offset: nat, at: nat): int
  {
    match rule
    case Absolute => ToInt32(LooseLE32(bytes, at))
    case Relative => LooseLE32(bytes, offset + at)
  }

  /** Whether an entry can be read at offset: its level byte exists and is at most 3. */
  predicate KnownLevel(bytes: seq<byte>, offset: nat, lr: LevelRule)
  {
    offset + LevelPos(lr) < |bytes| && bytes[offset + LevelPos(lr)] <= MaxLevel
  }

  /** The header length for the entry's level. */
  function HeaderLength(bytes: seq<byte>, offset: nat, lr: LevelRule, rule: FieldRule): (h: int)
    requires KnownLevel(bytes, offset, lr)
    ensures bytes[offset + LevelPos(lr)] < 2 ==> h == 2 + bytes[offset] as int
    ensures bytes[offset + LevelPos(lr)] == 2 ==> h == LE16(bytes, offset)
    ensures bytes[offset + LevelPos(lr)] == 3 && rule == Absolute ==> h == ToInt32(LooseLE32(bytes, 24))
    ensures bytes[offset + LevelPos(lr)] == 3 && rule == Relative ==> h == LooseLE32(bytes, offset + 24)
  {
    var level := bytes[offset + LevelPos(lr)];
    if level < 2 then 2 + bytes[offset] as int
    else if level == 2 then bytes[offset] as int + 0x100 * bytes[offset + 1] as int
    else SizeField(bytes, rule, offset, 24)
  }

  /** The packed size. */
  function PackedSize(bytes: seq<byte>, offset: nat, rule: FieldRule): int
  {
    SizeField(bytes, rule, offset, 7)
  }

  /** `readLZHEntry(bytes, offset)`; `MethodIdDigit` with `Absolute` is the code as written. */
  function ReadLZHEntry(bytes: seq<byte>, offset: nat, lr: LevelRule, rule: FieldRule): (r: Option<EntryRead>)
    ensures r.None? <==> !KnownLevel(bytes, offset, lr)
    ensures r.Some? ==> (r.value.entry.kind == bytes[offset + LevelPos(lr)]
      && r.value.endOffset == offset + HeaderLength(bytes, offset, lr, rule) + PackedSize(bytes, offset, rule))
  {
    if !KnownLevel(bytes, offset, lr) then None
    else
      Some(EntryAt(bytes, offset, bytes[offset + LevelPos(lr)], HeaderLength(bytes, offset, lr, rule), PackedSize(bytes, offset, rule)))
  }

  /** The entry of the given kind whose header (h bytes) starts at offset and whose payload (n bytes) follows it. */
  function EntryAt(bytes: seq<byte>, offset: nat, kind: nat, h: int, n: int): (e: EntryRead)
    ensures e.entry.kind == kind && e.endOffset == offset + h + n
  {
    EntryRead(LZHEntry(kind, Subarray(bytes, offset, offset + h), Subarray(bytes, offset + h, offset + h + n)),
              offset + h + n)
  }

  /**
   * When both sizes are non-negative and the entry ends inside the buffer,
   * the header and payload slices are adjacent, have exactly those
   * lengths, and together are the bytes from offset to endOffset.
   */
  lemma {:induction false} SlicesAdjacent(bytes: seq<byte>, offset: nat, lr: LevelRule, rule: FieldRule)
    requires KnownLevel(bytes, offset, lr)
    requires HeaderLength(bytes, offset, lr, rule) >= 0 && PackedSize(bytes, offset, rule) >= 0
    requires ReadLZHEntry(bytes, offset, lr, rule).value.endOffset <= |bytes|
    ensures var e := ReadLZHEntry(bytes, offset, lr, rule).value;
      |e.entry.header| == HeaderLength(bytes, offset, lr, rule)
      && |e.entry.payload| == PackedSize(bytes, offset, rule)
      && e.entry.header + e.entry.payload == bytes[offset..e.endOffset]
  {
    var h := HeaderLength(bytes, offset, lr, rule);
    var e := ReadLZHEntry(bytes, offset, lr, rule).value;
    assert e.entry.header == bytes[offset..offset + h];
    assert e.entry.payload == bytes[offset + h..e.endOffset];
    assert bytes[offset..offset + h] + bytes[offset + h..e.endOffset] == bytes[offset..e.endOffset];
  }

  /**
   * Read relative to the entry, both sizes are never negative, so the two
   * slices always cover the bytes from offset up to endOffset or the end
   * of the buffer, whichever comes first.
   */
  lemma RelativeSlicesCover(bytes: seq<byte>, offset: nat, lr: LevelRule)
    requires KnownLevel(bytes, offset, lr)
    ensures HeaderLength(bytes, offset, lr, Relative) >= 0 && PackedSize(bytes, offset, Relative) >= 0
    ensures var e := ReadLZHEntry(bytes, offset, lr, Relative).value;
      var stop := if e.endOffset <= |bytes| then e.endOffset else |bytes|;
      offset <= stop && e.entry.header + e.entry.payload == bytes[offset..stop]
  {
    EntryAtCover(bytes, offset, bytes[offset + LevelPos(lr)], HeaderLength(bytes, offset, lr, Relative), PackedSize(bytes, offset, Relative));
  }

  /** With sizes that do not count from the end, the two slices are the bytes from offset to the entry's end, cut at the buffer's end. */
  lemma EntryAtCover(bytes: seq<byte>, offset: nat, kind: nat, h: nat, n: nat)
    requires offset <= |bytes|
    ensures var e := EntryAt(bytes, offset, kind, h, n);
      var stop := if e.endOffset <= |bytes| then e.endOffset else |bytes|;
      e.entry.header + e.entry.payload == bytes[offset..stop]
  {
    var len := |bytes|;
    var m1 := if offset + h <= len then offset + h else len;
    var m2 := if offset + h + n <= len then offset + h + n else len;
    SubarrayCut(bytes, offset, offset + h);
    SubarrayCut(bytes, offset + h, offset + h + n);
    SlicesJoin(bytes, offset, m1, m2);
  }

  lemma SlicesJoin(s: seq<byte>, i: nat, j: nat, k: nat)
    requires i <= j <= k <= |s|
    ensures s[i..j] + s[j..k] == s[i..k]
  {
  }

  /** With bounds that do not count from the end, `subarray` is the slice between them, each cut at the end. */
  lemma SubarrayCut(s: seq<byte>, b: nat, e: nat)
    requires b <= e
    ensures var cb, ce := (if b <= |s| then b else |s|), (if e <= |s| then e else |s|);
      Subarray(s, b, e) == s[cb..ce]
  {
  }

  /** Bytes read behind a prefix are the bytes read without it. */
  lemma ByteAtShift(p: seq<byte>, s: seq<byte>, i: nat)
    ensures ByteAt(p + s, |p| + i) == ByteAt(s, i)
  {
  }

  /** A slice taken behind a prefix is the slice taken without it, for bounds that do not count from the end. */
  lemma SubarrayShift(p: seq<byte>, s: seq<byte>, b: nat, e: nat)
    ensures Subarray(p + s, |p| + b, |p| + e) == Subarray(s, b, e)
  {
    var bs, es := Clamp(|s|, b), Clamp(|s|, e);
    if bs < es {
      assert (p + s)[|p| + bs..|p| + es] == s[bs..es];
    }
  }

  /** An entry read `distance` bytes further along. */
  function Shifted(r: Option<EntryRead>, distance: nat): Option<EntryRead>
  {
    if r.None? then None else Some(r.value.(endOffset := r.value.endOffset + distance))
  }

  /**
   * Read relative to the entry, what comes before an entry does not change
   * it: reading behind any prefix gives the same entry, its end moved by
   * the prefix length.
   */
  lemma RelativeShiftInvariant(p: seq<byte>, bytes: seq<byte>, offset: nat, lr: LevelRule)
    ensures ReadLZHEntry(p + bytes, |p| + offset, lr, Relative) == Shifted(ReadLZHEntry(bytes, offset, lr, Relative), |p|)
  {
    KnownLevelShift(p, bytes, offset, lr);
    if KnownLevel(bytes, offset, lr) {
      KnownShifted(p, bytes, offset, lr);
    }
  }

  /** The case of RelativeShiftInvariant where the level is known. */
  lemma KnownShifted(p: seq<byte>, bytes: seq<byte>, offset: nat, lr: LevelRule)
    requires KnownLevel(bytes, offset, lr)
    ensures ReadLZHEntry(p + bytes, |p| + offset, lr, Relative) == Shifted(ReadLZHEntry(bytes, offset, lr, Relative), |p|)
  {
    var kind := bytes[offset + LevelPos(lr)];
    var h, n := HeaderLength(bytes, offset, lr, Relative), PackedSize(bytes, offset, Relative);
    ReadKnown(bytes, offset, lr, Relative, kind, h, n);
    ReadBehind(p, bytes, offset, lr, kind, h, n);
    ShiftedEntry(p, bytes, offset, kind, h, n, ReadLZHEntry(bytes, offset, lr, Relative), ReadLZHEntry(p + bytes, |p| + offset, lr, Relative));
  }

  /** Behind a prefix, read relative to the entry, the read finds the level and sizes found without it. */
  lemma ReadBehind(p: seq<byte>, bytes: seq<byte>, offset: nat, lr: LevelRule, kind: nat, h: int, n: int)
    requires KnownLevel(bytes, offset, lr) && bytes[offset + LevelPos(lr)] == kind
    requires HeaderLength(bytes, offset, lr, Relative) == h && PackedSize(bytes, offset, Relative) == n
    ensures h >= 0 && n >= 0
    ensures ReadLZHEntry(p + bytes, |p| + offset, lr, Relative) == Some(EntryAt(p + bytes, |p| + offset, kind, h, n))
  {
    KnownLevelShift(p, bytes, offset, lr);
    SizesShift(p, bytes, offset, lr);
    ReadKnown(p + bytes, |p| + offset, lr, Relative, kind, h, n);
  }

  /** Two reads that found the same-sized entry, one behind a prefix, differ only by the shift. */
  lemma ShiftedEntry(p: seq<byte>, bytes: seq<byte>, offset: nat, kind: nat, h: nat, n: nat, r: Option<EntryRead>, rp: Option<EntryRead>)
    requires r == Some(EntryAt(bytes, offset, kind, h, n))
    requires rp == Some(EntryAt(p + bytes, |p| + offset, kind, h, n))
    ensures rp == Shifted(r, |p|)
  {
    EntryAtShift(p, bytes, offset, kind, h, n);
  }

  /** Where the level is known, the read is the entry of those sizes. */
  lemma ReadKnown(bytes: seq<byte>, offset: nat, lr: LevelRule, rule: FieldRule, kind: nat, h: int, n: int)
    requires KnownLevel(bytes, offset, lr) && bytes[offset + LevelPos(lr)] == kind
    requires HeaderLength(bytes, offset, lr, rule) == h && PackedSize(bytes, offset, rule) == n
    ensures ReadLZHEntry(bytes, offset, lr, rule) == Some(EntryAt(bytes, offset, kind, h, n))
  {
  }

  /** The entry read behind a prefix, with sizes that do not count from the end, is the entry without it, moved along. */
  lemma EntryAtShift(p: seq<byte>, bytes: seq<byte>, offset: nat, kind: nat, h: nat, n: nat)
    ensures EntryAt(p + bytes, |p| + offset, kind, h, n)
         == EntryAt(bytes, offset, kind, h, n).(endOffset := |p| + offset + h + n)
  {
    SubarrayShift(p, bytes, offset, offset + h);
    SubarrayShift(p, bytes, offset + h, offset + h + n);
  }

  lemma SizesShift(p: seq<byte>, bytes: seq<byte>, offset: nat, lr: LevelRule)
    requires KnownLevel(bytes, offset, lr)
    ensures KnownLevel(p + bytes, |p| + offset, lr)
    ensures HeaderLength(p + bytes, |p| + offset, lr, Relative) == HeaderLength(bytes, offset, lr, Relative) >= 0
    ensures PackedSize(p + bytes, |p| + offset, Relative) == PackedSize(bytes, offset, Relative) >= 0
  {
    HeaderLengthShift(p, bytes, offset, lr);
    LooseLE32Shift(p, bytes, offset + 7);
  }

  lemma KnownLevelShift(p: seq<byte>, s: seq<byte>, offset: nat, lr: LevelRule)
    ensures KnownLevel(p + s, |p| + offset, lr) == KnownLevel(s, offset, lr)
    ensures KnownLevel(s, offset, lr) ==> (p + s)[|p| + offset + LevelPos(lr)] == s[offset + LevelPos(lr)]
  {
    if |p| + offset + LevelPos(lr) < |p + s| {
      assert (p + s)[|p| + offset + LevelPos(lr)] == s[offset + LevelPos(lr)];
    }
  }

  lemma LooseLE32Shift(p: seq<byte>, s: seq<byte>, i: nat)
    ensures LooseLE32(p + s, |p| + i) == LooseLE32(s, i)
  {
    ByteAtShift(p, s, i);
    ByteAtShift(p, s, i + 1);
    ByteAtShift(p, s, i + 2);
    ByteAtShift(p, s, i + 3);
  }

  lemma HeaderLengthShift(p: seq<byte>, s: seq<byte>, offset: nat, lr: LevelRule)
    requires KnownLevel(s, offset, lr)
    ensures KnownLevel(p + s, |p| + offset, lr)
    ensures HeaderLength(p + s, |p| + offset, lr, Relative) == HeaderLength(s, offset, lr, Relative)
  {
    var q := p + s;
    KnownLevelShift(p, s, offset, lr);
    assert q[|p| + offset] == s[offset] && q[|p| + offset + 1] == s[offset + 1];
    LooseLE32Shift(p, s, offset + 24);
  }

  /** A twelve-byte level-0 entry with an empty payload; byte 6 is 7. */
  function SampleEntry(): (s: seq<byte>)
    ensures |s| == 12
  {
    [10, 0, 0, 0, 0, 0, 7, 0, 0, 0, 0, 0]
  }

  /** The sample entry behind one zero byte. */
  function SampleArchive(): (s: seq<byte>)
    ensures s == [0] + SampleEntry()
  {
    [0, 10, 0, 0, 0, 0, 0, 7, 0, 0, 0, 0, 0]
  }

  /** Read at offset 0, with the level at byte 5, the sample entry ends at 12 under either field rule. */
  lemma SampleAtStart()
    ensures ReadLZHEntry(SampleEntry(), 0, MethodIdDigit, Absolute).value.endOffset == 12
    ensures ReadLZHEntry(SampleEntry(), 0, MethodIdDigit, Relative).value.endOffset == 12
  {
    var s := SampleEntry();
    assert KnownLevel(s, 0, MethodIdDigit);
    assert HeaderLength(s, 0, MethodIdDigit, Absolute) == 12 == HeaderLength(s, 0, MethodIdDigit, Relative);
    assert LooseLE32(s, 7) == 0;
    ToInt32Small(0);
  }

  /**
   * As written, the packed size is read from bytes 7-10 of the whole
   * buffer: behind one byte, the sample entry's own byte 6 becomes its
   * packed size and the entry ends at 20 instead of 13.
   */
  lemma AbsoluteSizeFieldMisread()
    ensures ReadLZHEntry(SampleArchive(), 1, MethodIdDigit, Absolute).value.endOffset == 20
  {
    var q := SampleArchive();
    assert KnownLevel(q, 1, MethodIdDigit) && HeaderLength(q, 1, MethodIdDigit, Absolute) == 12;
    assert LooseLE32(q, 7) == 7;
    ToInt32Small(7);
  }

  /** Read relative to the entry, the sample behind one byte ends at 13, one past where it ends alone. */
  lemma RelativeSizeFieldRead()
    ensures ReadLZHEntry(SampleArchive(), 1, MethodIdDigit, Relative).value.endOffset == 13
  {
    var s := SampleEntry();
    SampleAtStart();
    assert KnownLevel(s, 0, MethodIdDigit);
    RelativeShiftInvariant([0], s, 0, MethodIdDigit);
    assert SampleArchive() == [0] + s;
  }

  /** The low 16 bits of v, little-endian. */
  function LEBytes16(v: int): (r: seq<byte>)
    requires 0 <= v < 0x1_0000
    ensures |r| == 2 && LE16(r, 0) == v
  {
    [v % 256, v / 256]
  }

  /** v, little-endian in four bytes. */
  function LEBytes32(v: int): (r: seq<byte>)
    requires 0 <= v < TWO32
    ensures |r| == 4 && LE32(r, 0) == v
  {
    var r := LEBytes16(v % 0x1_0000) + LEBytes16(v / 0x1_0000);
    assert r[2..4] == LEBytes16(v / 0x1_0000);
    assert LE16(r, 2) == v / 0x1_0000;
    r
  }

  /**
   * The 22 fixed bytes of a level-0 header: size, checksum, method id,
   * packed size, original size, time stamp and attribute (left 0), the
   * level 0 at byte 20, name length.
   */
  function L0Fixed(methodId: seq<byte>, packedSize: int, originalSize: int, nameLength: byte): (f: seq<byte>)
    requires |methodId| == 5 && 0 <= packedSize < TWO32 && 0 <= originalSize < TWO32 && nameLength <= 233
    ensures |f| == 22
  {
    [22 + nameLength, 0] + methodId + LEBytes32(packedSize) + LEBytes32(originalSize) + Zeros(5) + [0] + [nameLength]
  }

  /** A level-0 header: the fixed bytes, the name, and the 16-bit CRC. */
  function L0Header(methodId: seq<byte>, packedSize: int, originalSize: int, name: seq<byte>, crc: int): (h: seq<byte>)
    requires |methodId| == 5 && 0 <= packedSize < TWO32 && 0 <= originalSize < TWO32
    requires |name| <= 233 && 0 <= crc < 0x1_0000
    ensures |h| == 24 + |name|
  {
    L0Fixed(methodId, packedSize, originalSize, |name|) + name + LEBytes16(crc)
  }

  /** Four bytes agreeing with a little-endian run read as it. */
  lemma LE32At(s: seq<byte>, i: nat, piece: seq<byte>)
    requires |piece| == 4 && i + 4 <= |s| && s[i..i + 4] == piece
    ensures LE32(s, i) == LE32(piece, 0)
  {
    assert s[i] == piece[0] && s[i + 1] == piece[1] && s[i + 2] == piece[2] && s[i + 3] == piece[3];
  }

  /** The fields of a level-0 header as its getters lay them out. */
  lemma L0Layout(methodId: seq<byte>, packedSize: int, originalSize: int, name: seq<byte>, crc: int)
    requires |methodId| == 5 && 0 <= packedSize < TWO32 && 0 <= originalSize < TWO32
    requires |name| <= 233 && 0 <= crc < 0x1_0000
    ensures var h := L0Header(methodId, packedSize, originalSize, name, crc);
      h[0] == 22 + |name| && h[2..7] == methodId && h[5] == methodId[3] && h[20] == 0
      && h[7..11] == LEBytes32(packedSize) && h[11..15] == LEBytes32(originalSize)
      && h[21] == |name| && h[22..22 + |name|] == name && h[22 + |name|..] == LEBytes16(crc)
  {
    var f := L0Fixed(methodId, packedSize, originalSize, |name|);
    var h := L0Header(methodId, packedSize, originalSize, name, crc);
    assert h[..22] == f;
    assert f[2..7] == methodId && f[7..11] == LEBytes32(packedSize) && f[11..15] == LEBytes32(originalSize);
    assert h[2..7] == f[2..7] && h[7..11] == f[7..11] && h[11..15] == f[11..15];
    assert h[5] == h[2..7][3];
    assert h[20] == f[20];
  }

  /**
   * Every getter of a level-0 entry gives back the field its header was
   * built from, except `level`: it gives header byte 5, the method id's
   * fourth byte, while the level 0 sits at byte 20.
   */
  lemma L0GettersRoundTrip(methodId: seq<byte>, packedSize: int, originalSize: int, name: seq<byte>, crc: int, payload: seq<byte>)
    requires |methodId| == 5 && 0 <= packedSize < TWO32 && 0 <= originalSize < TWO32
    requires |name| <= 233 && 0 <= crc < 0x1_0000
    ensures var e := LZHEntry(0, L0Header(methodId, packedSize, originalSize, name, crc), payload);
      e.Level() == Some(methodId[3]) && e.header[20] == 0
      && e.Method() == UnitsOfBytes(methodId)
      && e.PackedSize() == packedSize
      && e.OriginalSize() == originalSize
      && e.Name() == UnitsOfBytes(name)
      && e.Crc16() == crc
  {
    var h := L0Header(methodId, packedSize, originalSize, name, crc);
    L0Layout(methodId, packedSize, originalSize, name, crc);
    LE32At(h, 7, LEBytes32(packedSize));
    LE32At(h, 11, LEBytes32(originalSize));
    var c := LEBytes16(crc);
    assert h[22 + |name|] == c[0] && h[23 + |name|] == c[1];
  }

  /**
   * A level-0 header followed by its payload reads back as that entry, at
   * offset 0 as written (for a method id whose fourth byte, read as the
   * level, is 0 or 1, and a packed size below 2^31) and behind any prefix
   * when read relative to the entry.
   */
  lemma L0ReadRoundTrip(prefix: seq<byte>, methodId: seq<byte>, originalSize: int, name: seq<byte>, crc: int, payload: seq<byte>)
    requires |methodId| == 5 && methodId[3] <= 1 && 0 <= originalSize < TWO32
    requires |name| <= 233 && 0 <= crc < 0x1_0000 && |payload| < TWO31
    ensures var h := L0Header(methodId, |payload|, originalSize, name, crc);
      var expected := EntryRead(LZHEntry(methodId[3], h, payload), |h| + |payload|);
      ReadLZHEntry(h + payload, 0, MethodIdDigit, Absolute) == Some(expected)
      && ReadLZHEntry(prefix + (h + payload), |prefix|, MethodIdDigit, Relative) == Shifted(Some(expected), |prefix|)
  {
    var h := L0Header(methodId, |payload|, originalSize, name, crc);
    L0ReadAtStart(methodId, originalSize, name, crc, payload, MethodIdDigit, Absolute);
    L0ReadAtStart(methodId, originalSize, name, crc, payload, MethodIdDigit, Relative);
    RelativeShiftInvariant(prefix, h + payload, 0, MethodIdDigit);
  }

  /**
   * As written, a level-0 entry whose method id has a fourth byte above 3
   * (every LHA method id "-lh0-" to "-lh7-" and "-lzs-" has 0x30 or more
   * there) is never read: `readLZHEntry` takes that byte for the level and
   * returns null.
   */
  lemma L0MethodIdRejected(methodId: seq<byte>, originalSize: int, name: seq<byte>, crc: int, payload: seq<byte>, rule: FieldRule)
    requires |methodId| == 5 && methodId[3] > MaxLevel && 0 <= originalSize < TWO32
    requires |name| <= 233 && 0 <= crc < 0x1_0000 && |payload| < TWO32
    ensures ReadLZHEntry(L0Header(methodId, |payload|, originalSize, name, crc) + payload, 0, MethodIdDigit, rule).None?
  {
    var h := L0Header(methodId, |payload|, originalSize, name, crc);
    L0Layout(methodId, |payload|, originalSize, name, crc);
    assert (h + payload)[5] == h[5];
  }

  /**
   * With the level read from byte 20, every level-0 header followed by its
   * payload reads back as a level-0 entry, whatever its method id: at
   * offset 0 and, read relative to the entry, behind any prefix.
   */
  lemma L0ReadRoundTripIntended(prefix: seq<byte>, methodId: seq<byte>, originalSize: int, name: seq<byte>, crc: int, payload: seq<byte>)
    requires |methodId| == 5 && 0 <= originalSize < TWO32
    requires |name| <= 233 && 0 <= crc < 0x1_0000 && |payload| < TWO31
    ensures var h := L0Header(methodId, |payload|, originalSize, name, crc);
      var expected := EntryRead(LZHEntry(0, h, payload), |h| + |payload|);
      ReadLZHEntry(h + payload, 0, LevelField, Absolute) == Some(expected)
      && ReadLZHEntry(prefix + (h + payload), |prefix|, LevelField, Relative) == Shifted(Some(expected), |prefix|)
  {
    var h := L0Header(methodId, |payload|, originalSize, name, crc);
    L0ReadAtStart(methodId, originalSize, name, crc, payload, LevelField, Absolute);
    L0ReadAtStart(methodId, originalSize, name, crc, payload, LevelField, Relative);
    RelativeShiftInvariant(prefix, h + payload, 0, LevelField);
  }

  /** "-lh5-", the usual LHA method id. */
  function Lh5(): (m: seq<byte>)
    ensures |m| == 5 && m[3] == 0x35
  {
    [0x2D, 0x6C, 0x68, 0x35, 0x2D]
  }

  /** An empty level-0 "-lh5-" entry: null as written, read back when the level comes from byte 20. */
  lemma Lh5EntryRead()
    ensures var h := L0Header(Lh5(), 0, 0, [], 0);
      ReadLZHEntry(h, 0, MethodIdDigit, Absolute).None?
      && ReadLZHEntry(h, 0, LevelField, Absolute) == Some(EntryRead(LZHEntry(0, h, []), 24))
  {
    var h := L0Header(Lh5(), 0, 0, [], 0);
    assert h + [] == h;
    L0MethodIdRejected(Lh5(), 0, [], 0, [], Absolute);
    L0ReadRoundTripIntended([], Lh5(), 0, [], 0, []);
  }

  /** The level a reader finds in a level-0 header: the method id's fourth byte as written, 0 from byte 20. */
  function L0LevelRead(methodId: seq<byte>, lr: LevelRule): byte
    requires |methodId| == 5
  {
    if lr == MethodIdDigit then methodId[3] else 0
  }

  /** The sizes a reader finds in a level-0 header followed by its payload. */
  lemma L0Sizes(methodId: seq<byte>, originalSize: int, name: seq<byte>, crc: int, payload: seq<byte>, lr: LevelRule, rule: FieldRule)
    requires |methodId| == 5 && (lr == MethodIdDigit ==> methodId[3] <= 1) && 0 <= originalSize < TWO32
    requires |name| <= 233 && 0 <= crc < 0x1_0000 && |payload| < TWO31
    ensures var s := L0Header(methodId, |payload|, originalSize, name, crc) + payload;
      KnownLevel(s, 0, lr) && s[LevelPos(lr)] == L0LevelRead(methodId, lr)
      && HeaderLength(s, 0, lr, rule) == 24 + |name| && PackedSize(s, 0, rule) == |payload|
  {
    var h := L0Header(methodId, |payload|, originalSize, name, crc);
    var s := h + payload;
    L0Layout(methodId, |payload|, originalSize, name, crc);
    assert s[LevelPos(lr)] == h[LevelPos(lr)] && s[0] == h[0];
    assert s[7..11] == h[7..11];
    LE32At(s, 7, LEBytes32(|payload|));
    ToInt32Small(|payload|);
  }

  /** At offset 0, a level-0 header followed by its payload reads back as that entry. */
  lemma L0ReadAtStart(methodId: seq<byte>, originalSize: int, name: seq<byte>, crc: int, payload: seq<byte>, lr: LevelRule, rule: FieldRule)
    requires |methodId| == 5 && (lr == MethodIdDigit ==> methodId[3] <= 1) && 0 <= originalSize < TWO32
    requires |name| <= 233 && 0 <= crc < 0x1_0000 && |payload| < TWO31
    ensures var h := L0Header(methodId, |payload|, originalSize, name, crc);
      ReadLZHEntry(h + payload, 0, lr, rule) == Some(EntryRead(LZHEntry(L0LevelRead(methodId, lr), h, payload), |h| + |payload|))
  {
    var h := L0Header(methodId, |payload|, originalSize, name, crc);
    var kind := L0LevelRead(methodId, lr);
    L0Sizes(methodId, originalSize, name, crc, payload, lr, rule);
    ReadKnown(h + payload, 0, lr, rule, kind, |h|, |payload|);
    EntryAtWhole(h, payload, kind);
  }

  /** Reading a header of |h| bytes and a payload of |payload| bytes from h + payload gives them back. */
  lemma EntryAtWhole(h: seq<byte>, payload: seq<byte>, kind: nat)
    ensures EntryAt(h + payload, 0, kind, |h|, |payload|) == EntryRead(LZHEntry(kind, h, payload), |h| + |payload|)
  {
    assert (h + payload)[0..|h|] == h;
    assert (h + payload)[|h|..|h| + |payload|] == payload;
  }
}
