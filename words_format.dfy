/**
 * The WORDS.TOK byte format (src/agi.ts:62-83, 117-170): a 52-byte index
 * of two-byte record positions, one per letter a..z, followed by one
 * front-compressed record per word in list order. A record is the length
 * of the prefix shared with the previous word, the rest of the word with
 * every code unit XOR 0x7F, a 0x7F terminator and two id bytes.
 *
 * The encoder is described by the byte stores it performs, in order, into
 * a zero-filled Uint8Array of the computed length; a store outside the
 * array is dropped and a stored value keeps its low 8 bits, as a typed
 * array does.
 */
module WordsFormat {
  import opened Bytes
  import opened WordOrder

  const IndexSize: int := 52
  const Terminator: int := 0x7F

  /**
   * The encoder's two free choices: the highest letter index (code unit
   * minus 'a') that gets an index entry, and whether the id's high byte
   * is stored first.
   */
  datatype Layout = Layout(lastLetter: int, highByteFirst: bool)

  /** `encode` as written: letter indexes up to 26, low id byte first. */
  const AsWritten: Layout := Layout(26, false)

  /** The layout `decode` reads: an index for a..z only, high id byte first. */
  const Intended: Layout := Layout(25, true)

  /** The word before word i, or the empty word before the first. */
  function Prev(ws: seq<Token>, i: nat): Text
    requires i <= |ws|
  {
    if i == 0 then [] else ws[i - 1].word
  }

  /** The id's two stored values, `id & 0xff` and `id >> 8`, in the layout's order. */
  function IdValues(id: int, layout: Layout): (r: seq<int>)
    ensures |r| == 2
  {
    var lo, hi := id % 256, ToInt32(id) / 256;
    if layout.highByteFirst then [hi, lo] else [lo, hi]
  }

  /** `charCodeAt(i) ^ 0x7f` for each unit of a word from position `from` on. */
  function SuffixValues(w: Text, from: nat): (r: seq<int>)
    requires from <= |w|
    ensures |r| == |w| - from && forall k :: 0 <= k < |r| ==> r[k] == Xor(w[from + k], 0x7F)
  {
    seq(|w| - from, k requires 0 <= k < |w| - from => Xor(w[from + k], 0x7F))
  }

  /** The values the encoder stores for a record, before truncation to bytes. */
  function RawRecord(prev: Text, t: Token, layout: Layout): (r: seq<int>)
    ensures |r| == 4 + |t.word| - Lcp(prev, t.word)
  {
    var n := Lcp(prev, t.word);
    [n] + SuffixValues(t.word, n) + [Terminator] + IdValues(t.id, layout)
  }

  /** The parts of a record: prefix length, suffix values, terminator, id values. */
  lemma RawRecordParts(prev: Text, t: Token, layout: Layout)
    ensures RawRecord(prev, t, layout)[0] == Lcp(prev, t.word)
    ensures forall k :: 1 <= k < |RawRecord(prev, t, layout)| - 3 ==>
      RawRecord(prev, t, layout)[k] == Xor(t.word[Lcp(prev, t.word) + k - 1], 0x7F)
    ensures RawRecord(prev, t, layout)[|RawRecord(prev, t, layout)| - 3] == Terminator
    ensures RawRecord(prev, t, layout)[|RawRecord(prev, t, layout)| - 2] == IdValues(t.id, layout)[0]
    ensures RawRecord(prev, t, layout)[|RawRecord(prev, t, layout)| - 1] == IdValues(t.id, layout)[1]
  {
    var n := Lcp(prev, t.word);
    var sv := SuffixValues(t.word, n);
    var r := RawRecord(prev, t, layout);
    assert r == [n] + sv + [Terminator] + IdValues(t.id, layout);
    forall k | 1 <= k < |r| - 3
      ensures r[k] == Xor(t.word[n + k - 1], 0x7F)
    {
      assert r[k] == sv[k - 1];
    }
  }

  /** The bytes a record occupies once stored. */
  function StoredBytes(raw: seq<int>): (r: seq<byte>)
    ensures |r| == |raw| && forall k {:trigger r[k]} :: 0 <= k < |raw| ==> r[k] == StoredByte(raw[k])
  {
    seq(|raw|, k requires 0 <= k < |raw| => StoredByte(raw[k]))
  }

  /** The byte position of record i: the index, then the records before it. */
  function RecordStart(ws: seq<Token>, i: nat): (p: int)
    requires i <= |ws|
    ensures p >= IndexSize
  {
    if i == 0 then IndexSize
    else RecordStart(ws, i - 1) + 4 + |ws[i - 1].word| - Lcp(Prev(ws, i - 1), ws[i - 1].word)
  }

  /**
   * `calculateEncodedLength`: 52, plus per word a prefix byte, the part of
   * the word not shared with the previous word, a terminator and two id
   * bytes.
   */
  function EncodedLength(ws: seq<Token>): int
  {
    RecordStart(ws, |ws|)
  }

  lemma {:induction false} RecordStartMonotone(ws: seq<Token>, i: nat, j: nat)
    requires i <= j <= |ws|
    ensures RecordStart(ws, i) + 4 * (j - i) <= RecordStart(ws, j)
    decreases j
  {
    if i < j {
      RecordStartMonotone(ws, i, j - 1);
    }
  }

  /** The record bytes of the first n words, as laid out after the index. */
  function Records(ws: seq<Token>, n: nat, layout: Layout): (r: seq<byte>)
    requires n <= |ws|
    ensures |r| == RecordStart(ws, n) - IndexSize
  {
    RecordsLength(ws, n, layout);
    Flatten(RecordChunks(ws, layout), n)
  }

  lemma RecordsLength(ws: seq<Token>, n: nat, layout: Layout)
    requires n <= |ws|
    ensures |Flatten(RecordChunks(ws, layout), n)| == RecordStart(ws, n) - IndexSize
  {
    var cs := RecordChunks(ws, layout);
    var starts := seq(|ws| + 1, i requires 0 <= i <= |ws| => RecordStart(ws, i));
    forall i | 0 <= i < |cs|
      ensures |cs[i]| == starts[i + 1] - starts[i]
    {
      RecordChunkLength(ws, layout, i);
    }
    FlattenLength(cs, starts, n);
  }

  lemma RecordChunkLength(ws: seq<Token>, layout: Layout, i: nat)
    requires i < |ws|
    ensures |RecordChunks(ws, layout)[i]| == RecordStart(ws, i + 1) - RecordStart(ws, i)
  {
  }

  /**
   * Whether word i writes an index entry: it is non-empty, its letter index
   * is within the layout's range and, after the first word, its first code
   * unit differs from the previous word's (an empty previous word has none).
   */
  predicate IndexEntry(ws: seq<Token>, i: nat, layout: Layout)
    requires i < |ws|
  {
    var w := ws[i].word;
    |w| > 0 && 0 <= Letter(w) <= layout.lastLetter
    && (i == 0 || |ws[i - 1].word| == 0 || ws[i - 1].word[0] != w[0])
  }

  /** `word.charCodeAt(0) - 'a'.charCodeAt(0)` for a non-empty word. */
  function Letter(w: Text): int
    requires |w| > 0
  {
    w[0] as int - 97
  }

  /** The index entry of word i: `pos >> 8` and `pos & 0xff` at twice the letter index. */
  function IndexWrites(ws: seq<Token>, i: nat, layout: Layout): (r: seq<ByteWrite>)
    requires i < |ws|
    ensures IndexEntry(ws, i, layout) ==> |r| == 2 && r[0].at == 2 * Letter(ws[i].word) && r[1].at == r[0].at + 1
    ensures !IndexEntry(ws, i, layout) ==> r == []
  {
    if IndexEntry(ws, i, layout) then
      var letter, p := Letter(ws[i].word), RecordStart(ws, i);
      [ByteWrite(2 * letter, ToInt32(p) / 256), ByteWrite(2 * letter + 1, p % 256)]
    else []
  }

  /** All stores for word i: its index entry, if any, then its record. */
  function WordWrites(ws: seq<Token>, i: nat, layout: Layout): seq<ByteWrite>
    requires i < |ws|
  {
    IndexWrites(ws, i, layout) + RecordWrites(RecordStart(ws, i), RawRecord(Prev(ws, i), ws[i], layout))
  }

  /** The stores for the first n words, in the order the encoder performs them. */
  function EncoderWrites(ws: seq<Token>, n: nat, layout: Layout): seq<ByteWrite>
    requires n <= |ws|
  {
    if n == 0 then [] else EncoderWrites(ws, n - 1, layout) + WordWrites(ws, n - 1, layout)
  }

  /** The encoder's output: its stores applied to a zero-filled array of the computed length. */
  function Image(ws: seq<Token>, layout: Layout): (r: seq<byte>)
    ensures |r| == EncodedLength(ws)
  {
    PokeAll(Zeros(EncodedLength(ws)), EncoderWrites(ws, |ws|, layout))
  }

  /**
   * Every store the encoder performs lands inside the array of the
   * computed length: the length function counts exactly the bytes written,
   * so nothing is dropped.
   */
  lemma WritesInBounds(ws: seq<Token>, layout: Layout)
    requires layout.lastLetter <= 26
    ensures forall k :: 0 <= k < |EncoderWrites(ws, |ws|, layout)| ==>
      0 <= EncoderWrites(ws, |ws|, layout)[k].at < EncodedLength(ws)
  {
    WritesInBoundsUpTo(ws, |ws|, layout);
  }

  lemma {:induction false} WritesInBoundsUpTo(ws: seq<Token>, n: nat, layout: Layout)
    requires n <= |ws| && layout.lastLetter <= 26
    ensures forall k :: 0 <= k < |EncoderWrites(ws, n, layout)| ==>
      0 <= EncoderWrites(ws, n, layout)[k].at < RecordStart(ws, n)
  {
    if n > 0 {
      WritesInBoundsUpTo(ws, n - 1, layout);
      RecordStartMonotone(ws, 0, n);
      RecordStartMonotone(ws, n - 1, n);
      var before, index := EncoderWrites(ws, n - 1, layout), IndexWrites(ws, n - 1, layout);
      var rec := RecordWrites(RecordStart(ws, n - 1), RawRecord(Prev(ws, n - 1), ws[n - 1], layout));
      var all := EncoderWrites(ws, n, layout);
      assert all == before + index + rec;
      forall k | 0 <= k < |all|
        ensures 0 <= all[k].at < RecordStart(ws, n)
      {
        if k < |before| {
          assert all[k] == before[k];
        } else if k < |before| + |index| {
          assert all[k] == index[k - |before|];
        } else {
          assert all[k] == rec[k - |before| - |index|];
        }
      }
    }
  }

  /** No word's index entry reaches past the 52-byte index. */
  ghost predicate IndexInside(ws: seq<Token>, layout: Layout)
  {
    forall i :: 0 <= i < |ws| && IndexEntry(ws, i, layout) ==> Letter(ws[i].word) < 26
  }

  /**
   * While every index entry stays inside the index, the output after the
   * index is exactly the records, one after another.
   */
  lemma ImageRecords(ws: seq<Token>, layout: Layout)
    requires IndexInside(ws, layout)
    ensures Image(ws, layout)[IndexSize..] == Records(ws, |ws|, layout)
  {
    WrittenRecords(ws, layout, Zeros(EncodedLength(ws)));
  }

  lemma WrittenRecords(ws: seq<Token>, layout: Layout, buf: seq<byte>)
    requires IndexInside(ws, layout) && |buf| == EncodedLength(ws)
    ensures PokeAll(buf, EncoderWrites(ws, |ws|, layout))[IndexSize..] == Records(ws, |ws|, layout)
  {
    ImageRecordsUpTo(ws, |ws|, layout, buf);
    SliceToEnd(PokeAll(buf, EncoderWrites(ws, |ws|, layout)), IndexSize, RecordStart(ws, |ws|));
  }

  lemma {:induction false} ImageRecordsUpTo(ws: seq<Token>, n: nat, layout: Layout, buf: seq<byte>)
    requires n <= |ws| && IndexInside(ws, layout)
    requires RecordStart(ws, n) <= |buf|
    ensures PokeAll(buf, EncoderWrites(ws, n, layout))[IndexSize..RecordStart(ws, n)] == Records(ws, n, layout)
  {
    if n > 0 {
      RecordStartMonotone(ws, n - 1, n);
      ImageRecordsUpTo(ws, n - 1, layout, buf);
      ImageRecordsStep(ws, n, layout, buf);
    } else {
      EmptyPrefix(Records(ws, 0, layout));
    }
  }

  /** The inductive step of ImageRecordsUpTo: word n - 1's stores add its record to the area. */
  lemma ImageRecordsStep(ws: seq<Token>, n: nat, layout: Layout, buf: seq<byte>)
    requires 0 < n <= |ws| && IndexInside(ws, layout)
    requires RecordStart(ws, n - 1) <= RecordStart(ws, n) <= |buf|
    requires PokeAll(buf, EncoderWrites(ws, n - 1, layout))[IndexSize..RecordStart(ws, n - 1)] == Records(ws, n - 1, layout)
    ensures PokeAll(buf, EncoderWrites(ws, n, layout))[IndexSize..RecordStart(ws, n)] == Records(ws, n, layout)
  {
    var i := n - 1;
    var index := IndexWrites(ws, i, layout);
    IndexWritesBelow(ws, i, layout);
    var raw := RawRecord(Prev(ws, i), ws[i], layout);
    var before := EncoderWrites(ws, i, layout);
    var word := index + RecordWrites(RecordStart(ws, i), raw);
    assert EncoderWrites(ws, n, layout) == before + word;
    PokeAllAppend(buf, before, word);
    RecordsSnoc(ws, n, layout);
    RecordAfterIndex(PokeAll(buf, before), index, RecordStart(ws, i), raw, Records(ws, i, layout),
                     PokeAll(buf, EncoderWrites(ws, n, layout)), Records(ws, n, layout), RecordStart(ws, n));
  }

  /** The record area of n words: that of the first n - 1, then the last word's stored record. */
  lemma RecordsSnoc(ws: seq<Token>, n: nat, layout: Layout)
    requires 0 < n <= |ws|
    ensures Records(ws, n, layout) == Records(ws, n - 1, layout) + StoredBytes(RawRecord(Prev(ws, n - 1), ws[n - 1], layout))
  {
  }

  lemma IndexWritesBelow(ws: seq<Token>, i: nat, layout: Layout)
    requires i < |ws| && IndexInside(ws, layout)
    ensures forall k :: 0 <= k < |IndexWrites(ws, i, layout)| ==> IndexWrites(ws, i, layout)[k].at < IndexSize
  {
    if IndexEntry(ws, i, layout) {
      assert Letter(ws[i].word) < 26;
    }
  }

  /**
   * Index stores below the record area followed by one record's stores at
   * its end extend the record area by that record's bytes.
   */
  lemma RecordAfterIndex(before: seq<byte>, index: seq<ByteWrite>, p: int, raw: seq<int>, area: seq<byte>,
                          after: seq<byte>, full: seq<byte>, end: int)
    requires IndexSize <= p && p + |raw| <= |before|
    requires forall k :: 0 <= k < |index| ==> index[k].at < IndexSize
    requires before[IndexSize..p] == area
    requires after == PokeAll(before, index + RecordWrites(p, raw)) && full == area + StoredBytes(raw) && end == p + |raw|
    ensures after[IndexSize..end] == full
  {
    var rec := RecordWrites(p, raw);
    var mid := PokeAll(before, index);
    PokeAllAppend(before, index, rec);
    PokeAllRecord(mid, p, raw);
    forall j | 0 <= j < |full|
      ensures after[IndexSize + j] == full[j]
    {
      var q := IndexSize + j;
      if q < p {
        PokeAllUntouched(before, index, q);
        PokeAllUntouched(mid, rec, q);
        assert before[q] == area[j];
      } else {
        assert PokeAll(mid, rec)[p + (q - p)] == StoredByte(raw[q - p]);
        assert full[j] == StoredBytes(raw)[q - p];
      }
    }
    SliceEqual(after, IndexSize, end, full);
  }

  datatype DecodeError =
    | Unterminated  // a suffix runs to the end of the data without a 0x7F terminator
    | MissingId     // the id bytes after the last terminator lie past the end

  /** The code unit a suffix byte stands for: XOR 0x7F, then 0x80..0xFF become 0xF780..0xF7FF. */
  function DecodedUnit(b: byte): CodeUnit
  {
    UnitOfByte(XorByte(b, 0x7F))
  }

  /** The suffix read from pos up to the next 0x7F byte, and that byte's position. */
  function ScanSuffix(data: seq<byte>, pos: nat): (r: Option<(Text, nat)>)
    ensures r.Some? ==> (pos <= r.value.1 < |data| && data[r.value.1] == Terminator
      && |r.value.0| == r.value.1 - pos)
    ensures r.None? ==> forall q :: pos <= q < |data| ==> data[q] != Terminator
    decreases |data| - pos
  {
    if pos >= |data| then None
    else if data[pos] == Terminator then Some(([], pos))
    else
      match ScanSuffix(data, pos + 1)
      case None => None
      case Some((s, t)) => Some(([DecodedUnit(data[pos])] + s, t))
  }

  /**
   * One record read at pos after the word prev: the word rebuilt from the
   * shared prefix and the suffix, the id from the two bytes after the
   * terminator, and the position of the next record.
   */
  function ReadRecord(data: seq<byte>, pos: nat, prev: Text): (r: Result<(Text, int, nat), DecodeError>)
    requires pos < |data|
    ensures r.Ok? ==> pos < r.value.2
  {
    var head := prev[..if data[pos] < |prev| then data[pos] else |prev|];
    match ScanSuffix(data, pos + 1)
    case None => Err(Unterminated)
    case Some((suffix, t)) =>
      if t + 2 >= |data| then Err(MissingId)
      else Ok((head + suffix, data[t + 1] as int * 256 + data[t + 2] as int, t + 3))
  }

  /** The decoder's state from position pos on: the last word and the list built so far. */
  function DecodeFrom(data: seq<byte>, pos: nat, prev: Text, acc: seq<Token>): (r: Result<seq<Token>, DecodeError>)
    requires StrictlySorted(acc)
    ensures r.Ok? ==> StrictlySorted(r.value)
    decreases |data| - pos
  {
    if pos >= |data| then Ok(acc)
    else
      match ReadRecord(data, pos, prev)
      case Err(e) => Err(e)
      case Ok((word, id, next)) => DecodeFrom(data, next, word, Upsert(acc, Token(word, id)))
  }

  /** `WordsTok.decode`: skip the index, then rebuild and upsert each word in turn. */
  function Decode(data: seq<byte>): (r: Result<seq<Token>, DecodeError>)
    ensures r.Ok? ==> StrictlySorted(r.value)
  {
    DecodeFrom(data, IndexSize, [], [])
  }

  /** Code units the record format can carry and give back. */
  predicate EncodableUnit(u: CodeUnit)
  {
    0 < u < 0x80 || 0xF780 <= u <= 0xF7FF
  }

  /** A word shorter than 256 units, made of encodable units. */
  predicate EncodableWord(w: Text)
  {
    |w| < 256 && forall k :: 0 <= k < |w| ==> EncodableUnit(w[k])
  }

  /** Every word is encodable. */
  ghost predicate Encodable(ws: seq<Token>)
  {
    forall i :: 0 <= i < |ws| ==> EncodableWord(ws[i].word)
  }

  /** The id the decoder reads back: the first id byte times 256 plus the second. */
  function ReadBack(id: int, layout: Layout): int
  {
    var v := IdValues(id, layout);
    StoredByte(v[0]) * 256 + StoredByte(v[1])
  }

  /** The tokens the decoder rebuilds: the same words with the ids as read back. */
  function Decoded(ws: seq<Token>, layout: Layout): (r: seq<Token>)
    ensures |r| == |ws|
    ensures forall i :: 0 <= i < |ws| ==> r[i] == Token(ws[i].word, ReadBack(ws[i].id, layout))
  {
    seq(|ws|, i requires 0 <= i < |ws| => Token(ws[i].word, ReadBack(ws[i].id, layout)))
  }

  /** An encodable unit survives the XOR, the byte store and the decoder's remapping. */
  lemma SuffixByteInverse(u: CodeUnit)
    requires EncodableUnit(u)
    ensures StoredByte(Xor(u, 0x7F)) != Terminator
    ensures DecodedUnit(StoredByte(Xor(u, 0x7F))) == u
  {
    var l := u % 256;
    XorLowByte(u, 0x7F);
    var b := Xor(l, 0x7F);
    assert StoredByte(Xor(u, 0x7F)) == b;
    XorInvolution(l, 0x7F);
    assert XorByte(b, 0x7F) == l;
    EncodableLowByte(u);
    assert b != 0x7F by {
      XorSelf(0x7F);
    }
  }

  /** An encodable unit is the remapping of its low byte, which is not 0. */
  lemma EncodableLowByte(u: CodeUnit)
    requires EncodableUnit(u)
    ensures u % 256 != 0 && UnitOfByte(u % 256) == u
  {
    if u >= 0xF780 {
      assert u == 0xF700 + (u - 0xF700) && u % 256 == u - 0xF700;
    }
  }

  /** A stored suffix is scanned back to the same units, stopping at its terminator. */
  lemma {:induction false} ScanEncoded(data: seq<byte>, p: nat, s: Text)
    requires p + |s| < |data| && data[p + |s|] == Terminator
    requires forall k :: 0 <= k < |s| ==> EncodableUnit(s[k]) && data[p + k] == StoredByte(Xor(s[k], 0x7F))
    ensures ScanSuffix(data, p) == Some((s, p + |s|))
    decreases |s|
  {
    if |s| > 0 {
      SuffixByteInverse(s[0]);
      ScanEncoded(data, p + 1, s[1..]);
      assert s == [s[0]] + s[1..];
    }
  }

  /** The chunks laid end to end: the first n of them. */
  function Flatten(cs: seq<seq<byte>>, n: nat): seq<byte>
    requires n <= |cs|
  {
    if n == 0 then [] else Flatten(cs, n - 1) + cs[n - 1]
  }

  lemma {:induction false} FlattenPrefix(cs: seq<seq<byte>>, i: nat, n: nat)
    requires i <= n <= |cs|
    ensures |Flatten(cs, i)| <= |Flatten(cs, n)| && Flatten(cs, n)[..|Flatten(cs, i)|] == Flatten(cs, i)
    decreases n
  {
    if i < n {
      FlattenPrefix(cs, i, n - 1);
      PrefixOfConcat(Flatten(cs, n - 1), cs[n - 1], |Flatten(cs, i)|);
    } else {
      FullPrefix(Flatten(cs, n));
    }
  }

  /** Chunk i spans starts[i] to starts[i + 1], so the first n chunks span starts[0] to starts[n]. */
  lemma {:induction false} FlattenLength(cs: seq<seq<byte>>, starts: seq<int>, n: nat)
    requires n <= |cs| && |starts| == |cs| + 1
    requires forall i :: 0 <= i < |cs| ==> |cs[i]| == starts[i + 1] - starts[i]
    ensures |Flatten(cs, n)| == starts[n] - starts[0]
  {
    if n > 0 {
      FlattenLength(cs, starts, n - 1);
    }
  }

  /** Chunk i sits in the flattened whole right after the chunks before it. */
  lemma FlattenAt(cs: seq<seq<byte>>, i: nat)
    requires i < |cs|
    ensures |Flatten(cs, i)| + |cs[i]| <= |Flatten(cs, |cs|)|
    ensures forall k :: 0 <= k < |cs[i]| ==> Flatten(cs, |cs|)[|Flatten(cs, i)| + k] == cs[i][k]
  {
    FlattenPrefix(cs, i + 1, |cs|);
    PrefixConcatAt(Flatten(cs, |cs|), Flatten(cs, i), cs[i]);
  }

  lemma PrefixConcatAt(all: seq<byte>, a: seq<byte>, b: seq<byte>)
    requires |a| + |b| <= |all| && all[..|a| + |b|] == a + b
    ensures forall k :: 0 <= k < |b| ==> all[|a| + k] == b[k]
  {
    forall k | 0 <= k < |b|
      ensures all[|a| + k] == b[k]
    {
      assert all[|a| + k] == all[..|a| + |b|][|a| + k] == (a + b)[|a| + k];
    }
  }

  /** Each word's stored record, in list order. */
  function RecordChunks(ws: seq<Token>, layout: Layout): (r: seq<seq<byte>>)
    ensures |r| == |ws|
    ensures forall i {:trigger r[i]} :: 0 <= i < |ws| ==> r[i] == StoredBytes(RawRecord(Prev(ws, i), ws[i], layout))
  {
    seq(|ws|, i requires 0 <= i < |ws| => StoredBytes(RawRecord(Prev(ws, i), ws[i], layout)))
  }

  /** Record i starts after the index and the records before it. */
  lemma RecordChunkStart(ws: seq<Token>, i: nat, layout: Layout)
    requires i <= |ws|
    ensures RecordStart(ws, i) == IndexSize + |Flatten(RecordChunks(ws, layout), i)|
  {
    RecordsLength(ws, i, layout);
  }

  /** The record area of the first i words is a prefix of that of the first n. */
  lemma RecordsPrefix(ws: seq<Token>, i: nat, n: nat, layout: Layout)
    requires i <= n <= |ws|
    ensures RecordStart(ws, i) <= RecordStart(ws, n)
    ensures Records(ws, n, layout)[..RecordStart(ws, i) - IndexSize] == Records(ws, i, layout)
  {
    RecordStartMonotone(ws, i, n);
    FlattenPrefix(RecordChunks(ws, layout), i, n);
  }

  lemma DecodedPrefixSorted(ws: seq<Token>, layout: Layout, i: nat)
    requires StrictlySorted(ws) && i <= |ws|
    ensures StrictlySorted(Decoded(ws, layout)[..i])
  {
    var d := Decoded(ws, layout)[..i];
    assert forall j :: 0 <= j < i ==> d[j].word == ws[j].word;
  }

  /** The decoder's reading of a record with a prefix length, a terminated suffix and id bytes. */
  lemma ReadRecordOk(data: seq<byte>, pos: nat, prev: Text, n: nat, suffix: Text, t: nat)
    requires pos < |data| && data[pos] == n <= |prev|
    requires ScanSuffix(data, pos + 1) == Some((suffix, t)) && t + 2 < |data|
    ensures ReadRecord(data, pos, prev) == Ok((prev[..n] + suffix, data[t + 1] as int * 256 + data[t + 2] as int, t + 3))
  {
  }

  /** ReadRecordOk with the rebuilt word and the id given by name. */
  lemma ReadRecordIs(data: seq<byte>, pos: nat, prev: Text, n: nat, suffix: Text, t: nat, word: Text, id: int)
    requires pos < |data| && data[pos] == n <= |prev|
    requires ScanSuffix(data, pos + 1) == Some((suffix, t)) && t + 2 < |data|
    requires word == prev[..n] + suffix && id == data[t + 1] as int * 256 + data[t + 2] as int
    ensures ReadRecord(data, pos, prev) == Ok((word, id, t + 3))
  {
    ReadRecordOk(data, pos, prev, n, suffix, t);
  }

  /** The bytes from pos on hold the stored values of raw. */
  ghost predicate StoredAt(data: seq<byte>, pos: int, raw: seq<int>)
  {
    0 <= pos && pos + |raw| <= |data| && forall k :: 0 <= k < |raw| ==> data[pos + k] == StoredByte(raw[k])
  }

  /** Every word of acc comes before w. */
  ghost predicate AllBefore(acc: seq<Token>, w: Text)
  {
    forall j :: 0 <= j < |acc| ==> TextLess(acc[j].word, w)
  }

  /** The suffix of a stored record of an encodable word scans back to the word's unshared part. */
  lemma RecordSuffix(data: seq<byte>, pos: nat, prev: Text, tok: Token, layout: Layout)
    requires EncodableWord(tok.word)
    requires StoredAt(data, pos, RawRecord(prev, tok, layout))
    ensures ScanSuffix(data, pos + 1) == Some((tok.word[Lcp(prev, tok.word)..], pos + |RawRecord(prev, tok, layout)| - 3))
  {
    var raw := RawRecord(prev, tok, layout);
    var n := Lcp(prev, tok.word);
    RawRecordParts(prev, tok, layout);
    var suffix := tok.word[n..];
    forall k | 0 <= k < |suffix|
      ensures EncodableUnit(suffix[k]) && data[pos + 1 + k] == StoredByte(Xor(suffix[k], 0x7F))
    {
      assert suffix[k] == tok.word[n + k];
      assert data[pos + 1 + k] == StoredByte(raw[1 + k]);
    }
    assert data[pos + 1 + |suffix|] == StoredByte(raw[|raw| - 3]);
    ScanEncoded(data, pos + 1, suffix);
  }

  /** The fields of a stored record of an encodable word, as the decoder finds them. */
  lemma RecordFields(data: seq<byte>, pos: nat, prev: Text, tok: Token, layout: Layout)
    requires EncodableWord(tok.word)
    requires StoredAt(data, pos, RawRecord(prev, tok, layout))
    ensures data[pos] == Lcp(prev, tok.word)
    ensures ScanSuffix(data, pos + 1) == Some((tok.word[Lcp(prev, tok.word)..], pos + |RawRecord(prev, tok, layout)| - 3))
    ensures data[pos + |RawRecord(prev, tok, layout)| - 2] as int * 256 + data[pos + |RawRecord(prev, tok, layout)| - 1] as int
      == ReadBack(tok.id, layout)
  {
    var raw := RawRecord(prev, tok, layout);
    RawRecordParts(prev, tok, layout);
    assert data[pos] == StoredByte(raw[0]);
    RecordSuffix(data, pos, prev, tok, layout);
    assert data[pos + |raw| - 2] == StoredByte(raw[|raw| - 2]) && data[pos + |raw| - 1] == StoredByte(raw[|raw| - 1]);
  }

  /** The decoder reads back a stored record of an encodable word: its word, its id, the next position. */
  lemma ScanRecord(data: seq<byte>, pos: nat, prev: Text, tok: Token, layout: Layout)
    requires EncodableWord(tok.word)
    requires StoredAt(data, pos, RawRecord(prev, tok, layout))
    ensures ReadRecord(data, pos, prev) == Ok((tok.word, ReadBack(tok.id, layout), pos + |RawRecord(prev, tok, layout)|))
  {
    RecordFields(data, pos, prev, tok, layout);
    var n := Lcp(prev, tok.word);
    var len := |RawRecord(prev, tok, layout)|;
    ReadRecordOk(data, pos, prev, n, tok.word[n..], pos + len - 3);
    LcpPrefix(prev, tok.word);
    PrefixRejoin(prev, tok.word, n);
  }

  /**
   * Decoding a stored record whose word follows every word decoded so far
   * appends that word, with its id as read back, and moves past the record.
   */
  lemma DecodeRecord(data: seq<byte>, pos: nat, prev: Text, tok: Token, layout: Layout, acc: seq<Token>,
                      next: nat, after: seq<Token>)
    requires EncodableWord(tok.word)
    requires StoredAt(data, pos, RawRecord(prev, tok, layout))
    requires StrictlySorted(acc) && AllBefore(acc, tok.word)
    requires next == pos + |RawRecord(prev, tok, layout)|
    requires after == acc + [Token(tok.word, ReadBack(tok.id, layout))]
    ensures StrictlySorted(after)
    ensures DecodeFrom(data, pos, prev, acc) == DecodeFrom(data, next, tok.word, after)
  {
    ScanRecord(data, pos, prev, tok, layout);
    UpsertGreatest(acc, Token(tok.word, ReadBack(tok.id, layout)));
  }

  /** Chunk i, the stored bytes of raw, as found in data that holds the flattened chunks after the index. */
  lemma ChunkInData(data: seq<byte>, cs: seq<seq<byte>>, i: nat, p: int, raw: seq<int>)
    requires i < |cs| && IndexSize <= |data| && data[IndexSize..] == Flatten(cs, |cs|)
    requires p == IndexSize + |Flatten(cs, i)| && cs[i] == StoredBytes(raw)
    ensures StoredAt(data, p, raw)
  {
    FlattenAt(cs, i);
    forall k | 0 <= k < |raw|
      ensures data[p + k] == StoredByte(raw[k])
    {
      assert data[p + k] == data[IndexSize..][|Flatten(cs, i)| + k] == cs[i][k];
    }
  }

  /** Record i of the record area, as found in data that holds that area after the index. */
  lemma RecordInData(data: seq<byte>, ws: seq<Token>, layout: Layout, i: nat)
    requires i < |ws| && |data| == EncodedLength(ws)
    requires data[IndexSize..] == Flatten(RecordChunks(ws, layout), |ws|)
    ensures StoredAt(data, RecordStart(ws, i), RawRecord(Prev(ws, i), ws[i], layout))
  {
    RecordChunkStart(ws, i, layout);
    ChunkInData(data, RecordChunks(ws, layout), i, RecordStart(ws, i), RawRecord(Prev(ws, i), ws[i], layout));
  }

  /** In a strictly sorted list, every word decoded before word i comes before it. */
  lemma DecodedBefore(ws: seq<Token>, layout: Layout, i: nat)
    requires StrictlySorted(ws) && i < |ws|
    ensures AllBefore(Decoded(ws, layout)[..i], ws[i].word)
  {
    var acc := Decoded(ws, layout)[..i];
    forall j | 0 <= j < |acc|
      ensures TextLess(acc[j].word, ws[i].word)
    {
      assert acc[j].word == ws[j].word;
    }
  }

  /** Decoding record i of well-formed data upserts token i and moves on to record i + 1. */
  lemma DecodeOneRecord(data: seq<byte>, ws: seq<Token>, layout: Layout, i: nat)
    requires StrictlySorted(ws) && Encodable(ws) && i < |ws|
    requires |data| == EncodedLength(ws)
    requires data[IndexSize..] == Flatten(RecordChunks(ws, layout), |ws|)
    ensures StrictlySorted(Decoded(ws, layout)[..i]) && StrictlySorted(Decoded(ws, layout)[..i + 1])
    ensures DecodeFrom(data, RecordStart(ws, i), Prev(ws, i), Decoded(ws, layout)[..i])
         == DecodeFrom(data, RecordStart(ws, i + 1), ws[i].word, Decoded(ws, layout)[..i + 1])
  {
    DecodedPrefixSorted(ws, layout, i);
    DecodedPrefixSorted(ws, layout, i + 1);
    RecordInData(data, ws, layout, i);
    assert RecordStart(ws, i + 1) == RecordStart(ws, i) + |RawRecord(Prev(ws, i), ws[i], layout)|;
    DecodedBefore(ws, layout, i);
    DecodedSnoc(ws, layout, i);
    DecodeRecord(data, RecordStart(ws, i), Prev(ws, i), ws[i], layout, Decoded(ws, layout)[..i],
                 RecordStart(ws, i + 1), Decoded(ws, layout)[..i + 1]);
  }

  lemma DecodedSnoc(ws: seq<Token>, layout: Layout, i: nat)
    requires i < |ws|
    ensures Decoded(ws, layout)[..i + 1] == Decoded(ws, layout)[..i] + [Token(ws[i].word, ReadBack(ws[i].id, layout))]
  {
    PrefixSnoc(Decoded(ws, layout), i);
  }

  lemma {:induction false} DecodeRecordsFrom(data: seq<byte>, ws: seq<Token>, layout: Layout, i: nat)
    requires StrictlySorted(ws) && Encodable(ws) && i <= |ws|
    requires |data| == EncodedLength(ws)
    requires data[IndexSize..] == Flatten(RecordChunks(ws, layout), |ws|)
    requires StrictlySorted(Decoded(ws, layout)[..i])
    ensures DecodeFrom(data, RecordStart(ws, i), Prev(ws, i), Decoded(ws, layout)[..i]) == Ok(Decoded(ws, layout))
    decreases |ws| - i
  {
    if i < |ws| {
      DecodeOneRecord(data, ws, layout, i);
      assert Prev(ws, i + 1) == ws[i].word;
      DecodeRecordsFrom(data, ws, layout, i + 1);
    } else {
      DecodeEnd(data, ws, layout);
    }
  }

  /** Past the last record the decoder stops with what it has. */
  lemma DecodeEnd(data: seq<byte>, ws: seq<Token>, layout: Layout)
    requires |data| == EncodedLength(ws)
    requires StrictlySorted(Decoded(ws, layout)[..|ws|])
    ensures DecodeFrom(data, RecordStart(ws, |ws|), Prev(ws, |ws|), Decoded(ws, layout)[..|ws|]) == Ok(Decoded(ws, layout))
  {
    FullPrefix(Decoded(ws, layout));
    assert RecordStart(ws, |ws|) >= |data|;
  }

  /**
   * Decoding what the encoder lays out gives back the list's words in
   * order, each with its id as the decoder reads the two id bytes, provided
   * the words fit the format and no index entry spills into the records.
   */
  lemma RoundTrip(ws: seq<Token>, layout: Layout)
    requires StrictlySorted(ws) && Encodable(ws) && IndexInside(ws, layout)
    ensures Decode(Image(ws, layout)) == Ok(Decoded(ws, layout))
  {
    var data := Image(ws, layout);
    ImageRecords(ws, layout);
    DecodedPrefixSorted(ws, layout, 0);
    DecodeRecordsFrom(data, ws, layout, 0);
    EmptyPrefix(Decoded(ws, layout));
  }

  /** As written, the encoder stores `id & 0xff` first, which the decoder takes as the high byte. */
  lemma ReadBackAsWritten(id: int)
    requires 0 <= id < 0x1_0000
    ensures ReadBack(id, AsWritten) == (id % 256) * 256 + id / 256
  {
    ToInt32Small(id);
  }

  lemma ReadBackIntended(id: int)
    requires 0 <= id < 0x1_0000
    ensures ReadBack(id, Intended) == id
  {
    ToInt32Small(id);
  }

  /**
   * `decode(encode(d))` as written: the same words, every 16-bit id with
   * its two bytes swapped, when no word after the first starts with '{'.
   */
  lemma RoundTripAsWritten(ws: seq<Token>)
    requires StrictlySorted(ws) && Encodable(ws)
    requires forall i :: 0 <= i < |ws| ==> 0 <= ws[i].id < 0x1_0000
    requires IndexInside(ws, AsWritten)
    ensures Decode(Image(ws, AsWritten)) == Ok(Decoded(ws, AsWritten))
    ensures forall i :: 0 <= i < |ws| ==>
      Decoded(ws, AsWritten)[i].id == (ws[i].id % 256) * 256 + ws[i].id / 256
  {
    RoundTrip(ws, AsWritten);
    forall i | 0 <= i < |ws|
      ensures Decoded(ws, AsWritten)[i].id == (ws[i].id % 256) * 256 + ws[i].id / 256
    {
      ReadBackAsWritten(ws[i].id);
    }
  }

  /**
   * With the index limited to a..z and the high id byte first, decoding
   * the encoder's output gives back exactly the list it encoded.
   */
  lemma RoundTripIntended(ws: seq<Token>)
    requires StrictlySorted(ws) && Encodable(ws)
    requires forall i :: 0 <= i < |ws| ==> 0 <= ws[i].id < 0x1_0000
    ensures Decode(Image(ws, Intended)) == Ok(ws)
  {
    assert IndexInside(ws, Intended);
    RoundTrip(ws, Intended);
    forall i | 0 <= i < |ws|
      ensures Decoded(ws, Intended)[i] == ws[i]
    {
      ReadBackIntended(ws[i].id);
    }
    assert Decoded(ws, Intended) == ws;
  }

  /*
   * The list "a" (id 1), "{" (id 2): '{' is the code unit after 'z', so
   * with letter indexes up to 26 its index entry goes to bytes 52 and 53,
   * which the first record already occupies.
   */

  lemma BraceLayout(ws: seq<Token>)
    requires ws == [Token([97], 1), Token([123], 2)]
    ensures RecordStart(ws, 1) == 57 && EncodedLength(ws) == 62
    ensures RawRecord(Prev(ws, 0), ws[0], AsWritten) == [0, 30, 127, 1, 0]
    ensures RawRecord(Prev(ws, 1), ws[1], AsWritten) == [0, 4, 127, 2, 0]
    ensures IndexWrites(ws, 0, AsWritten) == [ByteWrite(0, 0), ByteWrite(1, 52)]
    ensures IndexWrites(ws, 1, AsWritten) == [ByteWrite(52, 0), ByteWrite(53, 57)]
  {
    assert Lcp([], [97]) == 0 && Lcp([97], [123]) == 0;
    BraceRaw([], 97, 1, 30);
    BraceRaw([97], 123, 2, 4);
    ToInt32Small(52);
    ToInt32Small(57);
  }

  /** The record of a one-unit word with nothing shared, as written. */
  lemma BraceRaw(prev: Text, u: CodeUnit, id: int, x: int)
    requires 0 <= id < 256 && x == Xor(u, 0x7F) && Lcp(prev, [u]) == 0
    ensures RawRecord(prev, Token([u], id), AsWritten) == [0, x, 127, id, 0]
  {
    ToInt32Small(id);
    var sv, iv := SuffixValues([u], 0), IdValues(id, AsWritten);
    assert sv == [x];
    assert id % 256 == id && ToInt32(id) / 256 == 0;
    assert iv == [id % 256, ToInt32(id) / 256];
    RawRecordOfOne(RawRecord(prev, Token([u], id), AsWritten), sv, iv, x, id, 0);
  }

  lemma RawRecordOfOne(r: seq<int>, sv: seq<int>, iv: seq<int>, x: int, a: int, b: int)
    requires r == [0] + sv + [Terminator] + iv && sv == [x] && iv == [a, b]
    ensures r == [0, x, 127, a, b]
  {
  }

  /** The encoder's stores for the list above: index entry and record of "a", then of "{". */
  lemma BraceWrites(ws: seq<Token>)
    requires ws == [Token([97], 1), Token([123], 2)]
    ensures EncoderWrites(ws, 1, AsWritten) == [ByteWrite(0, 0), ByteWrite(1, 52)] + RecordWrites(52, [0, 30, 127, 1, 0])
    ensures EncoderWrites(ws, 2, AsWritten)
      == EncoderWrites(ws, 1, AsWritten) + ([ByteWrite(52, 0), ByteWrite(53, 57)] + RecordWrites(57, [0, 4, 127, 2, 0]))
  {
    BraceLayout(ws);
    assert EncoderWrites(ws, 0, AsWritten) == [];
    assert EncoderWrites(ws, 1, AsWritten) == [] + WordWrites(ws, 0, AsWritten);
  }

  /** After the stores for "a", its record sits at 52..56. */
  lemma BraceFirstRecord(ws: seq<Token>)
    requires ws == [Token([97], 1), Token([123], 2)]
    ensures var after0 := PokeAll(Zeros(62), EncoderWrites(ws, 1, AsWritten));
      |after0| == 62 && after0[54] == 127 && after0[55] == 1 && after0[56] == 0
  {
    BraceWrites(ws);
    var raw0 := [0, 30, 127, 1, 0];
    var idx0 := [ByteWrite(0, 0), ByteWrite(1, 52)];
    PokeAllAppend(Zeros(62), idx0, RecordWrites(52, raw0));
    PokeAllRecord(PokeAll(Zeros(62), idx0), 52, raw0);
    assert raw0[2] == 127 && raw0[3] == 1 && raw0[4] == 0;
  }

  lemma TwoPokes(buf: seq<byte>, w0: ByteWrite, w1: ByteWrite)
    ensures PokeAll(buf, [w0, w1]) == Poke(Poke(buf, w0), w1)
  {
    assert [w0][..0] == [];
    assert PokeAll(buf, [w0]) == Poke(PokeAll(buf, []), w0);
    assert [w0, w1][..1] == [w0];
  }

  /** The encoder's output for the list above: the index entry for '{' overwrites record 0's first two bytes. */
  lemma BraceImage(ws: seq<Token>)
    requires ws == [Token([97], 1), Token([123], 2)]
    ensures |Image(ws, AsWritten)| == 62
    ensures var img := Image(ws, AsWritten);
      img[52] == 0 && img[53] == 57 && img[54] == 127 && img[55] == 1 && img[56] == 0
      && img[57] == 0 && img[58] == 4 && img[59] == 127 && img[60] == 2 && img[61] == 0
  {
    BraceLayout(ws);
    BraceWrites(ws);
    BraceFirstRecord(ws);
    var raw1 := [0, 4, 127, 2, 0];
    var idx1, rec1 := [ByteWrite(52, 0), ByteWrite(53, 57)], RecordWrites(57, raw1);
    var after0 := PokeAll(Zeros(62), EncoderWrites(ws, 1, AsWritten));
    PokeAllAppend(Zeros(62), EncoderWrites(ws, 1, AsWritten), idx1 + rec1);
    PokeAllAppend(after0, idx1, rec1);
    TwoPokes(after0, idx1[0], idx1[1]);
    var mid := PokeAll(after0, idx1);
    PokeAllRecord(mid, 57, raw1);
    var img := PokeAll(mid, rec1);
    forall q | 52 <= q < 57
      ensures img[q] == mid[q]
    {
      PokeAllUntouched(mid, rec1, q);
    }
    assert raw1[0] == 0 && raw1[1] == 4 && raw1[2] == 127 && raw1[3] == 2 && raw1[4] == 0;
  }

  /** What the records themselves hold at those positions: "a" is stored as 0x61 XOR 0x7F = 30. */
  lemma BraceRecords(ws: seq<Token>)
    requires ws == [Token([97], 1), Token([123], 2)]
    ensures Records(ws, 2, AsWritten)[..5] == [0, 30, 127, 1, 0]
  {
    BraceLayout(ws);
    RecordsPrefix(ws, 1, 2, AsWritten);
    RecordsOne(ws, AsWritten);
    StoredSmall([0, 30, 127, 1, 0]);
  }

  /** The records of the first word alone. */
  lemma RecordsOne(ws: seq<Token>, layout: Layout)
    requires |ws| > 0
    ensures Records(ws, 1, layout) == StoredBytes(RawRecord(Prev(ws, 0), ws[0], layout))
  {
    RecordsSnoc(ws, 1, layout);
    assert Records(ws, 0, layout) == [];
  }

  /** Values that already are bytes are stored unchanged. */
  lemma StoredSmall(raw: seq<int>)
    requires forall k :: 0 <= k < |raw| ==> 0 <= raw[k] < 256
    ensures StoredBytes(raw) == raw
  {
  }

  /** The decoder reads one record and goes on from the next with the word upserted. */
  lemma DecodeStep(data: seq<byte>, pos: nat, prev: Text, acc: seq<Token>, word: Text, id: int, next: nat)
    requires pos < |data| && StrictlySorted(acc)
    requires ReadRecord(data, pos, prev) == Ok((word, id, next))
    ensures DecodeFrom(data, pos, prev, acc) == DecodeFrom(data, next, word, Upsert(acc, Token(word, id)))
  {
  }

  /** A one-unit suffix followed by its terminator. */
  lemma ScanOne(data: seq<byte>, p: nat)
    requires p + 1 < |data| && data[p] != Terminator && data[p + 1] == Terminator
    ensures ScanSuffix(data, p) == Some(([DecodedUnit(data[p])], p + 1))
  {
    assert ScanSuffix(data, p + 1) == Some(([], p + 1));
    assert [DecodedUnit(data[p])] + [] == [DecodedUnit(data[p])];
  }

  lemma BraceUnitF(b: byte)
    requires b == 57
    ensures DecodedUnit(b) == 70
  {
    assert Xor(0, 1) == 1;
    assert Xor(1, 3) == 2;
    assert Xor(3, 7) == 4;
    assert Xor(7, 15) == 8;
    assert Xor(14, 31) == 17;
    assert Xor(28, 63) == 35;
    assert Xor(57, 0x7F) == 70;
  }

  lemma BraceUnitBrace(b: byte)
    requires b == 4
    ensures DecodedUnit(b) == 123
  {
    assert Xor(0, 1) == 1;
    assert Xor(0, 3) == 3;
    assert Xor(0, 7) == 7;
    assert Xor(0, 15) == 15;
    assert Xor(1, 31) == 30;
    assert Xor(2, 63) == 61;
    assert Xor(4, 0x7F) == 123;
  }

  lemma BraceFirstScan(data: seq<byte>)
    requires 54 < |data| && data[53] == 57 && data[54] == 127
    ensures ScanSuffix(data, 53) == Some(([70], 54))
  {
    BraceUnitF(data[53]);
    ScanOne(data, 53);
  }

  lemma BraceSecondScan(data: seq<byte>)
    requires 59 < |data| && data[58] == 4 && data[59] == 127
    ensures ScanSuffix(data, 58) == Some(([123], 59))
  {
    BraceUnitBrace(data[58]);
    ScanOne(data, 58);
  }

  lemma BraceFirstRead(data: seq<byte>)
    requires |data| == 62
    requires data[52] == 0 && data[53] == 57 && data[54] == 127 && data[55] == 1 && data[56] == 0
    ensures ReadRecord(data, 52, []) == Ok(([70], 256, 57))
  {
    BraceFirstScan(data);
    var empty: Text := [];
    assert empty[..0] + [70] == [70];
    assert data[55] as int * 256 + data[56] as int == 256;
    ReadRecordIs(data, 52, [], 0, [70], 54, [70], 256);
  }

  lemma BraceSecondRead(data: seq<byte>)
    requires |data| == 62
    requires data[57] == 0 && data[58] == 4 && data[59] == 127 && data[60] == 2 && data[61] == 0
    ensures ReadRecord(data, 57, [70]) == Ok(([123], 512, 62))
  {
    BraceSecondScan(data);
    assert [70][..0] + [123] == [123];
    assert data[60] as int * 256 + data[61] as int == 512;
    ReadRecordIs(data, 57, [70], 0, [123], 59, [123], 512);
  }

  /** The first record of those bytes decodes to "F" with id 256. */
  lemma BraceFirstDecoded(data: seq<byte>)
    requires |data| == 62
    requires data[52] == 0 && data[53] == 57 && data[54] == 127 && data[55] == 1 && data[56] == 0
    ensures DecodeFrom(data, 52, [], []) == DecodeFrom(data, 57, [70], [Token([70], 256)])
  {
    BraceFirstRead(data);
    DecodeStep(data, 52, [], [], [70], 256, 57);
    UpsertGreatest([], Token([70], 256));
    assert [] + [Token([70], 256)] == [Token([70], 256)];
  }

  /** The second record decodes to "{" with id 512, which sorts after "F", and ends the data. */
  lemma BraceSecondDecoded(data: seq<byte>)
    requires |data| == 62
    requires data[57] == 0 && data[58] == 4 && data[59] == 127 && data[60] == 2 && data[61] == 0
    ensures DecodeFrom(data, 57, [70], [Token([70], 256)]) == Ok([Token([70], 256), Token([123], 512)])
  {
    BraceSecondRead(data);
    var t0, t1 := Token([70], 256), Token([123], 512);
    DecodeStep(data, 57, [70], [t0], [123], 512, 62);
    assert TextLess([70], [123]);
    UpsertGreatest([t0], t1);
    assert [t0] + [t1] == [t0, t1];
  }

  /** What the decoder makes of those bytes: "F" (0x39 XOR 0x7F) with id 256, then "{" with id 512. */
  lemma BraceDecode(data: seq<byte>)
    requires |data| == 62
    requires data[52] == 0 && data[53] == 57 && data[54] == 127 && data[55] == 1 && data[56] == 0
    requires data[57] == 0 && data[58] == 4 && data[59] == 127 && data[60] == 2 && data[61] == 0
    ensures Decode(data) == Ok([Token([70], 256), Token([123], 512)])
  {
    BraceFirstDecoded(data);
    BraceSecondDecoded(data);
  }

  /**
   * As written, the round trip loses the first word of this list: the
   * index entry for '{' lands on the first record, so "a" comes back as "F".
   * The entry is outside the index exactly when IndexInside fails.
   */
  lemma BraceRoundTripFails(ws: seq<Token>)
    requires ws == [Token([97], 1), Token([123], 2)]
    ensures !IndexInside(ws, AsWritten)
    ensures Decode(Image(ws, AsWritten)) == Ok([Token([70], 256), Token([123], 512)])
    ensures Decode(Image(ws, AsWritten)) != Ok(Decoded(ws, AsWritten))
  {
    BraceImage(ws);
    BraceDecode(Image(ws, AsWritten));
    assert IndexEntry(ws, 1, AsWritten);
    assert Decoded(ws, AsWritten)[0].word == [97];
  }
}
