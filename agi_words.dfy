/**
 * The `WordsTok` class (src/agi.ts:50-171): the dictionary's token list,
 * kept sorted by word, its lookups and edits, and the WORDS.TOK encoder
 * and decoder working on byte arrays. The list operations are proved
 * against the functions of WordOrder, the codec against WordsFormat.
 */
module AgiWords {
  import opened Bytes
  import opened WordOrder
  import opened WordsFormat

  /** The encoder's `while` loop: how many leading code units word shares with prev. */
  method CommonPrefix(prev: Text, word: Text) returns (n: nat)
    ensures n == Lcp(prev, word)
    ensures prev[..n] == word[..n]
    ensures n < |prev| && n < |word| ==> prev[n] != word[n]
  {
    n := 0;
    while n < |prev| && n < |word| && prev[n] == word[n]
      invariant n <= |prev| && n <= |word|
      invariant LcpFrom(prev, word, n) == Lcp(prev, word)
      decreases |word| - n
    {
      n := n + 1;
    }
    LcpPrefix(prev, word);
  }

  /**
   * The stores of one record from pos: the shared-prefix length n, the
   * word's units from n on, each XOR 0x7F, the terminator 0x7F, then
   * `id & 0xff` and `id >> 8` (src/agi.ts:142-148, 160-166).
   */
  method EmitRecord(a: array<byte>, pos: int, n: nat, word: Text, id: int, ghost prev: Text) returns (next: int)
    requires n == Lcp(prev, word)
    modifies a
    ensures next == pos + |RawRecord(prev, Token(word, id), AsWritten)|
    ensures a[..] == PokeAll(old(a[..]), RecordWrites(pos, RawRecord(prev, Token(word, id), AsWritten)))
  {
    RawRecordParts(prev, Token(word, id), AsWritten);
    next := EmitValues(a, pos, n, word, id, RawRecord(prev, Token(word, id), AsWritten));
  }

  /** EmitRecord's stores, for any values laid out as a record of word from n on. */
  method EmitValues(a: array<byte>, pos: int, n: nat, word: Text, id: int, ghost raw: seq<int>) returns (next: int)
    requires n <= |word| && |raw| == 4 + |word| - n && raw[0] == n
    requires forall k :: 1 <= k < |raw| - 3 ==> raw[k] == Xor(word[n + k - 1], 0x7F)
    requires raw[|raw| - 3] == Terminator && raw[|raw| - 2] == id % 256 && raw[|raw| - 1] == ToInt32(id) / 256
    modifies a
    ensures next == pos + |raw|
    ensures a[..] == PokeAll(old(a[..]), RecordWrites(pos, raw))
  {
    ghost var a0 := a[..];
    ghost var writes := StoreNext(a, pos, n, a0, pos, raw, []);
    next := pos + 1;
    var i := n;
    while i < |word|
      invariant n <= i <= |word|
      invariant next == pos + 1 + (i - n) && |writes| == next - pos
      invariant forall k :: 0 <= k < |writes| ==> writes[k] == ByteWrite(pos + k, raw[k])
      invariant a[..] == PokeAll(a0, writes)
    {
      writes := StoreNext(a, next, Xor(word[i], 0x7F), a0, pos, raw, writes);
      next := next + 1;
      i := i + 1;
    }
    writes := StoreNext(a, next, Terminator, a0, pos, raw, writes);
    writes := StoreNext(a, next + 1, id % 256, a0, pos, raw, writes);
    writes := StoreNext(a, next + 2, ToInt32(id) / 256, a0, pos, raw, writes);
    next := next + 3;
    WritesAreRecord(writes, pos, raw);
  }

  /** One store of a record's next value, after the stores of the values before it. */
  method StoreNext(a: array<byte>, at: int, v: int, ghost a0: seq<byte>, ghost pos: int, ghost raw: seq<int>,
                   ghost writes: seq<ByteWrite>) returns (ghost writes': seq<ByteWrite>)
    requires at == pos + |writes| && |writes| < |raw| && v == raw[|writes|]
    requires forall k :: 0 <= k < |writes| ==> writes[k] == ByteWrite(pos + k, raw[k])
    requires a[..] == PokeAll(a0, writes)
    modifies a
    ensures |writes'| == |writes| + 1
    ensures forall k :: 0 <= k < |writes'| ==> writes'[k] == ByteWrite(pos + k, raw[k])
    ensures a[..] == PokeAll(a0, writes')
  {
    WritesSnoc(writes, pos, raw, v);
    Store(a, at, v);
    PokeAllSnoc(a0, writes, ByteWrite(at, v));
    writes' := writes + [ByteWrite(at, v)];
  }

  /** An index entry: `pos >> 8` and `pos & 0xff` at twice the letter index (src/agi.ts:139-140, 152-153). */
  method EmitIndex(a: array<byte>, letter: int, pos: int)
    modifies a
    ensures a[..] == PokeAll(old(a[..]), [ByteWrite(2 * letter, ToInt32(pos) / 256), ByteWrite(2 * letter + 1, pos % 256)])
  {
    ghost var a0 := a[..];
    var hi, lo := ByteWrite(2 * letter, ToInt32(pos) / 256), ByteWrite(2 * letter + 1, pos % 256);
    Store(a, 2 * letter, ToInt32(pos) / 256);
    Store(a, 2 * letter + 1, pos % 256);
    PokeAllSnoc(a0, [], hi);
    PokeAllSnoc(a0, [hi], lo);
  }

  /** Word i's stores, made after those of the words before it, extend the encoder's stores by one word. */
  lemma EncoderStep(ws: seq<Token>, i: nat, z: seq<byte>, before: seq<byte>, after: seq<byte>)
    requires i < |ws|
    requires before == PokeAll(z, EncoderWrites(ws, i, AsWritten))
    requires after == PokeAll(before, WordWrites(ws, i, AsWritten))
    ensures after == PokeAll(z, EncoderWrites(ws, i + 1, AsWritten))
  {
    PokeAllAppend(z, EncoderWrites(ws, i, AsWritten), WordWrites(ws, i, AsWritten));
  }

  /** The option r with s put in front of the units it found. */
  function Prepended(s: Text, r: Option<(Text, nat)>): (q: Option<(Text, nat)>)
    ensures q.None? <==> r.None?
  {
    match r
    case None => None
    case Some((u, t)) => Some((s + u, t))
  }

  lemma PrependedTwice(s: Text, u: CodeUnit, r: Option<(Text, nat)>)
    ensures Prepended(s, Prepended([u], r)) == Prepended(s + [u], r)
  {
    if r.Some? {
      assert s + ([u] + r.value.0) == (s + [u]) + r.value.0;
    }
  }

  lemma PrependedEmpty(r: Option<(Text, nat)>)
    ensures Prepended([], r) == r
  {
    if r.Some? {
      assert [] + r.value.0 == r.value.0;
    }
  }

  /** A suffix unit: the scan goes on after it. */
  lemma ScanStep(data: seq<byte>, pos: nat)
    requires pos < |data| && data[pos] != Terminator
    ensures ScanSuffix(data, pos) == Prepended([DecodedUnit(data[pos])], ScanSuffix(data, pos + 1))
  {
  }

  /** The terminator: the scan ends with what was found before it. */
  lemma ScanStop(data: seq<byte>, pos: nat, s: Text)
    requires pos < |data| && data[pos] == Terminator
    ensures Prepended(s, ScanSuffix(data, pos)) == Some((s, pos))
  {
    assert s + [] == s;
  }

  /** A dictionary: the token list of `WordsTok` (the private `words` array). */
  class WordsTok {
    var words: seq<Token>

    /**
     * The list is sorted by word. `new WordsTok(src)` keeps repeated words
     * of src, so a word may appear more than once; the decoder and
     * `setWord`/`deleteWord` on a list without repeats keep it strictly
     * sorted.
     */
    ghost predicate Valid()
      reads this
    {
      Sorted(words)
    }

    /** `new WordsTok()`: the empty dictionary. */
    constructor Empty()
      ensures Valid() && words == []
    {
      words := [];
    }

    /** `new WordsTok(src)` for tokens not from a `WordsTok`: copied, then sorted by word. */
    constructor FromTokens(src: seq<Token>)
      ensures words == SortTokens(src)
      ensures multiset(words) == multiset(src) && Valid()
      ensures DistinctWords(src) ==> StrictlySorted(words)
    {
      words := SortTokens(src);
      SortTokensSorted(src);
      if DistinctWords(src) {
        SortTokensStrict(src);
      }
    }

    /** `new WordsTok(other)`: the other dictionary's tokens, in its order, not re-sorted. */
    constructor Copy(other: WordsTok)
      ensures words == other.words
      ensures other.Valid() ==> Valid()
    {
      words := other.words;
    }

    /** `hasWord`: the binary search finds w exactly when some token holds w. */
    function HasWord(w: Text): (r: bool)
      reads this
      requires Valid()
      ensures r <==> Present(words, w)
    {
      SearchFindsPresent(words, w);
      Search(words, w) >= 0
    }

    /**
     * `getWordId`: the id of a token holding w, or None (`undefined`) when
     * w is absent; without repeated words, the id of w's only token.
     */
    function GetWordId(w: Text): (r: Option<int>)
      reads this
      requires Valid()
      ensures r.Some? <==> Present(words, w)
      ensures r.Some? ==> Token(w, r.value) in words
      ensures StrictlySorted(words) ==> r == Lookup(words, w)
    {
      SearchFindsPresent(words, w);
      SearchAgreesWithLookup(words, w);
      var i := Search(words, w);
      if i < 0 then None else assert words[i] == Token(w, words[i].id); Some(words[i].id)
    }

    /**
     * `setWord`: overwrite the token the search finds for w, else splice
     * (w, id) in at the insertion point. Tokens of other words stay as they
     * were, in order; without repeated words, w now maps to id.
     */
    method SetWord(w: Text, id: int)
      requires Valid()
      modifies this
      ensures Valid()
      ensures words == Upsert(old(words), Token(w, id))
      ensures Token(w, id) in words
      ensures Without(words, w) == Without(old(words), w)
      ensures forall v :: v != w ==> Lookup(words, v) == Lookup(old(words), v)
      ensures StrictlySorted(old(words)) ==> StrictlySorted(words) && Lookup(words, w) == Some(id)
    {
      var tok := Token(w, id);
      ghost var ws := words;
      var i := Search(words, w);
      if i < 0 {
        words := words[..-i - 1] + [tok] + words[-i - 1..];
      } else {
        words := words[i := tok];
      }
      assert words == Upsert(ws, tok);
      WithoutUpsert(ws, tok);
      LookupOthers(words, ws, w);
      if StrictlySorted(ws) {
        UpsertLookup(ws, tok);
      }
    }

    /**
     * `deleteWord`: splice out the token the search finds for w, if any;
     * without repeated words, w is then absent and every other word keeps
     * its id.
     */
    method DeleteWord(w: Text)
      requires Valid()
      modifies this
      ensures Valid()
      ensures words == Remove(old(words), w)
      ensures Present(old(words), w) ==>
        exists i :: 0 <= i < |old(words)| && old(words)[i].word == w && words == old(words)[..i] + old(words)[i + 1..]
      ensures !Present(old(words), w) ==> words == old(words)
      ensures StrictlySorted(old(words)) ==>
        StrictlySorted(words) && Lookup(words, w) == None &&
        forall v :: v != w ==> Lookup(words, v) == Lookup(old(words), v)
    {
      ghost var ws := words;
      var i := Search(words, w);
      if i >= 0 {
        words := words[..i] + words[i + 1..];
      }
      assert words == Remove(ws, w);
      RemoveDropsOne(ws, w);
      if StrictlySorted(ws) {
        RemoveLookup(ws, w);
      }
    }

    /**
     * `calculateEncodedLength`: 52, plus per word 1 + its length + 1 + 2,
     * less one for every leading unit it shares with the word before.
     */
    method CalculateEncodedLength() returns (len: int)
      ensures len == EncodedLength(words)
    {
      len := 26 * 2;
      if |words| > 0 {
        len := len + 1 + |words[0].word| + 1 + 2;
        assert Lcp([], words[0].word) == 0;
        for i := 1 to |words|
          invariant len == RecordStart(words, i)
        {
          len := len + 1 + |words[i].word| + 1 + 2;
          var j := 0;
          while j < |words[i - 1].word| && j < |words[i].word|
            invariant j <= |words[i - 1].word| && j <= |words[i].word|
            invariant LcpFrom(words[i - 1].word, words[i].word, j) == Lcp(words[i - 1].word, words[i].word)
            invariant len == RecordStart(words, i) + 4 + |words[i].word| - j
          {
            if words[i - 1].word[j] != words[i].word[j] {
              break;
            }
            len := len - 1;
            j := j + 1;
          }
        }
      }
    }

    /**
     * `encode`: the stores of the index entries and records into a
     * zero-filled array of the computed length; the result is the
     * encoder's image of the list.
     */
    method Encode() returns (encoded: array<byte>)
      ensures fresh(encoded)
      ensures encoded[..] == Image(words, AsWritten)
    {
      var len := CalculateEncodedLength();
      encoded := ZeroFilled(len);
      EmitWords(encoded);
    }

    /** The stores of `encode` after the allocation: every word's index entry and record, in list order. */
    method EmitWords(a: array<byte>)
      modifies a
      ensures a[..] == PokeAll(old(a[..]), EncoderWrites(words, |words|, AsWritten))
    {
      ghost var z := a[..];
      ghost var ws := words;
      var pos := 26 * 2;
      if |words| > 0 {
        pos := EmitFirstWord(a, pos);
        EncoderStep(ws, 0, z, z, a[..]);
        for wi := 1 to |words|
          invariant pos == RecordStart(ws, wi)
          invariant a[..] == PokeAll(z, EncoderWrites(ws, wi, AsWritten))
        {
          pos := EmitNext(a, wi, pos, z);
        }
      }
    }

    /** The loop body of `encode`: word wi's stores extend those of the words before it. */
    method EmitNext(a: array<byte>, wi: nat, pos: int, ghost z: seq<byte>) returns (next: int)
      requires 0 < wi < |words| && pos == RecordStart(words, wi)
      requires a[..] == PokeAll(z, EncoderWrites(words, wi, AsWritten))
      modifies a
      ensures next == RecordStart(words, wi + 1)
      ensures a[..] == PokeAll(z, EncoderWrites(words, wi + 1, AsWritten))
    {
      ghost var before := a[..];
      next := EmitWord(a, wi, pos);
      EncoderStep(words, wi, z, before, a[..]);
    }

    /** The encoder's stores for the first word: its index entry, if any, and its record with no shared prefix. */
    method EmitFirstWord(a: array<byte>, pos: int) returns (next: int)
      requires 0 < |words| && pos == RecordStart(words, 0)
      modifies a
      ensures next == RecordStart(words, 1)
      ensures a[..] == PokeAll(old(a[..]), WordWrites(words, 0, AsWritten))
    {
      ghost var before, ws := a[..], words;
      var first := words[0].word;
      if |first| > 0 {
        var firstLetterPos := first[0] as int - 97;
        if firstLetterPos >= 0 && firstLetterPos <= 26 {
          EmitIndex(a, firstLetterPos, pos);
        }
      }
      ghost var index := IndexWrites(ws, 0, AsWritten);
      assert a[..] == PokeAll(before, index);
      assert Lcp([], first) == 0 && Prev(ws, 0) == [];
      ghost var rec := RecordWrites(pos, RawRecord([], ws[0], AsWritten));
      next := EmitRecord(a, pos, 0, first, words[0].id, []);
      PokeAllAppend(before, index, rec);
    }

    /** The encoder's stores for word wi after the first: its index entry, if any, and its record. */
    method EmitWord(a: array<byte>, wi: nat, pos: int) returns (next: int)
      requires 0 < wi < |words| && pos == RecordStart(words, wi)
      modifies a
      ensures next == RecordStart(words, wi + 1)
      ensures a[..] == PokeAll(old(a[..]), WordWrites(words, wi, AsWritten))
    {
      ghost var before, ws := a[..], words;
      var word, prevWord := words[wi].word, words[wi - 1].word;
      if |word| > 0 {
        var letterPos := word[0] as int - 97;
        if (|prevWord| == 0 || word[0] != prevWord[0]) && letterPos >= 0 && letterPos <= 26 {
          EmitIndex(a, letterPos, pos);
        }
      }
      ghost var index := IndexWrites(ws, wi, AsWritten);
      assert a[..] == PokeAll(before, index);
      var charIndex := CommonPrefix(prevWord, word);
      assert Prev(ws, wi) == prevWord;
      ghost var rec := RecordWrites(pos, RawRecord(prevWord, ws[wi], AsWritten));
      next := EmitRecord(a, pos, charIndex, word, words[wi].id, prevWord);
      PokeAllAppend(before, index, rec);
    }

    /**
     * `WordsTok.decode`: skip the 52-byte index, then for each record
     * take the first `data[pos]` units of the previous word, append the
     * suffix up to the 0x7F terminator and set the word to the id read
     * from the next two bytes. Where the source would loop forever on a
     * missing terminator or read `undefined` id bytes, the model stops
     * with an error.
     */
    static method Decode(data: array<byte>) returns (r: Result<WordsTok, DecodeError>)
      ensures r.Ok? ==> fresh(r.value) && StrictlySorted(r.value.words) && WordsFormat.Decode(data[..]) == Ok(r.value.words)
      ensures r.Err? ==> WordsFormat.Decode(data[..]) == Err(r.error)
    {
      ghost var d := data[..];
      var dict := new WordsTok.Empty();
      var pos := 26 * 2;
      var prevWord: Text := [];
      while pos < data.Length
        invariant fresh(dict) && StrictlySorted(dict.words)
        invariant DecodeFrom(d, pos, prevWord, dict.words) == WordsFormat.Decode(d)
        decreases data.Length - pos
      {
        var entry := ReadEntry(data, pos, prevWord);
        if entry.Err? {
          return Err(entry.error);
        }
        var (word, id, next) := entry.value;
        DecodeStep(d, pos, prevWord, dict.words, word, id, next);
        pos := next;
        dict.SetWord(word, id);
        prevWord := word;
      }
      return Ok(dict);
    }

    /**
     * The body of the decoder's loop for the record at pos: the first
     * `data[pos]` units of the previous word, the suffix units up to the
     * terminator, each XOR 0x7F, and the id from the two bytes after it.
     */
    static method ReadEntry(data: array<byte>, pos: nat, prevWord: Text) returns (r: Result<(Text, int, nat), DecodeError>)
      requires pos < data.Length
      ensures r == ReadRecord(data[..], pos, prevWord)
    {
      ghost var d := data[..];
      var word := prevWord[..if data[pos] < |prevWord| then data[pos] else |prevWord|];
      ghost var head := word;
      ghost var scanned: Text := [];
      var p := pos + 1;
      PrependedEmpty(ScanSuffix(d, p));
      while p < data.Length && data[p] != 0x7F
        invariant pos + 1 <= p <= data.Length
        invariant word == head + scanned
        invariant ScanSuffix(d, pos + 1) == Prepended(scanned, ScanSuffix(d, p))
        decreases data.Length - p
      {
        var u := DecodedUnit(data[p]);
        ScanStep(d, p);
        PrependedTwice(scanned, u, ScanSuffix(d, p + 1));
        word := word + [u];
        scanned := scanned + [u];
        p := p + 1;
      }
      if p >= data.Length {
        return Err(Unterminated);
      }
      ScanStop(d, p, scanned);
      if p + 2 >= data.Length {
        return Err(MissingId);
      }
      var id := data[p + 1] as int * 0x100 + data[p + 2] as int;
      return Ok((word, id, p + 3));
    }
  }
}
