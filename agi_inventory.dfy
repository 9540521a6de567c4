/**
 * The AGI OBJECT file (src/agi.ts:172-277): a table of 3- or 4-byte item
 * records (a 16-bit little-endian name pointer, stored less the record
 * alignment, and a room number) followed by the NUL-terminated names, the
 * whole file optionally XORed with the key "Avis Durgan".
 */
module AgiInventory {
  import opened Bytes

  /** An inventory item (`Item`): its name and the room it starts in. */
  datatype Item = Item(name: Text, roomNumber: int)

  /** The two errors `readObjectRecords` throws. */
  datatype ObjectError = InvalidOffset | UnterminatedString

  /** `STANDARD_XOR_PATTERN`: the character codes of "Avis Durgan". */
  const AvisDurgan: seq<byte> := [0x41, 0x76, 0x69, 0x73, 0x20, 0x44, 0x75, 0x72, 0x67, 0x61, 0x6E]

  /**
   * `xorPattern[i % xorPattern.length]` as a bitwise operand: with an empty
   * pattern the index is NaN, the element `undefined`, and the operand 0.
   */
  function KeyByte(key: seq<byte>, i: nat): byte
  {
    if |key| == 0 then 0 else key[i % |key|]
  }

  /** `bytes[i] ^= key[i % key.length]` for every i. */
  function XorWithKey(s: seq<byte>, key: seq<byte>): (r: seq<byte>)
    ensures |r| == |s|
  {
    seq(|s|, i requires 0 <= i < |s| => XorByte(s[i], KeyByte(key, i)))
  }

  /** Applying the repeating-key XOR twice gives the bytes back. */
  lemma XorWithKeyInvolution(s: seq<byte>, key: seq<byte>)
    ensures XorWithKey(XorWithKey(s, key), key) == s
  {
    var once := XorWithKey(s, key);
    forall i | 0 <= i < |s|
      ensures XorWithKey(once, key)[i] == s[i]
    {
      XorInvolution(s[i], KeyByte(key, i));
    }
  }

  /** An empty pattern leaves every byte as it is. */
  lemma XorWithEmptyKey(s: seq<byte>)
    ensures XorWithKey(s, []) == s
  {
    forall i | 0 <= i < |s|
      ensures XorWithKey(s, [])[i] == s[i]
    {
      XorZero(s[i]);
    }
  }

  /** The XOR loops of `decode` and `encode`, in place. */
  method XorInPlace(a: array<byte>, key: seq<byte>)
    modifies a
    ensures a[..] == XorWithKey(old(a[..]), key)
  {
    ghost var a0 := a[..];
    for i := 0 to a.Length
      invariant forall j :: 0 <= j < i ==> a[j] == XorByte(a0[j], KeyByte(key, j))
      invariant forall j :: i <= j < a.Length ==> a[j] == a0[j]
    {
      a[i] := XorByte(a[i], if |key| == 0 then 0 else key[i % |key|]);
    }
  }

  // ---------------------------------------------------------------------
  // readObjectRecords
  // ---------------------------------------------------------------------

  /**
   * The name at offset: the bytes up to the first NUL or the end of the
   * buffer (`while (bytes[offset])` stops on `undefined` too), each mapped
   * to a code unit, and where the scan stopped.
   */
  function ScanName(bytes: seq<byte>, offset: nat): (r: (Text, nat))
    requires offset <= |bytes|
    ensures offset <= r.1 <= |bytes| && |r.0| == r.1 - offset
    ensures r.1 < |bytes| ==> bytes[r.1] == 0
    decreases |bytes| - offset
  {
    if offset == |bytes| || bytes[offset] == 0 then ([], offset)
    else
      var rest := ScanName(bytes, offset + 1);
      ([UnitOfByte(bytes[offset])] + rest.0, rest.1)
  }

  /**
   * The scan stops at the first NUL from offset (or the end), and the name
   * is the bytes before it, each mapped to its code unit.
   */
  lemma {:induction false} ScanNameSpec(bytes: seq<byte>, offset: nat)
    requires offset <= |bytes|
    ensures forall k :: offset <= k < ScanName(bytes, offset).1 ==> bytes[k] != 0
    ensures forall k :: 0 <= k < |ScanName(bytes, offset).0| ==> ScanName(bytes, offset).0[k] == UnitOfByte(bytes[offset + k])
    decreases |bytes| - offset
  {
    if offset < |bytes| && bytes[offset] != 0 {
      ScanNameSpec(bytes, offset + 1);
      var rest := ScanName(bytes, offset + 1);
      var name := [UnitOfByte(bytes[offset])] + rest.0;
      assert ScanName(bytes, offset) == (name, rest.1);
      forall k | 0 <= k < |name|
        ensures name[k] == UnitOfByte(bytes[offset + k])
      {
        if k > 0 {
          assert name[k] == rest.0[k - 1];
        }
      }
    }
  }

  /** `dataStartPos`: Infinity until the first record, then the least bound seen. */
  datatype Limit = Infinity | Finite(n: int)

  /** `pos < dataStartPos`. */
  predicate Before(pos: int, limit: Limit)
  {
    limit.Infinity? || pos < limit.n
  }

  /** `Math.min(dataStartPos, bound)`. */
  function MinLimit(limit: Limit, bound: int): (r: Limit)
    ensures r.Finite? && r.n <= bound && (limit.Finite? ==> r.n <= limit.n)
    ensures r.n == bound || r == limit
  {
    if limit.Infinity? || bound < limit.n then Finite(bound) else limit
  }

  /**
   * How the scan bound is derived from a record's name offset: as written,
   * `recordAlignment + offset`, although the offset already includes the
   * alignment; as intended, the offset itself (where the first name starts).
   */
  datatype BoundRule = AlignPlusOffset | OffsetOnly

  function StopAt(align: nat, offset: int, rule: BoundRule): int
  {
    if rule == AlignPlusOffset then align + offset else offset
  }

  /** `recordAlignment + (bytes[pos] | (bytes[pos + 1] << 8))`, with `undefined` past the end read as 0. */
  function SlotOffset(bytes: seq<byte>, align: nat, pos: nat): int
  {
    align + (ByteAt(bytes, pos) + 256 * ByteAt(bytes, pos + 1))
  }

  /** The scan from the record slot at pos, with the bound so far and the items read so far. */
  function RecordsFrom(bytes: seq<byte>, align: nat, rule: BoundRule, pos: nat, limit: Limit, acc: seq<Item>)
    : (r: Result<seq<Item>, ObjectError>)
    requires align >= 3
    requires limit.Infinity? ==> pos == 0
    ensures r.Ok? ==> |acc| <= |r.value|
    ensures r.Ok? && limit.Infinity? ==> |r.value| > |acc|
    decreases (if limit.Infinity? then |bytes| + align else limit.n) - pos
  {
    if Before(pos, limit) then
      var offset := SlotOffset(bytes, align, pos);
      if offset < pos + align || offset >= |bytes| then Err(InvalidOffset)
      else
        var name := ScanName(bytes, offset);
        if name.1 == |bytes| then Err(UnterminatedString)
        else
          RecordsFrom(bytes, align, rule, pos + align, MinLimit(limit, StopAt(align, offset, rule)),
                      acc + [Item(name.0, bytes[pos + 2])])
    else if pos > limit.n then Err(InvalidOffset)
    else Ok(acc)
  }

  /** `readObjectRecords(bytes, recordAlignment)`, under the given bound rule. */
  function ObjectRecords(bytes: seq<byte>, align: nat, rule: BoundRule): (r: Result<seq<Item>, ObjectError>)
    requires align >= 3
    ensures r.Ok? ==> |r.value| >= 1
  {
    RecordsFrom(bytes, align, rule, 0, Infinity, [])
  }

  /** A name scan that has read name and is now at offset, as the rest of the scan from start. */
  lemma ScanNameStep(bytes: seq<byte>, start: nat, offset: nat, name: Text)
    requires start <= offset < |bytes| && bytes[offset] != 0
    requires ScanName(bytes, start) == (name + ScanName(bytes, offset).0, ScanName(bytes, offset).1)
    ensures ScanName(bytes, start)
         == ((name + [UnitOfByte(bytes[offset])]) + ScanName(bytes, offset + 1).0, ScanName(bytes, offset + 1).1)
  {
    var rest := ScanName(bytes, offset + 1);
    assert name + ([UnitOfByte(bytes[offset])] + rest.0) == (name + [UnitOfByte(bytes[offset])]) + rest.0;
  }

  /** One record slot read: the scan goes on from the next slot with the item appended. */
  lemma RecordsStep(bytes: seq<byte>, align: nat, rule: BoundRule, pos: nat, limit: Limit, acc: seq<Item>,
                    offset: int, name: Text, end: nat, next: Limit, acc': seq<Item>)
    requires align >= 3 && (limit.Infinity? ==> pos == 0) && Before(pos, limit)
    requires offset == SlotOffset(bytes, align, pos) && pos + align <= offset < |bytes|
    requires (name, end) == ScanName(bytes, offset) && end < |bytes|
    requires next == MinLimit(limit, StopAt(align, offset, rule))
    requires acc' == acc + [Item(name, bytes[pos + 2])]
    ensures RecordsFrom(bytes, align, rule, pos, limit, acc) == RecordsFrom(bytes, align, rule, pos + align, next, acc')
  {
  }

  /** Past the bound: 'invalid offset' when beyond it, else the items read. */
  lemma RecordsEnd(bytes: seq<byte>, align: nat, rule: BoundRule, pos: nat, limit: Limit, acc: seq<Item>)
    requires align >= 3 && (limit.Infinity? ==> pos == 0) && !Before(pos, limit)
    ensures RecordsFrom(bytes, align, rule, pos, limit, acc) == if pos > limit.n then Err(InvalidOffset) else Ok(acc)
  {
  }

  /** A slot whose pointer is before its own end or past the buffer: 'invalid offset'. */
  lemma RecordsBadPointer(bytes: seq<byte>, align: nat, rule: BoundRule, pos: nat, limit: Limit, acc: seq<Item>, offset: int)
    requires align >= 3 && (limit.Infinity? ==> pos == 0) && Before(pos, limit)
    requires offset == SlotOffset(bytes, align, pos) && (offset < pos + align || offset >= |bytes|)
    ensures RecordsFrom(bytes, align, rule, pos, limit, acc) == Err(InvalidOffset)
  {
  }

  /** A slot whose name runs to the end of the buffer: 'unterminated string'. */
  lemma RecordsUnterminated(bytes: seq<byte>, align: nat, rule: BoundRule, pos: nat, limit: Limit, acc: seq<Item>, offset: int)
    requires align >= 3 && (limit.Infinity? ==> pos == 0) && Before(pos, limit)
    requires offset == SlotOffset(bytes, align, pos) && pos + align <= offset < |bytes|
    requires ScanName(bytes, offset).1 == |bytes|
    ensures RecordsFrom(bytes, align, rule, pos, limit, acc) == Err(UnterminatedString)
  {
  }

  /** The inner loop of `readObjectRecords`: the name's units and where it stops. */
  method ReadName(bytes: array<byte>, start: nat) returns (name: Text, offset: nat)
    requires start <= bytes.Length
    ensures (name, offset) == ScanName(bytes[..], start)
  {
    ghost var d := bytes[..];
    name, offset := [], start;
    assert name + ScanName(d, offset).0 == ScanName(d, offset).0;
    while offset < bytes.Length && bytes[offset] != 0
      invariant start <= offset <= bytes.Length
      invariant ScanName(d, start) == (name + ScanName(d, offset).0, ScanName(d, offset).1)
      decreases bytes.Length - offset
    {
      ScanNameStep(d, start, offset, name);
      var c := bytes[offset];
      offset := offset + 1;
      name := name + [UnitOfByte(c)];
    }
    assert ScanName(d, offset) == ([], offset);
    assert name + [] == name;
  }

  /**
   * `readObjectRecords`: walk the record slots while pos is below the
   * bound, checking each pointer and reading its NUL-terminated name.
   */
  method ReadObjectRecords(bytes: array<byte>, align: nat) returns (r: Result<seq<Item>, ObjectError>)
    requires align >= 3
    ensures r == ObjectRecords(bytes[..], align, AlignPlusOffset)
  {
    ghost var d := bytes[..];
    ghost var goal := RecordsFrom(d, align, AlignPlusOffset, 0, Infinity, []);
    var dataStartPos := Infinity;
    var pos := 0;
    var records: seq<Item> := [];
    while Before(pos, dataStartPos)
      invariant dataStartPos.Infinity? ==> pos == 0
      invariant RecordsFrom(d, align, AlignPlusOffset, pos, dataStartPos, records) == goal
      decreases (if dataStartPos.Infinity? then bytes.Length + align else dataStartPos.n) - pos
    {
      var step := ReadSlot(bytes, align, pos, dataStartPos, records);
      if step.Err? {
        return Err(step.error);
      }
      dataStartPos, records := step.value.0, step.value.1;
      pos := pos + align;
    }
    RecordsEnd(d, align, AlignPlusOffset, pos, dataStartPos, records);
    if pos > dataStartPos.n {
      return Err(InvalidOffset);
    }
    return Ok(records);
  }

  /**
   * One pass of the loop of `readObjectRecords`: check the slot's pointer,
   * lower the bound, read the name and append the item; the scan from
   * here is the scan from the next slot with the new bound and items.
   */
  method ReadSlot(bytes: array<byte>, align: nat, pos: nat, limit: Limit, records: seq<Item>)
    returns (r: Result<(Limit, seq<Item>), ObjectError>)
    requires align >= 3 && (limit.Infinity? ==> pos == 0) && Before(pos, limit)
    ensures r.Err? ==> RecordsFrom(bytes[..], align, AlignPlusOffset, pos, limit, records) == Err(r.error)
    ensures r.Ok? ==> r.value.0.Finite? && r.value.0.n < bytes.Length + align
                      && (limit.Finite? ==> r.value.0.n <= limit.n)
                      && RecordsFrom(bytes[..], align, AlignPlusOffset, pos, limit, records)
                         == RecordsFrom(bytes[..], align, AlignPlusOffset, pos + align, r.value.0, r.value.1)
  {
    ghost var d := bytes[..];
    var offset := align + (ByteAt(bytes[..], pos) + 256 * ByteAt(bytes[..], pos + 1));
    if offset < pos + align || offset >= bytes.Length {
      RecordsBadPointer(d, align, AlignPlusOffset, pos, limit, records, offset);
      return Err(InvalidOffset);
    }
    var next := MinLimit(limit, align + offset);
    var name, end := ReadName(bytes, offset);
    if end == bytes.Length {
      RecordsUnterminated(d, align, AlignPlusOffset, pos, limit, records, offset);
      return Err(UnterminatedString);
    }
    var records' := records + [Item(name, bytes[pos + 2])];
    RecordsStep(d, align, AlignPlusOffset, pos, limit, records, offset, name, end, next, records');
    return Ok((next, records'));
  }

  /** The position of record slot i: i records of align bytes each. */
  function SlotPos(align: nat, i: nat): nat
  {
    if i == 0 then 0 else SlotPos(align, i - 1) + align
  }

  lemma {:induction false} SlotPosIsProduct(align: nat, i: nat)
    ensures SlotPos(align, i) == i * align
  {
    if i > 0 {
      SlotPosIsProduct(align, i - 1);
    }
  }

  /** The least name offset among the first m record slots. */
  function MinOffset(bytes: seq<byte>, align: nat, m: nat): int
    requires m >= 1
  {
    if m == 1 then SlotOffset(bytes, align, 0)
    else
      var o := SlotOffset(bytes, align, SlotPos(align, m - 1));
      var rest := MinOffset(bytes, align, m - 1);
      if o < rest then o else rest
  }

  /** The item read from the record slot at p: its pointer is valid and its name terminated. */
  predicate SlotRead(bytes: seq<byte>, align: nat, p: nat, it: Item)
  {
    var offset := SlotOffset(bytes, align, p);
    align >= 3 && p + align <= offset < |bytes| && ScanName(bytes, offset).1 < |bytes|
    && it == Item(ScanName(bytes, offset).0, bytes[p + 2])
  }

  /** Item i was read from the slot at SlotPos(align, i), for every item. */
  predicate SlotsRead(bytes: seq<byte>, align: nat, items: seq<Item>)
    decreases |items|
  {
    |items| == 0
    || (SlotsRead(bytes, align, items[..|items| - 1])
        && SlotRead(bytes, align, SlotPos(align, |items| - 1), items[|items| - 1]))
  }

  /** SlotsRead spelled out: every item i came from slot i. */
  lemma {:induction false} SlotsReadEach(bytes: seq<byte>, align: nat, items: seq<Item>)
    requires SlotsRead(bytes, align, items)
    ensures forall i :: 0 <= i < |items| ==> SlotRead(bytes, align, SlotPos(align, i), items[i])
  {
    if |items| > 0 {
      var init := items[..|items| - 1];
      SlotsReadEach(bytes, align, init);
      assert forall i :: 0 <= i < |init| ==> items[i] == init[i];
    }
  }

  /** A successful scan from a slot reached by reading slot i into item i keeps doing so. */
  lemma {:induction false} RecordsFromSlots(bytes: seq<byte>, align: nat, rule: BoundRule, pos: nat, limit: Limit, acc: seq<Item>)
    requires align >= 3 && (limit.Infinity? ==> pos == 0)
    requires pos == SlotPos(align, |acc|) && SlotsRead(bytes, align, acc)
    ensures var r := RecordsFrom(bytes, align, rule, pos, limit, acc);
      r.Ok? ==> SlotsRead(bytes, align, r.value)
    decreases (if limit.Infinity? then |bytes| + align else limit.n) - pos
  {
    if Before(pos, limit) {
      var offset := SlotOffset(bytes, align, pos);
      if pos + align <= offset < |bytes| {
        var name := ScanName(bytes, offset);
        if name.1 < |bytes| {
          var it := Item(name.0, bytes[pos + 2]);
          var limit' := MinLimit(limit, StopAt(align, offset, rule));
          SlotsSnoc(bytes, align, acc, it);
          RecordsStep(bytes, align, rule, pos, limit, acc, offset, name.0, name.1, limit', acc + [it]);
          RecordsFromSlots(bytes, align, rule, pos + align, limit', acc + [it]);
        }
      }
    }
  }

  /** A successful read of at least one slot ends at the slot the bound rule derives from the least name offset. */
  predicate EndsAtBound(bytes: seq<byte>, align: nat, rule: BoundRule, r: Result<seq<Item>, ObjectError>)
  {
    r.Ok? && |r.value| >= 1 ==> SlotPos(align, |r.value|) == StopAt(align, MinOffset(bytes, align, |r.value|), rule)
  }

  /**
   * A successful scan that keeps its bound where the bound rule puts the
   * least name offset seen ends at the slot the rule derives from the least
   * name offset of all the slots it read.
   */
  lemma {:induction false} RecordsFromStop(bytes: seq<byte>, align: nat, rule: BoundRule, pos: nat, limit: Limit, acc: seq<Item>)
    requires align >= 3 && (limit.Infinity? ==> pos == 0) && pos == SlotPos(align, |acc|)
    requires |acc| == 0 <==> limit.Infinity?
    requires |acc| > 0 ==> limit.n == StopAt(align, MinOffset(bytes, align, |acc|), rule)
    ensures EndsAtBound(bytes, align, rule, RecordsFrom(bytes, align, rule, pos, limit, acc))
    decreases (if limit.Infinity? then |bytes| + align else limit.n) - pos
  {
    if !Before(pos, limit) {
      RecordsEnd(bytes, align, rule, pos, limit, acc);
    } else {
      var offset := SlotOffset(bytes, align, pos);
      if pos + align <= offset < |bytes| {
        var name := ScanName(bytes, offset);
        if name.1 < |bytes| {
          var it := Item(name.0, bytes[pos + 2]);
          var limit' := MinLimit(limit, StopAt(align, offset, rule));
          StopStep(bytes, align, rule, pos, limit, |acc|);
          RecordsStep(bytes, align, rule, pos, limit, acc, offset, name.0, name.1, limit', acc + [it]);
          RecordsFromStop(bytes, align, rule, pos + align, limit', acc + [it]);
        } else {
          RecordsUnterminated(bytes, align, rule, pos, limit, acc, offset);
        }
      } else {
        RecordsBadPointer(bytes, align, rule, pos, limit, acc, offset);
      }
    }
  }

  /** Reading the slot at pos moves to the next slot and lowers the bound to the rule's bound for the least offset. */
  lemma StopStep(bytes: seq<byte>, align: nat, rule: BoundRule, pos: nat, limit: Limit, n: nat)
    requires pos == SlotPos(align, n)
    requires n == 0 <==> limit.Infinity?
    requires n > 0 ==> limit.n == StopAt(align, MinOffset(bytes, align, n), rule)
    ensures SlotPos(align, n + 1) == pos + align
    ensures MinLimit(limit, StopAt(align, SlotOffset(bytes, align, pos), rule))
         == Finite(StopAt(align, MinOffset(bytes, align, n + 1), rule))
  {
  }

  lemma SlotsSnoc(bytes: seq<byte>, align: nat, acc: seq<Item>, it: Item)
    requires SlotsRead(bytes, align, acc) && SlotRead(bytes, align, SlotPos(align, |acc|), it)
    ensures SlotsRead(bytes, align, acc + [it])
  {
    assert (acc + [it])[..|acc|] == acc;
  }

  /**
   * As written, a successful read ends with pos one record past the first
   * name's start: the last slot read is the one at the first name itself,
   * whose bytes are name bytes taken for a pointer and a room number.
   */
  lemma ObjectRecordsAsWritten(bytes: seq<byte>, align: nat)
    requires align >= 3
    ensures var r := ObjectRecords(bytes, align, AlignPlusOffset);
      r.Ok? ==> |r.value| >= 1
                && (forall i :: 0 <= i < |r.value| ==> SlotRead(bytes, align, SlotPos(align, i), r.value[i]))
                && SlotPos(align, |r.value| - 1) == MinOffset(bytes, align, |r.value|)
  {
    RecordsFromSlots(bytes, align, AlignPlusOffset, 0, Infinity, []);
    RecordsFromStop(bytes, align, AlignPlusOffset, 0, Infinity, []);
    var r := ObjectRecords(bytes, align, AlignPlusOffset);
    if r.Ok? {
      SlotsReadEach(bytes, align, r.value);
      var m := |r.value|;
      assert m >= 1 && SlotPos(align, m) == align + MinOffset(bytes, align, m);
      assert SlotPos(align, m) == SlotPos(align, m - 1) + align;
    }
  }

  /**
   * With the bound at the offset itself, a successful read walks exactly
   * the slots in front of the first name, so no slot overlaps a name.
   */
  lemma ObjectRecordsIntended(bytes: seq<byte>, align: nat)
    requires align >= 3
    ensures var r := ObjectRecords(bytes, align, OffsetOnly);
      r.Ok? ==> |r.value| >= 1
                && (forall i :: 0 <= i < |r.value| ==> SlotRead(bytes, align, SlotPos(align, i), r.value[i]))
                && SlotPos(align, |r.value|) == MinOffset(bytes, align, |r.value|)
  {
    RecordsFromSlots(bytes, align, OffsetOnly, 0, Infinity, []);
    RecordsFromStop(bytes, align, OffsetOnly, 0, Infinity, []);
    var r := ObjectRecords(bytes, align, OffsetOnly);
    if r.Ok? {
      SlotsReadEach(bytes, align, r.value);
      assert |r.value| >= 1 && EndsAtBound(bytes, align, OffsetOnly, r);
    }
  }

  /** Without any NUL byte no name ends, so reading fails whatever the alignment. */
  lemma NoNulNoRecords(bytes: seq<byte>, align: nat, rule: BoundRule)
    requires align >= 3
    requires forall k :: 0 <= k < |bytes| ==> bytes[k] != 0
    ensures ObjectRecords(bytes, align, rule).Err?
  {
    var offset := SlotOffset(bytes, align, 0);
    if offset < |bytes| {
      assert ScanName(bytes, offset).1 == |bytes|;
    }
  }

  /** A file too short to hold the first record's name fails with 'invalid offset'. */
  lemma ShortFileInvalid(bytes: seq<byte>, align: nat, rule: BoundRule)
    requires align >= 3 && |bytes| <= align
    ensures ObjectRecords(bytes, align, rule) == Err(InvalidOffset)
  {
  }

  /** A one-item file: pointer 0 (the name right after the 3-byte record), room 7, the name "A". */
  const OneItemFile: seq<byte> := [0, 0, 7, 0x41, 0]

  /** The scan with either alignment rejects the one-item file, as written. */
  lemma OneItemFileRejected(bytes: seq<byte>)
    requires bytes == OneItemFile
    ensures ObjectRecords(bytes, 3, AlignPlusOffset) == Err(InvalidOffset)
    ensures ObjectRecords(bytes, 4, AlignPlusOffset) == Err(InvalidOffset)
  {
    assert ScanName(bytes, 4) == ([], 4);
    assert ScanName(bytes, 3) == ([UnitOfByte(bytes[3])] + [], 4);
    assert [UnitOfByte(bytes[3])] + [] == [0x41];
    assert RecordsFrom(bytes, 3, AlignPlusOffset, 0, Infinity, [])
        == RecordsFrom(bytes, 3, AlignPlusOffset, 3, Finite(6), [Item([0x41], 7)]);
    assert RecordsFrom(bytes, 4, AlignPlusOffset, 0, Infinity, [])
        == RecordsFrom(bytes, 4, AlignPlusOffset, 4, Finite(8), [Item([], 7)]);
  }

  /** With the intended bound the one-item file reads as its single record. */
  lemma OneItemFileIntended(bytes: seq<byte>)
    requires bytes == OneItemFile
    ensures ObjectRecords(bytes, 3, OffsetOnly) == Ok([Item([0x41], 7)])
  {
    assert ScanName(bytes, 4) == ([], 4);
    assert ScanName(bytes, 3) == ([UnitOfByte(bytes[3])] + [], 4);
    assert [UnitOfByte(bytes[3])] + [] == [0x41];
    assert [] + [Item([0x41], 7)] == [Item([0x41], 7)];
    assert RecordsFrom(bytes, 3, OffsetOnly, 0, Infinity, [])
        == RecordsFrom(bytes, 3, OffsetOnly, 3, Finite(3), [Item([0x41], 7)]);
  }

  // ---------------------------------------------------------------------
  // InventoryFile
  // ---------------------------------------------------------------------

  /** What an `InventoryFile` holds. */
  datatype Inventory = Inventory(maxAnimatedObjects: int, recordAlignment: int, items: seq<Item>,
                                 xorPattern: Option<seq<byte>>, nullItemName: Text)

  /** Whether `decode` XORs the file: its last byte (`undefined` for an empty file) is not 0. */
  predicate Keyed(bytes: seq<byte>)
  {
    |bytes| == 0 || bytes[|bytes| - 1] != 0
  }

  /** The bytes `decode` reads the records from. */
  function Plain(bytes: seq<byte>): (r: seq<byte>)
    ensures |r| == |bytes|
  {
    if Keyed(bytes) then XorWithKey(bytes, AvisDurgan) else bytes
  }

  /**
   * `InventoryFile.decode`: records read with alignment 3, or with 4 when
   * that fails; record 0 gives the animated-object count and the null
   * item's name, the others are the items.
   */
  function DecodeInventory(bytes: seq<byte>, rule: BoundRule): (r: Result<Inventory, ObjectError>)
    ensures r.Ok? ==> r.value.recordAlignment in {3, 4}
    ensures r.Ok? ==> (r.value.xorPattern.Some? <==> Keyed(bytes))
  {
    var plain := Plain(bytes);
    var align := if ObjectRecords(plain, 3, rule).Ok? then 3 else 4;
    match ObjectRecords(plain, align, rule)
    case Err(e) => Err(e)
    case Ok(records) =>
      Ok(Inventory(records[0].roomNumber, align, records[1..],
                   if Keyed(bytes) then Some(AvisDurgan) else None, records[0].name))
  }

  /** `decode` once the records are read: an error passes through, else record 0 and the rest make the inventory. */
  lemma DecodeFrom(bytes: seq<byte>, plain: seq<byte>, records: Result<seq<Item>, ObjectError>, align: nat)
    requires plain == Plain(bytes)
    requires align == if ObjectRecords(plain, 3, AlignPlusOffset).Ok? then 3 else 4
    requires records == ObjectRecords(plain, align, AlignPlusOffset)
    ensures records.Err? ==> DecodeInventory(bytes, AlignPlusOffset) == Err(records.error)
    ensures records.Ok? ==> (|records.value| >= 1
      && DecodeInventory(bytes, AlignPlusOffset)
         == Ok(Inventory(records.value[0].roomNumber, align, records.value[1..],
                         if Keyed(bytes) then Some(AvisDurgan) else None, records.value[0].name)))
  {
  }

  /**
   * A decoded inventory is the records read from the unkeyed bytes, null
   * item first, and XORing those bytes with the recovered key (when there
   * is one) gives the file back.
   */
  lemma DecodeInventoryParts(bytes: seq<byte>, rule: BoundRule)
    requires DecodeInventory(bytes, rule).Ok?
    ensures var inv := DecodeInventory(bytes, rule).value;
      ObjectRecords(Plain(bytes), inv.recordAlignment, rule)
        == Ok([Item(inv.nullItemName, inv.maxAnimatedObjects)] + inv.items)
      && (inv.recordAlignment == 4 ==> ObjectRecords(Plain(bytes), 3, rule).Err?)
      && (if inv.xorPattern.Some? then XorWithKey(Plain(bytes), inv.xorPattern.value) else Plain(bytes)) == bytes
  {
    var inv := DecodeInventory(bytes, rule).value;
    var records := ObjectRecords(Plain(bytes), inv.recordAlignment, rule).value;
    assert records == [records[0]] + records[1..];
    if Keyed(bytes) {
      XorWithKeyInvolution(bytes, AvisDurgan);
    }
  }

  /** As written, the one-item file is rejected; with the intended bound it decodes. */
  lemma OneItemFileDecode(bytes: seq<byte>)
    requires bytes == OneItemFile
    ensures DecodeInventory(bytes, AlignPlusOffset) == Err(InvalidOffset)
    ensures DecodeInventory(bytes, OffsetOnly) == Ok(Inventory(7, 3, [], None, [0x41]))
  {
    assert !Keyed(bytes) && Plain(bytes) == bytes;
    OneItemFileRejected(bytes);
    OneItemFileIntended(bytes);
    var ok := ObjectRecords(bytes, 3, OffsetOnly).value;
    assert ok[0] == Item([0x41], 7) && ok[1..] == [];
  }

  /** `reduce((len, it) => len + it.name.length + 1, ...)`: the names with their NULs. */
  function NamesLength(items: seq<Item>): nat
  {
    if |items| == 0 then 0 else NamesLength(items[..|items| - 1]) + |items[|items| - 1].name| + 1
  }

  /** The record table: one slot for the null item and one per item. */
  function TableSize(inv: Inventory): int
  {
    inv.recordAlignment * (1 + |inv.items|)
  }

  /** `calculateEncodedLength`: the table and the items' names; the null item's name is not counted. */
  function EncodedLength(inv: Inventory): int
  {
    TableSize(inv) + NamesLength(inv.items)
  }

  /** The text cursor before item k's name: after the table, the null item's name and every earlier name. */
  function TextPos(inv: Inventory, k: nat): int
    requires k <= |inv.items|
  {
    if k == 0 then TableSize(inv) + |inv.nullItemName| + 1
    else TextPos(inv, k - 1) + |inv.items[k - 1].name| + 1
  }

  /** The pointer cursor before item k's record, advancing by step per item. */
  function PtrPos(inv: Inventory, step: int, k: nat): int
  {
    if k == 0 then inv.recordAlignment else PtrPos(inv, step, k - 1) + step
  }

  /** A record: `(target) & 0xff`, `(target) >> 8` and the room number at p, p + 1, p + 2. */
  function PointerWrites(p: int, target: int, room: int): (r: seq<ByteWrite>)
    ensures |r| == 3 && forall k :: 0 <= k < 3 ==> r[k].at == p + k
  {
    [ByteWrite(p, target), ByteWrite(p + 1, ToInt32(target) / 256), ByteWrite(p + 2, room)]
  }

  /** A name's code units, low 8 bits each, then a NUL, from at on. */
  function NameWrites(at: int, name: Text): (r: seq<ByteWrite>)
    ensures |r| == |name| + 1 && forall k :: 0 <= k < |r| ==> r[k].at == at + k
  {
    RecordWrites(at, name + [0])
  }

  /** Item k's stores: its record at the pointer cursor, then its name at the text cursor. */
  function ItemWrites(inv: Inventory, step: int, k: nat): seq<ByteWrite>
    requires k < |inv.items|
  {
    PointerWrites(PtrPos(inv, step, k), TextPos(inv, k) - inv.recordAlignment, inv.items[k].roomNumber)
      + NameWrites(TextPos(inv, k), inv.items[k].name)
  }

  /** The stores for the first n items, in order. */
  function ItemsWrites(inv: Inventory, step: int, n: nat): seq<ByteWrite>
    requires n <= |inv.items|
  {
    if n == 0 then [] else ItemsWrites(inv, step, n - 1) + ItemWrites(inv, step, n - 1)
  }

  /** The header record, the null item's name at the table's end, then the items. */
  function HeadWrites(inv: Inventory): seq<ByteWrite>
  {
    PointerWrites(0, TableSize(inv) - inv.recordAlignment, inv.maxAnimatedObjects)
      + NameWrites(TableSize(inv), inv.nullItemName)
  }

  /**
   * The encoder as written (`ptrPos` advances 3 + recordAlignment per item,
   * the buffer has the computed length) and as intended (`ptrPos` advances
   * one record, the buffer also holds the null item's name).
   */
  datatype EncodeRule = AsWrittenEncoder | IntendedEncoder

  function PtrStep(inv: Inventory, rule: EncodeRule): int
  {
    if rule == AsWrittenEncoder then 3 + inv.recordAlignment else inv.recordAlignment
  }

  function BufferLength(inv: Inventory, rule: EncodeRule): int
  {
    if rule == AsWrittenEncoder then EncodedLength(inv) else EncodedLength(inv) + |inv.nullItemName| + 1
  }

  function EncoderWrites(inv: Inventory, rule: EncodeRule): seq<ByteWrite>
  {
    HeadWrites(inv) + ItemsWrites(inv, PtrStep(inv, rule), |inv.items|)
  }

  /** The XOR pass of `encode`: applied whenever a pattern is set, even an empty one. */
  function WithKey(s: seq<byte>, key: Option<seq<byte>>): (r: seq<byte>)
    ensures |r| == |s|
  {
    if key.Some? then XorWithKey(s, key.value) else s
  }

  /** `encode`'s output: its stores into a zero-filled buffer, then the XOR pass. */
  function EncodedImage(inv: Inventory, rule: EncodeRule): (r: seq<byte>)
    requires inv.recordAlignment >= 0
    ensures |r| == BufferLength(inv, rule)
  {
    WithKey(PokeAll(Zeros(BufferLength(inv, rule)), EncoderWrites(inv, rule)), inv.xorPattern)
  }

  /** The text cursor is the table, the null item's name and NUL, and the first k names with their NULs. */
  lemma {:induction false} TextPosIsSum(inv: Inventory, k: nat)
    requires k <= |inv.items|
    ensures TextPos(inv, k) == TableSize(inv) + |inv.nullItemName| + 1 + NamesLength(inv.items[..k])
  {
    if k > 0 {
      TextPosIsSum(inv, k - 1);
      assert inv.items[..k][..k - 1] == inv.items[..k - 1];
    }
  }

  /**
   * As written, the text stores run |nullItemName| + 1 bytes past the
   * buffer: the last store, the final name's NUL, lands outside it and is
   * dropped, as are the stores before it that far from the end.
   */
  lemma TextOverrun(inv: Inventory)
    ensures TextPos(inv, |inv.items|) == EncodedLength(inv) + |inv.nullItemName| + 1
  {
    TextPosIsSum(inv, |inv.items|);
    assert inv.items[..|inv.items|] == inv.items;
  }

  /** Every store of ws lands inside a buffer of length len. */
  ghost predicate WritesInside(ws: seq<ByteWrite>, len: int)
  {
    forall i :: 0 <= i < |ws| ==> 0 <= ws[i].at < len
  }

  lemma InsideAppend(a: seq<ByteWrite>, b: seq<ByteWrite>, len: int)
    requires WritesInside(a, len) && WritesInside(b, len)
    ensures WritesInside(a + b, len)
  {
    forall i | 0 <= i < |a + b|
      ensures 0 <= (a + b)[i].at < len
    {
      if i >= |a| {
        assert (a + b)[i] == b[i - |a|];
      }
    }
  }

  /** The text cursor never moves back. */
  lemma {:induction false} TextPosMonotone(inv: Inventory, k: nat, m: nat)
    requires k <= m <= |inv.items|
    ensures TextPos(inv, k) <= TextPos(inv, m)
  {
    if k < m {
      TextPosMonotone(inv, k, m - 1);
    }
  }

  /** The pointer cursor before item k, for a step per item. */
  lemma {:induction false} PtrPosIsSum(inv: Inventory, step: int, k: nat)
    ensures PtrPos(inv, step, k) == inv.recordAlignment + k * step
  {
    if k > 0 {
      PtrPosIsSum(inv, step, k - 1);
    }
  }

  /**
   * As written, the last store of `encode` (the final name's NUL) always
   * lands |nullItemName| bytes past the end of the buffer, so it is
   * dropped.
   */
  lemma LastStoreOutside(inv: Inventory)
    ensures var ws := EncoderWrites(inv, AsWrittenEncoder);
      |ws| > 0 && ws[|ws| - 1].at == BufferLength(inv, AsWrittenEncoder) + |inv.nullItemName|
  {
    TextOverrun(inv);
    var n := |inv.items|;
    var step := PtrStep(inv, AsWrittenEncoder);
    if n > 0 {
      var last := ItemWrites(inv, step, n - 1);
      assert EncoderWrites(inv, AsWrittenEncoder) == (HeadWrites(inv) + ItemsWrites(inv, step, n - 1)) + last;
      assert last[|last| - 1] == NameWrites(TextPos(inv, n - 1), inv.items[n - 1].name)[|inv.items[n - 1].name|];
    } else {
      assert EncoderWrites(inv, AsWrittenEncoder) == HeadWrites(inv);
    }
  }

  /**
   * As written, item k's record goes k * 3 bytes past its slot: with
   * alignment 3 and two items, the second item's record is written at 9,
   * which is where the null item's name begins, not at slot 2 (6).
   */
  lemma RecordsOffSlot(inv: Inventory, k: nat)
    requires inv.recordAlignment >= 0
    ensures PtrPos(inv, PtrStep(inv, AsWrittenEncoder), k) == SlotPos(inv.recordAlignment, k + 1) + 3 * k
    ensures PtrPos(inv, PtrStep(inv, IntendedEncoder), k) == SlotPos(inv.recordAlignment, k + 1)
  {
    PtrPosIsSum(inv, PtrStep(inv, AsWrittenEncoder), k);
    PtrPosIsSum(inv, PtrStep(inv, IntendedEncoder), k);
    SlotPosIsProduct(inv.recordAlignment, k + 1);
  }

  lemma RecordsOffSlotExample(inv: Inventory)
    requires inv.recordAlignment == 3 && |inv.items| == 2
    ensures PtrPos(inv, PtrStep(inv, AsWrittenEncoder), 1) == 9 == TextPos(inv, 0) - |inv.nullItemName| - 1
    ensures PtrPos(inv, PtrStep(inv, IntendedEncoder), 1) == 6
  {
    RecordsOffSlot(inv, 1);
    assert SlotPos(3, 2) == 6;
  }

  /** With the intended step and buffer, item k's stores land inside the buffer. */
  lemma ItemInside(inv: Inventory, k: nat)
    requires inv.recordAlignment >= 3 && k < |inv.items|
    ensures WritesInside(ItemWrites(inv, inv.recordAlignment, k), BufferLength(inv, IntendedEncoder))
  {
    var align, n := inv.recordAlignment, |inv.items|;
    var len := BufferLength(inv, IntendedEncoder);
    PtrPosIsSum(inv, align, k);
    RecordFitsTable(align, k, n);
    TextOverrun(inv);
    TextPosMonotone(inv, k + 1, n);
    TextPosMonotone(inv, 0, k);
    var p := PointerWrites(PtrPos(inv, align, k), TextPos(inv, k) - align, inv.items[k].roomNumber);
    var w := NameWrites(TextPos(inv, k), inv.items[k].name);
    assert WritesInside(p, len);
    assert WritesInside(w, len);
    InsideAppend(p, w, len);
  }

  /** Record k, one slot per item after the header's, ends within the table. */
  lemma RecordFitsTable(align: int, k: int, n: int)
    requires align >= 3 && 0 <= k < n
    ensures 0 <= align + k * align && align + k * align + 3 <= align * (1 + n)
  {
    assert align + k * align == align * (k + 1);
    assert align * (k + 1) + 3 <= align * (k + 1) + align == align * (k + 2);
    assert align * (k + 2) <= align * (1 + n);
  }

  lemma {:induction false} ItemsInside(inv: Inventory, n: nat)
    requires inv.recordAlignment >= 3 && n <= |inv.items|
    ensures WritesInside(ItemsWrites(inv, inv.recordAlignment, n), BufferLength(inv, IntendedEncoder))
  {
    if n > 0 {
      ItemsInside(inv, n - 1);
      ItemInside(inv, n - 1);
      InsideAppend(ItemsWrites(inv, inv.recordAlignment, n - 1), ItemWrites(inv, inv.recordAlignment, n - 1), BufferLength(inv, IntendedEncoder));
    }
  }

  /**
   * As intended (records one slot apart, the buffer holding the null
   * item's name too), every store of `encode` lands inside the buffer,
   * the text cursor ends exactly at its end, and item k's record sits in
   * slot k + 1.
   */
  lemma IntendedWritesInside(inv: Inventory)
    requires inv.recordAlignment >= 3
    ensures WritesInside(EncoderWrites(inv, IntendedEncoder), BufferLength(inv, IntendedEncoder))
    ensures TextPos(inv, |inv.items|) == BufferLength(inv, IntendedEncoder)
    ensures forall k :: 0 <= k < |inv.items| ==> PtrPos(inv, PtrStep(inv, IntendedEncoder), k) == SlotPos(inv.recordAlignment, k + 1)
  {
    var len := BufferLength(inv, IntendedEncoder);
    TextOverrun(inv);
    TextPosMonotone(inv, 0, |inv.items|);
    var h := PointerWrites(0, TableSize(inv) - inv.recordAlignment, inv.maxAnimatedObjects);
    var w := NameWrites(TableSize(inv), inv.nullItemName);
    assert TableSize(inv) >= 3 by {
      assert inv.recordAlignment * (1 + |inv.items|) >= inv.recordAlignment * 1;
    }
    assert WritesInside(h, len) && WritesInside(w, len);
    InsideAppend(h, w, len);
    ItemsInside(inv, |inv.items|);
    InsideAppend(HeadWrites(inv), ItemsWrites(inv, inv.recordAlignment, |inv.items|), len);
    forall k | 0 <= k < |inv.items|
      ensures PtrPos(inv, PtrStep(inv, IntendedEncoder), k) == SlotPos(inv.recordAlignment, k + 1)
    {
      RecordsOffSlot(inv, k);
    }
  }

  lemma NoItemWritesYet(inv: Inventory, step: int)
    ensures HeadWrites(inv) + ItemsWrites(inv, step, 0) == HeadWrites(inv)
  {
    assert ItemsWrites(inv, step, 0) == [];
  }

  /** Item k's stores extend the image of the stores before them. */
  lemma ItemStep(inv: Inventory, step: int, k: nat, z: seq<byte>, before: seq<byte>, after: seq<byte>)
    requires k < |inv.items|
    requires before == PokeAll(z, HeadWrites(inv) + ItemsWrites(inv, step, k))
    requires after == PokeAll(before, ItemWrites(inv, step, k))
    ensures after == PokeAll(z, HeadWrites(inv) + ItemsWrites(inv, step, k + 1))
  {
    var head, done, item := HeadWrites(inv), ItemsWrites(inv, step, k), ItemWrites(inv, step, k);
    PokeAllAppend(z, head + done, item);
    ConcatAssoc(head, done, item);
  }

  lemma AsWrittenWrites(inv: Inventory)
    ensures EncoderWrites(inv, AsWrittenEncoder) == HeadWrites(inv) + ItemsWrites(inv, 3 + inv.recordAlignment, |inv.items|)
  {
  }

  lemma ConcatAssoc(a: seq<ByteWrite>, b: seq<ByteWrite>, c: seq<ByteWrite>)
    ensures (a + b) + c == a + (b + c)
  {
  }

  /** Stores values at consecutive positions from p, one after another. */
  method EmitValues(a: array<byte>, p: int, values: seq<int>) returns (next: int)
    modifies a
    ensures next == p + |values|
    ensures a[..] == PokeAll(old(a[..]), RecordWrites(p, values))
  {
    ghost var a0 := a[..];
    ghost var writes: seq<ByteWrite> := [];
    next := p;
    for i := 0 to |values|
      invariant next == p + i && |writes| == i
      invariant forall k :: 0 <= k < i ==> writes[k] == ByteWrite(p + k, values[k])
      invariant a[..] == PokeAll(a0, writes)
    {
      WritesSnoc(writes, p, values, values[i]);
      Store(a, next, values[i]);
      PokeAllSnoc(a0, writes, ByteWrite(next, values[i]));
      writes := writes + [ByteWrite(next, values[i])];
      next := next + 1;
    }
    WritesAreRecord(writes, p, values);
  }

  /** A record's three stores: `target & 0xff`, `target >> 8`, the room number. */
  method EmitPointer(a: array<byte>, p: int, target: int, room: int)
    modifies a
    ensures a[..] == PokeAll(old(a[..]), PointerWrites(p, target, room))
  {
    ghost var a0 := a[..];
    var w0, w1, w2 := ByteWrite(p, target), ByteWrite(p + 1, ToInt32(target) / 256), ByteWrite(p + 2, room);
    Store(a, p, target);
    PokeAllSnoc(a0, [], w0);
    Store(a, p + 1, ToInt32(target) / 256);
    PokeAllSnoc(a0, [w0], w1);
    Store(a, p + 2, room);
    PokeAllSnoc(a0, [w0, w1], w2);
    assert [w0, w1] + [w2] == PointerWrites(p, target, room);
  }

  /** A name's stores: each code unit's low byte, then a NUL. */
  method EmitName(a: array<byte>, at: int, name: Text) returns (next: int)
    modifies a
    ensures next == at + |name| + 1
    ensures a[..] == PokeAll(old(a[..]), NameWrites(at, name))
  {
    next := EmitValues(a, at, name + [0]);
  }

  /** An `InventoryFile`: the decoded (or default) inventory, with fields the caller may set. */
  class InventoryFile {
    var maxAnimatedObjects: int
    var recordAlignment: int
    var items: seq<Item>
    var xorPattern: Option<seq<byte>>
    var nullItemName: Text

    /** The fields as a value. */
    function State(): Inventory
      reads this
    {
      Inventory(maxAnimatedObjects, recordAlignment, items, xorPattern, nullItemName)
    }

    /** `new InventoryFile()`: 17 animated objects, alignment 3, no items, no key, null item "?". */
    constructor ()
      ensures State() == Inventory(17, 3, [], None, [0x3F])
    {
      maxAnimatedObjects := 17;
      recordAlignment := 3;
      items := [];
      xorPattern := None;
      nullItemName := [0x3F];
    }

    /**
     * `InventoryFile.decode`: XOR a copy of the bytes with "Avis Durgan"
     * when the last byte is not 0, then read the records with alignment 3,
     * and with alignment 4 only if that throws. The caller's array is not
     * written.
     */
    static method Decode(bytes: array<byte>) returns (r: Result<InventoryFile, ObjectError>)
      ensures r.Ok? ==> fresh(r.value) && Ok(r.value.State()) == DecodeInventory(bytes[..], AlignPlusOffset)
      ensures r.Err? ==> DecodeInventory(bytes[..], AlignPlusOffset) == Err(r.error)
    {
      var objects := new InventoryFile();
      var plain := Unkeyed(bytes);
      var keyed := bytes.Length == 0 || bytes[bytes.Length - 1] != 0;
      assert keyed == Keyed(bytes[..]);
      if keyed {
        objects.xorPattern := Some(AvisDurgan);
      }
      var records, align := ReadWithEitherAlignment(plain);
      DecodeFrom(bytes[..], plain[..], records, align);
      if records.Err? {
        return Err(records.error);
      }
      objects.recordAlignment := align;
      objects.maxAnimatedObjects := records.value[0].roomNumber;
      objects.nullItemName := records.value[0].name;
      objects.items := records.value[1..];
      assert objects.State() == Inventory(records.value[0].roomNumber, align, records.value[1..],
                                          if keyed then Some(AvisDurgan) else None, records.value[0].name);
      return Ok(objects);
    }

    /** The bytes the records are read from: the file itself, or an XORed copy when its last byte is not 0. */
    static method Unkeyed(bytes: array<byte>) returns (plain: array<byte>)
      ensures plain[..] == Plain(bytes[..])
    {
      if bytes.Length == 0 || bytes[bytes.Length - 1] != 0 {
        plain := CopyOf(bytes);
        XorInPlace(plain, AvisDurgan);
      } else {
        plain := bytes;
      }
    }

    /** `readObjectRecords` with alignment 3, and with 4 when that throws. */
    static method ReadWithEitherAlignment(plain: array<byte>) returns (r: Result<seq<Item>, ObjectError>, align: nat)
      ensures align == if ObjectRecords(plain[..], 3, AlignPlusOffset).Ok? then 3 else 4
      ensures r == ObjectRecords(plain[..], align, AlignPlusOffset)
    {
      r := ReadObjectRecords(plain, 3);
      align := 3;
      if r.Err? {
        r := ReadObjectRecords(plain, 4);
        align := 4;
      }
    }

    /**
     * `calculateEncodedLength`: the record table and every item's name
     * with its NUL. The null item's name is left out, so the length falls
     * short of where `encode`'s text cursor ends by that name and its NUL.
     */
    function CalculateEncodedLength(): (len: int)
      reads this
      ensures len == TextPos(State(), |items|) - |nullItemName| - 1
      ensures len == BufferLength(State(), AsWrittenEncoder)
    {
      TextOverrun(State());
      recordAlignment * (1 + |items|) + NamesLength(items)
    }

    /**
     * `encode`: a zero-filled array of the computed length; the header
     * record and the null item's name after the table; then each item's
     * record at the pointer cursor and its name at the text cursor; then,
     * when a pattern is set, the XOR pass.
     */
    method Encode() returns (data: array<byte>)
      requires recordAlignment >= 0
      ensures fresh(data) && data[..] == EncodedImage(State(), AsWrittenEncoder)
    {
      data := EmitAll(State());
      if xorPattern.Some? {
        XorInPlace(data, xorPattern.value);
      }
    }

    /** `encode` before its XOR pass: the stores into a zero-filled array of the computed length. */
    method EmitAll(ghost inv: Inventory) returns (data: array<byte>)
      requires inv == State() && recordAlignment >= 0
      ensures fresh(data)
      ensures data[..] == PokeAll(Zeros(BufferLength(inv, AsWrittenEncoder)), EncoderWrites(inv, AsWrittenEncoder))
    {
      data := ZeroFilled(CalculateEncodedLength());
      ghost var z := data[..];
      var textPos := EmitHead(data, inv);
      EmitItems(data, textPos, z, inv);
    }

    /** The loop of `encode` over the items, from the text cursor after the null item's name. */
    method EmitItems(data: array<byte>, textStart: int, ghost z: seq<byte>, ghost inv: Inventory)
      requires inv == State() && textStart == TextPos(inv, 0)
      requires data[..] == PokeAll(z, HeadWrites(inv))
      modifies data
      ensures data[..] == PokeAll(z, EncoderWrites(inv, AsWrittenEncoder))
    {
      var textPos := textStart;
      var ptrPos := recordAlignment;
      NoItemWritesYet(inv, 3 + inv.recordAlignment);
      for k := 0 to |items|
        invariant textPos == TextPos(inv, k) && ptrPos == PtrPos(inv, 3 + inv.recordAlignment, k)
        invariant data[..] == PokeAll(z, HeadWrites(inv) + ItemsWrites(inv, 3 + inv.recordAlignment, k))
      {
        ptrPos, textPos := EmitNext(data, k, ptrPos, textPos, z, inv);
      }
      AsWrittenWrites(inv);
    }

    /** Item k's stores on top of the header's and the earlier items'. */
    method EmitNext(data: array<byte>, k: nat, ptrPos: int, textPos: int, ghost z: seq<byte>, ghost inv: Inventory)
      returns (ptrNext: int, textNext: int)
      requires inv == State() && k < |items|
      requires textPos == TextPos(inv, k) && ptrPos == PtrPos(inv, 3 + inv.recordAlignment, k)
      requires data[..] == PokeAll(z, HeadWrites(inv) + ItemsWrites(inv, 3 + inv.recordAlignment, k))
      modifies data
      ensures textNext == TextPos(inv, k + 1) && ptrNext == PtrPos(inv, 3 + inv.recordAlignment, k + 1)
      ensures data[..] == PokeAll(z, HeadWrites(inv) + ItemsWrites(inv, 3 + inv.recordAlignment, k + 1))
    {
      ghost var before := data[..];
      ptrNext, textNext := EmitItem(data, k, ptrPos, textPos, inv);
      ItemStep(inv, 3 + inv.recordAlignment, k, z, before, data[..]);
    }

    /** The header record at 0 and the null item's name after the table. */
    method EmitHead(data: array<byte>, ghost inv: Inventory) returns (textPos: int)
      requires inv == State()
      modifies data
      ensures textPos == TextPos(inv, 0)
      ensures data[..] == PokeAll(old(data[..]), HeadWrites(inv))
    {
      ghost var z := data[..];
      textPos := recordAlignment * (1 + |items|);
      EmitPointer(data, 0, textPos - recordAlignment, maxAnimatedObjects);
      textPos := EmitName(data, textPos, nullItemName);
      PokeAllAppend(z, PointerWrites(0, TableSize(inv) - recordAlignment, maxAnimatedObjects),
                    NameWrites(TableSize(inv), nullItemName));
    }

    /** The loop body of `encode` for item k: its record, `ptrPos += recordAlignment`, its name. */
    method EmitItem(data: array<byte>, k: nat, ptrPos: int, textPos: int, ghost inv: Inventory)
      returns (ptrNext: int, textNext: int)
      requires inv == State() && k < |items|
      requires textPos == TextPos(inv, k) && ptrPos == PtrPos(inv, 3 + inv.recordAlignment, k)
      modifies data
      ensures textNext == TextPos(inv, k + 1) && ptrNext == PtrPos(inv, 3 + inv.recordAlignment, k + 1)
      ensures data[..] == PokeAll(old(data[..]), ItemWrites(inv, 3 + inv.recordAlignment, k))
    {
      ghost var before := data[..];
      var it := items[k];
      EmitPointer(data, ptrPos, textPos - recordAlignment, it.roomNumber);
      ghost var middle := data[..];
      ptrNext := ptrPos + 3 + recordAlignment;
      textNext := EmitName(data, textPos, it.name);
      PokeAllAppend(before, PointerWrites(ptrPos, textPos - recordAlignment, it.roomNumber), NameWrites(textPos, it.name));
    }
  }
}
