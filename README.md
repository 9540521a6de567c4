# Legacy game and Amiga format codecs, modelled in Dafny

This project models the byte-level core of a TypeScript tool that reads and
rewrites resources of Sierra AGI adventure games and inspects Amiga disk
images and LZH archives. The core has six parts:

- **bit readers** (`src/bits.ts`): MSB-first and LSB-first cursors over a byte buffer, plus two's-complement reading;
- **the WORDS.TOK dictionary** (`WordsTok` in `src/agi.ts`):
  - a token list sorted by word (strictly, unless the constructor was given repeated words), with binary-search lookup, upsert and delete;
  - the front-compressed codec with its 52-byte letter index;
- **the OBJECT inventory** (`readObjectRecords`, `InventoryFile`): a table of 3- or 4-byte records pointing at NUL-terminated names, optionally XORed with "Avis Durgan";
- **the logic patch engine** (`applyLogicPatches`): ordered delete/insert/xor edits on a preallocated buffer with a live-length counter;
- **the ADF root-block check** (`verifyRootBlock`, `getADFStructure` in `src/amiga.ts`): type tags, a wrapped 32-bit additive checksum, and timestamps;
- **one LZH archive entry** (`readLZHEntry`, `LZHEntry`): header length per level, header and payload slices, and the fixed header fields.

Modules, one per part, plus a helper module:

| module | file | what it holds |
|---|---|---|
| `Bytes` | bytes.dfy | JavaScript's ToInt32/ToUint32, bitwise XOR on integers, typed-array stores that keep the low 8 bits and drop stores out of range, little- and big-endian fields, the name-byte to code-unit mapping |
| `Bits` | bits.dfy | the two reader classes, proved against `BitsValue` |
| `WordOrder` | word_order.dfy | JavaScript's string `<`, `tokenComp`, the binary search, upsert, delete, `getUniqueIds`, `getWordsById`, the constructor's sort |
| `WordsFormat` | words_format.dfy | the WORDS.TOK layout as a list of byte stores, the decoder as functions, the encode/decode round trip |
| `AgiWords` | agi_words.dfy | the `WordsTok` class: the list in a field, its edits and the array encoder and decoder |
| `AgiInventory` | agi_inventory.dfy | `readObjectRecords` as a function and as a loop, `InventoryFile` as a class, and the encoder's stores |
| `AgiLogic` | agi_logic.dfy | the edit script on sequences and `applyLogicPatches` in place on an array |
| `AmigaAdf` | amiga_adf.dfy | the root-block check, the checksum and the date fields |
| `AmigaLzh` | amiga_lzh.dfy | `readLZHEntry`, `subarray` and the entry getters |

Code that works by mutating is modelled imperatively:
- the bit readers are classes with a `bitOffset` field;
- `WordsTok` and `InventoryFile` are classes;
- the encoders store into `array<byte>` values;
- `applyLogicPatches` shifts its buffer with a `copyWithin` method.

Each such method is proved against a function of its inputs or of the old state. The properties are then proved about those functions.

Some behaviour depends on JavaScript semantics, so the model writes it out:
- 32-bit wrap-around of `<<`, `|` and `>>`;
- `undefined` reads past an array's end, which bitwise operators turn into 0;
- stores into a `Uint8Array`, which keep the low 8 bits and silently drop out-of-range indexes;
- `subarray`, which clamps its bounds and counts negative ones from the end.

The model follows the code where it departs from the documented format:
- `WordsTok.decode` reads the first id byte as the high byte, but `encode` writes the low byte first, so the round trip byte-swaps every id.
- `InventoryFile.decode` XORs a fresh copy, never the caller's buffer.
- `InventoryFile.calculateEncodedLength` does not count the null item's name, so the inventory encoder's length is not the number of bytes it writes.

## Model

| member | source | states |
|---|---|---|
| Bits.TopDownBitReader.constructor | src/bits.ts:6-9 | the reader keeps the buffer and starts at bit offset 0 |
| Bits.TopDownBitReader.ReadUnsignedBits | src/bits.ts:24-32 | the offset advances by exactly n; the value is the n bits from the old offset, bit 7 of each byte first, shifted in at the bottom, as a signed 32-bit number |
| Bits.BottomUpBitReader.constructor | src/bits.ts:6-9 | the reader keeps the buffer and starts at bit offset 0 |
| Bits.BottomUpBitReader.ReadUnsignedBits | src/bits.ts:36-44 | the offset advances by exactly n; the value is the n bits from the old offset, bit 0 of each byte first, the first bit read becoming the most significant |
| Bits.TopDownBitReader.ReadSignedBits | src/bits.ts:13-20 | reads n bits like ReadUnsignedBits, then applies `readSignedBits`'s test of bit (n-1) mod 32 and its subtraction of `1 << n` |
| Bits.BottomUpBitReader.ReadSignedBits | src/bits.ts:13-20 | the same for the bottom-up reader |
| Bits.JsSignedBits | src/bits.ts:15-18 | the result is the unsigned value, or it less the 32-bit `1 << n`; when bit (n-1) mod 32 is clear, the value is unchanged |
| Bits.ReadFitsInt32 | src/bits.ts:24-44 | for n <= 31 the 32-bit accumulator never wraps: a read lies in [0, 2^n) and equals the unbounded bit value |
| Bits.BitsConcat | src/bits.ts:24-44 | the bits of a+b read at once are the first a bits times 2^b plus the next b bits |
| Bits.ReadsCompose | src/bits.ts:24-44 | two consecutive reads of a and b bits (a + b <= 31) give v1 * 2^b + v2 equal to one read of a + b bits |
| Bits.TopDownAlignedByte | src/bits.ts:27 | eight bits read top-down from a byte boundary are that byte |
| Bits.BottomUpAlignedByte | src/bits.ts:39 | eight bits read bottom-up from a byte boundary are that byte bit-reversed |
| Bits.SignExtend | src/bits.ts:13-20 | the two's-complement reading of an n-bit value: in [-2^(n-1), 2^(n-1)), equal to u or u - 2^n, negative exactly when u >= 2^(n-1) |
| Bits.SignedBitsInRange | src/bits.ts:13-20 | for 1 <= n <= 30, `readSignedBits` is the two's-complement reading, within [-2^(n-1), 2^(n-1)) and equal to u or u - 2^n |
| Bits.SignedBits31Wrong | src/bits.ts:15-17 | for n = 31 the value 2^30 becomes 3 * 2^30, not -2^30 |
| Bits.SignedBits31Input | src/bits.ts:24-32 | a buffer 0x80 0x00 ... read 31 bits top-down from bit 0 gives 2^30, the input of the case above |
| Bytes.Store | src/agi.ts:142 | a `Uint8Array` store: the low 8 bits land at the index, and a store outside the array changes nothing |
| Bytes.UnitOfByte | src/agi.ts:200 | a name byte becomes itself below 0x80 and 0xF700 \| b otherwise; its low 8 bits are the byte |
| Bytes.UnitOfByteInverse | src/agi.ts:200 | keeping the low 8 bits of the code unit (`charCodeAt & 0xff`) gives the byte back |
| Bytes.XorInvolution | src/agi.ts:221 | XOR with the same key twice gives the value back |
| WordOrder.TokenComp | src/agi.ts:48 | -1, 1 or 0 exactly as the first word sorts below, above or equal to the second in JavaScript's string order |
| WordOrder.TextLessTotal | src/agi.ts:48 | any two different words are ordered one way or the other |
| WordOrder.TextLessTransitive | src/agi.ts:48 | the string order is transitive |
| WordOrder.TextLessByLcp | src/agi.ts:48 | a is below b exactly when a is a proper prefix of b or has the smaller unit where they first differ |
| WordOrder.Search | src/agi.ts:88-110 | on a sorted list, repeated words allowed: a non-negative result indexes a token holding w; otherwise -(p+1), with every word before p below w and every word from p on above it |
| WordOrder.SearchAgreesWithLookup | src/agi.ts:88-90 | on a sorted list the search finds w exactly when a linear scan does; on a strictly sorted list it finds a token with the same id |
| WordOrder.Upsert | src/agi.ts:91-100 | `setWord` keeps a sorted list sorted and a strictly sorted one strictly sorted; the new token is in the list, which grows by one exactly when the search missed w |
| WordOrder.UpsertLookup | src/agi.ts:91-100 | on a strictly sorted list, after `setWord(w, id)` w maps to id; apart from w's token the list holds the same tokens in the same order, so every other word keeps its id |
| WordOrder.Remove | src/agi.ts:101-106 | `deleteWord` keeps a sorted list sorted and a strictly sorted one strictly sorted |
| WordOrder.SearchFindsPresent | src/agi.ts:88-90 | on any sorted list, repeated words included, the search finds w exactly when some token holds w |
| WordOrder.WithoutUpsert | src/agi.ts:91-100 | on any sorted list, `setWord(w, id)` touches only tokens holding w: with those dropped, the list is as before |
| WordOrder.RemoveDropsOne | src/agi.ts:101-106 | on any sorted list, `deleteWord(w)` splices out one token holding w when there is one and leaves the list as it was otherwise |
| WordOrder.RemoveLookup | src/agi.ts:101-106 | on a strictly sorted list, `deleteWord(w)` drops exactly w's token: w is then absent, other words keep their ids, and an absent w leaves the list unchanged |
| WordOrder.UniqueIds | src/agi.ts:111-113 | strictly ascending, and holding exactly the ids present in the list |
| WordOrder.WordsById | src/agi.ts:114-116 | exactly the words whose token carries the id |
| WordOrder.WordsByIdSorted | src/agi.ts:114-116 | on a strictly sorted list those words come out in strictly ascending order |
| WordOrder.WordsByIdOrdered | src/agi.ts:114-116 | on any sorted list, repeated words included, those words come out in ascending order, each equal to or below the next |
| WordOrder.SortTokens | src/agi.ts:51-56 | the constructor's sort is a permutation of the source tokens |
| WordOrder.SortTokensSorted | src/agi.ts:55 | after the sort the list is ordered by word |
| WordOrder.SortTokensStrict | src/agi.ts:51-56 | from tokens with distinct words the sort builds a strictly sorted list |
| WordsFormat.RawRecordParts | src/agi.ts:155-166 | a record is the shared-prefix length, the unshared units XOR 0x7F, the 0x7F terminator and the two id values |
| WordsFormat.IndexWrites | src/agi.ts:149-154 | a word has an index entry (two stores at twice its letter index) exactly when the guard holds, and no stores otherwise |
| WordsFormat.WritesInBounds | src/agi.ts:117-170 | every store the encoder makes lands inside the array of the computed length: the length counts exactly the bytes written |
| WordsFormat.ImageRecords | src/agi.ts:133-170 | while no index entry strays past byte 52, the output after the index is each word's record, one after another |
| WordsFormat.ScanSuffix | src/agi.ts:68-76 | the scan stops at the first 0x7F from pos, with one unit per byte before it; it fails only when no 0x7F follows |
| WordsFormat.ReadRecord | src/agi.ts:67-78 | reading a record always moves the cursor forward |
| WordsFormat.Decode | src/agi.ts:62-83 | a successful decode yields a strictly sorted list |
| WordsFormat.ReadRecordOk | src/agi.ts:67-78 | a record reads as the first `data[pos]` units of the previous word plus the suffix, with id `data[t+1] * 256 + data[t+2]`, and the next record three bytes past the terminator |
| WordsFormat.SuffixByteInverse | src/agi.ts:69-75 | an encodable unit, XORed, stored and remapped by the decoder, comes back unchanged and is never the terminator |
| WordsFormat.RoundTrip | src/agi.ts:62-170 | for sorted, encodable words whose index stays below byte 52, decoding the encoder's output gives back the words in order, each with its id as read back |
| WordsFormat.ReadBackAsWritten | src/agi.ts:77 | a 16-bit id written low byte first and read high byte first comes back byte-swapped |
| WordsFormat.RoundTripAsWritten | src/agi.ts:62-170 | while no index entry overruns, decode(encode(list)) has the same words, each 16-bit id with its two bytes swapped |
| WordsFormat.RoundTripIntended | src/agi.ts:62-170 | with the index limited to a..z and the high id byte first, decode(encode(list)) is the list itself |
| WordsFormat.BraceLayout | src/agi.ts:137-153 | for ["a", "{"], the second word's index entry is stored at bytes 52-53, over the first record |
| WordsFormat.BraceImage | src/agi.ts:133-170 | the encoded bytes of ["a", "{"] after the index, byte by byte |
| WordsFormat.BraceDecode | src/agi.ts:62-83 | those bytes decode to ["F" -> 256, "{" -> 512] |
| WordsFormat.BraceRoundTripFails | src/agi.ts:138-153 | for ["a", "{"] the round trip fails: the index overruns and the first word comes back as "F" |
| AgiWords.CommonPrefix | src/agi.ts:155-159 | the loop's count is the longest common prefix: the units before it agree and the next ones differ |
| AgiWords.EmitRecord | src/agi.ts:160-166 | the record's stores are the record values from pos, and the cursor ends past them |
| AgiWords.EmitIndex | src/agi.ts:152-153 | `pos >> 8` and `pos & 0xff` at twice the letter index |
| AgiWords.WordsTok.Empty | src/agi.ts:58-60 | an empty dictionary, hence sorted |
| AgiWords.WordsTok.FromTokens | src/agi.ts:52-56 | the source tokens, repeated words kept, sorted stably by word: a permutation of them in sorted order, strictly sorted when the words are distinct |
| AgiWords.WordsTok.Copy | src/agi.ts:52-54 | another dictionary's list, in its order and not re-sorted |
| AgiWords.WordsTok.HasWord | src/agi.ts:88-90 | on a sorted list, repeated words included, true exactly when some token holds the word |
| AgiWords.WordsTok.GetWordId | src/agi.ts:107-110 | on a sorted list: an id exactly when some token holds the word, and then the id of such a token; without repeated words, the id of its only token |
| AgiWords.WordsTok.SetWord | src/agi.ts:91-100 | the list stays sorted and becomes the upsert of the old one; it holds (w, id), and with w's tokens dropped it is unchanged, so every other word keeps its id; a list without repeated words stays so and maps w to id |
| AgiWords.WordsTok.DeleteWord | src/agi.ts:101-106 | the list stays sorted; one token holding w is spliced out when there is one, else nothing changes; on a list without repeated words, w is then absent and every other word keeps its id |
| AgiWords.WordsTok.CalculateEncodedLength | src/agi.ts:117-132 | 52 plus, per word, 4 plus its length less the prefix it shares with the word before |
| AgiWords.WordsTok.Encode | src/agi.ts:133-170 | a fresh array holding exactly the encoder's image of the list |
| AgiWords.WordsTok.EmitFirstWord | src/agi.ts:136-148 | the first word's index entry and record, with no shared prefix |
| AgiWords.WordsTok.EmitWord | src/agi.ts:149-167 | a later word's guarded index entry and its record |
| AgiWords.WordsTok.Decode | src/agi.ts:62-83 | a fresh dictionary, strictly sorted, whose list is the decoder's result; otherwise the decoder's error |
| AgiWords.WordsTok.ReadEntry | src/agi.ts:67-78 | one pass of the decoder's loop is one record read |
| AgiInventory.XorWithKeyInvolution | src/agi.ts:219-222 | XORing with the repeating key twice gives the bytes back |
| AgiInventory.XorInPlace | src/agi.ts:220-222 | the array becomes its old bytes XORed with the repeating key |
| AgiInventory.ScanName | src/agi.ts:197-204 | the scan stops at a NUL or the buffer's end, with one unit per byte scanned |
| AgiInventory.ScanNameSpec | src/agi.ts:197-201 | no NUL before the stop, and each unit is its byte's code unit (0xF700 \| b at and above 0x80) |
| AgiInventory.ReadName | src/agi.ts:197-201 | the inner loop computes the scan |
| AgiInventory.ObjectRecords | src/agi.ts:187-212 | a successful read has at least one record |
| AgiInventory.ReadObjectRecords | src/agi.ts:187-212 | the loop returns exactly the read function's result, items or error |
| AgiInventory.ReadSlot | src/agi.ts:192-206 | one slot either fails as the function does, or leaves a finite bound no higher than before and below the buffer length plus the alignment, from which the function's scan continues at the next slot with the item appended |
| AgiInventory.RecordsBadPointer | src/agi.ts:192-195 | a pointer before its record's end or at or past the buffer end is 'invalid offset' |
| AgiInventory.RecordsUnterminated | src/agi.ts:202-204 | a name running to the buffer's end is 'unterminated string' |
| AgiInventory.RecordsEnd | src/agi.ts:208-211 | at the bound: 'invalid offset' when past it, else the items read |
| AgiInventory.NoNulNoRecords | src/agi.ts:198-204 | a buffer without a NUL never reads |
| AgiInventory.ShortFileInvalid | src/agi.ts:192-195 | a buffer no longer than one record is 'invalid offset' |
| AgiInventory.ObjectRecordsAsWritten | src/agi.ts:196 | as written, every item comes from its slot, and the last slot read starts at the least name offset, inside the names |
| AgiInventory.ObjectRecordsIntended | src/agi.ts:196 | with the bound at the offset itself, every item comes from its slot and the slots end exactly where the first name starts |
| AgiInventory.OneItemFileRejected | src/agi.ts:187-212 | the file 00 00 07 'A' 00 fails with either alignment as written |
| AgiInventory.OneItemFileIntended | src/agi.ts:187-212 | with the intended bound it reads as one record ("A", room 7) |
| AgiInventory.DecodeInventory | src/agi.ts:215-238 | a decoded alignment is 3 or 4, and the key is recorded exactly when the last byte is not 0 |
| AgiInventory.DecodeInventoryParts | src/agi.ts:215-238 | record 0 gives the count and the null name and the rest are the items; alignment 4 only after 3 fails; re-XORing the read bytes with the key gives the file back |
| AgiInventory.OneItemFileDecode | src/agi.ts:226-233 | the one-item file is rejected as written and decodes as intended |
| AgiInventory.InventoryFile.constructor | src/agi.ts:239-243 | 17 animated objects, alignment 3, no items, no key, null item "?" |
| AgiInventory.InventoryFile.Decode | src/agi.ts:215-238 | a fresh object whose fields are the decoded inventory, or the error; the caller's array is not written |
| AgiInventory.InventoryFile.Unkeyed | src/agi.ts:217-224 | the bytes the records are read from: the file, or an XORed copy when its last byte is not 0 |
| AgiInventory.InventoryFile.ReadWithEitherAlignment | src/agi.ts:225-233 | alignment 3, or 4 exactly when 3 fails, and that alignment's result |
| AgiInventory.InventoryFile.CalculateEncodedLength | src/agi.ts:244-248 | the computed length falls short of the text cursor's end by the null item's name and its NUL |
| AgiInventory.InventoryFile.Encode | src/agi.ts:249-276 | a fresh array holding the encoder's stores into a zero-filled buffer of the computed length, then the XOR pass when a key is set |
| AgiInventory.InventoryFile.EmitHead | src/agi.ts:251-258 | the header record and the null item's name after the table |
| AgiInventory.InventoryFile.EmitItem | src/agi.ts:260-269 | an item's record at the pointer cursor, its name at the text cursor; the pointer advances 3 + alignment |
| AgiInventory.EmitPointer | src/agi.ts:261-263 | a record's three stores: target low byte, target high byte, room |
| AgiInventory.EmitName | src/agi.ts:265-268 | each unit's low byte, then a NUL, and the cursor past them |
| AgiInventory.TextOverrun | src/agi.ts:244-268 | the text cursor ends the null name and its NUL past the computed length |
| AgiInventory.LastStoreOutside | src/agi.ts:265-268 | the final NUL store always lands past the buffer's end and is dropped |
| AgiInventory.RecordsOffSlot | src/agi.ts:259-264 | as written, item k's record is 3k bytes past slot k+1; as intended it is at the slot |
| AgiInventory.RecordsOffSlotExample | src/agi.ts:259-264 | with alignment 3 and two items, the second record goes to 9, where the null name starts, not to 6 |
| AgiInventory.IntendedWritesInside | src/agi.ts:249-269 | as intended every store lands inside the buffer, the text ends exactly at its end, and records sit in their slots |
| AgiLogic.Capacity | src/agi.ts:292-294 | the buffer is at least the original length |
| AgiLogic.ComputeCapacity | src/agi.ts:292-294 | the `reduce` computes the capacity |
| AgiLogic.Apply | src/agi.ts:298-315 | one edit changes the live length by its growth |
| AgiLogic.ApplyAll | src/agi.ts:297-317 | the script's result has the tracked live length |
| AgiLogic.FinalLength | src/agi.ts:292-306 | the final length is the original plus the inserted bytes less the deleted bytes, and stays between 0 and the capacity |
| AgiLogic.RoomForInserts | src/agi.ts:292-308 | at every step the live bytes plus the inserts still to come fit the buffer |
| AgiLogic.ApplyAllAppend | src/agi.ts:297-317 | running a script in two parts is running it at once |
| AgiLogic.DeleteShifts | src/agi.ts:299-303 | a delete keeps the bytes before its offset and moves the later ones down by its length |
| AgiLogic.InsertShifts | src/agi.ts:304-308 | an insert keeps the bytes before its offset, puts the payload there, and moves the rest up |
| AgiLogic.XorOnlyTouchesPayload | src/agi.ts:310-314 | an xor changes only the bytes under its payload, each XORed with its payload byte |
| AgiLogic.XorTwice | src/agi.ts:310-314 | the same xor twice gives the bytes back |
| AgiLogic.InsertThenDelete | src/agi.ts:299-308 | deleting the bytes just inserted gives the bytes back |
| AgiLogic.InsertOneDeleteOne | src/agi.ts:299-308 | insert(0, [A]) then delete(0, 1) returns the input |
| AgiLogic.CopyWithin | src/agi.ts:300 | `copyWithin` within bounds: the source range as it was lands at the target, the rest unchanged |
| AgiLogic.SetBytes | src/agi.ts:307 | `set(payload, at)` overwrites exactly the payload's range |
| AgiLogic.DeleteInPlace | src/agi.ts:299-303 | the live bytes become the delete's result, the live length drops by its length |
| AgiLogic.InsertInPlace | src/agi.ts:304-308 | the live bytes become the insert's result, the live length grows by the payload |
| AgiLogic.XorInPlace | src/agi.ts:310-314 | the live bytes become the xor's result, the rest untouched |
| AgiLogic.ApplyLogicPatches | src/agi.ts:291-319 | a fresh buffer of the capacity whose first live-length bytes are the script applied to the input, with the length the counter predicts |
| AmigaAdf.ReadDate | src/amiga.ts:20-26 | the three big-endian unsigned fields at offset, offset+4, offset+8 |
| AmigaAdf.Word | src/amiga.ts:48 | word i of the block, big-endian and unsigned |
| AmigaAdf.RootBlock | src/amiga.ts:40-60 | an accepted block has type HEADER (2) at byte 0 and ROOT (1) in its last word |
| AmigaAdf.AddWrapped | src/amiga.ts:48 | `(checksum + word) \| 0` keeps the running sum modulo 2^32 |
| AmigaAdf.VerifyRootBlock | src/amiga.ts:40-60 | the tag checks and the checksum loop compute RootBlock |
| AmigaAdf.RootBlockInside | src/amiga.ts:63-69 | the middle block of a non-empty image of whole blocks lies inside it |
| AmigaAdf.AdfStructure | src/amiga.ts:62-72 | a RangeError exactly for an empty image; no result when the length is not a multiple of 512 |
| AmigaAdf.GetADFStructure | src/amiga.ts:62-72 | the length check, the view of the middle block and the verification compute AdfStructure |
| AmigaAdf.OnlyMiddleBlockMatters | src/amiga.ts:64-70 | two images of the same length with the same middle block give the same result |
| AmigaAdf.ChecksumAcceptance | src/amiga.ts:45-53 | the test accepts exactly when all 128 words sum to 0 mod 2^32, unless the other words sum to 0x80000000 |
| AmigaAdf.NegatedInt32 | src/amiga.ts:50-51 | -ToInt32(s) equals a signed word exactly when s + w is 0 mod 2^32 and s is not 2^31 mod 2^32 |
| AmigaAdf.ChecksumEdgeRejected | src/amiga.ts:48-53 | a block whose other words sum to 0x80000000 and whose checksum is 0x80000000 sums to 0 yet is rejected |
| AmigaAdf.ChecksumIntendedAcceptance | src/amiga.ts:45-53 | the intended comparison accepts exactly when the 128 words sum to 0 mod 2^32 |
| AmigaAdf.ChecksumEdgeIntended | src/amiga.ts:48-53 | the intended comparison accepts that block |
| AmigaAdf.SingleBitFlipRejected | src/amiga.ts:45-53 | flipping any single bit of an accepted root block makes it rejected |
| AmigaAdf.PutBE32 | src/amiga.ts:35-37 | `setUint32(offset, v, false)`: the field reads back as v mod 2^32, other bytes unchanged |
| AmigaAdf.SplitMillisParts | src/amiga.ts:29-34 | the split keeps every millisecond down to the tick; minutes < 1440 and ticks < 3000 |
| AmigaAdf.WriteReadDate | src/amiga.ts:20-38 | as intended, a date written and read back is the same instant to the tick |
| AmigaAdf.WriteDateAsWrittenLosesDays | src/amiga.ts:35-37 | as written, one day after the epoch reads back as the epoch |
| AmigaLzh.LZHEntry.Level | src/amiga.ts:78 | header byte 5, the fourth byte of the method id, or undefined when the header is shorter |
| AmigaLzh.LZHEntry.PackedSize | src/amiga.ts:79 | the unsigned little-endian word at header byte 7 |
| AmigaLzh.LZHEntry.OriginalSize | src/amiga.ts:80 | the unsigned little-endian word at header byte 11 |
| AmigaLzh.LZHEntry.Method | src/amiga.ts:81-84 | header bytes 2-6 (as many as exist), each as its code unit |
| AmigaLzh.LZHEntry.Name | src/amiga.ts:87-90 | header bytes 22..22+header[21], clamped, as code units |
| AmigaLzh.LZHEntry.Crc16 | src/amiga.ts:91-93 | the little-endian 16-bit word right after the name |
| AmigaLzh.Subarray | src/amiga.ts:125-126 | `subarray` clamps its bounds, counting negative ones from the end, and is the plain slice for in-range bounds |
| AmigaLzh.LooseLE32 | src/amiga.ts:117 | four bytes little-endian, each past the end reading 0 |
| AmigaLzh.HeaderLength | src/amiga.ts:108-121 | by the level byte (byte 5 as written, byte 20 as intended): 2 + byte 0 for levels 0-1, LE16 at offset for level 2, the signed LE32 at absolute bytes 24-27 for level 3 |
| AmigaLzh.ReadLZHEntry | src/amiga.ts:107-130 | with the entry's DataView repaired: no entry exactly when the level byte (offset + 5 as written, offset + 20 as intended) is missing or above 3; else the entry of that level, ending at offset + header length + packed size |
| AmigaLzh.SlicesAdjacent | src/amiga.ts:124-128 | under either level byte and field reading, with non-negative sizes and an end inside the buffer, the slices have those lengths, are adjacent, and together are bytes[offset..endOffset] |
| AmigaLzh.RelativeSlicesCover | src/amiga.ts:122-128 | read relative to the entry, under either level byte, the sizes are never negative and the slices cover bytes from offset to endOffset or the buffer's end |
| AmigaLzh.RelativeShiftInvariant | src/amiga.ts:107-130 | read relative to the entry, under either level byte, a prefix before the entry only moves its end |
| AmigaLzh.SampleAtStart | src/amiga.ts:107-130 | with the entry's DataView repaired and the level read at byte 5, the 12-byte sample entry read at 0 ends at 12 under either field reading |
| AmigaLzh.AbsoluteSizeFieldMisread | src/amiga.ts:122 | as written but with the entry's DataView repaired, the sample behind one byte ends at 20, not 13 |
| AmigaLzh.RelativeSizeFieldRead | src/amiga.ts:122 | with the level still read at byte 5 but the sizes read relative to the entry, it ends at 13 |
| AmigaLzh.L0GettersRoundTrip | src/amiga.ts:78-93 | method, packed size, original size, name and CRC of a level-0 header give back the fields it was built from; `level` gives header byte 5, the method id's fourth byte, while the level 0 sits at byte 20 |
| AmigaLzh.L0MethodIdRejected | src/amiga.ts:107-113 | as written, a level-0 entry whose method id has a fourth byte above 3, as every "-lh0-" to "-lh7-" and "-lzs-" has, reads as null under either field reading |
| AmigaLzh.L0ReadRoundTripIntended | src/amiga.ts:107-130 | with the level read at byte 20, every level-0 header plus payload reads back as a level-0 entry, whatever its method id: at 0, and behind any prefix read relative to the entry |
| AmigaLzh.Lh5EntryRead | src/amiga.ts:107-130 | an empty "-lh5-" level-0 entry: null as written, the 24-byte level-0 entry with the level read at byte 20 |
| AmigaLzh.L0ReadRoundTrip | src/amiga.ts:107-130 | with the entry's DataView repaired and the level read at byte 5, a level-0 header plus payload reads back as that entry only when the method id's fourth byte is 0 or 1, which no LHA method id has: at 0 with absolute fields, and behind any prefix read relative to the entry |

## Left out

- `readAgiFolder` and `AGIFolder`: asynchronous file loading.
- `hashToken` and `hashItem`: they call xxHash32 from a package whose code is not part of this model.
- The `binary-search` package is not part of this model. `WordOrder.Search` models its contract as the repository uses it: the index found, or `~p` for the insertion point p.
- `WordsTok`'s iterator and `WordPatch` are not modelled. The iterator only hands out the list.
- `LogicPatch.startHash`, `endHash` and the `smart` flag: nothing interprets them.
- DMS track unpacking, CRC-16 and LZH extended headers are not part of this model.
- The Date values of `readADFDate`, `writeADFDate` and the root-block result. They depend on the host's time zone, so the model keeps the three raw fields and the millisecond offset from 1 February 1978.
- AmigaAdf.GetADFStructure: returns what `verifyRootBlock` makes of the middle block. The source returns `undefined` on success. `data.byteOffset` is taken to be 0.
- AmigaAdf.AdfStructure: the image is taken to span its whole ArrayBuffer, that is `data.byteOffset` is 0 and `data.buffer` holds exactly `data`'s bytes. The DataView at src/amiga.ts:66-69 is built on `data.buffer`, so for a view into a larger buffer an empty image gets no RangeError and the middle block can be read from bytes outside `data`; neither is modelled.
- AmigaLzh.ReadLZHEntry: models `readLZHEntry` with the entry's DataView repaired to view the header's own bytes. As written, `new DataView(this.header)` (src/amiga.ts:77) is given a Uint8Array, so `new LZHEntry.LEVELS[level](...)` at src/amiga.ts:124 throws a TypeError for every level 0-3 and no entry is ever returned. The offset is a natural number; negative or fractional offsets are not modelled.
- AmigaLzh.SampleAtStart: the end offsets are those of the reader with the repaired DataView; as written, src/amiga.ts:124 throws a TypeError before any end offset is returned.
- AmigaLzh.AbsoluteSizeFieldMisread: the end offset 20 is that of the reader with the repaired DataView; as written, src/amiga.ts:124 throws a TypeError first, so the absolute reads at src/amiga.ts:117-122 cannot yet be observed.
- AmigaLzh.L0ReadRoundTrip: the read-back entry is that of the reader with the repaired DataView; as written, src/amiga.ts:124 throws a TypeError instead.
- AmigaLzh.LZHEntry.PackedSize: the getters read the header bytes directly, as the repaired DataView would. It requires a header of at least 11 bytes; the RangeError that `getUint32(7, true)` throws on a shorter header is not modelled.
- AmigaLzh.LZHEntry.OriginalSize: requires a header of at least 15 bytes; the RangeError that `getUint32(11, true)` throws on a shorter header is not modelled.
- AmigaLzh.LZHEntry.Crc16: requires the two bytes after the name to lie inside the header (`NameEnd + 2 <= |header|`); the RangeError that `getUint16` throws otherwise is not modelled.
- AmigaLzh.LZHEntry.Level: models the getter as written (header byte 5); no corrected getter reading byte 20 is given, the entry's `kind` being the level the intended reader found. `kind` records the `LEVELS` class the entry was built with. The source's `new LZHEntry.LEVELS[level]` for a non-integer or missing level byte (reading past the buffer) is covered only by `KnownLevel` being false.
- AgiWords.WordsTok.Decode: where a suffix has no 0x7F terminator, the source loops forever. Where the two id bytes are missing, it stores NaN. The model stops with `Unterminated` or `MissingId`.
- AgiWords.WordsTok.FromTokens: the stable sort is an insertion sort on values. The in-place order of `Array.prototype.sort` is not modelled, only its result for a stable sort.
- AgiLogic.ApplyLogicPatches: requires every edit to stay inside the live bytes. For out-of-range offsets, the source's clamping by `copyWithin` and the RangeError of `set` are not modelled. It returns the buffer and the live length instead of the `subarray` view.
- AgiInventory.InventoryFile.Encode: requires a non-negative record alignment. For a negative length, `new Uint8Array` throws a RangeError, which is not modelled.
- AgiInventory.ReadObjectRecords: requires an alignment of at least 3. The source calls it only with 3 and 4.
- AmigaAdf.VerifyRootBlock: takes the 512 bytes of the block. The source is only ever given a 512-byte view.

## Findings

| source | as written | input that shows it | evidently intended | confidence | as-written member | corrected member |
|---|---|---|---|---|---|---|
| src/bits.ts:15-17 | `1 << 31` is negative, so `readSignedBits(31)` adds 2^31 instead of subtracting it | bytes 80 00 00 00 read 31 bits top-down: 3 * 2^30 instead of -2^30 | two's-complement reading for every n up to 31 | not executed | Bits.SignedBits31Wrong | Bits.SignExtend |
| src/agi.ts:138 | the letter-index guard is `<= 26`, so a word starting with `{` writes its index entry into bytes 52-53 | the list ["a" -> 1, "{" -> 2] encodes to bytes that decode to ["F" -> 256, "{" -> 512] | index entries for a..z only (`<= 25`) | not executed | WordsFormat.BraceRoundTripFails | WordsFormat.RoundTripIntended |
| src/agi.ts:147-148 | `encode` writes the id's low byte first; `decode` (line 77) reads the first byte as the high one | any id not equal to its byte swap, such as 1, which reads back as 256 | the same byte order on both sides, so decode(encode(d)) == d | not executed | WordsFormat.RoundTripAsWritten | WordsFormat.RoundTripIntended |
| src/agi.ts:196 | the scan bound is `recordAlignment + offset`, although `offset` already includes the alignment, so one slot past the table is read as a record | the one-item file 00 00 07 41 00 is rejected with 'invalid offset' at both alignments | the bound at `offset`, where the first name starts | not executed | AgiInventory.OneItemFileRejected | AgiInventory.ObjectRecordsIntended |
| src/agi.ts:244-264 | the buffer leaves out the null item's name, and `ptrPos` advances 3 + `recordAlignment` per item | with alignment 3 and two items, the second record lands at 9 (the null name), and the last NUL is dropped | records one slot apart and a buffer holding every name | not executed | AgiInventory.RecordsOffSlotExample | AgiInventory.IntendedWritesInside |
| src/amiga.ts:117-122 | the level-3 header length and the packed size are read from absolute bytes 24-27 and 7-10 of the whole buffer | with the entry constructor's DataView repaired (as written, src/amiga.ts:124 throws a TypeError first), a 12-byte level-0 entry behind one byte ends at 20 instead of 13 | the fields at those distances from `offset` | not executed | AmigaLzh.AbsoluteSizeFieldMisread | AmigaLzh.RelativeShiftInvariant |
| src/amiga.ts:108 | the level is read from `bytes[offset + 5]`, the fourth byte of the method id (the digit of "-lh5-"); LHA headers keep the level at byte 20 | with the entry constructor's DataView repaired, a level-0 "-lh5-" header (byte 5 = 0x35) reads as null; so does every entry with a real method id | the level from `bytes[offset + 20]`, so that real entries are read | not executed | AmigaLzh.L0MethodIdRejected | AmigaLzh.L0ReadRoundTripIntended |
| src/amiga.ts:50-51 | `-checksum` of -2^31 is 2^31, which no `getInt32` value equals | other words summing to 0x80000000 with stored checksum 0x80000000: the words sum to 0 mod 2^32, yet the block is rejected | comparison modulo 2^32 | not executed | AmigaAdf.ChecksumEdgeRejected | AmigaAdf.ChecksumIntendedAcceptance |
| src/amiga.ts:35-37 | `writeADFDate` writes days, minutes and ticks all at `offset` | one day after the epoch, written over zeros, reads back as the epoch | the fields at offset, offset + 4 and offset + 8 | not executed | AmigaAdf.WriteDateAsWrittenLosesDays | AmigaAdf.WriteReadDate |
