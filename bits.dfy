/**
 * Bit-cursor readers over a byte buffer (src/bits.ts). A reader keeps an
 * absolute bit offset that starts at 0; each read of n bits takes them one
 * at a time and shifts each into the bottom of a 32-bit value. The
 * top-down reader takes the bits of a byte from bit 7 down to bit 0, the
 * bottom-up reader from bit 0 up to bit 7. Nothing checks the buffer's
 * end: bytes past it read as `undefined`, which the shifts turn into 0 bits.
 */
module Bits {
  import opened Bytes

  datatype BitOrder = MsbFirst | LsbFirst

  /** The bit a cursor at absolute bit offset k reads. */
  function BitAt(data: seq<byte>, k: nat, order: BitOrder): (b: int)
    ensures 0 <= b <= 1
  {
    var shift := if order == MsbFirst then 7 - k % 8 else k % 8;
    BitOf(ByteAt(data, k / 8), shift)
  }

  /**
   * The unbounded value of the n bits read from offset k: the first bit
   * read is the most significant.
   */
  function BitsValue(data: seq<byte>, k: nat, n: nat, order: BitOrder): (v: int)
    ensures 0 <= v < Pow2(n)
  {
    if n == 0 then 0 else 2 * BitsValue(data, k, n - 1, order) + BitAt(data, k + n - 1, order)
  }

  /** Reading one bit more appends the bit at the cursor. */
  lemma ReadStep(data: seq<byte>, k: nat, i: nat, order: BitOrder)
    ensures BitsValue(data, k, i + 1, order) == 2 * BitsValue(data, k, i, order) + BitAt(data, k + i, order)
  {
  }

  /** One step of the read loop, `(value << 1) | bit`, stays congruent to the unbounded value. */
  lemma ShiftInBit(v: int, bit: int)
    requires 0 <= bit <= 1
    ensures ToInt32(ToInt32(v) * 2) + bit == ToInt32(2 * v + bit)
  {
    ToInt32Double(v);
    ToInt32AddBit(2 * v, bit);
  }

  lemma ToInt32Double(v: int)
    ensures ToInt32(ToInt32(v) * 2) == ToInt32(2 * v)
  {
    var w := ToInt32(v);
    var d := (w - v) / TWO32;
    assert w * 2 == 2 * v + TWO32 * (2 * d);
    ToInt32Congruent(2 * v, 2 * d);
  }

  /** Setting the low bit of an even number does not cross a 32-bit boundary. */
  lemma ToInt32AddBit(x: int, bit: int)
    requires x % 2 == 0 && 0 <= bit <= 1
    ensures ToInt32(x) + bit == ToInt32(x + bit)
  {
    var q, m, h := x / TWO32, x % TWO32, x / 2;
    assert x == 2 * h;
    assert m == 2 * (h - TWO31 * q);
    assert x + bit == TWO32 * q + (m + bit) && 0 <= m + bit < TWO32;
    assert (x + bit) % TWO32 == m + bit;
  }

  /**
   * `readSignedBits` applied to an already read value u: JavaScript's
   * `u & (1 << (n - 1))` tests bit (n - 1) mod 32 of u, and
   * `u -= (1 << n)` subtracts the signed 32-bit value of 1 shifted by n mod 32.
   */
  function JsSignedBits(u: int, n: nat): (r: int)
    ensures r == u || r == u - ToInt32(Pow2(n % 32))
    ensures BitOf(ToUint32(u), (n - 1) % 32) == 0 ==> r == u
  {
    if BitOf(ToUint32(u), (n - 1) % 32) == 1 then u - ToInt32(Pow2(n % 32)) else u
  }

  /** Two's-complement reading of the n-bit unsigned value u. */
  function SignExtend(u: int, n: nat): (r: int)
    requires 1 <= n && 0 <= u < Pow2(n)
    ensures -Pow2(n - 1) <= r < Pow2(n - 1)
    ensures r == u || r == u - Pow2(n)
    ensures r < 0 <==> u >= Pow2(n - 1)
  {
    if u >= Pow2(n - 1) then u - Pow2(n) else u
  }

  /** x followed by b zero bits, written as b doublings. */
  function Shifted(x: int, b: nat): (r: int)
  {
    if b == 0 then x else 2 * Shifted(x, b - 1)
  }

  lemma {:induction false} ShiftedIsProduct(x: int, b: nat)
    ensures Shifted(x, b) == x * Pow2(b)
  {
    if b > 0 {
      ShiftedIsProduct(x, b - 1);
      assert x * Pow2(b) == 2 * (x * Pow2(b - 1));
    }
  }

  /** Reading in two parts, with the first part moved up by doublings only. */
  lemma {:induction false} BitsAppend(data: seq<byte>, k: nat, a: nat, b: nat, order: BitOrder)
    ensures BitsValue(data, k, a + b, order)
            == Shifted(BitsValue(data, k, a, order), b) + BitsValue(data, k + a, b, order)
  {
    if b > 0 {
      BitsAppend(data, k, a, b - 1, order);
      assert k + (a + b) - 1 == k + a + b - 1;
    }
  }

  /** Reading n bits in two parts gives the parts of reading them at once. */
  lemma BitsConcat(data: seq<byte>, k: nat, a: nat, b: nat, order: BitOrder)
    ensures BitsValue(data, k, a + b, order)
            == BitsValue(data, k, a, order) * Pow2(b) + BitsValue(data, k + a, b, order)
  {
    BitsAppend(data, k, a, b, order);
    ShiftedIsProduct(BitsValue(data, k, a, order), b);
  }

  /** For n <= 31 the 32-bit accumulator never wraps: a read returns the unbounded value. */
  lemma ReadFitsInt32(data: seq<byte>, k: nat, n: nat, order: BitOrder)
    requires n <= 31
    ensures 0 <= ToInt32(BitsValue(data, k, n, order)) < Pow2(n)
    ensures ToInt32(BitsValue(data, k, n, order)) == BitsValue(data, k, n, order)
  {
    Pow2Monotone(n, 31);
    Pow2Values();
    ToInt32Small(BitsValue(data, k, n, order));
  }

  /**
   * Two consecutive reads of a and b bits (a + b <= 31) return v1 and v2
   * with v1 * 2^b + v2 equal to one read of a + b bits from the same start.
   */
  lemma ReadsCompose(data: seq<byte>, k: nat, a: nat, b: nat, order: BitOrder)
    requires a + b <= 31
    ensures ToInt32(BitsValue(data, k, a, order)) * Pow2(b) + ToInt32(BitsValue(data, k + a, b, order))
            == ToInt32(BitsValue(data, k, a + b, order))
  {
    ReadFitsInt32(data, k, a, order);
    ReadFitsInt32(data, k + a, b, order);
    ReadFitsInt32(data, k, a + b, order);
    BitsConcat(data, k, a, b, order);
  }

  lemma ByteBitsSum(x: int)
    requires 0 <= x < 256
    ensures var y1 := x / 2; var y2 := y1 / 2; var y3 := y2 / 2; var y4 := y3 / 2;
      var y5 := y4 / 2; var y6 := y5 / 2; var y7 := y6 / 2;
      x == 128 * (y7 % 2) + 64 * (y6 % 2) + 32 * (y5 % 2) + 16 * (y4 % 2)
           + 8 * (y3 % 2) + 4 * (y2 % 2) + 2 * (y1 % 2) + x % 2
  {
    var y1 := x / 2; var y2 := y1 / 2; var y3 := y2 / 2; var y4 := y3 / 2;
    var y5 := y4 / 2; var y6 := y5 / 2; var y7 := y6 / 2;
    assert x == 2 * y1 + x % 2 && y1 == 2 * y2 + y1 % 2 && y2 == 2 * y3 + y2 % 2;
    assert y3 == 2 * y4 + y3 % 2 && y4 == 2 * y5 + y4 % 2 && y5 == 2 * y6 + y5 % 2;
    assert y6 == 2 * y7 + y6 % 2 && y7 == y7 % 2;
  }

  /** A byte is the sum of its bits. */
  lemma ByteFromBits(x: int)
    requires 0 <= x < 256
    ensures x == 128 * BitOf(x, 7) + 64 * BitOf(x, 6) + 32 * BitOf(x, 5) + 16 * BitOf(x, 4)
               + 8 * BitOf(x, 3) + 4 * BitOf(x, 2) + 2 * BitOf(x, 1) + BitOf(x, 0)
  {
    ByteBitsSum(x);
    var y1 := x / 2; var y2 := y1 / 2; var y3 := y2 / 2; var y4 := y3 / 2;
    var y5 := y4 / 2; var y6 := y5 / 2; var y7 := y6 / 2;
    assert BitOf(y6, 1) == BitOf(y7, 0);
    assert BitOf(y5, 2) == BitOf(y6, 1);
    assert BitOf(y4, 3) == BitOf(y5, 2);
    assert BitOf(y3, 4) == BitOf(y4, 3);
    assert BitOf(y2, 5) == BitOf(y3, 4);
    assert BitOf(y1, 6) == BitOf(y2, 5);
    assert BitOf(x, 7) == BitOf(y1, 6);
  }

  /** The i-th bit read from a byte-aligned cursor at byte j. */
  lemma AlignedBit(data: seq<byte>, j: nat, i: nat, order: BitOrder)
    requires i < 8
    ensures BitAt(data, 8 * j + i, order)
            == BitOf(ByteAt(data, j), if order == MsbFirst then 7 - i else i)
  {
    assert (8 * j + i) / 8 == j && (8 * j + i) % 8 == i;
  }

  /** The value of the first m bits read from a byte-aligned cursor. */
  lemma AlignedPrefix(data: seq<byte>, j: nat, m: nat, order: BitOrder)
    requires 1 <= m <= 8
    ensures BitsValue(data, 8 * j, m, order)
            == 2 * BitsValue(data, 8 * j, m - 1, order)
               + BitOf(ByteAt(data, j), if order == MsbFirst then 8 - m else m - 1)
  {
    AlignedBit(data, j, m - 1, order);
  }

  /** The eight bits read top-down from a byte-aligned cursor, as a weighted sum. */
  lemma TopDownByteSum(data: seq<byte>, j: nat)
    ensures var x := ByteAt(data, j);
      BitsValue(data, 8 * j, 8, MsbFirst)
      == 128 * BitOf(x, 7) + 64 * BitOf(x, 6) + 32 * BitOf(x, 5) + 16 * BitOf(x, 4)
         + 8 * BitOf(x, 3) + 4 * BitOf(x, 2) + 2 * BitOf(x, 1) + BitOf(x, 0)
  {
    AlignedPrefix(data, j, 1, MsbFirst);
    AlignedPrefix(data, j, 2, MsbFirst);
    AlignedPrefix(data, j, 3, MsbFirst);
    AlignedPrefix(data, j, 4, MsbFirst);
    AlignedPrefix(data, j, 5, MsbFirst);
    AlignedPrefix(data, j, 6, MsbFirst);
    AlignedPrefix(data, j, 7, MsbFirst);
    AlignedPrefix(data, j, 8, MsbFirst);
  }

  /** The eight bits read bottom-up from a byte-aligned cursor, as a weighted sum. */
  lemma BottomUpByteSum(data: seq<byte>, j: nat)
    ensures var x := ByteAt(data, j);
      BitsValue(data, 8 * j, 8, LsbFirst)
      == 128 * BitOf(x, 0) + 64 * BitOf(x, 1) + 32 * BitOf(x, 2) + 16 * BitOf(x, 3)
         + 8 * BitOf(x, 4) + 4 * BitOf(x, 5) + 2 * BitOf(x, 6) + BitOf(x, 7)
  {
    AlignedPrefix(data, j, 1, LsbFirst);
    AlignedPrefix(data, j, 2, LsbFirst);
    AlignedPrefix(data, j, 3, LsbFirst);
    AlignedPrefix(data, j, 4, LsbFirst);
    AlignedPrefix(data, j, 5, LsbFirst);
    AlignedPrefix(data, j, 6, LsbFirst);
    AlignedPrefix(data, j, 7, LsbFirst);
    AlignedPrefix(data, j, 8, LsbFirst);
  }

  /** Eight bits read top-down from a byte-aligned cursor are that byte. */
  lemma TopDownAlignedByte(data: seq<byte>, j: nat)
    requires j < |data|
    ensures BitsValue(data, 8 * j, 8, MsbFirst) == data[j]
  {
    TopDownByteSum(data, j);
    ByteFromBits(data[j]);
  }

  /** The low n bits of v in reverse order: bit 0 becomes the most significant. */
  function BitReversed(v: int, n: nat): (r: int)
    requires v >= 0
    ensures 0 <= r < Pow2(n)
  {
    if n == 0 then 0 else (v % 2) * Pow2(n - 1) + BitReversed(v / 2, n - 1)
  }

  lemma ByteReversedBits(x: int)
    requires 0 <= x < 256
    ensures BitReversed(x, 8) == 128 * BitOf(x, 0) + 64 * BitOf(x, 1) + 32 * BitOf(x, 2) + 16 * BitOf(x, 3)
                                 + 8 * BitOf(x, 4) + 4 * BitOf(x, 5) + 2 * BitOf(x, 6) + BitOf(x, 7)
  {
    var y1 := x / 2; var y2 := y1 / 2; var y3 := y2 / 2; var y4 := y3 / 2;
    var y5 := y4 / 2; var y6 := y5 / 2; var y7 := y6 / 2;
    assert Pow2(1) == 2 && Pow2(2) == 4 && Pow2(3) == 8;
    assert Pow2(4) == 16 && Pow2(5) == 32 && Pow2(6) == 64 && Pow2(7) == 128;
    assert BitReversed(y7, 1) == y7 % 2;
    assert BitReversed(y6, 2) == 2 * (y6 % 2) + BitReversed(y7, 1);
    assert BitReversed(y5, 3) == 4 * (y5 % 2) + BitReversed(y6, 2);
    assert BitReversed(y4, 4) == 8 * (y4 % 2) + BitReversed(y5, 3);
    assert BitReversed(y3, 5) == 16 * (y3 % 2) + BitReversed(y4, 4);
    assert BitReversed(y2, 6) == 32 * (y2 % 2) + BitReversed(y3, 5);
    assert BitReversed(y1, 7) == 64 * (y1 % 2) + BitReversed(y2, 6);
    assert BitReversed(x, 8) == 128 * (x % 2) + BitReversed(y1, 7);
    assert BitOf(y6, 1) == BitOf(y7, 0);
    assert BitOf(y5, 2) == BitOf(y6, 1);
    assert BitOf(y4, 3) == BitOf(y5, 2);
    assert BitOf(y3, 4) == BitOf(y4, 3);
    assert BitOf(y2, 5) == BitOf(y3, 4);
    assert BitOf(y1, 6) == BitOf(y2, 5);
    assert BitOf(x, 7) == BitOf(y1, 6);
  }

  /** Eight bits read bottom-up from a byte-aligned cursor are the byte bit-reversed. */
  lemma BottomUpAlignedByte(data: seq<byte>, j: nat)
    requires j < |data|
    ensures BitsValue(data, 8 * j, 8, LsbFirst) == BitReversed(data[j], 8)
  {
    BottomUpByteSum(data, j);
    ByteReversedBits(data[j]);
  }

  /** Bit n - 1 of an n-bit value is set exactly when the value reaches 2^(n-1). */
  lemma {:induction false} TopBit(u: int, n: nat)
    requires 1 <= n && 0 <= u < Pow2(n)
    ensures BitOf(u, n - 1) == 1 <==> u >= Pow2(n - 1)
  {
    if n > 1 {
      TopBit(u / 2, n - 1);
    }
  }

  /** In range, `readSignedBits` is the two's-complement reading, for 1 <= n <= 30. */
  lemma SignedBitsInRange(u: int, n: nat)
    requires 1 <= n <= 30 && 0 <= u < Pow2(n)
    ensures JsSignedBits(u, n) == SignExtend(u, n)
    ensures -Pow2(n - 1) <= JsSignedBits(u, n) < Pow2(n - 1)
    ensures JsSignedBits(u, n) == u || JsSignedBits(u, n) == u - Pow2(n)
  {
    Pow2Values();
    Pow2Monotone(n, 30);
    ToUint32Small(u);
    ToInt32Small(Pow2(n));
    assert (n - 1) % 32 == n - 1 && n % 32 == n;
    TopBit(u, n);
  }

  /**
   * For n = 31, `1 << 31` is negative, so a value with bit 30 set is moved
   * up by 2^31 instead of down: reading 0x80 0x00 0x00 0x00 top-down as a
   * signed 31-bit value gives 3 * 2^30 rather than -2^30.
   */
  lemma SignedBits31Wrong()
    ensures JsSignedBits(0x4000_0000, 31) == 0xC000_0000
    ensures Pow2(31) == TWO31
    ensures SignExtend(0x4000_0000, 31) == -0x4000_0000
  {
    Pow2Values();
    TopBit(0x4000_0000, 31);
    assert ToInt32(Pow2(31)) == -TWO31;
  }

  /** Bits read from all-zero bytes make 0. */
  lemma {:induction false} ZeroBits(data: seq<byte>, k: nat, n: nat, order: BitOrder)
    requires forall i :: k / 8 <= i < |data| ==> data[i] == 0
    ensures BitsValue(data, k, n, order) == 0
  {
    if n > 0 {
      ZeroBits(data, k, n - 1, order);
      assert ByteAt(data, (k + n - 1) / 8) == 0;
      BitOfZero(if order == MsbFirst then 7 - (k + n - 1) % 8 else (k + n - 1) % 8);
    }
  }

  /**
   * The reading in the counterexample above comes from real bytes: a
   * buffer starting 0x80 followed by zero bytes, read 31 bits from bit 0.
   */
  lemma SignedBits31Input(d: seq<byte>)
    requires |d| >= 1 && d[0] == 0x80
    requires forall i :: 1 <= i < |d| ==> d[i] == 0
    ensures BitsValue(d, 0, 31, MsbFirst) == 0x4000_0000
  {
    BitsConcat(d, 0, 8, 23, MsbFirst);
    TopDownAlignedByte(d, 0);
    ZeroBits(d, 8, 23, MsbFirst);
    Pow2Of23();
  }

  lemma Pow2Of23()
    ensures Pow2(23) == 0x80_0000
  {
    Pow2Values();
    Pow2Add(16, 7);
    Pow2Add(8, 8);
    assert Pow2(7) == 128;
  }

  /** The MSB-first reader (`TopDownBitReader`). */
  class TopDownBitReader {
    const data: array<byte>
    var bitOffset: nat

    constructor (data: array<byte>)
      ensures this.data == data && bitOffset == 0
    {
      this.data := data;
      bitOffset := 0;
    }

    method ReadUnsignedBits(n: nat) returns (value: int)
      modifies this
      ensures bitOffset == old(bitOffset) + n
      ensures value == ToInt32(BitsValue(data[..], old(bitOffset), n, MsbFirst))
    {
      ghost var start, bytes := bitOffset, data[..];
      value := 0;
      for i := 0 to n
        invariant bitOffset == start + i
        invariant value == ToInt32(BitsValue(bytes, start, i, MsbFirst))
      {
        var bit := BitOf(ByteAt(data[..], bitOffset / 8), 7 - bitOffset % 8);
        assert bit == BitAt(bytes, start + i, MsbFirst);
        ReadStep(bytes, start, i, MsbFirst);
        ShiftInBit(BitsValue(bytes, start, i, MsbFirst), bit);
        bitOffset := bitOffset + 1;
        // `(value << 1) | bit`: the shift leaves bit 0 clear for the bit
        value := ToInt32(value * 2) + bit;
      }
    }

    method ReadSignedBits(n: nat) returns (value: int)
      modifies this
      ensures bitOffset == old(bitOffset) + n
      ensures value == JsSignedBits(ToInt32(BitsValue(data[..], old(bitOffset), n, MsbFirst)), n)
    {
      value := ReadUnsignedBits(n);
      if BitOf(ToUint32(value), (n - 1) % 32) == 1 {
        value := value - ToInt32(Pow2(n % 32));
      }
    }
  }

  /** The LSB-first reader (`BottomUpBitReader`). */
  class BottomUpBitReader {
    const data: array<byte>
    var bitOffset: nat

    constructor (data: array<byte>)
      ensures this.data == data && bitOffset == 0
    {
      this.data := data;
      bitOffset := 0;
    }

    method ReadUnsignedBits(n: nat) returns (value: int)
      modifies this
      ensures bitOffset == old(bitOffset) + n
      ensures value == ToInt32(BitsValue(data[..], old(bitOffset), n, LsbFirst))
    {
      ghost var start, bytes := bitOffset, data[..];
      value := 0;
      for i := 0 to n
        invariant bitOffset == start + i
        invariant value == ToInt32(BitsValue(bytes, start, i, LsbFirst))
      {
        var bit := BitOf(ByteAt(data[..], bitOffset / 8), bitOffset % 8);
        assert bit == BitAt(bytes, start + i, LsbFirst);
        ReadStep(bytes, start, i, LsbFirst);
        ShiftInBit(BitsValue(bytes, start, i, LsbFirst), bit);
        bitOffset := bitOffset + 1;
        // `(value << 1) | bit`: the shift leaves bit 0 clear for the bit
        value := ToInt32(value * 2) + bit;
      }
    }

    method ReadSignedBits(n: nat) returns (value: int)
      modifies this
      ensures bitOffset == old(bitOffset) + n
      ensures value == JsSignedBits(ToInt32(BitsValue(data[..], old(bitOffset), n, LsbFirst)), n)
    {
      value := ReadUnsignedBits(n);
      if BitOf(ToUint32(value), (n - 1) % 32) == 1 {
        value := value - ToInt32(Pow2(n % 32));
      }
    }
  }
}
