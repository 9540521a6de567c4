/**
 * Byte-level helpers shared by every codec: JavaScript's 32-bit integer
 * conversions, typed-array reads and stores, fixed-width fields, and the
 * byte-to-code-unit remapping used for names.
 */
module Bytes {

  datatype Option<+T> = None | Some(value: T)

  datatype Result<+T, +E> = Ok(value: T) | Err(error: E)

  /** A byte as a Uint8Array element holds it. */
  type byte = x: int | 0 <= x < 256

  /** One UTF-16 code unit, the element of a JavaScript string. */
  type CodeUnit = u: int | 0 <= u < 0x1_0000

  /** A JavaScript string, compared code unit by code unit. */
  type Text = seq<CodeUnit>

  const TWO32: int := 0x1_0000_0000
  const TWO31: int := 0x8000_0000

  function Pow2(n: nat): (r: int)
    ensures r >= 1
  {
    if n == 0 then 1 else 2 * Pow2(n - 1)
  }

  lemma {:induction false} Pow2Add(a: nat, b: nat)
    ensures Pow2(a + b) == Pow2(a) * Pow2(b)
  {
    if b > 0 {
      Pow2Add(a, b - 1);
      assert Pow2(a + b) == 2 * Pow2(a + b - 1);
    }
  }

  lemma {:induction false} Pow2Monotone(a: nat, b: nat)
    requires a <= b
    ensures Pow2(a) <= Pow2(b)
  {
    if a < b {
      Pow2Monotone(a, b - 1);
    }
  }

  lemma Pow2Values()
    ensures Pow2(8) == 256 && Pow2(30) == 0x4000_0000
    ensures Pow2(31) == TWO31 && Pow2(32) == TWO32
  {
    assert Pow2(4) == 16;
    assert Pow2(8) == 256;
    Pow2Add(8, 8);
    Pow2Add(16, 8);
    Pow2Add(24, 6);
    Pow2Add(24, 7);
    Pow2Add(24, 8);
  }

  /** JavaScript's ToInt32: the signed 32-bit integer congruent to x. */
  function ToInt32(x: int): (r: int)
    ensures -TWO31 <= r < TWO31
    ensures (r - x) % TWO32 == 0
  {
    var m := x % TWO32;
    if m >= TWO31 then m - TWO32 else m
  }

  /** ToInt32 only depends on x modulo 2^32. */
  lemma ToInt32Congruent(x: int, m: int)
    ensures ToInt32(x + TWO32 * m) == ToInt32(x)
  {
    assert (x + TWO32 * m) % TWO32 == x % TWO32;
  }

  lemma ToInt32Small(x: int)
    requires -TWO31 <= x < TWO31
    ensures ToInt32(x) == x
  {
    if x < 0 {
      ToInt32Congruent(x, 1);
      assert (x + TWO32) % TWO32 == x + TWO32;
    }
  }

  /** JavaScript's ToUint32: the unsigned 32-bit integer congruent to x. */
  function ToUint32(x: int): (r: int)
    ensures 0 <= r < TWO32
    ensures (r - x) % TWO32 == 0
  {
    x % TWO32
  }

  lemma ToUint32Small(x: int)
    requires 0 <= x < TWO32
    ensures ToUint32(x) == x
  {
  }

  lemma {:induction false} BitOfZero(j: nat)
    ensures BitOf(0, j) == 0
  {
    if j > 0 {
      BitOfZero(j - 1);
    }
  }

  /** Bit j of the (non-negative) integer v. */
  function BitOf(v: int, j: nat): (b: int)
    ensures 0 <= b <= 1
    decreases j
  {
    if j == 0 then v % 2 else BitOf(v / 2, j - 1)
  }

  /** Bitwise exclusive or of two non-negative integers. */
  function Xor(a: int, b: int): (r: int)
    requires a >= 0 && b >= 0
    ensures r >= 0
    decreases a + b
  {
    if a == 0 && b == 0 then 0 else 2 * Xor(a / 2, b / 2) + (if a % 2 == b % 2 then 0 else 1)
  }

  lemma {:induction false} XorBound(a: int, b: int, n: nat)
    requires 0 <= a < Pow2(n) && 0 <= b < Pow2(n)
    ensures Xor(a, b) < Pow2(n)
    decreases a + b
  {
    if a + b > 0 {
      XorBound(a / 2, b / 2, n - 1);
    }
  }

  lemma {:induction false} XorSelf(a: int)
    requires a >= 0
    ensures Xor(a, a) == 0
    decreases a
  {
    if a != 0 {
      XorSelf(a / 2);
    }
  }

  lemma {:induction false} XorComm(a: int, b: int)
    requires a >= 0 && b >= 0
    ensures Xor(a, b) == Xor(b, a)
    decreases a + b
  {
    if a + b > 0 {
      XorComm(a / 2, b / 2);
    }
  }

  lemma {:induction false} XorAssoc(a: int, b: int, c: int)
    requires a >= 0 && b >= 0 && c >= 0
    ensures Xor(Xor(a, b), c) == Xor(a, Xor(b, c))
    decreases a + b + c
  {
    if a + b + c > 0 {
      var l, r := Xor(Xor(a, b), c), Xor(a, Xor(b, c));
      assert l / 2 == r / 2 by {
        XorHalves(Xor(a, b), c);
        XorHalves(a, b);
        XorAssoc(a / 2, b / 2, c / 2);
        XorHalves(b, c);
        XorHalves(a, Xor(b, c));
      }
      assert l % 2 == r % 2 by {
        var ab, bc := Xor(a, b), Xor(b, c);
        XorHalves(ab, c);
        XorHalves(a, b);
        XorHalves(b, c);
        XorHalves(a, bc);
      }
    }
  }

  /** Xor works bit by bit: the low bit and the rest separately. */
  lemma XorHalves(a: int, b: int)
    requires a >= 0 && b >= 0
    ensures Xor(a, b) / 2 == Xor(a / 2, b / 2)
    ensures Xor(a, b) % 2 == if a % 2 == b % 2 then 0 else 1
  {
  }

  /** The defining step of Xor, including the case where both are 0. */
  lemma XorStep(a: int, b: int)
    requires a >= 0 && b >= 0
    ensures Xor(a, b) == 2 * Xor(a / 2, b / 2) + (if a % 2 == b % 2 then 0 else 1)
  {
  }

  lemma {:induction false} XorZero(a: int)
    requires a >= 0
    ensures Xor(a, 0) == a
    decreases a
  {
    if a > 0 {
      XorZero(a / 2);
    }
  }

  /** Exclusive or with a key below 2^n leaves the bits from n upwards alone. */
  lemma {:induction false} XorAbove(h: nat, l: nat, k: nat, n: nat)
    requires l < Pow2(n) && k < Pow2(n)
    ensures Xor(Pow2(n) * h + l, k) == Pow2(n) * h + Xor(l, k)
  {
    if n == 0 {
      XorZero(h);
    } else {
      XorAbove(h, l / 2, k / 2, n - 1);
      XorAboveNext(h, l, k, n);
    }
  }

  lemma XorAboveNext(h: nat, l: nat, k: nat, n: nat)
    requires n > 0
    requires Xor(Pow2(n - 1) * h + l / 2, k / 2) == Pow2(n - 1) * h + Xor(l / 2, k / 2)
    ensures Xor(Pow2(n) * h + l, k) == Pow2(n) * h + Xor(l, k)
  {
    MulTwice(Pow2(n - 1), h);
    XorAboveStep(Pow2(n) * h, Pow2(n - 1) * h, l, k);
  }

  /** The step of XorAbove with the multiples of 2^n as plain numbers. */
  lemma XorAboveStep(ph: nat, mh: nat, l: nat, k: nat)
    requires ph == 2 * mh
    requires Xor(mh + l / 2, k / 2) == mh + Xor(l / 2, k / 2)
    ensures Xor(ph + l, k) == ph + Xor(l, k)
  {
    assert (ph + l) / 2 == mh + l / 2 && (ph + l) % 2 == l % 2;
    XorStep(ph + l, k);
    XorStep(l, k);
  }

  lemma MulTwice(m: int, h: int)
    ensures (2 * m) * h == 2 * (m * h)
  {
  }

  /** The low byte of an exclusive or with a byte key depends only on the low byte. */
  lemma XorLowByte(u: int, k: int)
    requires u >= 0 && 0 <= k < 256
    ensures Xor(u, k) % 256 == Xor(u % 256, k)
  {
    var h, l := u / 256, u % 256;
    Pow2Values();
    XorAbove(h, l, k, 8);
    XorBound(l, k, 8);
    assert u == 256 * h + l;
    LowByteOf(h, Xor(l, k));
  }

  lemma LowByteOf(h: int, x: int)
    requires 0 <= x < 256
    ensures (256 * h + x) % 256 == x
  {
  }

  /** Exclusive or with the same key twice gives the value back. */
  lemma XorInvolution(a: int, k: int)
    requires a >= 0 && k >= 0
    ensures Xor(Xor(a, k), k) == a
  {
    XorAssoc(a, k, k);
    XorSelf(k);
  }

  /** Exclusive or of two bytes is a byte. */
  function XorByte(a: byte, b: byte): (r: byte)
    ensures Xor(r, b) == a
  {
    XorBound(a, b, 8);
    Pow2Values();
    var r := Xor(a, b);
    XorBound(r, b, 8);
    XorInvolution(a, b);
    r
  }

  /**
   * Byte i of s as a JavaScript bitwise expression sees it: an index past
   * either end reads `undefined`, which the bitwise operators turn into 0.
   */
  function ByteAt(s: seq<byte>, i: int): (b: int)
    ensures 0 <= b < 256
    ensures 0 <= i < |s| ==> b == s[i]
    ensures !(0 <= i < |s|) ==> b == 0
  {
    if 0 <= i < |s| then s[i] else 0
  }

  /** What a Uint8Array keeps of a number stored into it: the low 8 bits. */
  function StoredByte(v: int): (b: byte)
    ensures b == v % 256
  {
    v % 256
  }

  /** Unsigned little-endian 16-bit field at i (DataView.getUint16(i, true)). */
  function LE16(s: seq<byte>, i: nat): (r: int)
    requires i + 2 <= |s|
    ensures 0 <= r < 0x1_0000
    ensures r % 256 == s[i] && r / 256 == s[i + 1]
  {
    s[i] as int + 256 * s[i + 1] as int
  }

  /** Unsigned little-endian 32-bit field at i (DataView.getUint32(i, true)). */
  function LE32(s: seq<byte>, i: nat): (r: int)
    requires i + 4 <= |s|
    ensures 0 <= r < TWO32
    ensures r % 0x1_0000 == LE16(s, i) && r / 0x1_0000 == LE16(s, i + 2)
  {
    LE16(s, i) + 0x1_0000 * LE16(s, i + 2)
  }

  /** Unsigned big-endian 32-bit field at i (DataView.getUint32(i, false)). */
  function BE32(s: seq<byte>, i: nat): (r: int)
    requires i + 4 <= |s|
    ensures 0 <= r < TWO32
    ensures r / 0x100_0000 == s[i] && r % 256 == s[i + 3]
  {
    0x100_0000 * s[i] as int + 0x1_0000 * s[i + 1] as int + 0x100 * s[i + 2] as int + s[i + 3] as int
  }

  /**
   * The code unit a name byte becomes: bytes below 0x80 stand for
   * themselves, the others map into the private-use range as 0xF700|b.
   */
  function UnitOfByte(b: byte): (u: CodeUnit)
    ensures u % 256 == b
    ensures u < 0x80 || 0xF780 <= u <= 0xF7FF
  {
    if b < 0x80 then b else 0xF700 + b
  }

  /** The text a run of name bytes becomes, byte by byte. */
  function UnitsOfBytes(s: seq<byte>): (t: Text)
    ensures |t| == |s|
    ensures forall i :: 0 <= i < |s| ==> t[i] == UnitOfByte(s[i])
  {
    seq(|s|, i requires 0 <= i < |s| => UnitOfByte(s[i]))
  }

  /** The byte remapping is undone by keeping the low 8 bits of the code unit. */
  lemma UnitOfByteInverse(b: byte)
    ensures StoredByte(UnitOfByte(b)) == b
  {
  }

  function Zeros(n: nat): (z: seq<byte>)
    ensures |z| == n && forall i :: 0 <= i < n ==> z[i] == 0
  {
    seq(n, _ => 0)
  }

  lemma PrefixOfConcat<T>(a: seq<T>, b: seq<T>, m: nat)
    requires m <= |a|
    ensures (a + b)[..m] == a[..m]
  {
  }

  lemma FullPrefix<T>(s: seq<T>)
    ensures s[..|s|] == s
  {
  }

  lemma EmptyPrefix<T>(s: seq<T>)
    ensures s[..0] == []
  {
  }

  lemma PrefixSnoc<T>(s: seq<T>, i: nat)
    requires i < |s|
    ensures s[..i + 1] == s[..i] + [s[i]]
  {
  }

  /** A slice equals t when it agrees with t position by position. */
  lemma SliceEqual<T>(s: seq<T>, d: nat, e: int, t: seq<T>)
    requires d <= e <= |s| && |t| == e - d
    requires forall j :: 0 <= j < |t| ==> s[d + j] == t[j]
    ensures s[d..e] == t
  {
    assert forall j :: 0 <= j < |t| ==> s[d..e][j] == s[d + j];
  }

  lemma SliceToEnd<T>(s: seq<T>, d: nat, e: int)
    requires d <= e == |s|
    ensures s[d..e] == s[d..]
  {
  }

  lemma SnocEqual<T>(x: seq<T>, y: seq<T>, a: seq<T>, b: seq<T>, c: seq<T>, d: seq<T>)
    requires x == a + b
    requires y == c + d
    requires a == c
    requires b == d
    ensures x == y
  {
  }

  /** A shared prefix of a and b followed by the rest of b is b. */
  lemma PrefixRejoin<T>(a: seq<T>, b: seq<T>, n: nat)
    requires n <= |a| && n <= |b| && a[..n] == b[..n]
    ensures a[..n] + b[n..] == b
  {
    assert b == b[..n] + b[n..];
  }

  /** One store into the output array: `encoded[at] = value`. */
  datatype ByteWrite = ByteWrite(at: int, value: int)

  /** A typed-array store: the low 8 bits land at `at`; a store outside the array is dropped. */
  function Poke(buf: seq<byte>, w: ByteWrite): (r: seq<byte>)
    ensures |r| == |buf|
  {
    if 0 <= w.at < |buf| then buf[w.at := StoredByte(w.value)] else buf
  }

  /** The stores performed one after another. */
  function PokeAll(buf: seq<byte>, ws: seq<ByteWrite>): (r: seq<byte>)
    ensures |r| == |buf|
  {
    if |ws| == 0 then buf else Poke(PokeAll(buf, ws[..|ws| - 1]), ws[|ws| - 1])
  }

  /** The stores of a record's values at consecutive positions from p. */
  function RecordWrites(p: int, raw: seq<int>): (r: seq<ByteWrite>)
    ensures |r| == |raw| && forall k :: 0 <= k < |raw| ==> r[k] == ByteWrite(p + k, raw[k])
  {
    seq(|raw|, k requires 0 <= k < |raw| => ByteWrite(p + k, raw[k]))
  }

  lemma {:induction false} PokeAllAppend(buf: seq<byte>, a: seq<ByteWrite>, b: seq<ByteWrite>)
    ensures PokeAll(buf, a + b) == PokeAll(PokeAll(buf, a), b)
    decreases |b|
  {
    if |b| == 0 {
      assert a + b == a;
    } else {
      assert (a + b)[..|a + b| - 1] == a + b[..|b| - 1];
      PokeAllAppend(buf, a, b[..|b| - 1]);
    }
  }

  /** A position no store targets keeps its byte. */
  lemma {:induction false} PokeAllUntouched(buf: seq<byte>, ws: seq<ByteWrite>, q: int)
    requires 0 <= q < |buf|
    requires forall k :: 0 <= k < |ws| ==> ws[k].at != q
    ensures PokeAll(buf, ws)[q] == buf[q]
  {
    if |ws| > 0 {
      PokeAllUntouched(buf, ws[..|ws| - 1], q);
    }
  }

  /** Storing a record's values from p lays its bytes out at p, p + 1, .... */
  lemma {:induction false} PokeAllRecord(buf: seq<byte>, p: int, raw: seq<int>)
    requires 0 <= p && p + |raw| <= |buf|
    ensures forall k :: 0 <= k < |raw| ==> PokeAll(buf, RecordWrites(p, raw))[p + k] == StoredByte(raw[k])
  {
    if |raw| > 0 {
      var n := |raw| - 1;
      assert RecordWrites(p, raw)[..n] == RecordWrites(p, raw[..n]);
      PokeAllRecord(buf, p, raw[..n]);
    }
  }
  /** A store into a Uint8Array: the low 8 bits land at `at`; outside the array it is dropped. */
  method Store(a: array<byte>, at: int, value: int)
    modifies a
    ensures a[..] == Poke(old(a[..]), ByteWrite(at, value))
  {
    if 0 <= at < a.Length {
      a[at] := StoredByte(value);
    }
  }

  /** `new Uint8Array(n)`: a fresh array of n zero bytes. */
  method ZeroFilled(n: nat) returns (a: array<byte>)
    ensures fresh(a) && a[..] == Zeros(n)
  {
    a := new byte[n](_ => 0);
  }

  /** `new Uint8Array(a)`: a fresh copy. */
  method CopyOf(a: array<byte>) returns (c: array<byte>)
    ensures fresh(c) && c[..] == a[..]
  {
    c := new byte[a.Length];
    forall i | 0 <= i < a.Length {
      c[i] := a[i];
    }
  }

  lemma PokeAllSnoc(buf: seq<byte>, ws: seq<ByteWrite>, w: ByteWrite)
    ensures PokeAll(buf, ws + [w]) == Poke(PokeAll(buf, ws), w)
  {
    assert (ws + [w])[..|ws|] == ws;
  }

  /** One more store at the next position, of the next value, keeps the stores pointwise those of raw. */
  lemma WritesSnoc(writes: seq<ByteWrite>, pos: int, raw: seq<int>, v: int)
    requires |writes| < |raw| && v == raw[|writes|]
    requires forall k :: 0 <= k < |writes| ==> writes[k] == ByteWrite(pos + k, raw[k])
    ensures forall k :: 0 <= k < |writes| + 1 ==> (writes + [ByteWrite(pos + |writes|, v)])[k] == ByteWrite(pos + k, raw[k])
  {
  }

  /** Stores made one after another at consecutive positions from pos are the record's stores. */
  lemma WritesAreRecord(writes: seq<ByteWrite>, pos: int, raw: seq<int>)
    requires |writes| == |raw|
    requires forall k :: 0 <= k < |writes| ==> writes[k] == ByteWrite(pos + k, raw[k])
    ensures writes == RecordWrites(pos, raw)
  {
  }
}
