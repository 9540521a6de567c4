/**
 * The logic patch engine (`applyLogicPatches`, src/agi.ts:279-319): an
 * ordered script of delete, insert and xor edits applied to a copy of a
 * logic resource. The copy is allocated once, large enough for every
 * insert, and a live-length counter tracks how much of it is in use; each
 * edit's offset refers to the bytes as the edits before it left them.
 */
module AgiLogic {
  import opened Bytes

  /** `LogicPatchOp`: the three edits of a patch script. */
  datatype PatchOp =
    | Delete(offset: int, length: int)
    | Insert(offset: int, payload: seq<byte>)
    | XorBytes(offset: int, payload: seq<byte>)

  /** The bytes an edit adds to the live length. */
  function Growth(op: PatchOp): int
  {
    match op
    case Delete(_, l) => -l
    case Insert(_, p) => |p|
    case XorBytes(_, _) => 0
  }

  /** `patch.type === 'insert' ? patch.payload.length : 0`. */
  function InsertedBytes(op: PatchOp): nat
  {
    if op.Insert? then |op.payload| else 0
  }

  /** The `reduce` that sizes the working buffer: the original length plus every insert's payload. */
  function Capacity(len: nat, ops: seq<PatchOp>): (cap: int)
    ensures cap >= len
  {
    if |ops| == 0 then len else Capacity(len, ops[..|ops| - 1]) + InsertedBytes(ops[|ops| - 1])
  }

  /** The live length after the edits, from a live length of len. */
  function LengthAfter(len: int, ops: seq<PatchOp>): int
  {
    if |ops| == 0 then len else LengthAfter(len, ops[..|ops| - 1]) + Growth(ops[|ops| - 1])
  }

  /** The sum of the deleted lengths. */
  function DeletedBytes(ops: seq<PatchOp>): int
  {
    if |ops| == 0 then 0
    else DeletedBytes(ops[..|ops| - 1]) + (if ops[|ops| - 1].Delete? then ops[|ops| - 1].length else 0)
  }

  /** An edit that stays within the live bytes of a buffer of live length len. */
  predicate Fits(op: PatchOp, len: int)
  {
    match op
    case Delete(o, l) => 0 <= o && 0 <= l && o + l <= len
    case Insert(o, _) => 0 <= o <= len
    case XorBytes(o, p) => 0 <= o && o + |p| <= len
  }

  /** Every edit fits the buffer the edits before it leave. */
  predicate ScriptFits(len: int, ops: seq<PatchOp>)
  {
    |ops| == 0 || (ScriptFits(len, ops[..|ops| - 1]) && Fits(ops[|ops| - 1], LengthAfter(len, ops[..|ops| - 1])))
  }

  /** A fitting script never drives the live length below 0. */
  lemma {:induction false} LengthAfterNonNegative(len: nat, ops: seq<PatchOp>)
    requires ScriptFits(len, ops)
    ensures LengthAfter(len, ops) >= 0
  {
    if |ops| > 0 {
      LengthAfterNonNegative(len, ops[..|ops| - 1]);
    }
  }

  /** The bytes XORed with a payload, position by position. */
  function XorSeq(s: seq<byte>, p: seq<byte>): (r: seq<byte>)
    requires |s| == |p|
    ensures |r| == |s| && forall i :: 0 <= i < |s| ==> r[i] == XorByte(s[i], p[i])
  {
    seq(|s|, i requires 0 <= i < |s| => XorByte(s[i], p[i]))
  }

  /** One edit on the live bytes s. */
  function Apply(s: seq<byte>, op: PatchOp): (r: seq<byte>)
    requires Fits(op, |s|)
    ensures |r| == |s| + Growth(op)
  {
    match op
    case Delete(o, l) => s[..o] + s[o + l..]
    case Insert(o, p) => s[..o] + p + s[o..]
    case XorBytes(o, p) => s[..o] + XorSeq(s[o..o + |p|], p) + s[o + |p|..]
  }

  /** The edits applied in order, each to the result of the ones before it. */
  function ApplyAll(s: seq<byte>, ops: seq<PatchOp>): (r: seq<byte>)
    requires ScriptFits(|s|, ops)
    ensures |r| == LengthAfter(|s|, ops)
  {
    if |ops| == 0 then s
    else
      var front := ops[..|ops| - 1];
      var t := ApplyAll(s, front);
      Apply(t, ops[|ops| - 1])
  }

  lemma {:induction false} ScriptFitsPrefix(len: int, ops: seq<PatchOp>, n: nat)
    requires ScriptFits(len, ops) && n <= |ops|
    ensures ScriptFits(len, ops[..n])
    decreases |ops|
  {
    if n < |ops| {
      ScriptFitsPrefix(len, ops[..|ops| - 1], n);
      assert ops[..|ops| - 1][..n] == ops[..n];
    } else {
      assert ops[..n] == ops;
    }
  }

  /**
   * The final live length is the original length plus the inserted bytes
   * less the deleted bytes, and it never exceeds the working buffer.
   */
  lemma {:induction false} FinalLength(len: nat, ops: seq<PatchOp>)
    requires ScriptFits(len, ops)
    ensures LengthAfter(len, ops) == Capacity(len, ops) - DeletedBytes(ops)
    ensures DeletedBytes(ops) >= 0
    ensures 0 <= LengthAfter(len, ops) <= Capacity(len, ops)
  {
    if |ops| > 0 {
      FinalLength(len, ops[..|ops| - 1]);
    }
    LengthAfterNonNegative(len, ops);
  }

  /** The room an edit leaves for the inserts still to come never runs out. */
  lemma {:induction false} RoomForInserts(len: nat, ops: seq<PatchOp>, i: nat)
    requires ScriptFits(len, ops) && i <= |ops|
    ensures LengthAfter(len, ops[..i]) + (Capacity(len, ops) - Capacity(len, ops[..i])) <= Capacity(len, ops)
  {
    ScriptFitsPrefix(len, ops, i);
    FinalLength(len, ops[..i]);
  }

  lemma CapacityStep(len: nat, ops: seq<PatchOp>, i: nat)
    requires i < |ops|
    ensures Capacity(len, ops[..i + 1]) == Capacity(len, ops[..i]) + InsertedBytes(ops[i])
    ensures LengthAfter(len, ops[..i + 1]) == LengthAfter(len, ops[..i]) + Growth(ops[i])
  {
    assert ops[..i + 1][..i] == ops[..i];
  }

  lemma {:induction false} CapacityMonotone(len: nat, ops: seq<PatchOp>, i: nat)
    requires i <= |ops|
    ensures Capacity(len, ops[..i]) <= Capacity(len, ops)
    decreases |ops| - i
  {
    if i < |ops| {
      CapacityStep(len, ops, i);
      CapacityMonotone(len, ops, i + 1);
    } else {
      assert ops[..i] == ops;
    }
  }

  /** Running a script in two parts is running it at once. */
  lemma {:induction false} ApplyAllAppend(s: seq<byte>, a: seq<PatchOp>, b: seq<PatchOp>)
    requires ScriptFits(|s|, a + b)
    ensures ScriptFits(|s|, a) && ScriptFits(|ApplyAll(s, a)|, b)
    ensures ApplyAll(s, a + b) == ApplyAll(ApplyAll(s, a), b)
    decreases |b|
  {
    if |b| == 0 {
      assert a + b == a;
    } else {
      var ab := a + b;
      assert ab[..|ab| - 1] == a + b[..|b| - 1];
      ApplyAllAppend(s, a, b[..|b| - 1]);
      LengthAfterAppend(|s|, a, b[..|b| - 1]);
    }
  }

  lemma {:induction false} LengthAfterAppend(len: int, a: seq<PatchOp>, b: seq<PatchOp>)
    ensures LengthAfter(len, a + b) == LengthAfter(LengthAfter(len, a), b)
    decreases |b|
  {
    if |b| == 0 {
      assert a + b == a;
    } else {
      assert (a + b)[..|a + b| - 1] == a + b[..|b| - 1];
      LengthAfterAppend(len, a, b[..|b| - 1]);
    }
  }

  lemma ApplyAllPair(s: seq<byte>, x: PatchOp, y: PatchOp)
    requires Fits(x, |s|) && Fits(y, |Apply(s, x)|)
    ensures ScriptFits(|s|, [x, y]) && ApplyAll(s, [x, y]) == Apply(Apply(s, x), y)
  {
    assert [x, y][..1] == [x] && [x][..0] == [];
    assert LengthAfter(|s|, [x]) == |s| + Growth(x);
    assert ScriptFits(|s|, [x]);
    assert ApplyAll(s, [x]) == Apply(s, x);
  }

  /** Deleting the bytes just inserted gives the bytes back. */
  lemma InsertThenDelete(s: seq<byte>, o: int, p: seq<byte>)
    requires 0 <= o <= |s|
    ensures ScriptFits(|s|, [Insert(o, p), Delete(o, |p|)])
    ensures ApplyAll(s, [Insert(o, p), Delete(o, |p|)]) == s
  {
    DeleteUndoesInsert(s, o, p);
    ApplyAllPair(s, Insert(o, p), Delete(o, |p|));
  }

  lemma DeleteUndoesInsert(s: seq<byte>, o: int, p: seq<byte>)
    requires 0 <= o <= |s|
    ensures Fits(Delete(o, |p|), |Apply(s, Insert(o, p))|)
    ensures Apply(Apply(s, Insert(o, p)), Delete(o, |p|)) == s
  {
    var t := Apply(s, Insert(o, p));
    assert t == s[..o] + p + s[o..];
    assert t[..o] == s[..o] && t[o + |p|..] == s[o..];
    assert s[..o] + s[o..] == s;
  }

  /** `applyLogicPatches(buf, [insert(0, [A]), delete(0, 1)])` returns buf. */
  lemma InsertOneDeleteOne(s: seq<byte>, a: byte)
    ensures ScriptFits(|s|, [Insert(0, [a]), Delete(0, 1)])
    ensures ApplyAll(s, [Insert(0, [a]), Delete(0, 1)]) == s
  {
    InsertThenDelete(s, 0, [a]);
  }

  /** An xor edit changes only the bytes under its payload, each XORed with its payload byte. */
  lemma XorOnlyTouchesPayload(s: seq<byte>, o: int, p: seq<byte>)
    requires Fits(XorBytes(o, p), |s|)
    ensures forall i :: 0 <= i < |s| && !(o <= i < o + |p|) ==> Apply(s, XorBytes(o, p))[i] == s[i]
    ensures forall i :: o <= i < o + |p| ==> Apply(s, XorBytes(o, p))[i] == XorByte(s[i], p[i - o])
  {
    var r := Apply(s, XorBytes(o, p));
    var x := XorSeq(s[o..o + |p|], p);
    assert r == s[..o] + x + s[o + |p|..];
    forall i | o <= i < o + |p|
      ensures r[i] == XorByte(s[i], p[i - o])
    {
      assert r[i] == x[i - o];
    }
  }

  /** The same xor edit twice gives the bytes back. */
  lemma XorTwice(s: seq<byte>, o: int, p: seq<byte>)
    requires Fits(XorBytes(o, p), |s|)
    ensures Fits(XorBytes(o, p), |Apply(s, XorBytes(o, p))|)
    ensures Apply(Apply(s, XorBytes(o, p)), XorBytes(o, p)) == s
  {
    var t := Apply(s, XorBytes(o, p));
    XorOnlyTouchesPayload(s, o, p);
    XorOnlyTouchesPayload(t, o, p);
    var u := Apply(t, XorBytes(o, p));
    forall i | 0 <= i < |s|
      ensures u[i] == s[i]
    {
      if o <= i < o + |p| {
        XorInvolution(s[i], p[i - o]);
      }
    }
  }

  /** A delete keeps the bytes before its offset and moves those after the gap down. */
  lemma DeleteShifts(s: seq<byte>, o: int, l: int)
    requires Fits(Delete(o, l), |s|)
    ensures forall i :: 0 <= i < o ==> Apply(s, Delete(o, l))[i] == s[i]
    ensures forall i :: o <= i < |s| - l ==> Apply(s, Delete(o, l))[i] == s[i + l]
  {
  }

  /** An insert keeps the bytes before its offset, puts the payload there and moves the rest up. */
  lemma InsertShifts(s: seq<byte>, o: int, p: seq<byte>)
    requires Fits(Insert(o, p), |s|)
    ensures forall i :: 0 <= i < o ==> Apply(s, Insert(o, p))[i] == s[i]
    ensures Apply(s, Insert(o, p))[o..o + |p|] == p
    ensures forall i :: o <= i < |s| ==> Apply(s, Insert(o, p))[i + |p|] == s[i]
  {
  }

  /**
   * `Uint8Array.prototype.copyWithin(target, start, end)` within bounds:
   * the bytes start..end, as they were, land at target; the copy behaves
   * as if through a temporary buffer when the ranges overlap.
   */
  method CopyWithin(a: array<byte>, target: int, start: int, end: int)
    requires 0 <= target && 0 <= start <= end <= a.Length && target + (end - start) <= a.Length
    modifies a
    ensures a[..] == old(a[..])[..target] + old(a[..])[start..end] + old(a[..])[target + (end - start)..]
  {
    ghost var a0 := a[..];
    var n := end - start;
    if target <= start {
      var i := 0;
      while i < n
        invariant 0 <= i <= n
        invariant forall k :: target <= k < target + i ==> a[k] == a0[start + k - target]
        invariant forall k :: 0 <= k < a.Length && !(target <= k < target + i) ==> a[k] == a0[k]
      {
        a[target + i] := a[start + i];
        i := i + 1;
      }
    } else {
      var i := n;
      while i > 0
        invariant 0 <= i <= n
        invariant forall k :: target + i <= k < target + n ==> a[k] == a0[start + k - target]
        invariant forall k :: 0 <= k < a.Length && !(target + i <= k < target + n) ==> a[k] == a0[k]
      {
        i := i - 1;
        a[target + i] := a[start + i];
      }
    }
    CopyResult(a0, a[..], target, start, end);
  }

  lemma CopyResult(a0: seq<byte>, a1: seq<byte>, target: int, start: int, end: int)
    requires 0 <= target && 0 <= start <= end <= |a0| && target + (end - start) <= |a0| == |a1|
    requires forall k :: target <= k < target + (end - start) ==> a1[k] == a0[start + k - target]
    requires forall k :: 0 <= k < |a0| && !(target <= k < target + (end - start)) ==> a1[k] == a0[k]
    ensures a1 == a0[..target] + a0[start..end] + a0[target + (end - start)..]
  {
    var r := a0[..target] + a0[start..end] + a0[target + (end - start)..];
    forall k | 0 <= k < |a1|
      ensures a1[k] == r[k]
    {
      if k < target {
      } else if k < target + (end - start) {
        assert r[k] == a0[start..end][k - target];
      } else {
        assert r[k] == a0[target + (end - start)..][k - target - (end - start)];
      }
    }
  }

  /** `typedArray.set(payload, at)`: the payload's bytes over those at at.. */
  method SetBytes(a: array<byte>, p: seq<byte>, at: int)
    requires 0 <= at && at + |p| <= a.Length
    modifies a
    ensures a[..] == old(a[..])[..at] + p + old(a[..])[at + |p|..]
  {
    ghost var a0 := a[..];
    forall i | 0 <= i < |p| {
      a[at + i] := p[i];
    }
    var r := a0[..at] + p + a0[at + |p|..];
    forall k | 0 <= k < a.Length
      ensures a[k] == r[k]
    {
      if at <= k < at + |p| {
        assert r[k] == p[k - at];
      } else if k >= at + |p| {
        assert r[k] == a0[at + |p|..][k - at - |p|];
      }
    }
    assert a[..] == r;
  }

  /** The `delete` case: move the live bytes after the gap down over it. */
  method DeleteInPlace(a: array<byte>, len: int, o: int, l: int) returns (newLen: int)
    requires 0 <= len <= a.Length && Fits(Delete(o, l), len)
    modifies a
    ensures newLen == len - l
    ensures a[..newLen] == Apply(old(a[..len]), Delete(o, l))
  {
    ghost var a0 := a[..];
    CopyWithin(a, o, o + l, len);
    newLen := len - l;
    assert a[..] == a0[..o] + a0[o + l..len] + a0[len - l..];
    assert a[..newLen] == a0[..o] + a0[o + l..len];
    assert a0[..len][..o] == a0[..o] && a0[..len][o + l..] == a0[o + l..len];
  }

  /** The `insert` case: move the live bytes from o up by the payload, then write it at o. */
  method InsertInPlace(a: array<byte>, len: int, o: int, p: seq<byte>) returns (newLen: int)
    requires 0 <= len && len + |p| <= a.Length && Fits(Insert(o, p), len)
    modifies a
    ensures newLen == len + |p|
    ensures a[..newLen] == Apply(old(a[..len]), Insert(o, p))
  {
    ghost var a0 := a[..];
    CopyWithin(a, o + |p|, o, len);
    ghost var a1 := a[..];
    assert a1 == a0[..o + |p|] + a0[o..len] + a0[len + |p|..];
    newLen := len + |p|;
    SetBytes(a, p, o);
    assert a[..] == a1[..o] + p + a1[o + |p|..];
    assert a1[..o] == a0[..o] && a1[o + |p|..newLen] == a0[o..len];
    assert a[..newLen] == a1[..o] + p + a1[o + |p|..newLen];
    assert a0[..len][..o] == a0[..o] && a0[..len][o..] == a0[o..len];
  }

  /** The `xor` case: XOR the payload into the bytes at o.., in place. */
  method XorInPlace(a: array<byte>, len: int, o: int, p: seq<byte>)
    requires 0 <= len <= a.Length && Fits(XorBytes(o, p), len)
    modifies a
    ensures a[..len] == Apply(old(a[..len]), XorBytes(o, p))
    ensures a[len..] == old(a[len..])
  {
    ghost var a0 := a[..];
    for i := 0 to |p|
      invariant forall k :: o <= k < o + i ==> a[k] == XorByte(a0[k], p[k - o])
      invariant forall k :: 0 <= k < a.Length && !(o <= k < o + i) ==> a[k] == a0[k]
    {
      a[o + i] := XorByte(a[o + i], p[i]);
    }
    var r := Apply(a0[..len], XorBytes(o, p));
    XorOnlyTouchesPayload(a0[..len], o, p);
    assert a[..len] == r;
  }

  /**
   * `applyLogicPatches`: a zero-filled buffer sized for every insert, the
   * original copied in, each edit applied in order to the live bytes; the
   * result is the live part of the buffer. The caller's array is not
   * written.
   */
  method ApplyLogicPatches(logic: array<byte>, patches: seq<PatchOp>) returns (newLogic: array<byte>, logicLen: int)
    requires ScriptFits(logic.Length, patches)
    ensures fresh(newLogic) && newLogic.Length == Capacity(logic.Length, patches)
    ensures 0 <= logicLen <= newLogic.Length
    ensures logicLen == LengthAfter(logic.Length, patches)
    ensures newLogic[..logicLen] == ApplyAll(logic[..], patches)
  {
    var cap := ComputeCapacity(logic.Length, patches);
    newLogic := new byte[cap](_ => 0);
    forall i | 0 <= i < logic.Length {
      newLogic[i] := logic[i];
    }
    logicLen := logic.Length;
    assert patches[..0] == [];
    assert newLogic[..logicLen] == logic[..];
    for i := 0 to |patches|
      invariant newLogic.Length == cap
      invariant 0 <= logicLen <= cap
      invariant ScriptFits(logic.Length, patches[..i])
      invariant logicLen == LengthAfter(logic.Length, patches[..i])
      invariant logicLen + (cap - Capacity(logic.Length, patches[..i])) <= cap
      invariant newLogic[..logicLen] == ApplyAll(logic[..], patches[..i])
    {
      ghost var before := newLogic[..logicLen];
      ScriptFitsPrefix(logic.Length, patches, i + 1);
      assert patches[..i + 1][..i] == patches[..i];
      CapacityStep(logic.Length, patches, i);
      CapacityMonotone(logic.Length, patches, i + 1);
      match patches[i]
      case Delete(o, l) =>
        logicLen := DeleteInPlace(newLogic, logicLen, o, l);
      case Insert(o, p) =>
        logicLen := InsertInPlace(newLogic, logicLen, o, p);
      case XorBytes(o, p) =>
        XorInPlace(newLogic, logicLen, o, p);
      RoomForInserts(logic.Length, patches, i + 1);
    }
    assert patches[..|patches|] == patches;
  }

  /** The `reduce` over the script that sizes the working buffer. */
  method ComputeCapacity(len: nat, patches: seq<PatchOp>) returns (cap: int)
    ensures cap == Capacity(len, patches)
  {
    cap := len;
    for i := 0 to |patches|
      invariant cap == Capacity(len, patches[..i])
    {
      assert patches[..i + 1][..i] == patches[..i];
      cap := cap + (if patches[i].Insert? then |patches[i].payload| else 0);
    }
    assert patches[..|patches|] == patches;
  }
}
