/** BITFIELD: a list of GET, SET and INCRBY operations on one string. */
module BitFieldCommand {
  import opened BitField
  import opened BitOverflow
  import opened Bits
  import opened Text

  datatype Code = Get | Set | IncrBy

  datatype FieldOp = FieldOp(code: Code, signed: bool, bits: nat, offset: nat, arg: int, owtype: Overflow) {
    predicate Valid() {
      1 <= bits <= (if signed then 64 else 63) && IsInt64(arg)
    }
  }

  // ---- what an operation means on an endless bitmap ----------------------------------------------------

  /** The integer a field of the given type holds. */
  ghost function Typed(u: nat, signed: bool, bits: nat): int
    requires bits >= 1
  {
    if signed && u >= Pow2(bits - 1) then u - Pow2(bits) else u
  }

  ghost function Field(ones: Ones, op: FieldOp): int
    requires op.bits >= 1
  {
    Typed(Value(ones, op.offset, op.bits), op.signed, op.bits)
  }

  /** The exact integer an operation wants to store. */
  ghost function Wanted(op: FieldOp, was: int): int {
    if op.code.IncrBy? then was + op.arg else op.arg
  }

  /** What the documentation promises to store; None: nothing, and a null reply. */
  ghost function Promised(op: FieldOp, was: int): Option<int>
    requires op.bits >= 1
  {
    var x := Wanted(op, was);
    if Fits(x, op.signed, op.bits) then Some(x)
    else match op.owtype
      case Wrap => Some(WrapTo(x, op.signed, op.bits))
      case Sat => Some(Nearest(x, op.signed, op.bits))
      case Fail => None
  }

  /** The operations whose saturation picks the wrong bound. */
  predicate Misdirected(op: FieldOp)
    requires op.bits >= 1
  {
    op.code.Set? && op.owtype.Sat? && if op.signed then TooFarBelow(op.arg, op.bits) else op.arg < 0
  }

  /** What the source stores. */
  function Stored(op: FieldOp, was: int): (r: Option<int>)
    requires op.Valid() && (if op.signed then IsInt64(was) else IsUint64(was))
  {
    if op.signed then
      var value, incr := if op.code.IncrBy? then was else op.arg, if op.code.IncrBy? then op.arg else 0;
      var check := CheckSigned(value, incr, op.bits, op.owtype);
      if check.result != 0 then check.limit else Some(ToInt64(value + incr))
    else
      var value, incr := if op.code.IncrBy? then was else ToUint64(op.arg), if op.code.IncrBy? then op.arg else 0;
      var check := CheckUnsigned(value, incr, op.bits, op.owtype);
      if check.result != 0 then check.limit else Some(ToUint64(value + incr))
  }

  lemma FieldFits(ones: Ones, op: FieldOp)
    requires op.Valid()
    ensures Fits(Field(ones, op), op.signed, op.bits)
    ensures if op.signed then IsInt64(Field(ones, op)) else IsUint64(Field(ones, op))
  {
    hide Pow2;
    ValueBound(ones, op.offset, op.bits);
    PowBounds(op.bits);
  }

  /** What is stored is what is promised, except for the misdirected saturations. */
  lemma StoredAsPromisedIff(op: FieldOp, was: int)
    requires op.Valid() && !op.code.Get? && Fits(was, op.signed, op.bits)
    requires if op.signed then IsInt64(was) else IsUint64(was)
    ensures Stored(op, was) == Promised(op, was) <==> !Misdirected(op)
  {
    if op.signed {
      SignedStored(op, was);
    } else {
      UnsignedStored(op, was);
    }
  }

  lemma SignedStored(op: FieldOp, was: int)
    requires op.Valid() && !op.code.Get? && op.signed && Fits(was, true, op.bits) && IsInt64(was)
    ensures Stored(op, was) == Promised(op, was) <==> !Misdirected(op)
  {
    hide Pow2, CheckSigned, WrapTo;
    PowBounds(op.bits);
    if op.code.IncrBy? {
      SignedIsExact(was, op.arg, op.bits, op.owtype);
    } else {
      SignedSetIsExactIff(op.arg, op.bits, op.owtype);
    }
  }

  lemma UnsignedStored(op: FieldOp, was: int)
    requires op.Valid() && !op.code.Get? && !op.signed && Fits(was, false, op.bits) && IsUint64(was)
    ensures Stored(op, was) == Promised(op, was) <==> !Misdirected(op)
  {
    hide Pow2, CheckUnsigned, WrapTo, ToUint64;
    PowBounds(op.bits);
    PowMonotone(op.bits, 63);
    Sixty();
    if op.code.IncrBy? {
      UnsignedIsExact(was, op.arg, op.bits, op.owtype);
    } else {
      UnsignedSetIsExact(ToUint64(op.arg), op.bits, op.owtype);
      CastNegative(op.arg);
      SameResidue(op.arg, op.bits);
    }
  }

  lemma CastNegative(x: int)
    requires IsInt64(x)
    ensures x < 0 ==> ToUint64(x) == x + TWO64 >= TWO63
  {
  }

  lemma SameResidue(x: int, bits: nat)
    requires 1 <= bits <= 64
    ensures WrapTo(ToUint64(x), false, bits) == WrapTo(x, false, bits)
  {
    ReducedMod(x, bits);
  }

  /** Whatever is stored fits the field, also where saturation is misdirected. */
  lemma StoredFits(op: FieldOp, was: int)
    requires op.Valid() && !op.code.Get? && Fits(was, op.signed, op.bits)
    requires if op.signed then IsInt64(was) else IsUint64(was)
    ensures Stored(op, was).Some? ==> Fits(Stored(op, was).value, op.signed, op.bits)
  {
    StoredAsPromisedIff(op, was);
    PowBounds(op.bits);
    if !Misdirected(op) {
      WrapIsTheCongruentValue(Wanted(op, was), 0, op.signed, op.bits);
    } else if op.signed {
      hide *;
      SignedSetIsExactIff(op.arg, op.bits, Sat);
      MisdirectedBound(op, was);
    } else {
      hide *;
      CastNegative(op.arg);
      MisdirectedBound(op, was);
    }
  }

  lemma MisdirectedBound(op: FieldOp, was: int)
    requires op.Valid() && Misdirected(op) && (if op.signed then IsInt64(was) else IsUint64(was))
    ensures Stored(op, was) == Some(Max(op.signed, op.bits))
    ensures Fits(Max(op.signed, op.bits), op.signed, op.bits)
  {
    hide Pow2, CheckSigned;
    PowBounds(op.bits);
    if op.signed {
      SignedSetBranches(op.arg, op.bits, Sat);
    } else {
      CastNegative(op.arg);
    }
  }

  /** One operation on an endless bitmap: the reply and the bitmap afterwards. */
  ghost function Step(ones: Ones, op: FieldOp): (Option<int>, Ones)
    requires op.Valid()
  {
    var was := Field(ones, op);
    FieldFits(ones, op);
    if op.code.Get? then (Some(was), ones)
    else match Stored(op, was)
      case None => (None, ones)
      case Some(n) => (Some(if op.code.Set? then was else n), Write(ones, op.offset, op.bits, ToUint64(n)))
  }

  ghost predicate AllValid(ops: seq<FieldOp>) {
    forall i :: 0 <= i < |ops| ==> ops[i].Valid()
  }

  /** The operations one after the other. */
  ghost function Run(ones: Ones, ops: seq<FieldOp>): (seq<Option<int>>, Ones)
    requires AllValid(ops)
  {
    if ops == [] then ([], ones)
    else
      var before := Run(ones, ops[..|ops| - 1]);
      var step := Step(before.1, ops[|ops| - 1]);
      (before.0 + [step.0], step.1)
  }

  /** How many writes changed the bitmap; all that were not refused count once the string had to grow. */
  ghost function Changes(ones: Ones, ops: seq<FieldOp>, grew: bool): nat
    requires AllValid(ops)
  {
    if ops == [] then 0
    else
      var before, op := Run(ones, ops[..|ops| - 1]).1, ops[|ops| - 1];
      Changes(ones, ops[..|ops| - 1], grew)
      + if !op.code.Get? && Step(before, op).0.Some? && (grew || Step(before, op).1 != before) then 1 else 0
  }

  /** The same run with exact arithmetic throughout. */
  ghost function PromisedStep(ones: Ones, op: FieldOp): (Option<int>, Ones)
    requires op.Valid()
  {
    var was := Field(ones, op);
    if op.code.Get? then (Some(was), ones)
    else match Promised(op, was)
      case None => (None, ones)
      case Some(n) => (Some(if op.code.Set? then was else n), Write(ones, op.offset, op.bits, ToUint64(n)))
  }

  ghost function PromisedRun(ones: Ones, ops: seq<FieldOp>): (seq<Option<int>>, Ones)
    requires AllValid(ops)
  {
    if ops == [] then ([], ones)
    else
      var before := PromisedRun(ones, ops[..|ops| - 1]);
      var step := PromisedStep(before.1, ops[|ops| - 1]);
      (before.0 + [step.0], step.1)
  }

  /** Without a misdirected saturation a whole run is exact. */
  lemma {:induction false} RunsAsPromised(ones: Ones, ops: seq<FieldOp>)
    requires AllValid(ops) && forall i :: 0 <= i < |ops| ==> !Misdirected(ops[i])
    ensures Run(ones, ops) == PromisedRun(ones, ops)
  {
    hide Field, Promised, Misdirected, Stored, Fits;
    if ops != [] {
      var last := |ops| - 1;
      RunsAsPromised(ones, ops[..last]);
      var now := Run(ones, ops[..last]).1;
      FieldFits(now, ops[last]);
      if !ops[last].code.Get? {
        StoredAsPromisedIff(ops[last], Field(now, ops[last]));
      }
    }
  }

  /** A stored value reads back; every bit outside the field keeps its value. */
  lemma SetThenGet(ones: Ones, op: FieldOp)
    requires op.Valid() && !op.code.Get? && Step(ones, op).0.Some?
    ensures Stored(op, (FieldFits(ones, op); Field(ones, op))) == Some(Field(Step(ones, op).1, op))
    ensures forall i: nat :: i < op.offset || op.offset + op.bits <= i ==> (i in Step(ones, op).1 <==> i in ones)
  {
    FieldFits(ones, op);
    var was := Field(ones, op);
    StoredFits(op, was);
    var n := Stored(op, was).value;
    ValueOfWrite(ones, op.offset, op.bits, ToUint64(n));
    forall i: nat | i < op.offset || op.offset + op.bits <= i
      ensures i in Write(ones, op.offset, op.bits, ToUint64(n)) <==> i in ones
    {
      WriteFrame(ones, op.offset, op.bits, ToUint64(n), i);
    }
    ReadsBack(n, op.signed, op.bits);
  }

  lemma ReadsBack(n: int, signed: bool, bits: nat)
    requires 1 <= bits <= 64 && Fits(n, signed, bits)
    ensures Typed(ToUint64(n) % Pow2(bits), signed, bits) == n
  {
    hide Pow2, ToUint64;
    PowBounds(bits);
    ReducedMod(n, bits);
    if n >= 0 {
      ModUnique(n, Pow2(bits), 0, n);
    } else {
      ModUnique(n, Pow2(bits), -1, n + Pow2(bits));
    }
  }

  // ---- the loops of the source -------------------------------------------------------------------------

  /** getSignedBitfield: the sign bit propagated to all higher bits. */
  method GetSigned(p: seq<bv8>, off: nat, bits: nat) returns (value: int)
    requires off + bits <= 8 * |p| && 1 <= bits <= 64
    ensures value == Typed(Value(Abs(p), off, bits), true, bits)
  {
    hide Pow2, ToInt64, Abs, Value;
    var u := GetUnsigned(p, off, bits);
    ValueBound(Abs(p), off, bits);
    PowBounds(bits);
    Sixty();
    SignBit(u, bits);
    if bits < 64 && BitOfNat(u, bits - 1) {
      value := ToInt64(u + (TWO64 - Pow2(bits)));
    } else {
      value := ToInt64(u);
    }
  }

  lemma SignBit(u: nat, bits: nat)
    requires 1 <= bits <= 64 && u < Pow2(bits)
    ensures bits < 64 ==> (if (u / Pow2(bits - 1)) % 2 == 1 then ToInt64(u + (TWO64 - Pow2(bits))) else ToInt64(u)) == Typed(u, true, bits)
    ensures bits == 64 ==> ToInt64(u) == Typed(u, true, bits)
  {
    hide Pow2;
    PowBounds(bits);
    ModUnique(u, Pow2(bits), 0, u);
    if bits < 64 {
      SignPropagates(u, Pow2(bits - 1), u);
    }
  }

  method GetField(p: seq<bv8>, op: FieldOp, off: nat) returns (value: int)
    requires op.Valid() && off + op.bits <= 8 * |p|
    ensures value == Typed(Value(Abs(p), off, op.bits), op.signed, op.bits)
  {
    hide Abs, Value;
    if op.signed {
      value := GetSigned(p, off, op.bits);
    } else {
      value := GetUnsigned(p, off, op.bits);
    }
  }

  /** Nine bytes from the byte of the first bit on, zero-padded, hold every field of up to 64 bits. */
  lemma WindowSuffices(s: seq<bv8>, buf: seq<bv8>, off: nat, bits: nat)
    requires |buf| == 9 && bits <= 64
    requires forall i :: 0 <= i < 9 ==> buf[i] == if off / 8 + i < |s| then s[off / 8 + i] else 0
    ensures off % 8 + bits <= 72
    ensures Value(Abs(buf), off % 8, bits) == Value(Abs(s), off, bits)
  {
    hide Abs, BitOf;
    forall m | off % 8 <= m < off % 8 + bits
      ensures m in Abs(buf) <==> off + (m - off % 8) in Abs(s)
    {
      WindowBit(s, buf, off / 8, m);
      assert 8 * (off / 8) + m == off + (m - off % 8);
    }
    ShiftedValue(Abs(buf), off % 8, Abs(s), off, bits);
  }

  lemma WindowBit(s: seq<bv8>, buf: seq<bv8>, byte: nat, j: nat)
    requires |buf| == 9 && j < 72
    requires forall i :: 0 <= i < 9 ==> buf[i] == if byte + i < |s| then s[byte + i] else 0
    ensures j in Abs(buf) <==> 8 * byte + j in Abs(s)
  {
    hide BitOf;
    ByteOf(byte, j);
    NoBit(j % 8);
  }

  lemma NoBit(k: nat)
    requires k < 8
    ensures !BitOf(0, k)
  {
  }

  lemma {:induction false} ShiftedValue(a: Ones, i: nat, b: Ones, j: nat, n: nat)
    requires forall m :: i <= m < i + n ==> (m in a <==> j + (m - i) in b)
    ensures Value(a, i, n) == Value(b, j, n)
  {
    if n > 0 {
      ShiftedValue(a, i, b, j, n - 1);
      assert i + n - 1 in a <==> j + n - 1 in b;
    }
  }

  /** GET through the nine-byte window. */
  method ReadField(s: seq<bv8>, op: FieldOp) returns (value: int)
    requires op.Valid()
    ensures value == Field(Abs(s), op)
  {
    hide Abs, Value;
    var buf := new bv8[9](_ => 0);
    var byte := op.offset / 8;
    var i := 0;
    while i < 9
      invariant i <= 9 && (forall k :: i <= k < 9 ==> buf[k] == 0)
      invariant forall k :: 0 <= k < i ==> byte + k < |s| && buf[k] == s[byte + k]
    {
      if i + byte >= |s| {
        break;
      }
      buf[i] := s[i + byte];
      i := i + 1;
    }
    WindowSuffices(s, buf[..], op.offset, op.bits);
    value := GetField(buf[..], op, op.offset - 8 * byte);
  }

  /** SET and INCRBY in place. */
  method UpdateField(p: array<bv8>, op: FieldOp, dirty: bool) returns (reply: Option<int>, change: nat)
    requires op.Valid() && !op.code.Get? && op.offset + op.bits <= 8 * p.Length
    modifies p
    ensures (reply, Abs(p[..])) == Step(old(Abs(p[..])), op)
    ensures change == if reply.Some? && (dirty || Abs(p[..]) != old(Abs(p[..]))) then 1 else 0
    ensures change == 0 ==> Abs(p[..]) == old(Abs(p[..]))
  {
    hide Abs, Value, Stored, Write, Fits;
    ghost var ones := Abs(p[..]);
    FieldFits(ones, op);
    var oldval := GetField(p[..], op, op.offset);
    var stored := Stored(op, oldval);
    change := 0;
    match stored {
      case None =>
        reply := None;
      case Some(newval) =>
        reply := Some(if op.code.Set? then oldval else newval);
        SetUnsigned(p, op.offset, op.bits, ToUint64(newval));
        if dirty || oldval != newval {
          change := 1;
          SetThenGet(ones, op);
        } else {
          SameValue(ones, op);
        }
    }
  }

  lemma SameValue(ones: Ones, op: FieldOp)
    requires op.Valid()
    ensures Write(ones, op.offset, op.bits, ToUint64(Field(ones, op))) == ones
  {
    hide Pow2, Value, Write, ToUint64;
    PowBounds(op.bits);
    FieldFits(ones, op);
    var v := Value(ones, op.offset, op.bits);
    ValueBound(ones, op.offset, op.bits);
    ReducedMod(Field(ones, op), op.bits);
    ModUnique(v, Pow2(op.bits), 0, v);
    if Field(ones, op) < 0 {
      ModUnique(Field(ones, op), Pow2(op.bits), -1, v);
    }
    WriteMod(ones, op.offset, op.bits, ToUint64(Field(ones, op)), v);
    WriteBack(ones, op.offset, op.bits);
  }

  ghost function Bytes(o: Option<seq<bv8>>): seq<bv8> {
    if o.Some? then o.value else []
  }

  /** The length in bytes that the writes of a list need. */
  ghost function Needed(ops: seq<FieldOp>): nat
    requires AllValid(ops)
  {
    if ops == [] then 0
    else
      var before := Needed(ops[..|ops| - 1]);
      var op := ops[|ops| - 1];
      var len := if op.code.Get? then 0 else (op.offset + op.bits - 1) / 8 + 1;
      if len > before then len else before
  }

  /** The farthest bit any operation writes, and whether none does. */
  method Reach(ops: seq<FieldOp>) returns (readonly: bool, highest: nat)
    requires AllValid(ops)
    ensures readonly <==> forall i :: 0 <= i < |ops| ==> ops[i].code.Get?
    ensures forall i :: 0 <= i < |ops| && !ops[i].code.Get? ==> ops[i].offset + ops[i].bits - 1 <= highest
    ensures Needed(ops) == if readonly then 0 else highest / 8 + 1
  {
    readonly, highest := true, 0;
    for j := 0 to |ops|
      invariant readonly <==> forall i :: 0 <= i < j ==> ops[i].code.Get?
      invariant readonly ==> highest == 0
      invariant forall i :: 0 <= i < j && !ops[i].code.Get? ==> ops[i].offset + ops[i].bits - 1 <= highest
      invariant Needed(ops[..j]) == if readonly then 0 else highest / 8 + 1
    {
      var op := ops[j];
      assert ops[..j + 1][..j] == ops[..j];
      if !op.code.Get? {
        readonly := false;
        if highest < op.offset + op.bits - 1 {
          highest := op.offset + op.bits - 1;
        }
      }
    }
    assert ops[..|ops|] == ops;
  }

  /** Zero bytes added behind a string add no one bits. */
  lemma Grown(s: seq<bv8>, t: seq<bv8>)
    requires |s| <= |t| && (forall i :: 0 <= i < |s| ==> t[i] == s[i]) && (forall i :: |s| <= i < |t| ==> t[i] == 0)
    ensures Abs(t) == Abs(s)
  {
    hide BitOf;
    forall i | 0 <= i < 8 * |t|
      ensures i in Abs(t) <==> i in Abs(s)
    {
      NoBit(i % 8);
    }
  }

  lemma SameBits(a: bv8, b: bv8)
    requires forall k :: 0 <= k < 8 ==> (BitOf(a, k) <==> BitOf(b, k))
    ensures a == b
  {
    assert BitOf(a, 0) == BitOf(b, 0) && BitOf(a, 1) == BitOf(b, 1) && BitOf(a, 2) == BitOf(b, 2) && BitOf(a, 3) == BitOf(b, 3);
    assert BitOf(a, 4) == BitOf(b, 4) && BitOf(a, 5) == BitOf(b, 5) && BitOf(a, 6) == BitOf(b, 6) && BitOf(a, 7) == BitOf(b, 7);
  }

  /** A string is its bits and its length. */
  lemma SameString(s: seq<bv8>, t: seq<bv8>)
    requires |s| == |t| && Abs(s) == Abs(t)
    ensures s == t
  {
    hide BitOf;
    forall i | 0 <= i < |s| ensures s[i] == t[i] {
      forall k | 0 <= k < 8 ensures BitOf(s[i], k) <==> BitOf(t[i], k) {
        ByteOf(i, k);
        assert 8 * i + k in Abs(s) <==> 8 * i + k in Abs(t);
      }
      SameBits(s[i], t[i]);
    }
  }

  /** The string made long enough for its bit `maxbit`, and whether it had to grow. */
  method Enlarge(o: Option<seq<bv8>>, maxbit: nat) returns (p: array<bv8>, dirty: bool)
    ensures fresh(p) && Abs(p[..]) == Abs(Bytes(o)) && maxbit < 8 * p.Length
    ensures p.Length == (if maxbit / 8 + 1 > |Bytes(o)| then maxbit / 8 + 1 else |Bytes(o)|)
    ensures dirty <==> o.None? || maxbit / 8 + 1 > |Bytes(o)|
    ensures !dirty ==> o == Some(p[..])
  {
    hide Abs;
    var s := if o.Some? then o.value else [];
    var n := maxbit / 8 + 1;
    if n < |s| {
      n := |s|;
    }
    p := new bv8[n](i => if 0 <= i < |s| then s[i] else 0);
    Grown(s, p[..]);
    dirty := o.None? || n != |s|;
    assert n == |s| ==> p[..] == s;
  }

  /** The operations one after the other, when none writes. */
  method ReadAll(s: seq<bv8>, ops: seq<FieldOp>) returns (replies: seq<Option<int>>)
    requires AllValid(ops) && forall i :: 0 <= i < |ops| ==> ops[i].code.Get?
    ensures (replies, Abs(s)) == Run(Abs(s), ops) && |replies| == |ops|
  {
    hide Abs, Step;
    replies := [];
    for j := 0 to |ops|
      invariant (replies, Abs(s)) == Run(Abs(s), ops[..j]) && |replies| == j
    {
      var v := ReadField(s, ops[j]);
      GetStep(Abs(s), ops[j]);
      replies := replies + [Some(v)];
      assert ops[..j + 1][..j] == ops[..j];
    }
    assert ops[..|ops|] == ops;
  }

  /** One operation in place. */
  method Apply(p: array<bv8>, op: FieldOp, dirty: bool) returns (reply: Option<int>, change: nat)
    requires op.Valid() && (!op.code.Get? ==> op.offset + op.bits <= 8 * p.Length)
    modifies p
    ensures (reply, Abs(p[..])) == Step(old(Abs(p[..])), op)
    ensures change == if !op.code.Get? && reply.Some? && (dirty || Abs(p[..]) != old(Abs(p[..]))) then 1 else 0
    ensures change == 0 ==> Abs(p[..]) == old(Abs(p[..]))
  {
    hide Abs, Step;
    if op.code.Get? {
      var v := ReadField(p[..], op);
      GetStep(Abs(p[..]), op);
      reply, change := Some(v), 0;
    } else {
      reply, change := UpdateField(p, op, dirty);
    }
  }

  /** The operations one after the other, in place. */
  method ApplyAll(p: array<bv8>, ops: seq<FieldOp>, dirty: bool) returns (replies: seq<Option<int>>, changes: nat)
    requires AllValid(ops) && forall i :: 0 <= i < |ops| && !ops[i].code.Get? ==> ops[i].offset + ops[i].bits <= 8 * p.Length
    modifies p
    ensures (replies, Abs(p[..])) == Run(old(Abs(p[..])), ops) && |replies| == |ops|
    ensures changes == Changes(old(Abs(p[..])), ops, dirty)
    ensures changes == 0 ==> Abs(p[..]) == old(Abs(p[..]))
    ensures dirty ==> (changes == 0 <==> forall i :: 0 <= i < |ops| && !ops[i].code.Get? ==> replies[i].None?)
  {
    hide Abs, Step;
    ghost var ones := Abs(p[..]);
    replies, changes := [], 0;
    for j := 0 to |ops|
      invariant (replies, Abs(p[..])) == Run(ones, ops[..j]) && |replies| == j
      invariant changes == Changes(ones, ops[..j], dirty)
      invariant changes == 0 ==> Abs(p[..]) == ones
      invariant dirty ==> (changes == 0 <==> forall i :: 0 <= i < j && !ops[i].code.Get? ==> replies[i].None?)
    {
      var reply, change := Apply(p, ops[j], dirty);
      replies, changes := replies + [reply], changes + change;
      assert ops[..j + 1][..j] == ops[..j];
    }
    assert ops[..|ops|] == ops;
  }

  /**
   * The whole command. `changes` counts the operations reported as modifications; without one the
   * bitmap is the same as before, and so is the string, unless it had to be created or lengthened
   * and every write was refused.
   */
  method BitFieldGeneric(o: Option<seq<bv8>>, ops: seq<FieldOp>)
    returns (replies: seq<Option<int>>, value: Option<seq<bv8>>, changes: nat)
    requires AllValid(ops)
    ensures (replies, Abs(Bytes(value))) == Run(Abs(Bytes(o)), ops)
    ensures changes == Changes(Abs(Bytes(o)), ops, o.None? || Needed(ops) > |Bytes(o)|)
    ensures |Bytes(value)| == if Needed(ops) > |Bytes(o)| then Needed(ops) else |Bytes(o)|
    ensures (forall i :: 0 <= i < |ops| ==> ops[i].code.Get?) ==> value == o && changes == 0
    ensures changes == 0 ==> Abs(Bytes(value)) == Abs(Bytes(o))
    ensures |replies| == |ops|
    ensures changes == 0 && value != o <==>
      && (exists i :: 0 <= i < |ops| && !ops[i].code.Get?) && (o.None? || Needed(ops) > |Bytes(o)|)
      && forall i :: 0 <= i < |ops| && !ops[i].code.Get? ==> replies[i].None?
  {
    hide Abs, Run, Changes;
    var readonly, highest := Reach(ops);
    replies, value, changes := [], o, 0;
    if readonly {
      replies := ReadAll(if o.Some? then o.value else [], ops);
      NoChanges(Abs(Bytes(o)), ops, o.None? || Needed(ops) > |Bytes(o)|);
    } else {
      var p, dirty := Enlarge(o, highest);
      replies, changes := ApplyAll(p, ops, dirty);
      value := Some(p[..]);
      if changes == 0 && !dirty {
        SameString(p[..], o.value);
      }
    }
  }

  lemma {:induction false} NoChanges(ones: Ones, ops: seq<FieldOp>, grew: bool)
    requires AllValid(ops) && forall i :: 0 <= i < |ops| ==> ops[i].code.Get?
    ensures Changes(ones, ops, grew) == 0
  {
    if ops != [] {
      NoChanges(ones, ops[..|ops| - 1], grew);
    }
  }

  /** What an operation answers: GET and SET what the field held, INCRBY what it holds then; the null
      reply is given if and only if the exact value does not fit and OVERFLOW FAIL is in force, and then
      nothing is written. */
  lemma StepReply(ones: Ones, op: FieldOp)
    requires op.Valid()
    ensures var (reply, after) := Step(ones, op);
      && (reply.None? <==> !op.code.Get? && op.owtype.Fail? && !Fits(Wanted(op, Field(ones, op)), op.signed, op.bits))
      && (op.code.Get? || reply.None? ==> after == ones)
      && (reply.Some? ==> reply.value == Field(if op.code.IncrBy? then after else ones, op))
  {
    hide Field, Stored, Write, Misdirected, Fits, Wanted, ToUint64;
    var was := Field(ones, op);
    FieldFits(ones, op);
    if !op.code.Get? {
      StoredAsPromisedIff(op, was);
      FailIsPromised(op, was);
      if Stored(op, was).Some? {
        SetThenGet(ones, op);
      }
    }
  }

  lemma FailIsPromised(op: FieldOp, was: int)
    requires op.Valid()
    ensures Promised(op, was).None? <==> op.owtype.Fail? && !Fits(Wanted(op, was), op.signed, op.bits)
    ensures op.Valid() && Misdirected(op) && (if op.signed then IsInt64(was) else IsUint64(was)) ==> Stored(op, was).Some? && !op.owtype.Fail?
  {
    if Misdirected(op) && (if op.signed then IsInt64(was) else IsUint64(was)) {
      MisdirectedBound(op, was);
    }
  }

  lemma GetStep(ones: Ones, op: FieldOp)
    requires op.Valid() && op.code.Get?
    ensures Step(ones, op) == (Some(Field(ones, op)), ones)
  {
  }
}
