/** The overflow checks of BITFIELD: 64-bit machine arithmetic against exact integers. */
module BitOverflow {
  import opened BitField
  import opened Text

  const TWO63 := 0x8000_0000_0000_0000
  const TWO64 := 0x1_0000_0000_0000_0000

  predicate IsInt64(x: int) { -TWO63 <= x < TWO63 }

  predicate IsUint64(x: int) { 0 <= x < TWO64 }

  function ToUint64(x: int): (r: nat)
    ensures IsUint64(r) && (IsUint64(x) ==> r == x)
  {
    x % TWO64
  }

  function ToInt64(x: int): (r: int)
    ensures IsInt64(r) && (IsInt64(x) ==> r == x)
  {
    (x + TWO63) % TWO64 - TWO63
  }

  datatype Overflow = Wrap | Sat | Fail

  /** The verdict: 0, 1 or -1, and the limit where the overflow type stores one. */
  datatype Check = Check(result: int, limit: Option<int>)

  // ---- what the types mean ---------------------------------------------------------------------------

  function Max(signed: bool, bits: nat): int
    requires bits >= 1
  {
    if signed then Pow2(bits - 1) - 1 else Pow2(bits) - 1
  }

  function Min(signed: bool, bits: nat): int
    requires bits >= 1
  {
    if signed then 0 - Pow2(bits - 1) else 0
  }

  predicate Fits(x: int, signed: bool, bits: nat)
    requires bits >= 1
  {
    Min(signed, bits) <= x <= Max(signed, bits)
  }

  /** The value of the type with the same low bits. */
  function WrapTo(x: int, signed: bool, bits: nat): int
    requires bits >= 1
  {
    var u := x % Pow2(bits);
    if signed && u >= Pow2(bits - 1) then u - Pow2(bits) else u
  }

  function Nearest(x: int, signed: bool, bits: nat): int
    requires bits >= 1
  {
    if x > Max(signed, bits) then Max(signed, bits) else if x < Min(signed, bits) then Min(signed, bits) else x
  }

  /** Wrapping gives the one value of the type that is congruent modulo 2^bits. */
  lemma WrapIsTheCongruentValue(x: int, y: int, signed: bool, bits: nat)
    requires bits >= 1
    ensures Fits(WrapTo(x, signed, bits), signed, bits)
    ensures Fits(y, signed, bits) && (exists k :: y == x + k * Pow2(bits)) ==> y == WrapTo(x, signed, bits)
    ensures exists k :: WrapTo(x, signed, bits) == x + k * Pow2(bits)
  {
    var p := Pow2(bits);
    assert x == p * (x / p) + x % p;
    assert (-(x / p)) * p == -(p * (x / p));
    assert (-(x / p) - 1) * p == -(p * (x / p)) - p;
    assert WrapTo(x, signed, bits) == x + (-(x / p)) * p || WrapTo(x, signed, bits) == x + (-(x / p) - 1) * p;
    if Fits(y, signed, bits) && exists k :: y == x + k * p {
      var k :| y == x + k * p;
      if y >= 0 {
        assert x == p * (-k) + y;
        ModUnique(x, p, -k, y);
      } else {
        assert x == p * (-k - 1) + (y + p);
        ModUnique(x, p, -k - 1, y + p);
      }
    }
  }

  // ---- what the source computes ----------------------------------------------------------------------

  function CheckUnsigned(value: nat, incr: int, bits: nat, owtype: Overflow): Check
    requires IsUint64(value) && IsInt64(incr) && 1 <= bits <= 63
  {
    var max := Pow2(bits) - 1;
    var maxincr := ToInt64(max - value);
    var minincr := ToInt64(0 - value);
    if value > max || (incr > 0 && incr > maxincr) then
      match owtype
      case Wrap => Check(1, Some(ToUint64(value + incr) % Pow2(bits)))
      case Sat => Check(1, Some(max))
      case Fail => Check(1, None)
    else if incr < 0 && incr < minincr then
      match owtype
      case Wrap => Check(1, Some(ToUint64(value + incr) % Pow2(bits)))
      case Sat => Check(-1, Some(0))
      case Fail => Check(-1, None)
    else Check(0, None)
  }

  /** The sign bit of the sum propagated to, or cleared from, all bits above the field. */
  function WrapSigned(value: int, incr: int, bits: nat): int
    requires 1 <= bits <= 64
  {
    var c := ToUint64(ToUint64(value) + ToUint64(incr));
    if bits == 64 then ToInt64(c)
    else if (c / Pow2(bits - 1)) % 2 == 1 then ToInt64(c % Pow2(bits) + (TWO64 - Pow2(bits)))
    else ToInt64(c % Pow2(bits))
  }

  function CheckSigned(value: int, incr: int, bits: nat, owtype: Overflow): Check
    requires IsInt64(value) && IsInt64(incr) && 1 <= bits <= 64
  {
    var max := Pow2(bits - 1) - 1;
    var min := -max - 1;
    var maxincr := ToInt64(max - value);
    var minincr := ToInt64(min - value);
    if value > max || (bits != 64 && incr > maxincr) || (value >= 0 && incr > 0 && incr > maxincr) then
      match owtype
      case Wrap => Check(1, Some(WrapSigned(value, incr, bits)))
      case Sat => Check(1, Some(max))
      case Fail => Check(1, None)
    else if value < min || (bits != 64 && incr < minincr) || (value < 0 && incr < 0 && incr < minincr) then
      match owtype
      case Wrap => Check(1, Some(WrapSigned(value, incr, bits)))
      case Sat => Check(-1, Some(min))
      case Fail => Check(-1, None)
    else Check(0, None)
  }

  // ---- exactness ---------------------------------------------------------------------------------------

  /** What a check owes for the exact result `x`. */
  ghost predicate Exact(c: Check, x: int, signed: bool, bits: nat, owtype: Overflow)
    requires bits >= 1
  {
    if Fits(x, signed, bits) then c == Check(0, None)
    else c.result != 0 && c.limit == match owtype
      case Wrap => Some(WrapTo(x, signed, bits))
      case Sat => Some(Nearest(x, signed, bits))
      case Fail => None
  }

  lemma PowBounds(bits: nat)
    requires 1 <= bits <= 64
    ensures 1 <= Pow2(bits - 1) <= TWO63 && Pow2(bits) == 2 * Pow2(bits - 1) <= TWO64
    ensures if bits == 64 then Pow2(bits) == TWO64 else Pow2(bits) <= TWO63
  {
    hide Pow2;
    PowDouble(bits);
    PowMonotone(bits - 1, 63);
    Sixty();
    if bits < 64 {
      PowMonotone(bits, 63);
    }
  }

  lemma PowDouble(bits: nat)
    requires 1 <= bits
    ensures Pow2(bits) == 2 * Pow2(bits - 1)
  {
  }

  lemma TwiceMul(p: int, q: int)
    ensures (2 * p) * q == p * (2 * q) && p * (2 * q + 1) == (2 * p) * q + p
  {
  }

  lemma HalfMod(x: int, p: nat)
    requires p >= 1
    ensures (x % (2 * p)) % p == x % p
    ensures (x / p) % 2 == 1 <==> x % (2 * p) >= p
  {
    hide Pow2;
    var q, r := x / (2 * p), x % (2 * p);
    assert x == (2 * p) * q + r;
    TwiceMul(p, q);
    if r < p {
      ModUnique(x, p, 2 * q, r);
      ModUnique(r, p, 0, r);
    } else {
      ModUnique(x, p, 2 * q + 1, r - p);
      ModUnique(r, p, 1, r - p);
    }
  }

  /** Reducing modulo a larger power of two first does not change the value modulo a smaller one. */
  lemma {:induction false} ModInner(x: int, n: nat, bits: nat)
    requires bits <= n
    ensures (x % Pow2(n)) % Pow2(bits) == x % Pow2(bits)
    decreases n
  {
    if bits == n {
      ModUnique(x % Pow2(n), Pow2(n), 0, x % Pow2(n));
    } else {
      PowDouble(n);
      HalfMod(x, Pow2(n - 1));
      hide Pow2;
      ModInner(x % Pow2(n), n - 1, bits);
      ModInner(x, n - 1, bits);
    }
  }

  lemma UnsignedIsExact(value: nat, incr: int, bits: nat, owtype: Overflow)
    requires 1 <= bits <= 63 && Fits(value, false, bits) && IsInt64(incr) && IsUint64(value)
    ensures Exact(CheckUnsigned(value, incr, bits, owtype), value + incr, false, bits, owtype)
  {
    hide Pow2;
    PowBounds(bits);
    PowMonotone(bits, 63);
    Sixty();
    ReducedMod(value + incr, bits);
  }

  /** What a check returns: 0 where the exact result fits, else 1, or -1 for an underflow that is not wrapped. */
  function ResultFor(x: int, signed: bool, bits: nat, owtype: Overflow): int
    requires bits >= 1
  {
    if Fits(x, signed, bits) then 0 else if owtype.Wrap? || x > Max(signed, bits) then 1 else -1
  }

  lemma UnsignedResult(value: nat, incr: int, bits: nat, owtype: Overflow)
    requires 1 <= bits <= 63 && Fits(value, false, bits) && IsInt64(incr) && IsUint64(value)
    ensures CheckUnsigned(value, incr, bits, owtype).result == ResultFor(value + incr, false, bits, owtype)
  {
    hide Pow2;
    PowBounds(bits);
    PowMonotone(bits, 63);
    Sixty();
  }

  lemma SignedResult(value: int, incr: int, bits: nat, owtype: Overflow)
    requires 1 <= bits <= 64 && Fits(value, true, bits) && IsInt64(incr) && IsInt64(value)
    ensures CheckSigned(value, incr, bits, owtype).result == ResultFor(value + incr, true, bits, owtype)
  {
    hide Pow2, WrapSigned;
    PowBounds(bits);
  }

  /** A stored value read as unsigned, for every 64-bit input. */
  lemma UnsignedSetIsExact(value: nat, bits: nat, owtype: Overflow)
    requires 1 <= bits <= 63 && IsUint64(value)
    ensures Exact(CheckUnsigned(value, 0, bits, owtype), value, false, bits, owtype)
  {
    hide Pow2;
    PowBounds(bits);
    ReducedMod(value, bits);
  }

  lemma ModOfSum(a: int, b: int)
    ensures ToUint64(ToUint64(a) + ToUint64(b)) == ToUint64(a + b)
  {
  }

  lemma ToInt64OfUint64(x: int)
    ensures ToInt64(ToUint64(x)) == WrapTo(x, true, 64)
  {
    Sixty();
  }

  lemma WrapSignedIsExact(value: int, incr: int, bits: nat)
    requires 1 <= bits <= 64
    ensures WrapSigned(value, incr, bits) == WrapTo(value + incr, true, bits)
  {
    hide Pow2, ToUint64, ToInt64;
    PowBounds(bits);
    ModOfSum(value, incr);
    if bits == 64 {
      ToInt64OfUint64(value + incr);
    } else {
      ReducedMod(value + incr, bits);
      PowMonotone(bits, 63);
      Sixty();
      SignPropagates(ToUint64(value + incr), Pow2(bits - 1), ToUint64(value + incr) % Pow2(bits));
    }
  }

  lemma SignPropagates(c: nat, h: nat, u: int)
    requires 1 <= h && 2 * h <= TWO63 && u == c % (2 * h)
    ensures (if (c / h) % 2 == 1 then ToInt64(u + (TWO64 - 2 * h)) else ToInt64(u)) == if u >= h then u - 2 * h else u
  {
    hide ToInt64;
    HalfMod(c, h);
    HighOnes(u, 2 * h);
  }

  lemma ReducedMod(x: int, bits: nat)
    requires bits <= 64
    ensures ToUint64(x) % Pow2(bits) == x % Pow2(bits)
  {
    Sixty();
    ModInner(x, 64, bits);
  }

  lemma HighOnes(u: nat, p: nat)
    requires u < p <= TWO63
    ensures u >= p / 2 ==> ToInt64(u + (TWO64 - p)) == u - p
    ensures ToInt64(u) == u
  {
  }

  lemma SignedIsExact(value: int, incr: int, bits: nat, owtype: Overflow)
    requires 1 <= bits <= 64 && Fits(value, true, bits) && IsInt64(incr) && IsInt64(value)
    ensures Exact(CheckSigned(value, incr, bits, owtype), value + incr, true, bits, owtype)
  {
    hide Pow2, WrapSigned;
    PowBounds(bits);
    WrapSignedIsExact(value, incr, bits);
  }

  /** max - value does not fit a signed 64-bit integer. */
  predicate TooFarBelow(value: int, bits: nat)
    requires bits >= 1
  {
    bits < 64 && Max(true, bits) - value >= TWO63
  }

  lemma WrapsNegative(x: int)
    requires TWO63 <= x < TWO64
    ensures ToInt64(x) < 0
  {
  }

  /** Which branch of the check a stored value takes. */
  lemma SignedSetBranches(value: int, bits: nat, owtype: Overflow)
    requires 1 <= bits <= 64 && IsInt64(value)
    ensures var c := CheckSigned(value, 0, bits, owtype);
      if value > Max(true, bits) || TooFarBelow(value, bits) then c.result == 1 && (owtype.Sat? ==> c.limit == Some(Max(true, bits)))
      else if value < Min(true, bits) then c.result == (if owtype.Wrap? then 1 else -1) && (owtype.Sat? ==> c.limit == Some(Min(true, bits)))
      else c == Check(0, None)
    ensures var c := CheckSigned(value, 0, bits, owtype);
      c.result != 0 ==> (owtype.Fail? ==> c.limit == None) && (owtype.Wrap? ==> c.limit == Some(WrapSigned(value, 0, bits)))
  {
    hide Pow2, WrapSigned, ToInt64;
    PowBounds(bits);
    if TooFarBelow(value, bits) {
      WrapsNegative(Pow2(bits - 1) - 1 - value);
    }
  }

  /**
   * A stored value read as signed: wrapping and failing are exact for every 64-bit input, saturation is
   * exact unless the distance to the maximum overflows, and then the wrong bound is chosen.
   */
  lemma SignedSetIsExactIff(value: int, bits: nat, owtype: Overflow)
    requires 1 <= bits <= 64 && IsInt64(value)
    ensures Exact(CheckSigned(value, 0, bits, owtype), value, true, bits, owtype) <==> !(owtype.Sat? && TooFarBelow(value, bits))
    ensures owtype.Sat? && TooFarBelow(value, bits) ==>
      CheckSigned(value, 0, bits, owtype).limit == Some(Max(true, bits)) && Nearest(value, true, bits) == Min(true, bits)
  {
    hide Pow2, WrapSigned, CheckSigned, WrapTo;
    PowBounds(bits);
    SignedSetBranches(value, bits, owtype);
    WrapSignedIsExact(value, 0, bits);
  }

  /** Saturating a signed byte from the most negative 64-bit value stores 127. */
  lemma SaturatesToTheWrongBound()
    ensures CheckSigned(-TWO63, 0, 8, Sat) == Check(1, Some(127)) && Nearest(-TWO63, true, 8) == -128
  {
    assert Pow2(7) == 128;
  }
}
