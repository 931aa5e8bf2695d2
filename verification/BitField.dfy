/** Arbitrary-width integer fields in a bitmap: what reading and writing them means, and the loops. */
module BitField {
  import opened Bits

  function Pow2(n: nat): (p: nat)
    ensures p >= 1
  {
    if n == 0 then 1 else 2 * Pow2(n - 1)
  }

  /** An endless bitmap, as the set of its one bits. */
  type Ones = set<nat>

  function Put(ones: Ones, i: nat, v: bool): Ones {
    if v then ones + {i} else ones - {i}
  }

  /** The unsigned value of the `n` bits from `off` on. */
  ghost function Value(ones: Ones, off: nat, n: nat): nat {
    if n == 0 then 0 else 2 * Value(ones, off, n - 1) + if off + n - 1 in ones then 1 else 0
  }

  /** The bitmap with the low `n` bits of `v` stored from `off` on. */
  ghost function Write(ones: Ones, off: nat, n: nat, v: nat): Ones {
    if n == 0 then ones else Put(Write(ones, off, n - 1, v / 2), off + n - 1, v % 2 == 1)
  }

  lemma {:induction false} ValueBound(ones: Ones, off: nat, n: nat)
    ensures Value(ones, off, n) < Pow2(n)
  {
    if n > 0 {
      ValueBound(ones, off, n - 1);
    }
  }

  lemma {:induction false} ValueSame(a: Ones, b: Ones, off: nat, n: nat)
    requires forall i :: off <= i < off + n ==> (i in a <==> i in b)
    ensures Value(a, off, n) == Value(b, off, n)
  {
    if n > 0 {
      ValueSame(a, b, off, n - 1);
    }
  }

  /** No bit outside the field changes. */
  lemma {:induction false} WriteFrame(ones: Ones, off: nat, n: nat, v: nat, i: nat)
    requires i < off || off + n <= i
    ensures i in Write(ones, off, n, v) <==> i in ones
  {
    if n > 0 {
      WriteFrame(ones, off, n - 1, v / 2, i);
    }
  }

  lemma DoubleMod(v: nat, p: nat)
    requires p >= 1
    ensures 2 * ((v / 2) % p) + v % 2 == v % (2 * p)
  {
    var h := v / 2;
    var q, r := h / p, h % p;
    assert v == 2 * h + v % 2 == 2 * (p * q + r) + v % 2;
    assert v == (2 * p) * q + (2 * r + v % 2);
    ModUnique(v, 2 * p, q, 2 * r + v % 2);
  }

  lemma MulAtLeast(m: nat, d: nat)
    requires d >= 1
    ensures m * d >= m
  {
  }

  lemma QuotientUnique(m: nat, q: int, r: nat, q2: int, r2: nat)
    requires m * q + r == m * q2 + r2 && r < m && r2 < m
    ensures q == q2 && r == r2
  {
    if q > q2 {
      assert m * q - m * q2 == m * (q - q2);
      MulAtLeast(m, q - q2);
    } else if q < q2 {
      assert m * q2 - m * q == m * (q2 - q);
      MulAtLeast(m, q2 - q);
    }
  }

  lemma ModUnique(v: int, m: nat, q: int, r: nat)
    requires m >= 1 && v == m * q + r && r < m
    ensures v % m == r && v / m == q
  {
    QuotientUnique(m, q, r, v / m, v % m);
  }

  /** Reading back a stored value gives it modulo 2^n. */
  lemma {:induction false} ValueOfWrite(ones: Ones, off: nat, n: nat, v: nat)
    ensures Value(Write(ones, off, n, v), off, n) == v % Pow2(n)
  {
    if n > 0 {
      ValueOfWrite(ones, off, n - 1, v / 2);
      ValueSame(Write(ones, off, n, v), Write(ones, off, n - 1, v / 2), off, n - 1);
      DoubleMod(v, Pow2(n - 1));
    }
  }

  /** Storing what is already there changes nothing. */
  lemma {:induction false} WriteBack(ones: Ones, off: nat, n: nat)
    ensures Write(ones, off, n, Value(ones, off, n)) == ones
  {
    if n > 0 {
      WriteBack(ones, off, n - 1);
    }
  }

  /** Only the low `n` bits of the value matter. */
  lemma {:induction false} WriteMod(ones: Ones, off: nat, n: nat, v: nat, w: nat)
    requires v % Pow2(n) == w % Pow2(n)
    ensures Write(ones, off, n, v) == Write(ones, off, n, w)
  {
    if n > 0 {
      DoubleMod(v, Pow2(n - 1));
      DoubleMod(w, Pow2(n - 1));
      WriteMod(ones, off, n - 1, v / 2, w / 2);
    }
  }

  // ---- bytes ---------------------------------------------------------------------------------------

  /** The one bits of a byte string. */
  ghost function Abs(s: seq<bv8>): Ones {
    set i | 0 <= i < 8 * |s| && BitAt(s, i)
  }

  function Cleared(b: bv8, k: nat): bv8
    requires k < 8
  {
    b & !Single(k)
  }

  function Raised(b: bv8, k: nat): bv8
    requires k < 8
  {
    b | Single(k)
  }

  /** A bit of a byte replaced, by clearing it and or-ing in the new value. */
  function PutBit(b: bv8, k: nat, v: bool): bv8
    requires k < 8
  {
    if v then Raised(Cleared(b, k), k) else Cleared(b, k)
  }

  lemma SingleBits(k: nat, j: nat)
    requires k < 8 && j < 8
    ensures BitOf(Single(k), j) <==> j == k
  {
  }

  lemma ClearedBits(b: bv8, k: nat, j: nat)
    requires k < 8 && j < 8
    ensures BitOf(Cleared(b, k), j) <==> j != k && BitOf(b, j)
  {
    AndNotBit(b, Single(k), j);
    hide BitOf, Single;
    SingleBits(k, j);
  }

  lemma RaisedBits(b: bv8, k: nat, j: nat)
    requires k < 8 && j < 8
    ensures BitOf(Raised(b, k), j) <==> j == k || BitOf(b, j)
  {
    OrBit(b, Single(k), j);
    hide BitOf, Single;
    SingleBits(k, j);
  }

  lemma PutBitBits(b: bv8, k: nat, v: bool, j: nat)
    requires k < 8 && j < 8
    ensures BitOf(PutBit(b, k, v), j) == if j == k then v else BitOf(b, j)
  {
    hide BitOf, Cleared, Raised;
    ClearedBits(b, k, j);
    RaisedBits(Cleared(b, k), k, j);
  }

  lemma PutByte(s: seq<bv8>, i: nat, v: bool)
    requires i < 8 * |s|
    ensures Abs(s[i / 8 := PutBit(s[i / 8], i % 8, v)]) == Put(Abs(s), i, v)
  {
    hide PutBit, BitOf;
    var t := s[i / 8 := PutBit(s[i / 8], i % 8, v)];
    forall j | 0 <= j < 8 * |s|
      ensures BitAt(t, j) == if j == i then v else BitAt(s, j)
    {
      PutBitBits(s[i / 8], i % 8, v, j % 8);
    }
  }

  /** v >> k */
  function Shr(v: nat, k: nat): nat {
    QuotientIsNat(v, Pow2(k));
    v / Pow2(k)
  }

  lemma QuotientIsNat(v: nat, p: nat)
    requires p >= 1
    ensures v / p >= 0
  {
  }

  lemma {:induction false} ShrNext(v: nat, m: nat)
    ensures Shr(v, m) / 2 == Shr(v, m + 1)
    decreases m
  {
    if m > 0 {
      hide Shr;
      ShrSplit(v, m);
      ShrSplit(v, m + 1);
      ShrNext(v / 2, m - 1);
    }
  }

  /** setUnsignedBitfield: the field holds the low bits of the value and nothing else changes. */
  method SetUnsigned(p: array<bv8>, off: nat, bits: nat, value: nat)
    requires off + bits <= 8 * p.Length
    modifies p
    ensures Abs(p[..]) == Write(old(Abs(p[..])), off, bits, value)
  {
    hide Abs, PutBit, Shr;
    ghost var before := Abs(p[..]);
    for j := 0 to bits
      invariant Abs(p[..]) == Write(before, off, j, Shr(value, bits - j))
    {
      var bitval := BitOfNat(value, bits - 1 - j);
      WriteNext(before, off, bits, value, j);
      SetBit(p, off + j, bitval);
    }
    Whole(value);
  }

  lemma Whole(value: nat)
    ensures Shr(value, 0) == value
  {
  }

  /** The next bit of the value goes to the next place of the field. */
  lemma WriteNext(ones: Ones, off: nat, bits: nat, value: nat, j: nat)
    requires j < bits
    ensures Write(ones, off, j + 1, Shr(value, bits - (j + 1)))
         == Put(Write(ones, off, j, Shr(value, bits - j)), off + j, Shr(value, bits - 1 - j) % 2 == 1)
  {
    hide Shr, Put;
    ShrNext(value, bits - 1 - j);
  }

  method SetBit(p: array<bv8>, i: nat, v: bool)
    requires i < 8 * p.Length
    modifies p
    ensures Abs(p[..]) == Put(old(Abs(p[..])), i, v)
  {
    hide Abs, PutBit;
    PutByte(p[..], i, v);
    ghost var was := p[..];
    p[i / 8] := PutBit(p[i / 8], i % 8, v);
    assert p[..] == was[i / 8 := PutBit(was[i / 8], i % 8, v)];
  }

  /** Bit `k` of a number. */
  function BitOfNat(v: nat, k: nat): (r: bool)
    ensures r == (Shr(v, k) % 2 == 1)
  {
    if k == 0 then v % 2 == 1 else
      ShrSplit(v, k);
      BitOfNat(v / 2, k - 1)
  }

  lemma ShrSplit(v: nat, k: nat)
    requires k >= 1
    ensures Shr(v, k) == Shr(v / 2, k - 1)
  {
    var p := Pow2(k - 1);
    var h, b := v / 2, v % 2;
    var q, r := h / p, h % p;
    assert h == p * q + r;
    assert v == 2 * (p * q + r) + b;
    assert 2 * (p * q) == (2 * p) * q;
    ModUnique(v, 2 * p, q, 2 * r + b);
  }

  /** getUnsignedBitfield: the shifting accumulator never overflows 64 bits. */
  method GetUnsigned(p: seq<bv8>, off: nat, bits: nat) returns (value: nat)
    requires off + bits <= 8 * |p| && bits <= 64
    ensures value == Value(Abs(p), off, bits)
  {
    hide Abs, BitOf;
    value := 0;
    for j := 0 to bits
      invariant value == Value(Abs(p), off, j)
    {
      ReadStep(p, off, j);
      var bitval := if BitOf(p[(off + j) / 8], (off + j) % 8) then 1 else 0;
      value := (value * 2) % 0x1_0000_0000_0000_0000 + bitval;
    }
  }

  lemma ReadStep(p: seq<bv8>, off: nat, j: nat)
    requires off + j < 8 * |p| && j < 64
    ensures Value(Abs(p), off, j) * 2 < 0x1_0000_0000_0000_0000
    ensures off + j in Abs(p) <==> BitOf(p[(off + j) / 8], (off + j) % 8)
  {
    hide Pow2, Value, BitOf;
    ValueBound(Abs(p), off, j);
    PowMonotone(j, 63);
    Sixty();
  }

  lemma {:induction false} PowMonotone(m: nat, n: nat)
    requires m <= n
    ensures Pow2(m) <= Pow2(n)
  {
    if m < n {
      PowMonotone(m, n - 1);
    }
  }

  lemma Sixty()
    ensures Pow2(63) == 0x8000_0000_0000_0000 && Pow2(64) == 0x1_0000_0000_0000_0000
  {
    assert Pow2(8) == 0x100;
    assert Pow2(16) == 0x1_0000;
    assert Pow2(24) == 0x100_0000;
    assert Pow2(32) == 0x1_0000_0000;
    assert Pow2(40) == 0x100_0000_0000;
    assert Pow2(48) == 0x1_0000_0000_0000;
    assert Pow2(56) == 0x100_0000_0000_0000;
  }

  function Unit(b: bv8, k: nat): nat
    requires k < 8
  {
    if BitOf(b, k) then 1 else 0
  }

  /** The unsigned number a byte stands for. */
  function Number(b: bv8): nat {
    b as nat
  }

  /** The number the first `k` bits of a byte stand for. */
  ghost function TopBits(b: bv8, k: nat): nat
    requires k <= 8
  {
    if k == 0 then 0 else 2 * TopBits(b, k - 1) + Unit(b, k - 1)
  }

  lemma ByteIsSum(b: bv8)
    ensures Number(b) == 128 * Unit(b, 0) + 64 * Unit(b, 1) + 32 * Unit(b, 2) + 16 * Unit(b, 3)
      + 8 * Unit(b, 4) + 4 * Unit(b, 5) + 2 * Unit(b, 6) + Unit(b, 7)
  {
  }

  lemma AllBits(b: bv8)
    ensures TopBits(b, 8) == Number(b)
  {
    hide Unit, Number;
    ByteIsSum(b);
    assert TopBits(b, 4) == 8 * Unit(b, 0) + 4 * Unit(b, 1) + 2 * Unit(b, 2) + Unit(b, 3) by {
      assert TopBits(b, 1) == 2 * TopBits(b, 0) + Unit(b, 0);
      assert TopBits(b, 2) == 2 * Unit(b, 0) + Unit(b, 1);
      assert TopBits(b, 3) == 2 * TopBits(b, 2) + Unit(b, 2);
    }
    assert TopBits(b, 5) == 2 * TopBits(b, 4) + Unit(b, 4);
    assert TopBits(b, 6) == 2 * TopBits(b, 5) + Unit(b, 5);
    assert TopBits(b, 7) == 2 * TopBits(b, 6) + Unit(b, 6);
  }

  lemma {:induction false} AlignedValue(s: seq<bv8>, i: nat, k: nat)
    requires i < |s| && k <= 8
    ensures Value(Abs(s), 8 * i, k) == TopBits(s[i], k)
  {
    hide BitOf;
    if k > 0 {
      AlignedValue(s, i, k - 1);
      assert (8 * i + k - 1) / 8 == i && (8 * i + k - 1) % 8 == k - 1;
      assert 8 * i + k - 1 in Abs(s) <==> BitOf(s[i], k - 1);
    }
  }

  /** An aligned field of eight bits is its byte. */
  lemma FieldIsByte(s: seq<bv8>, i: nat)
    requires i < |s|
    ensures Value(Abs(s), 8 * i, 8) == Number(s[i])
  {
    hide *;
    AlignedValue(s, i, 8);
    AllBits(s[i]);
  }
}
