/** Bitmaps as byte strings: bit 0 is the most significant bit of the first byte. */
module Bits {

  /** The byte with only bit `k` set, counted from the most significant one: 1 << (7 - k). */
  function Single(k: nat): bv8
    requires k < 8
  {
    if k == 0 then 0x80 else if k == 1 then 0x40 else if k == 2 then 0x20 else if k == 3 then 0x10
    else if k == 4 then 0x08 else if k == 5 then 0x04 else if k == 6 then 0x02 else 0x01
  }

  /** Bit `k` of a byte, counted from the most significant one. */
  predicate BitOf(b: bv8, k: nat)
    requires k < 8
  {
    b & Single(k) != 0
  }

  lemma AndBit(a: bv8, m: bv8, j: nat)
    requires j < 8
    ensures BitOf(a & m, j) <==> BitOf(a, j) && BitOf(m, j)
  {
  }

  lemma AndNotBit(a: bv8, m: bv8, j: nat)
    requires j < 8
    ensures BitOf(a & !m, j) <==> BitOf(a, j) && !BitOf(m, j)
  {
  }

  lemma OrBit(a: bv8, m: bv8, j: nat)
    requires j < 8
    ensures BitOf(a | m, j) <==> BitOf(a, j) || BitOf(m, j)
  {
  }

  lemma XorParts(a: bv8, m: bv8)
    ensures a ^ m == (a & !m) | (m & !a)
  {
  }

  lemma XorBit(a: bv8, m: bv8, j: nat)
    requires j < 8
    ensures BitOf(a ^ m, j) <==> BitOf(a, j) != BitOf(m, j)
  {
    hide BitOf;
    XorParts(a, m);
    AndNotBit(a, m, j);
    AndNotBit(m, a, j);
    OrBit(a & !m, m & !a, j);
  }

  lemma NotBit(a: bv8, j: nat)
    requires j < 8
    ensures BitOf(!a, j) <==> !BitOf(a, j)
  {
  }

  predicate BitAt(s: seq<bv8>, i: nat)
    requires i < 8 * |s|
  {
    BitOf(s[i / 8], i % 8)
  }

  function Flag(s: seq<bv8>, i: nat): nat
    requires i < 8 * |s|
  {
    if BitAt(s, i) then 1 else 0
  }

  /** The number of set bits at positions lo..hi of a bitmap. */
  ghost function Count(s: seq<bv8>, lo: nat, hi: nat): nat
    requires lo <= hi <= 8 * |s|
    decreases hi
  {
    if lo == hi then 0 else Count(s, lo, hi - 1) + Flag(s, hi - 1)
  }

  lemma {:induction false} CountSplit(s: seq<bv8>, lo: nat, mid: nat, hi: nat)
    requires lo <= mid <= hi <= 8 * |s|
    ensures Count(s, lo, hi) == Count(s, lo, mid) + Count(s, mid, hi)
    decreases hi
  {
    hide Flag;
    if mid < hi {
      CountSplit(s, lo, mid, hi - 1);
    }
  }

  /** Two stretches with the same bits have the same count. */
  lemma {:induction false} CountSame(s: seq<bv8>, lo: nat, t: seq<bv8>, at: nat, n: nat)
    requires lo + n <= 8 * |s| && at + n <= 8 * |t|
    requires forall j :: lo <= j < lo + n ==> BitAt(s, j) == BitAt(t, at + (j - lo))
    ensures Count(s, lo, lo + n) == Count(t, at, at + n)
  {
    hide BitAt;
    if n > 0 {
      CountSame(s, lo, t, at, n - 1);
      assert Flag(s, lo + n - 1) == Flag(t, at + n - 1);
    }
  }

  lemma {:induction false} CountNone(s: seq<bv8>, lo: nat, hi: nat)
    requires lo <= hi <= 8 * |s|
    requires forall i :: lo <= i < hi ==> !BitAt(s, i)
    ensures Count(s, lo, hi) == 0
    decreases hi
  {
    hide BitAt;
    if lo < hi {
      CountNone(s, lo, hi - 1);
    }
  }

  lemma ByteOf(q: nat, i: nat)
    ensures (8 * q + i) / 8 == q + i / 8 && (8 * q + i) % 8 == i % 8
  {
  }

  lemma BitInSlice(s: seq<bv8>, from: nat, to: nat, i: nat)
    requires from <= to <= |s| && i < 8 * (to - from)
    ensures BitAt(s[from..to], i) == BitAt(s, 8 * from + i)
  {
    hide BitOf;
    ByteOf(from, i);
  }

  /** A stretch of whole bytes counts the same when cut out of its string. */
  lemma CountSlice(s: seq<bv8>, from: nat, to: nat)
    requires from <= to <= |s|
    ensures Count(s[from..to], 0, 8 * (to - from)) == Count(s, 8 * from, 8 * to)
  {
    hide BitAt, Count;
    var n := 8 * (to - from);
    forall i | 0 <= i < n
      ensures BitAt(s[from..to], i) == BitAt(s, 8 * from + (i - 0))
    {
      BitInSlice(s, from, to, i);
    }
    CountSame(s[from..to], 0, s, 8 * from, n);
  }
}
