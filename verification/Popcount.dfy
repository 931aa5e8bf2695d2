/** Counting set bits: the table, the 28-byte SWAR step and the loop around them. */
module Popcounting {
  import opened Bits

  const ROW0: seq<nat> := [0, 1, 1, 2, 1, 2, 2, 3, 1, 2, 2, 3, 2, 3, 3, 4, 1, 2, 2, 3, 2, 3, 3, 4, 2, 3, 3, 4, 3, 4, 4, 5]
  const ROW1: seq<nat> := [1, 2, 2, 3, 2, 3, 3, 4, 2, 3, 3, 4, 3, 4, 4, 5, 2, 3, 3, 4, 3, 4, 4, 5, 3, 4, 4, 5, 4, 5, 5, 6]
  const ROW2: seq<nat> := [2, 3, 3, 4, 3, 4, 4, 5, 3, 4, 4, 5, 4, 5, 5, 6, 3, 4, 4, 5, 4, 5, 5, 6, 4, 5, 5, 6, 5, 6, 6, 7]
  const ROW3: seq<nat> := [3, 4, 4, 5, 4, 5, 5, 6, 4, 5, 5, 6, 5, 6, 6, 7, 4, 5, 5, 6, 5, 6, 6, 7, 5, 6, 6, 7, 6, 7, 7, 8]

  /** The number of set bits of each byte value. */
  const BITS_IN_BYTE: seq<nat> := ROW0 + ROW1 + ROW1 + ROW2 + ROW1 + ROW2 + ROW2 + ROW3

  function One(b: bv8, k: nat): nat
    requires k < 8
  {
    if BitOf(b, k) then 1 else 0
  }

  function OnesInByte(b: bv8): nat {
    One(b, 0) + One(b, 1) + One(b, 2) + One(b, 3) + One(b, 4) + One(b, 5) + One(b, 6) + One(b, 7)
  }

  lemma RowIsExact(b: bv8)
    requires b < 32
    ensures (b as nat) < 32 && ROW0[b as nat] == OnesInByte(b)
    ensures ROW1[b as nat] == OnesInByte(b) + 1
    ensures ROW2[b as nat] == OnesInByte(b) + 2
    ensures ROW3[b as nat] == OnesInByte(b) + 3
  {
  }

  lemma SplitByte(b: bv8)
    ensures OnesInByte(b) == OnesInByte(b & 31) + One(b, 0) + One(b, 1) + One(b, 2)
    ensures b as nat == (b & 31) as nat + 128 * One(b, 0) + 64 * One(b, 1) + 32 * One(b, 2)
    ensures (b & 31) < 32
  {
  }

  lemma TableIsExact(b: bv8)
    ensures (b as nat) < |BITS_IN_BYTE| && BITS_IN_BYTE[b as nat] == OnesInByte(b)
  {
    hide OnesInByte, BitOf;
    SplitByte(b);
    RowIsExact(b & 31);
  }

  lemma CountByte(s: seq<bv8>, i: nat)
    requires i < |s|
    ensures Count(s, 8 * i, 8 * i + 8) == OnesInByte(s[i])
  {
    hide *;
    CountEight(s, 8 * i);
    FlagInByte(s, i, 0);
    FlagInByte(s, i, 1);
    FlagInByte(s, i, 2);
    FlagInByte(s, i, 3);
    FlagInByte(s, i, 4);
    FlagInByte(s, i, 5);
    FlagInByte(s, i, 6);
    FlagInByte(s, i, 7);
    OnesAre(s[i]);
  }

  lemma OnesAre(b: bv8)
    ensures OnesInByte(b)
         == One(b, 0) + One(b, 1) + One(b, 2) + One(b, 3) + One(b, 4) + One(b, 5) + One(b, 6) + One(b, 7)
  {
  }

  lemma FlagInByte(s: seq<bv8>, i: nat, k: nat)
    requires i < |s| && k < 8
    ensures Flag(s, 8 * i + k) == One(s[i], k)
  {
    hide BitOf;
    ByteOf(i, k);
  }

  lemma CountEight(s: seq<bv8>, i: nat)
    requires i + 8 <= 8 * |s|
    ensures Count(s, i, i + 8) == Flag(s, i) + Flag(s, i + 1) + Flag(s, i + 2) + Flag(s, i + 3)
                                + Flag(s, i + 4) + Flag(s, i + 5) + Flag(s, i + 6) + Flag(s, i + 7)
  {
    hide Flag;
    assert Count(s, i, i + 1) == Flag(s, i);
    assert Count(s, i, i + 2) == Count(s, i, i + 1) + Flag(s, i + 1);
    assert Count(s, i, i + 3) == Count(s, i, i + 2) + Flag(s, i + 2);
    assert Count(s, i, i + 4) == Count(s, i, i + 3) + Flag(s, i + 3);
    assert Count(s, i, i + 5) == Count(s, i, i + 4) + Flag(s, i + 4);
    assert Count(s, i, i + 6) == Count(s, i, i + 5) + Flag(s, i + 5);
    assert Count(s, i, i + 7) == Count(s, i, i + 6) + Flag(s, i + 6);
  }

  // ---- the SWAR step on one 32-bit word -------------------------------------------------------

  /** A little-endian 32-bit load. */
  function Word(b0: bv8, b1: bv8, b2: bv8, b3: bv8): bv32 {
    (b0 as bv32) | ((b1 as bv32) << 8) | ((b2 as bv32) << 16) | ((b3 as bv32) << 24)
  }

  function Pairs(x: bv32): bv32 { x - ((x >> 1) & 0x55555555) }

  function Nibbles(x: bv32): bv32 { (x & 0x33333333) + ((x >> 2) & 0x33333333) }

  function Lanes(x: bv32): bv32 { (x + (x >> 4)) & 0x0F0F0F0F }

  function Swar(x: bv32): bv32 { Lanes(Nibbles(Pairs(x))) }

  function Plus(a: bv32, b: bv32): bv32 { a + b }

  function Succ(a: bv32): bv32 { a + 1 }

  /** A small number as a machine word. */
  ghost function Rep(n: nat): bv32 {
    if n == 0 then 0 else Succ(Rep(n - 1))
  }

  lemma SuccNat(a: bv32)
    requires a <= 254
    ensures Succ(a) as nat == a as nat + 1 && Succ(a) <= 255
  {
  }

  lemma AtMost(a: bv32, m: bv32)
    requires a as nat <= m as nat && m <= 255
    ensures a <= m
  {
  }

  lemma {:induction false} RepNat(n: nat)
    requires n <= 255
    ensures Rep(n) as nat == n && Rep(n) <= 255
  {
    hide Succ;
    if n > 0 {
      RepNat(n - 1);
      AtMost(Rep(n - 1), 254);
      SuccNat(Rep(n - 1));
    }
  }

  lemma PlusSucc(a: bv32, b: bv32)
    requires a <= 255 && b <= 255
    ensures Plus(a, Succ(b)) == Succ(Plus(a, b))
  {
  }

  lemma PlusZero(a: bv32)
    ensures Plus(a, 0) == a
  {
  }

  lemma {:induction false} RepAdd(m: nat, n: nat)
    requires m <= 255 && n <= 255
    ensures Plus(Rep(m), Rep(n)) == Rep(m + n)
  {
    hide Succ, Plus;
    if n == 0 {
      PlusZero(Rep(m));
    } else {
      RepNat(m);
      RepNat(n - 1);
      RepAdd(m, n - 1);
      PlusSucc(Rep(m), Rep(n - 1));
    }
  }

  function Lane0(x: bv32): bv32 { x & 0xFF }
  function Lane1(x: bv32): bv32 { (x >> 8) & 0xFF }
  function Lane2(x: bv32): bv32 { (x >> 16) & 0xFF }
  function Lane3(x: bv32): bv32 { (x >> 24) & 0xFF }

  /** No lane uses its top bit, so a further addition of such a word cannot carry between lanes. */
  predicate Clear(x: bv32) { x & 0x80808080 == 0 }

  lemma AddLane0(a: bv32, b: bv32)
    requires Clear(a) && Clear(b)
    ensures Lane0(Plus(a, b)) == Plus(Lane0(a), Lane0(b))
  {
  }

  lemma AddLane1(a: bv32, b: bv32)
    requires Clear(a) && Clear(b)
    ensures Lane1(Plus(a, b)) == Plus(Lane1(a), Lane1(b))
  {
  }

  lemma AddLane2(a: bv32, b: bv32)
    requires Clear(a) && Clear(b)
    ensures Lane2(Plus(a, b)) == Plus(Lane2(a), Lane2(b))
  {
  }

  lemma AddLane3(a: bv32, b: bv32)
    requires Clear(a) && Clear(b)
    ensures Lane3(Plus(a, b)) == Plus(Lane3(a), Lane3(b))
  {
  }

  /** The four byte lanes of a word hold the given numbers, none above 127. */
  ghost predicate Holds(x: bv32, n0: nat, n1: nat, n2: nat, n3: nat) {
    && n0 <= 127 && n1 <= 127 && n2 <= 127 && n3 <= 127
    && Lane0(x) == Rep(n0) && Lane1(x) == Rep(n1) && Lane2(x) == Rep(n2) && Lane3(x) == Rep(n3)
  }

  lemma LanesClear(x: bv32)
    requires Lane0(x) <= 127 && Lane1(x) <= 127 && Lane2(x) <= 127 && Lane3(x) <= 127
    ensures Clear(x)
  {
  }

  lemma HoldsClear(x: bv32, n0: nat, n1: nat, n2: nat, n3: nat)
    requires Holds(x, n0, n1, n2, n3)
    ensures Clear(x)
  {
    hide Lane0, Lane1, Lane2, Lane3, Clear, Rep;
    RepNat(n0);
    RepNat(n1);
    RepNat(n2);
    RepNat(n3);
    AtMost(Lane0(x), 127);
    AtMost(Lane1(x), 127);
    AtMost(Lane2(x), 127);
    AtMost(Lane3(x), 127);
    LanesClear(x);
  }

  lemma HoldsSum(a: bv32, m0: nat, m1: nat, m2: nat, m3: nat, b: bv32, n0: nat, n1: nat, n2: nat, n3: nat)
    requires Holds(a, m0, m1, m2, m3) && Holds(b, n0, n1, n2, n3)
    requires m0 + n0 <= 127 && m1 + n1 <= 127 && m2 + n2 <= 127 && m3 + n3 <= 127
    ensures Holds(Plus(a, b), m0 + n0, m1 + n1, m2 + n2, m3 + n3)
  {
    hide Lane0, Lane1, Lane2, Lane3, Clear, Rep, Plus;
    HoldsClear(a, m0, m1, m2, m3);
    HoldsClear(b, n0, n1, n2, n3);
    AddLane0(a, b);
    AddLane1(a, b);
    AddLane2(a, b);
    AddLane3(a, b);
    RepAdd(m0, n0);
    RepAdd(m1, n1);
    RepAdd(m2, n2);
    RepAdd(m3, n3);
  }

  lemma ShiftLanes(s: bv32)
    ensures Lane0(s << 8) == 0 && Lane1(s << 8) == Lane0(s) && Lane2(s << 8) == Lane1(s) && Lane3(s << 8) == Lane2(s)
    ensures Lane0(s << 16) == 0 && Lane1(s << 16) == 0 && Lane2(s << 16) == Lane0(s) && Lane3(s << 16) == Lane1(s)
    ensures Lane0(s << 24) == 0 && Lane1(s << 24) == 0 && Lane2(s << 24) == 0 && Lane3(s << 24) == Lane0(s)
  {
  }

  /** What the multiplication by 0x01010101 leaves in the top byte. */
  function Gathered(s: bv32): bv32 { (s * 0x01010101) >> 24 }

  function Sum3(a: bv32, b: bv32, c: bv32): bv32 { a + b + c }

  function Sum4(a: bv32, b: bv32, c: bv32, d: bv32): bv32 { a + b + c + d }

  lemma SplitRight(p: bv32, c: bv32, d: bv32, q: bv32)
    requires q == c + d
    ensures Plus(p, q) == Sum3(p, c, d)
  {
  }

  lemma SplitLeft(a: bv32, b: bv32, p: bv32, c: bv32, d: bv32)
    requires p == a + b
    ensures Sum3(p, c, d) == Sum4(a, b, c, d)
  {
  }

  lemma PlusIs(a: bv32, b: bv32)
    ensures Plus(a, b) == a + b
  {
  }

  lemma FourTerms(a: bv32, b: bv32, c: bv32, d: bv32)
    ensures Plus(Plus(a, b), Plus(c, d)) == Sum4(a, b, c, d)
  {
    hide *;
    PlusIs(a, b);
    PlusIs(c, d);
    SplitRight(Plus(a, b), c, d, Plus(c, d));
    SplitLeft(a, b, Plus(a, b), c, d);
  }

  function Top(x: bv32): bv32 { x >> 24 }

  lemma GatheredIs(s: bv32)
    ensures Gathered(s) == Top(Sum4(s, s << 8, s << 16, s << 24))
  {
  }

  lemma TopIs(x: bv32)
    ensures Top(x) == Lane3(x)
  {
  }

  /** The multiplication gathers the four lanes: lanes of at most 56 add up to at most 224. */
  lemma Gather(s: bv32, n0: nat, n1: nat, n2: nat, n3: nat)
    requires Holds(s, n0, n1, n2, n3) && n0 <= 56 && n1 <= 56 && n2 <= 56 && n3 <= 56
    ensures Gathered(s) as nat == n0 + n1 + n2 + n3 <= 224
  {
    hide *;
    GatheredIs(s);
    FourTerms(s, s << 8, s << 16, s << 24);
    var low, high := Plus(s, s << 8), Plus(s << 16, s << 24);
    Folded(s, n0, n1, n2, n3);
    HoldsClear(low, n0, n1 + n0, n2 + n1, n3 + n2);
    HoldsClear(high, 0, 0, n0, n1 + n0);
    AddLane3(low, high);
    HoldsTop(low, n0, n1 + n0, n2 + n1, n3 + n2);
    HoldsTop(high, 0, 0, n0, n1 + n0);
    TopIs(Plus(low, high));
    RepAdd(n3 + n2, n1 + n0);
    RepNat(n3 + n2 + (n1 + n0));
  }

  lemma HoldsTop(x: bv32, n0: nat, n1: nat, n2: nat, n3: nat)
    requires Holds(x, n0, n1, n2, n3)
    ensures Lane3(x) == Rep(n3)
  {
  }

  lemma Folded(s: bv32, n0: nat, n1: nat, n2: nat, n3: nat)
    requires Holds(s, n0, n1, n2, n3) && n0 <= 56 && n1 <= 56 && n2 <= 56 && n3 <= 56
    ensures Holds(Plus(s, s << 8), n0, n1 + n0, n2 + n1, n3 + n2)
    ensures Holds(Plus(s << 16, s << 24), 0, 0, n0, n1 + n0)
  {
    hide Lane0, Lane1, Lane2, Lane3, Plus;
    ShiftLanes(s);
    HoldsSum(s, n0, n1, n2, n3, s << 8, 0, n0, n1, n2);
    HoldsSum(s << 16, 0, 0, n0, n1, s << 24, 0, 0, 0, n0);
  }

  // ---- the SWAR step on one word counts its four bytes -------------------------------------------

  /** The set bits of the lowest byte of a word. */
  function LowOnes(x: bv32): bv32 {
    (x & 1) + ((x >> 1) & 1) + ((x >> 2) & 1) + ((x >> 3) & 1)
    + ((x >> 4) & 1) + ((x >> 5) & 1) + ((x >> 6) & 1) + ((x >> 7) & 1)
  }

  lemma SwarLane0(x: bv32)
    ensures Lane0(Swar(x)) == LowOnes(x)
  {
  }

  lemma SwarLane1(x: bv32)
    ensures Lane1(Swar(x)) == LowOnes(x >> 8)
  {
  }

  lemma SwarLane2(x: bv32)
    ensures Lane2(Swar(x)) == LowOnes(x >> 16)
  {
  }

  lemma SwarLane3(x: bv32)
    ensures Lane3(Swar(x)) == LowOnes(x >> 24)
  {
  }

  lemma OnesNat(b: bv8, x: bv32)
    requires x & 0xFF == b as bv32
    ensures LowOnes(x) as nat == OnesInByte(b) <= 8 && LowOnes(x) <= 8
  {
  }

  lemma SameNat(x: bv32, y: bv32)
    requires x <= 255 && y <= 255 && x as nat == y as nat
    ensures x == y
  {
  }

  lemma OnesRep(b: bv8, x: bv32)
    requires x & 0xFF == b as bv32
    ensures LowOnes(x) == Rep(OnesInByte(b)) && OnesInByte(b) <= 8
  {
    hide *;
    OnesNat(b, x);
    RepNat(OnesInByte(b));
    SameNat(LowOnes(x), Rep(OnesInByte(b)));
  }

  lemma SwarCounts(b0: bv8, b1: bv8, b2: bv8, b3: bv8)
    ensures Holds(Swar(Word(b0, b1, b2, b3)), OnesInByte(b0), OnesInByte(b1), OnesInByte(b2), OnesInByte(b3))
    ensures OnesInByte(b0) <= 8 && OnesInByte(b1) <= 8 && OnesInByte(b2) <= 8 && OnesInByte(b3) <= 8
  {
    hide Lane0, Lane1, Lane2, Lane3, Swar, LowOnes, OnesInByte, Rep, Word;
    var x := Word(b0, b1, b2, b3);
    WordBytes(b0, b1, b2, b3);
    SwarLane0(x);
    SwarLane1(x);
    SwarLane2(x);
    SwarLane3(x);
    OnesRep(b0, x);
    OnesRep(b1, x >> 8);
    OnesRep(b2, x >> 16);
    OnesRep(b3, x >> 24);
  }

  lemma WordBytes(b0: bv8, b1: bv8, b2: bv8, b3: bv8)
    ensures Word(b0, b1, b2, b3) & 0xFF == b0 as bv32
    ensures (Word(b0, b1, b2, b3) >> 8) & 0xFF == b1 as bv32
    ensures (Word(b0, b1, b2, b3) >> 16) & 0xFF == b2 as bv32
    ensures (Word(b0, b1, b2, b3) >> 24) & 0xFF == b3 as bv32
  {
  }

  // ---- seven words at a time ------------------------------------------------------------------------

  function WordAt(s: seq<bv8>, i: nat): bv32
    requires i + 4 <= |s|
  {
    Word(s[i], s[i + 1], s[i + 2], s[i + 3])
  }

  /** The lane-wise sum of the SWAR counts of `k` consecutive words. */
  ghost function LaneSums(s: seq<bv8>, i: nat, k: nat): bv32
    requires 1 <= k && i + 4 * k <= |s|
  {
    var last := Swar(WordAt(s, i + 4 * (k - 1)));
    if k == 1 then last else Plus(LaneSums(s, i, k - 1), last)
  }

  /** The set bits in every fourth byte: lane `l` of `k` words. */
  ghost function LaneOnes(s: seq<bv8>, i: nat, k: nat, l: nat): nat
    requires i + 4 * k <= |s| && l < 4
  {
    if k == 0 then 0 else LaneOnes(s, i, k - 1, l) + OnesInByte(s[i + 4 * (k - 1) + l])
  }

  /** Lane sums of `k` words stay at or below 8k, so seven words never carry from lane to lane. */
  lemma {:induction false} LanesNeverOverflow(s: seq<bv8>, i: nat, k: nat)
    requires 1 <= k <= 7 && i + 4 * k <= |s|
    ensures Holds(LaneSums(s, i, k), LaneOnes(s, i, k, 0), LaneOnes(s, i, k, 1), LaneOnes(s, i, k, 2), LaneOnes(s, i, k, 3))
    ensures LaneOnes(s, i, k, 0) <= 8 * k && LaneOnes(s, i, k, 1) <= 8 * k && LaneOnes(s, i, k, 2) <= 8 * k && LaneOnes(s, i, k, 3) <= 8 * k
  {
    hide Holds, Swar, Plus, OnesInByte, Word, LaneOnes, LaneSums;
    var j := i + 4 * (k - 1);
    SwarCounts(s[j], s[j + 1], s[j + 2], s[j + 3]);
    LaneStep(s, i, k);
    if k > 1 {
      LanesNeverOverflow(s, i, k - 1);
      HoldsSum(LaneSums(s, i, k - 1), LaneOnes(s, i, k - 1, 0), LaneOnes(s, i, k - 1, 1), LaneOnes(s, i, k - 1, 2),
        LaneOnes(s, i, k - 1, 3), Swar(WordAt(s, j)), OnesInByte(s[j]), OnesInByte(s[j + 1]), OnesInByte(s[j + 2]), OnesInByte(s[j + 3]));
    }
  }

  lemma LaneStep(s: seq<bv8>, i: nat, k: nat)
    requires 1 <= k && i + 4 * k <= |s|
    ensures var j := i + 4 * (k - 1);
      && LaneSums(s, i, k) == (if k == 1 then Swar(WordAt(s, j)) else Plus(LaneSums(s, i, k - 1), Swar(WordAt(s, j))))
      && LaneOnes(s, i, k, 0) == (if k == 1 then 0 else LaneOnes(s, i, k - 1, 0)) + OnesInByte(s[j])
      && LaneOnes(s, i, k, 1) == (if k == 1 then 0 else LaneOnes(s, i, k - 1, 1)) + OnesInByte(s[j + 1])
      && LaneOnes(s, i, k, 2) == (if k == 1 then 0 else LaneOnes(s, i, k - 1, 2)) + OnesInByte(s[j + 2])
      && LaneOnes(s, i, k, 3) == (if k == 1 then 0 else LaneOnes(s, i, k - 1, 3)) + OnesInByte(s[j + 3])
  {
    hide Swar, Plus, OnesInByte, Word;
  }

  lemma {:induction false} CountWords(s: seq<bv8>, i: nat, k: nat)
    requires 1 <= k && i + 4 * k <= |s|
    ensures Count(s, 8 * i, 8 * (i + 4 * k))
         == LaneOnes(s, i, k, 0) + LaneOnes(s, i, k, 1) + LaneOnes(s, i, k, 2) + LaneOnes(s, i, k, 3)
  {
    hide Count, OnesInByte, LaneOnes, LaneSums;
    var j := i + 4 * (k - 1);
    CountFour(s, j);
    LaneStep(s, i, k);
    if k > 1 {
      CountWords(s, i, k - 1);
      CountSplit(s, 8 * i, 8 * j, 8 * (j + 4));
    }
  }

  lemma CountFour(s: seq<bv8>, j: nat)
    requires j + 4 <= |s|
    ensures Count(s, 8 * j, 8 * (j + 4)) == OnesInByte(s[j]) + OnesInByte(s[j + 1]) + OnesInByte(s[j + 2]) + OnesInByte(s[j + 3])
  {
    hide Count, OnesInByte;
    CountByte(s, j);
    CountByte(s, j + 1);
    CountByte(s, j + 2);
    CountByte(s, j + 3);
    CountSplit(s, 8 * j, 8 * (j + 1), 8 * (j + 4));
    CountSplit(s, 8 * (j + 1), 8 * (j + 2), 8 * (j + 4));
    CountSplit(s, 8 * (j + 2), 8 * (j + 3), 8 * (j + 4));
  }

  /** The 28-byte step: seven words counted at once, exactly. */
  method CountSevenWords(s: seq<bv8>, i: nat) returns (n: nat)
    requires i + 28 <= |s|
    ensures n == Count(s, 8 * i, 8 * (i + 28)) && n <= 224
  {
    hide Holds, Gathered, Count, Plus, Pairs, Nibbles, Lanes, WordAt, LaneOnes;
    var aux1, aux2, aux3, aux4 := WordAt(s, i), WordAt(s, i + 4), WordAt(s, i + 8), WordAt(s, i + 12);
    var aux5, aux6, aux7 := WordAt(s, i + 16), WordAt(s, i + 20), WordAt(s, i + 24);
    aux1 := Nibbles(Pairs(aux1));
    aux2 := Nibbles(Pairs(aux2));
    aux3 := Nibbles(Pairs(aux3));
    aux4 := Nibbles(Pairs(aux4));
    aux5 := Nibbles(Pairs(aux5));
    aux6 := Nibbles(Pairs(aux6));
    aux7 := Nibbles(Pairs(aux7));
    var sum := Plus(Plus(Plus(Plus(Plus(Plus(Lanes(aux1), Lanes(aux2)), Lanes(aux3)), Lanes(aux4)), Lanes(aux5)), Lanes(aux6)), Lanes(aux7));
    assert sum == LaneSums(s, i, 7) by {
      assert LaneSums(s, i, 2) == Plus(Lanes(aux1), Lanes(aux2));
      assert LaneSums(s, i, 3) == Plus(LaneSums(s, i, 2), Lanes(aux3));
      assert LaneSums(s, i, 4) == Plus(LaneSums(s, i, 3), Lanes(aux4));
      assert LaneSums(s, i, 5) == Plus(LaneSums(s, i, 4), Lanes(aux5));
      assert LaneSums(s, i, 6) == Plus(LaneSums(s, i, 5), Lanes(aux6));
    }
    LanesNeverOverflow(s, i, 7);
    Gather(sum, LaneOnes(s, i, 7, 0), LaneOnes(s, i, 7, 1), LaneOnes(s, i, 7, 2), LaneOnes(s, i, 7, 3));
    CountWords(s, i, 7);
    n := Gathered(sum) as nat;
  }

  /** serverPopcount on a buffer that starts at address `addr`. */
  method Popcount(s: seq<bv8>, addr: nat) returns (bits: nat)
    ensures bits == Count(s, 0, 8 * |s|)
  {
    hide Count, OnesInByte;
    bits := 0;
    var i := 0;
    CountNone(s, 0, 0);
    while (addr + i) % 4 != 0 && i < |s|
      invariant i <= |s| && bits == Count(s, 0, 8 * i)
      decreases |s| - i
    {
      bits := CountNext(s, i, bits);
      i := i + 1;
    }
    while |s| - i >= 28
      invariant i <= |s| && bits == Count(s, 0, 8 * i)
      decreases |s| - i
    {
      var n := CountSevenWords(s, i);
      CountSplit(s, 0, 8 * i, 8 * (i + 28));
      bits := bits + n;
      i := i + 28;
    }
    while i < |s|
      invariant i <= |s| && bits == Count(s, 0, 8 * i)
    {
      bits := CountNext(s, i, bits);
      i := i + 1;
    }
  }

  /** One byte through the table. */
  method CountNext(s: seq<bv8>, i: nat, bits: nat) returns (r: nat)
    requires i < |s| && bits == Count(s, 0, 8 * i)
    ensures r == Count(s, 0, 8 * (i + 1))
  {
    hide Count, OnesInByte, BITS_IN_BYTE;
    TableIsExact(s[i]);
    CountByte(s, i);
    CountSplit(s, 0, 8 * i, 8 * i + 8);
    r := bits + BITS_IN_BYTE[s[i] as nat];
  }
}
