/** Searching a bitmap for its first set or clear bit, a machine word at a time. */
module BitSearch {
  import opened Bits

  /** The byte that holds no bit of the sought value. */
  function SkipByte(bit: bool): bv8 { if bit then 0 else 0xFF }

  /**
   * What the search promises: the least position holding the sought bit. Without one, a search for a
   * set bit gives -1 and a search for a clear bit gives the position just past the string.
   */
  ghost predicate IsFirst(s: seq<bv8>, bit: bool, pos: int) {
    if pos < 0 then
      pos == -1 && bit && forall i :: 0 <= i < 8 * |s| ==> !BitAt(s, i)
    else
      && pos <= 8 * |s|
      && (forall i :: 0 <= i < pos ==> BitAt(s, i) != bit)
      && (if pos < 8 * |s| then BitAt(s, pos) == bit else !bit)
  }

  // ---- words --------------------------------------------------------------------------------------

  /** Eight bytes loaded as the machine does it, least significant byte first. */
  function Native(b0: bv8, b1: bv8, b2: bv8, b3: bv8, b4: bv8, b5: bv8, b6: bv8, b7: bv8): bv64 {
    (b0 as bv64) | ((b1 as bv64) << 8) | ((b2 as bv64) << 16) | ((b3 as bv64) << 24)
    | ((b4 as bv64) << 32) | ((b5 as bv64) << 40) | ((b6 as bv64) << 48) | ((b7 as bv64) << 56)
  }

  function NativeAt(s: seq<bv8>, i: nat): bv64
    requires i + 8 <= |s|
  {
    Native(s[i], s[i + 1], s[i + 2], s[i + 3], s[i + 4], s[i + 5], s[i + 6], s[i + 7])
  }

  function SkipWord(bit: bool): bv64 { if bit then 0 else 0xFFFF_FFFF_FFFF_FFFF }

  lemma NativeSkips(bit: bool, b0: bv8, b1: bv8, b2: bv8, b3: bv8, b4: bv8, b5: bv8, b6: bv8, b7: bv8)
    ensures Native(b0, b1, b2, b3, b4, b5, b6, b7) == SkipWord(bit)
       <==> b0 == b1 == b2 == b3 == b4 == b5 == b6 == b7 == SkipByte(bit)
  {
  }

  /** Eight bytes as a word whose most significant byte is the first one. */
  function Big(b0: bv8, b1: bv8, b2: bv8, b3: bv8, b4: bv8, b5: bv8, b6: bv8, b7: bv8): bv64 {
    Native(b7, b6, b5, b4, b3, b2, b1, b0)
  }

  const MSB: bv64 := 0x8000_0000_0000_0000

  /** Bit `k` of a word, counted from the most significant one. */
  ghost predicate Top(w: bv64, k: nat)
    decreases k
  {
    if k == 0 then w & MSB != 0 else Top(w << 1, k - 1)
  }

  /** A word after `k` single shifts to the right. */
  ghost function Shifted(x: bv64, k: nat): bv64
    decreases k
  {
    if k == 0 then x else Shifted(x >> 1, k - 1)
  }

  lemma {:induction false} ShiftedNext(x: bv64, k: nat)
    ensures Shifted(x, k + 1) == Shifted(x, k) >> 1
    decreases k
  {
    if k > 0 {
      ShiftedNext(x >> 1, k - 1);
    }
  }

  predicate Meets(one: bv64, w: bv64) { one & w != 0 }

  function Half(x: bv64): bv64 { x >> 1 }

  lemma HalfMeets(one: bv64, w: bv64)
    ensures Meets(Half(one), w) <==> Meets(one, w << 1)
  {
  }

  lemma MeetsTop(w: bv64)
    ensures Meets(MSB, w) <==> w & MSB != 0
  {
  }

  lemma ShiftedHalves(x: bv64, k: nat)
    ensures Shifted(x, k + 1) == Half(Shifted(x, k))
  {
    ShiftedNext(x, k);
  }

  lemma ShiftedZero(x: bv64)
    ensures Shifted(x, 0) == x
  {
  }

  /** The mask that walks down from the most significant bit tests position `k` after `k` steps. */
  lemma {:induction false} MaskTests(w: bv64, k: nat)
    ensures Meets(Shifted(MSB, k), w) <==> Top(w, k)
    decreases k
  {
    hide Meets, Half, MSB, Shifted;
    if k > 0 {
      ShiftedHalves(MSB, k - 1);
      HalfMeets(Shifted(MSB, k - 1), w);
      MaskTests(w << 1, k - 1);
    } else {
      ShiftedZero(MSB);
      MeetsTop(w);
    }
  }

  lemma ShiftedEight(x: bv64, k: nat)
    ensures Shifted(x, k + 8) == Shifted(x >> 8, k)
  {
    assert Shifted(x, k + 8) == Shifted(x >> 1, k + 7);
    assert Shifted(x >> 1, k + 7) == Shifted((x >> 1) >> 1, k + 6);
    assert (x >> 1) >> 1 == x >> 2;
    assert Shifted(x >> 2, k + 6) == Shifted((x >> 2) >> 1, k + 5);
    assert (x >> 2) >> 1 == x >> 3;
    assert Shifted(x >> 3, k + 5) == Shifted((x >> 3) >> 1, k + 4);
    assert (x >> 3) >> 1 == x >> 4;
    assert Shifted(x >> 4, k + 4) == Shifted((x >> 4) >> 1, k + 3);
    assert (x >> 4) >> 1 == x >> 5;
    assert Shifted(x >> 5, k + 3) == Shifted((x >> 5) >> 1, k + 2);
    assert (x >> 5) >> 1 == x >> 6;
    assert Shifted(x >> 6, k + 2) == Shifted((x >> 6) >> 1, k + 1);
    assert (x >> 6) >> 1 == x >> 7;
    assert Shifted(x >> 7, k + 1) == Shifted((x >> 7) >> 1, k);
    assert (x >> 7) >> 1 == x >> 8;
  }

  /** The top bit of byte `q`, counted from the least significant byte. */
  function TopOfByte(q: nat): bv64
    requires q < 8
  {
    if q == 0 then 0x80 else if q == 1 then 0x8000 else if q == 2 then 0x80_0000 else if q == 3 then 0x8000_0000
    else if q == 4 then 0x80_0000_0000 else if q == 5 then 0x8000_0000_0000 else if q == 6 then 0x80_0000_0000_0000
    else MSB
  }

  lemma {:induction false} MaskRunsOut(q: nat, r: nat)
    requires q < 8 && r <= 8
    ensures Shifted(TopOfByte(q), 8 * q + r) == 0 <==> r == 8
  {
    if q == 0 {
      LastByte(r);
    } else {
      ShiftedEight(TopOfByte(q), 8 * (q - 1) + r);
      assert TopOfByte(q) >> 8 == TopOfByte(q - 1);
      MaskRunsOut(q - 1, r);
      assert 8 * (q - 1) + r + 8 == 8 * q + r;
    }
  }

  lemma {:induction false} StaysZero(x: bv64, k: nat, m: nat)
    requires Shifted(x, k) == 0
    ensures Shifted(x, k + m) == 0
  {
    if m > 0 {
      StaysZero(x, k, m - 1);
      ShiftedNext(x, k + m - 1);
    }
  }

  /** The walking mask is still there at each of the 64 positions. */
  lemma MaskNonZero(k: nat)
    requires k < 64
    ensures Shifted(MSB, k) != 0
  {
    hide Shifted;
    MaskRunsOut(7, 7);
    if Shifted(MSB, k) == 0 {
      StaysZero(MSB, k, 63 - k);
    }
  }

  lemma LastByte(r: nat)
    requires r <= 8
    ensures Shifted(0x80, r) == 0 <==> r == 8
  {
    assert Shifted(0x80, 1) == 0x40;
    assert Shifted(0x80, 2) == 0x20;
    ShiftedNext(0x80, 2);
    ShiftedNext(0x80, 3);
    ShiftedNext(0x80, 4);
    ShiftedNext(0x80, 5);
    ShiftedNext(0x80, 6);
    ShiftedNext(0x80, 7);
  }

  // ---- bits of a loaded word ------------------------------------------------------------------------

  lemma BigShifts(b0: bv8, b1: bv8, b2: bv8, b3: bv8, b4: bv8, b5: bv8, b6: bv8, b7: bv8)
    ensures Big(b0, b1, b2, b3, b4, b5, b6, b7) << 8 == Big(b1, b2, b3, b4, b5, b6, b7, 0)
  {
  }

  lemma TopEight(w: bv64, k: nat)
    ensures Top(w, k + 8) == Top(w << 8, k)
  {
    assert Top(w, k + 8) == Top(w << 1, k + 7);
    assert Top(w << 1, k + 7) == Top((w << 1) << 1, k + 6);
    assert (w << 1) << 1 == w << 2;
    assert Top(w << 2, k + 6) == Top((w << 2) << 1, k + 5);
    assert (w << 2) << 1 == w << 3;
    assert Top(w << 3, k + 5) == Top((w << 3) << 1, k + 4);
    assert (w << 3) << 1 == w << 4;
    assert Top(w << 4, k + 4) == Top((w << 4) << 1, k + 3);
    assert (w << 4) << 1 == w << 5;
    assert Top(w << 5, k + 3) == Top((w << 5) << 1, k + 2);
    assert (w << 5) << 1 == w << 6;
    assert Top(w << 6, k + 2) == Top((w << 6) << 1, k + 1);
    assert (w << 6) << 1 == w << 7;
    assert Top(w << 7, k + 1) == Top((w << 7) << 1, k);
    assert (w << 7) << 1 == w << 8;
  }

  /** Bit `r` of the most significant byte of a word. */
  predicate InFirstByte(w: bv64, r: nat)
    requires r < 8
  {
    if r == 0 then w & MSB != 0 else if r == 1 then (w << 1) & MSB != 0 else if r == 2 then (w << 2) & MSB != 0
    else if r == 3 then (w << 3) & MSB != 0 else if r == 4 then (w << 4) & MSB != 0 else if r == 5 then (w << 5) & MSB != 0
    else if r == 6 then (w << 6) & MSB != 0 else (w << 7) & MSB != 0
  }

  lemma ShiftFirst(w: bv64, r: nat)
    requires r < 7
    ensures InFirstByte(w << 1, r) == InFirstByte(w, r + 1)
  {
  }

  lemma {:induction false} TopIsFirst(w: bv64, r: nat)
    requires r < 8
    ensures Top(w, r) == InFirstByte(w, r)
    decreases r
  {
    if r > 0 {
      hide InFirstByte;
      TopIsFirst(w << 1, r - 1);
      ShiftFirst(w, r - 1);
    }
  }

  lemma TopOfFirst(b0: bv8, b1: bv8, b2: bv8, b3: bv8, b4: bv8, b5: bv8, b6: bv8, b7: bv8, r: nat)
    requires r < 8
    ensures InFirstByte(Big(b0, b1, b2, b3, b4, b5, b6, b7), r) == BitOf(b0, r)
  {
  }

  /** Bit `k` of the loaded word is bit `k` of the eight bytes. */
  lemma {:induction false} TopOfBytes(pad: seq<bv8>, k: nat, q: nat)
    requires |pad| == 8 && k < 64 && q == k / 8
    ensures Top(Big(pad[0], pad[1], pad[2], pad[3], pad[4], pad[5], pad[6], pad[7]), k) == BitAt(pad, k)
    decreases q
  {
    hide Big, BitOf, Top, InFirstByte;
    if q == 0 {
      TopIsFirst(Big(pad[0], pad[1], pad[2], pad[3], pad[4], pad[5], pad[6], pad[7]), k);
      TopOfFirst(pad[0], pad[1], pad[2], pad[3], pad[4], pad[5], pad[6], pad[7], k);
    } else {
      var rest := pad[1..] + [0];
      BigShifts(pad[0], pad[1], pad[2], pad[3], pad[4], pad[5], pad[6], pad[7]);
      TopEight(Big(pad[0], pad[1], pad[2], pad[3], pad[4], pad[5], pad[6], pad[7]), k - 8);
      TopOfBytes(rest, k - 8, q - 1);
    }
  }

  // ---- the search -------------------------------------------------------------------------------------

  function BigOf(l: seq<bv8>): bv64
    requires |l| == 8
  {
    Big(l[0], l[1], l[2], l[3], l[4], l[5], l[6], l[7])
  }

  lemma LoadStep(l: seq<bv8>, b: bv8)
    requires |l| == 8
    ensures ShiftIn(BigOf(l), b) == BigOf(l[1..] + [b])
  {
    ShiftedIn(l[0], l[1], l[2], l[3], l[4], l[5], l[6], l[7], b);
    hide Big, ShiftIn;
  }

  lemma ShiftedIn(b0: bv8, b1: bv8, b2: bv8, b3: bv8, b4: bv8, b5: bv8, b6: bv8, b7: bv8, b: bv8)
    ensures ShiftIn(Big(b0, b1, b2, b3, b4, b5, b6, b7), b) == Big(b1, b2, b3, b4, b5, b6, b7, b)
  {
  }

  /** The eight bytes from `i` on, padded with zeroes behind the end of the string. */
  ghost function Padded(s: seq<bv8>, i: nat): (r: seq<bv8>)
    requires i <= |s|
    ensures |r| == 8
  {
    seq(8, k requires 0 <= k < 8 => if i + k < |s| then s[i + k] else 0)
  }

  method LoadWord(s: seq<bv8>, i: nat) returns (word: bv64)
    requires i <= |s|
    ensures word == BigOf(Padded(s, i))
  {
    hide BigOf, ShiftIn, Padded;
    ghost var pad := Padded(s, i);
    word := 0;
    ghost var loaded: seq<bv8> := [0, 0, 0, 0, 0, 0, 0, 0];
    ZeroWord();
    var c := i;
    for j := 0 to 8
      invariant i <= c <= |s| && (c == i + j || c == |s| <= i + j)
      invariant |loaded| == 8 && forall k :: 8 - j <= k < 8 ==> loaded[k] == pad[k - (8 - j)]
      invariant word == BigOf(loaded)
    {
      PaddedAt(s, i, j);
      LoadStep(loaded, pad[j]);
      loaded := loaded[1..] + [pad[j]];
      if c < |s| {
        word := ShiftIn(word, s[c]);
        c := c + 1;
      } else {
        word := ShiftIn(word, 0);
      }
    }
    assert loaded == pad;
  }

  /** Shifts a word by one byte and puts a byte below; nothing is or-ed in behind the end of the string. */
  function ShiftIn(word: bv64, b: bv8): bv64 { (word << 8) | (b as bv64) }

  lemma PaddedAt(s: seq<bv8>, i: nat, j: nat)
    requires i <= |s| && j < 8
    ensures Padded(s, i)[j] == if i + j < |s| then s[i + j] else 0
  {
  }

  lemma ZeroWord()
    ensures BigOf([0, 0, 0, 0, 0, 0, 0, 0]) == 0
  {
  }

  /** Every byte before `i` holds only bits of the other value. */
  ghost predicate Skipped(s: seq<bv8>, bit: bool, i: nat)
    requires i <= |s|
  {
    forall j :: 0 <= j < i ==> s[j] == SkipByte(bit)
  }

  lemma SkipByteBits(bit: bool, k: nat)
    requires k < 8
    ensures BitOf(SkipByte(bit), k) != bit
  {
  }

  lemma SoughtInByte(b: bv8, bit: bool) returns (k: nat)
    requires b != SkipByte(bit)
    ensures k < 8 && BitOf(b, k) == bit
  {
    if BitOf(b, 0) == bit { k := 0; }
    else if BitOf(b, 1) == bit { k := 1; }
    else if BitOf(b, 2) == bit { k := 2; }
    else if BitOf(b, 3) == bit { k := 3; }
    else if BitOf(b, 4) == bit { k := 4; }
    else if BitOf(b, 5) == bit { k := 5; }
    else if BitOf(b, 6) == bit { k := 6; }
    else { k := 7; }
  }

  /** Skips the unaligned head byte by byte and then whole words. */
  method SkipAhead(s: seq<bv8>, addr: nat, bit: bool) returns (i: nat)
    ensures i <= |s| && Skipped(s, bit, i)
    ensures i + 8 <= |s| ==> exists j :: i <= j < i + 8 && s[j] != SkipByte(bit)
  {
    hide Native;
    i := 0;
    var found := false;
    while (addr + i) % 8 != 0 && i < |s|
      invariant i <= |s| && Skipped(s, bit, i) && !found
      decreases |s| - i
    {
      if s[i] != SkipByte(bit) {
        found := true;
        break;
      }
      i := i + 1;
    }
    if !found {
      while |s| - i >= 8
        invariant i <= |s| && Skipped(s, bit, i)
      {
        NativeSkips(bit, s[i], s[i + 1], s[i + 2], s[i + 3], s[i + 4], s[i + 5], s[i + 6], s[i + 7]);
        if NativeAt(s, i) != SkipWord(bit) {
          break;
        }
        i := i + 8;
      }
    }
  }

  /** Scans a word that is known to hold the sought bit, from its most significant bit on. */
  method ScanWord(word: bv64, bit: bool, ghost sought: nat) returns (k: nat)
    requires sought < 64 && Top(word, sought) == bit
    ensures k <= sought && Top(word, k) == bit && forall j :: 0 <= j < k ==> Top(word, j) != bit
  {
    hide Top, Shifted, Meets, Half, MSB;
    var one := MSB;
    k := 0;
    ShiftedZero(MSB);
    while one != 0
      invariant k <= sought && one == Shifted(MSB, k)
      invariant forall j :: 0 <= j < k ==> Top(word, j) != bit
      decreases sought - k
    {
      MaskTests(word, k);
      ShiftedHalves(MSB, k);
      if Meets(one, word) == bit {
        return;
      }
      k := k + 1;
      one := Half(one);
    }
    MaskNonZero(k);
    assert false;
  }

  /** Bits of skipped bytes, and of the padded word behind them. */
  lemma SkippedBits(s: seq<bv8>, bit: bool, i: nat, j: nat)
    requires i <= |s| && Skipped(s, bit, i) && j < 8 * i
    ensures BitAt(s, j) != bit
  {
    hide BitOf;
    SkipByteBits(bit, j % 8);
  }

  lemma PaddedBits(s: seq<bv8>, i: nat, k: nat)
    requires i <= |s| && k < 64
    ensures BitAt(Padded(s, i), k) == (8 * i + k < 8 * |s| && BitAt(s, 8 * i + k))
  {
    hide BitOf;
    ByteOf(i, k);
    if 8 * i + k >= 8 * |s| {
      ZeroBit(k % 8);
    }
  }

  lemma ZeroBit(k: nat)
    requires k < 8
    ensures !BitOf(0, k)
  {
  }

  lemma WordBit(s: seq<bv8>, i: nat, k: nat)
    requires i <= |s| && k < 64
    ensures Top(BigOf(Padded(s, i)), k) == (8 * i + k < 8 * |s| && BitAt(s, 8 * i + k))
  {
    hide Top, BitAt, Big;
    TopOfBytes(Padded(s, i), k, k / 8);
    PaddedBits(s, i, k);
  }

  /** A padded word with a byte that is not the skip byte holds the sought bit. */
  lemma SoughtInWord(s: seq<bv8>, i: nat, bit: bool, q: nat) returns (k: nat)
    requires i <= |s| && q < 8 && Padded(s, i)[q] != SkipByte(bit)
    ensures k < 64 && Top(BigOf(Padded(s, i)), k) == bit
  {
    hide Top, Big, BitOf, Padded;
    var r := SoughtInByte(Padded(s, i)[q], bit);
    k := 8 * q + r;
    ByteOf(q, r);
    TopOfBytes(Padded(s, i), k, q);
  }

  lemma BigZero(l: seq<bv8>)
    requires |l| == 8
    ensures BigOf(l) == 0 <==> l[0] == l[1] == l[2] == l[3] == l[4] == l[5] == l[6] == l[7] == 0
  {
    NativeSkips(true, l[7], l[6], l[5], l[4], l[3], l[2], l[1], l[0]);
  }

  /** Where the word behind the skipped bytes holds no set bit, the string holds none. */
  lemma NoneSet(s: seq<bv8>, i: nat)
    requires i <= |s| && Skipped(s, true, i) && BigOf(Padded(s, i)) == 0
    requires i + 8 <= |s| ==> exists j :: i <= j < i + 8 && s[j] != SkipByte(true)
    ensures IsFirst(s, true, -1)
  {
    hide BitAt, Big;
    BigZero(Padded(s, i));
    assert forall q :: 0 <= q < 8 ==> Padded(s, i)[q] == 0;
    assert |s| < i + 8 by {
      assert forall j :: i <= j < i + 8 && j < |s| ==> s[j] == Padded(s, i)[j - i];
    }
    forall j | 0 <= j < 8 * |s|
      ensures !BitAt(s, j)
    {
      if j < 8 * i {
        SkippedBits(s, true, i, j);
      } else {
        PaddedBits(s, i, j - 8 * i);
        ZeroAt(Padded(s, i), j - 8 * i);
      }
    }
  }

  lemma ZeroAt(l: seq<bv8>, k: nat)
    requires k < 8 * |l| && l[k / 8] == 0
    ensures !BitAt(l, k)
  {
    ZeroBit(k % 8);
  }

  lemma HasSought(s: seq<bv8>, i: nat, bit: bool) returns (k: nat)
    requires i <= |s| && Skipped(s, bit, i)
    requires i + 8 <= |s| ==> exists j :: i <= j < i + 8 && s[j] != SkipByte(bit)
    requires bit ==> BigOf(Padded(s, i)) != 0
    ensures k < 64 && Top(BigOf(Padded(s, i)), k) == bit
  {
    hide Top, Big;
    BigZero(Padded(s, i));
    var q: nat;
    if bit {
      q :| q < 8 && Padded(s, i)[q] != 0;
    } else if i + 8 <= |s| {
      var j :| i <= j < i + 8 && s[j] != SkipByte(bit);
      q := j - i;
    } else {
      q := |s| - i;
    }
    k := SoughtInWord(s, i, bit, q);
  }

  /** serverBitpos on a buffer that starts at address `addr`. */
  method Bitpos(s: seq<bv8>, addr: nat, bit: bool) returns (pos: int)
    ensures IsFirst(s, bit, pos)
  {
    hide Top, BitAt, BigOf, Padded;
    var i := SkipAhead(s, addr, bit);
    var word := LoadWord(s, i);
    if bit && word == 0 {
      NoneSet(s, i);
      return -1;
    }
    ghost var sought := HasSought(s, i, bit);
    var k := ScanWord(word, bit, sought);
    pos := 8 * i + k;
    FoundFirst(s, i, bit, k);
  }

  lemma FoundFirst(s: seq<bv8>, i: nat, bit: bool, k: nat)
    requires i <= |s| && Skipped(s, bit, i) && k < 64
    requires Top(BigOf(Padded(s, i)), k) == bit
    requires forall j :: 0 <= j < k ==> Top(BigOf(Padded(s, i)), j) != bit
    ensures IsFirst(s, bit, 8 * i + k)
  {
    hide Top, BitAt, BigOf, Padded;
    WordBit(s, i, k);
    if k > 0 {
      WordBit(s, i, k - 1);
    }
    forall j | 0 <= j < 8 * i + k
      ensures j < 8 * |s| && BitAt(s, j) != bit
    {
      if j < 8 * i {
        SkippedBits(s, bit, i, j);
      } else {
        WordBit(s, i, j - 8 * i);
      }
    }
  }
}
