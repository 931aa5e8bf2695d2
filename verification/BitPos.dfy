/** BITPOS key bit [start [end [BIT|BYTE]]]. */
module BitPosCommand {
  import opened BitRange
  import opened BitSearch
  import opened Bits
  import opened Text

  /** `r` is the least position in lo..hi that holds the sought bit. */
  ghost predicate Least(p: seq<bv8>, bit: bool, lo: nat, hi: nat, r: int)
    requires hi <= 8 * |p|
  {
    lo <= r < hi && BitAt(p, r) == bit && forall i :: lo <= i < r ==> BitAt(p, i) != bit
  }

  ghost predicate Absent(p: seq<bv8>, bit: bool, lo: nat, hi: nat)
    requires hi <= 8 * |p|
  {
    forall i :: lo <= i < hi ==> BitAt(p, i) != bit
  }

  /**
   * The answer BITPOS owes for an existing key: the least position in the selected range; without one,
   * -1, except that a clear bit sought without an explicit end is found just past the string.
   */
  ghost predicate Answer(p: seq<bv8>, bit: bool, span: Span, reply: int) {
    var (lo, hi) := Selected(span, |p|);
    || Least(p, bit, lo, hi, reply)
    || (Absent(p, bit, lo, hi) && reply == if !bit && !span.Between? && lo < hi then 8 * |p| else -1)
  }

  /** The answer is unique. */
  lemma AnswerIsUnique(p: seq<bv8>, bit: bool, span: Span, r1: int, r2: int)
    requires Answer(p, bit, span, r1) && Answer(p, bit, span, r2)
    ensures r1 == r2
  {
    hide BitAt, Selected;
  }

  /** What the search has found when it stops with `bytes` bytes left from byte `start` on. */
  ghost predicate Outcome(p: seq<bv8>, bit: bool, lo: nat, hi: nat, start: nat, bytes: nat, pos: int)
    requires hi <= 8 * |p|
  {
    if 0 <= pos < 8 * bytes then Least(p, bit, lo, hi, 8 * start + pos)
    else Absent(p, bit, lo, hi) && pos == if bit then -1 else 8 * bytes
  }

  /** The bits of `t` that equal the sought one are those of `b` between `first` and `last`. */
  ghost predicate Keeps(b: bv8, t: bv8, bit: bool, first: nat, last: nat) {
    forall j :: 0 <= j < 8 ==> (BitOf(t, j) == bit <==> first <= j <= last && BitOf(b, j) == bit)
  }

  function HideBits(b: bv8, mask: bv8, bit: bool): bv8 {
    if bit then b & !mask else b | mask
  }

  lemma HideFirst(b: bv8, bit: bool, first: nat)
    requires first < 8
    ensures Keeps(b, HideBits(b, FirstNegMask(first), bit), bit, first, 7)
  {
    hide BitOf, FirstNegMask;
    forall j | 0 <= j < 8
      ensures BitOf(HideBits(b, FirstNegMask(first), bit), j) == bit <==> first <= j <= 7 && BitOf(b, j) == bit
    {
      FirstMaskBits(first, j);
      AndNotBit(b, FirstNegMask(first), j);
      OrBit(b, FirstNegMask(first), j);
    }
  }

  lemma HideLast(b: bv8, t: bv8, bit: bool, first: nat, last: nat)
    requires last < 8 && Keeps(b, t, bit, first, 7)
    ensures Keeps(b, HideBits(t, LastNegMask(last), bit), bit, first, last)
  {
    hide BitOf, LastNegMask;
    forall j | 0 <= j < 8
      ensures BitOf(HideBits(t, LastNegMask(last), bit), j) == bit <==> first <= j <= last && BitOf(b, j) == bit
    {
      LastMaskBits(last, j);
      AndNotBit(t, LastNegMask(last), j);
      OrBit(t, LastNegMask(last), j);
    }
  }

  /** A search in a masked copy of byte `q` is a search in its kept bits. */
  lemma SearchedByte(p: seq<bv8>, q: nat, t: bv8, bit: bool, first: nat, last: nat, pos: int)
    requires q < |p| && first <= 7 && last <= 7 && Keeps(p[q], t, bit, first, last) && IsFirst([t], bit, pos)
    ensures if 0 <= pos < 8 then Least(p, bit, 8 * q + first, 8 * q + last + 1, 8 * q + pos)
      else Absent(p, bit, 8 * q + first, 8 * q + last + 1) && pos == if bit then -1 else 8
  {
    hide BitOf;
    forall i | 8 * q <= i < 8 * q + 8
      ensures BitAt(p, i) == BitOf(p[q], i - 8 * q) && BitAt([t], i - 8 * q) == BitOf(t, i - 8 * q)
    {
      ByteOf(q, i - 8 * q);
    }
    assert 0 <= pos < 8 ==> BitOf(t, pos) == bit && BitAt(p, 8 * q + pos) == bit;
  }

  lemma SearchedBytes(p: seq<bv8>, start: nat, n: nat, bit: bool, pos: int)
    requires start + n <= |p| && IsFirst(p[start..start + n], bit, pos)
    ensures Outcome(p, bit, 8 * start, 8 * (start + n), start, n, pos)
  {
    hide BitAt;
    var s := p[start..start + n];
    forall i | 8 * start <= i < 8 * (start + n)
      ensures BitAt(p, i) == BitAt(s, i - 8 * start)
    {
      BitInSlice(p, start, start + n, i - 8 * start);
    }
  }

  /** Nothing before `mid`: the least position from `mid` on is the least of all. */
  lemma Extend(p: seq<bv8>, bit: bool, lo: nat, mid: nat, hi: nat, start: nat, bytes: nat, pos: int)
    requires lo <= mid <= hi <= 8 * |p| && Absent(p, bit, lo, mid) && Outcome(p, bit, mid, hi, start, bytes, pos)
    ensures Outcome(p, bit, lo, hi, start, bytes, pos)
  {
    hide BitAt;
  }

  /** The whole bytes and the masked last byte, once nothing was found before byte `start0`. */
  method SearchRest(p: seq<bv8>, start0: nat, bytes0: nat, lastNegMask: bv8, bit: bool, addr: nat, tmp: nat, ghost last: nat)
    returns (pos: int, start: nat, bytes: nat)
    requires 1 <= bytes0 && start0 + bytes0 <= |p| && last < 8 && lastNegMask == LastNegMask(last)
    ensures start + bytes == start0 + bytes0 && bytes >= 1
    ensures Outcome(p, bit, 8 * start0, 8 * (start0 + bytes0 - 1) + last + 1, start, bytes, pos)
  {
    hide BitAt, LastNegMask, HideBits, IsFirst, Keeps;
    start, bytes := start0, bytes0;
    MaskZero(last);
    var curbytes := bytes - if lastNegMask != 0 then 1 else 0;
    if curbytes > 0 {
      pos := Bitpos(p[start..start + curbytes], addr + start, bit);
      SearchedBytes(p, start, curbytes, bit, pos);
      if bytes == curbytes || (pos != -1 && pos != 8 * curbytes) {
        return;
      }
      start := start + curbytes;
      bytes := bytes - curbytes;
    }
    var end := start0 + bytes0 - 1;
    var tmpchar := HideBits(p[end], lastNegMask, bit);
    KeepsAll(p[end], bit);
    HideLast(p[end], p[end], bit, 0, last);
    pos := Bitpos([tmpchar], tmp, bit);
    SearchedByte(p, end, tmpchar, bit, 0, last, pos);
    Extend(p, bit, 8 * start0, 8 * start, 8 * end + last + 1, start, bytes, pos);
  }

  lemma KeepsAll(b: bv8, bit: bool)
    ensures Keeps(b, b, bit, 0, 7)
  {
  }

  method Search(p: seq<bv8>, start0: nat, end: nat, firstNegMask: bv8, lastNegMask: bv8, bit: bool, addr: nat, tmp: nat,
      ghost first: nat, ghost last: nat)
    returns (pos: int, start: nat, bytes: nat)
    requires start0 <= end < |p| && first < 8 && last < 8 && 8 * start0 + first <= 8 * end + last
    requires firstNegMask == FirstNegMask(first) && lastNegMask == LastNegMask(last)
    ensures start + bytes <= end + 1 && bytes >= 1
    ensures 0 <= pos < 8 * bytes || start + bytes == end + 1
    ensures Outcome(p, bit, 8 * start0 + first, 8 * end + last + 1, start, bytes, pos)
  {
    hide BitAt, FirstNegMask, LastNegMask, HideBits, IsFirst, Keeps;
    start, bytes := start0, end - start0 + 1;
    MaskZero(first);
    MaskZero(last);
    if firstNegMask != 0 {
      var tmpchar := HideBits(p[start], firstNegMask, bit);
      HideFirst(p[start], bit, first);
      ghost var kept := 7;
      if lastNegMask != 0 && bytes == 1 {
        HideLast(p[start], tmpchar, bit, first, last);
        kept := last;
        tmpchar := HideBits(tmpchar, lastNegMask, bit);
      }
      pos := Bitpos([tmpchar], tmp, bit);
      SearchedByte(p, start, tmpchar, bit, first, kept, pos);
      if bytes == 1 || (pos != -1 && pos != 8) {
        return;
      }
      start := start + 1;
      bytes := bytes - 1;
    }
    ghost var from := start;
    pos, start, bytes := SearchRest(p, start, bytes, lastNegMask, bit, addr, tmp, last);
    Extend(p, bit, 8 * start0 + first, 8 * from, 8 * end + last + 1, start, bytes, pos);
  }

  /** A missing key is an endless row of clear bits, whatever range is asked for. */
  method BitPos(o: Option<seq<bv8>>, bit: bool, span: Span, addr: nat, tmp: nat) returns (reply: int)
    ensures if o.None? then reply == if bit then -1 else 0 else Answer(o.value, bit, span, reply)
  {
    hide BitAt, FirstNegMask, LastNegMask, Selected;
    var p := if o.Some? then o.value else [];
    var start, end, firstNegMask, lastNegMask, first, last := ResolveSpan(span, |p|);
    if o.None? {
      return if bit then -1 else 0;
    }
    if start > end {
      return -1;
    }
    ToTheEnd(span, |p|);
    var pos, at, bytes := Search(p, start, end, firstNegMask, lastNegMask, bit, addr, tmp, first, last);
    if span.Between? && !bit && pos == 8 * bytes {
      return -1;
    }
    reply := if pos != -1 then pos + 8 * at else pos;
  }
}
