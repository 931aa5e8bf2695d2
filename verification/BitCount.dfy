/** BITCOUNT key [start [end [BIT|BYTE]]]. */
module BitCountCommand {
  import opened Popcounting
  import opened BitRange
  import opened Bits
  import opened Text

  /**
   * The bits BITCOUNT is asked about. Two negative indexes in the wrong order select nothing, even
   * where both of them denote the first unit.
   */
  ghost function Asked(span: Span, len: nat): (r: (nat, nat))
    ensures r.0 <= r.1 <= 8 * len
  {
    if span.Between? && span.start < 0 && span.end < 0 && span.start > span.end then (0, 0) else Selected(span, len)
  }

  /** Both indexes are negative, in the wrong order, and at or before the first unit of a non-empty string. */
  predicate Crossed(span: Span, len: nat) {
    && span.Between? && span.end < span.start < 0 && len > 0
    && span.start <= -(if span.inBits then 8 * len else len)
  }

  /** BITCOUNT is asked about the bits BITPOS searches, except for crossed indexes: nothing against the first unit. */
  lemma AskedIsSelectedIff(span: Span, len: nat)
    ensures Asked(span, len) == Selected(span, len) <==> !Crossed(span, len)
    ensures Crossed(span, len) ==> Asked(span, len) == (0, 0) && Selected(span, len) == (0, if span.inBits then 1 else 8)
  {
  }

  function Masked(b: bv8, mask: bv8): bv8 { b & mask }

  lemma MaskedBit(b: bv8, mask: bv8, j: nat)
    requires j < 8
    ensures BitOf(Masked(b, mask), j) <==> BitOf(b, j) && BitOf(mask, j)
  {
    AndBit(b, mask, j);
  }

  lemma MaskedZero(b: bv8)
    ensures Masked(b, 0) == 0
  {
  }

  lemma MaskedFirst(s: seq<bv8>, q: nat, k: nat, t: seq<bv8>, i: nat)
    requires q < |s| && k < 8 && i < |t| && t[i] == Masked(s[q], FirstNegMask(k))
    ensures Count(t, 8 * i, 8 * i + 8) == Count(s, 8 * q, 8 * q + k)
  {
    hide BitOf, FirstNegMask, Count, Masked;
    forall j | 8 * i <= j < 8 * i + 8
      ensures BitAt(t, j) <==> j - 8 * i < k && BitAt(s, 8 * q + (j - 8 * i))
    {
      MaskedBit(s[q], FirstNegMask(k), j - 8 * i);
      FirstMaskBits(k, j - 8 * i);
      ByteOf(q, j - 8 * i);
      ByteOf(i, j - 8 * i);
    }
    CountSplit(t, 8 * i, 8 * i + k, 8 * i + 8);
    CountNone(t, 8 * i + k, 8 * i + 8);
    CountSame(t, 8 * i, s, 8 * q, k);
  }

  lemma MaskedLast(s: seq<bv8>, q: nat, k: nat, t: seq<bv8>, i: nat)
    requires q < |s| && k < 8 && i < |t| && t[i] == Masked(s[q], LastNegMask(k))
    ensures Count(t, 8 * i, 8 * i + 8) == Count(s, 8 * q + k + 1, 8 * q + 8)
  {
    hide BitOf, LastNegMask, Count, Masked;
    forall j | 8 * i <= j < 8 * i + 8
      ensures BitAt(t, j) <==> k < j - 8 * i && BitAt(s, 8 * q + (j - 8 * i))
    {
      MaskedBit(s[q], LastNegMask(k), j - 8 * i);
      LastMaskBits(k, j - 8 * i);
      ByteOf(q, j - 8 * i);
      ByteOf(i, j - 8 * i);
    }
    CountSplit(t, 8 * i, 8 * i + k + 1, 8 * i + 8);
    CountNone(t, 8 * i, 8 * i + k + 1);
    assert forall j :: 8 * i + k + 1 <= j < 8 * i + 8 ==> BitAt(t, j) == BitAt(s, 8 * q + k + 1 + (j - (8 * i + k + 1)));
    CountSame(t, 8 * i + k + 1, s, 8 * q + k + 1, 7 - k);
  }

  /** Subtracting the edge bits of the first and last byte is exact, also when both are the same byte. */
  lemma EdgesSubtract(s: seq<bv8>, start: nat, first: nat, end: nat, last: nat)
    requires end < |s| && first < 8 && last < 8 && 8 * start + first <= 8 * end + last
    ensures var edges := [Masked(s[start], FirstNegMask(first)), Masked(s[end], LastNegMask(last))];
      Count(s, 8 * start, 8 * end + 8) - Count(edges, 0, 16) == Count(s, 8 * start + first, 8 * end + last + 1)
  {
    hide *;
    var edges := [Masked(s[start], FirstNegMask(first)), Masked(s[end], LastNegMask(last))];
    MaskedFirst(s, start, first, edges, 0);
    MaskedLast(s, end, last, edges, 1);
    CountSplit(edges, 0, 8, 16);
    CountSplit(s, 8 * start, 8 * start + first, 8 * end + 8);
    CountSplit(s, 8 * start + first, 8 * end + last + 1, 8 * end + 8);
  }

  method CountBytes(p: seq<bv8>, start: nat, end: nat, firstNegMask: bv8, lastNegMask: bv8, addr: nat, tmp: nat,
      ghost first: nat, ghost last: nat) returns (count: nat)
    requires start <= end < |p| && first < 8 && last < 8 && 8 * start + first <= 8 * end + last
    requires firstNegMask == FirstNegMask(first) && lastNegMask == LastNegMask(last)
    ensures count == Count(p, 8 * start + first, 8 * end + last + 1)
  {
    hide Count, FirstNegMask, LastNegMask, Masked;
    MaskedZero(p[start]);
    MaskedZero(p[end]);
    NothingSet();
    var bytes := end - start + 1;
    count := Popcount(p[start..start + bytes], addr + start);
    CountSlice(p, start, start + bytes);
    EdgesSubtract(p, start, first, end, last);
    if firstNegMask != 0 || lastNegMask != 0 {
      var firstByte := if firstNegMask != 0 then Masked(p[start], firstNegMask) else 0;
      var lastByte := if lastNegMask != 0 then Masked(p[end], lastNegMask) else 0;
      var edges := Popcount([firstByte, lastByte], tmp);
      count := count - edges;
    }
  }

  lemma NothingSet()
    ensures Count([0, 0], 0, 16) == 0
  {
    forall i | 0 <= i < 16
      ensures !BitAt([0, 0], i)
    {
    }
    CountNone([0, 0], 0, 16);
  }

  /** The buffer of the string starts at address `addr`, the two-byte scratch buffer at `tmp`. */
  method BitCount(o: Option<seq<bv8>>, span: Span, addr: nat, tmp: nat) returns (reply: nat)
    ensures reply == (if o.None? then 0 else Count(o.value, Asked(span, |o.value|).0, Asked(span, |o.value|).1))
  {
    hide Count, FirstNegMask, LastNegMask, Selected;
    var p := if o.Some? then o.value else [];
    CountNone(p, 0, 0);
    if span.Between? && span.start < 0 && span.end < 0 && span.start > span.end {
      return 0;
    }
    var start, end, firstNegMask, lastNegMask, first, last := ResolveSpan(span, |p|);
    if o.None? {
      return 0;
    }
    if start > end {
      CountNone(p, Selected(span, |p|).0, Selected(span, |p|).1);
      reply := 0;
    } else {
      reply := CountBytes(p, start, end, firstNegMask, lastNegMask, addr, tmp, first, last);
    }
  }
}
