/** The [start [end [BIT|BYTE]]] arguments of BITCOUNT and BITPOS. */
module BitRange {
  import opened Bits

  datatype Span =
    | Whole
    | From(start: int)
    | Between(start: int, end: int, inBits: bool)

  // ---- what the arguments denote ---------------------------------------------------------------

  /** The position an index denotes: negative ones count from the end and never fall before 0. */
  ghost function Denoted(x: int, total: nat): nat {
    if x >= 0 then x else if total + x >= 0 then total + x else 0
  }

  /** The bits selected from a string of `len` bytes: first.0 up to, not including, first.1. */
  ghost function Selected(span: Span, len: nat): (r: (nat, nat))
    ensures r.0 <= r.1 <= 8 * len
  {
    match span
    case Whole => (0, 8 * len)
    case From(start) => Units(Denoted(start, len), len - 1, len, 8)
    case Between(start, end, inBits) =>
      var total := if inBits then 8 * len else len;
      Units(Denoted(start, total), Denoted(end, total), total, if inBits then 1 else 8)
  }

  /** Units a..b inclusive, cut at the end of the string, as a half-open bit interval. */
  ghost function Units(a: nat, b: int, total: nat, unit: nat): (r: (nat, nat))
    requires unit == 1 || unit == 8
    ensures r.0 <= r.1 <= unit * total
  {
    if a > b || a >= total then (0, 0)
    else (unit * a, unit * (if b < total then b + 1 else total))
  }

  // ---- what the commands compute -----------------------------------------------------------------

  /** Negative indexes are converted and both indexes clamped, in the order of the source. */
  function Clamp(start0: int, end0: int, total: nat): (r: (nat, int))
    ensures -1 <= r.1 < total
    ensures r.0 <= r.1 ==> r.0 < total
  {
    var start1 := if start0 < 0 then total + start0 else start0;
    var end1 := if end0 < 0 then total + end0 else end0;
    var start2 := if start1 < 0 then 0 else start1;
    var end2 := if end1 < 0 then 0 else end1;
    (start2, if end2 >= total then total - 1 else end2)
  }

  /** Clamping selects exactly the denoted units. */
  lemma ClampSelects(start: int, end: int, total: nat, unit: nat)
    requires unit == 1 || unit == 8
    ensures var c := Clamp(start, end, total);
      Units(Denoted(start, total), Denoted(end, total), total, unit)
      == if c.0 <= c.1 then (unit * c.0, unit * (c.1 + 1)) else (0, 0)
  {
  }

  /** The bits of the first byte that lie before bit `k`. */
  function FirstNegMask(k: nat): bv8
    requires k < 8
  {
    ((!(((1 as bv16) << (8 - k)) - 1)) & 0xFF) as bv8
  }

  /** The bits of the last byte that lie after bit `k`. */
  function LastNegMask(k: nat): bv8
    requires k < 8
  {
    (((1 as bv16) << (7 - k)) - 1) as bv8
  }

  lemma FirstMaskBits(k: nat, j: nat)
    requires k < 8 && j < 8
    ensures BitOf(FirstNegMask(k), j) <==> j < k
  {
  }

  lemma LastMaskBits(k: nat, j: nat)
    requires k < 8 && j < 8
    ensures BitOf(LastNegMask(k), j) <==> k < j
  {
  }

  lemma MaskZero(k: nat)
    requires k < 8
    ensures FirstNegMask(k) == 0 <==> k == 0
    ensures LastNegMask(k) == 0 <==> k == 7
  {
  }

  /**
   * The byte range to visit and the masks of the bits to leave out at its edges; `first` and `last` are
   * the selected edge bits within the first and the last byte.
   */
  method ResolveSpan(span: Span, len: nat)
    returns (start: nat, end: int, firstNegMask: bv8, lastNegMask: bv8, ghost first: nat, ghost last: nat)
    ensures -1 <= end && (start <= end ==> end < len) && first < 8 && last < 8
    ensures firstNegMask == FirstNegMask(first) && lastNegMask == LastNegMask(last)
    ensures if start <= end then 8 * start + first <= 8 * end + last && Selected(span, len) == (8 * start + first, 8 * end + last + 1)
      else Selected(span, len).0 == Selected(span, len).1
  {
    hide FirstNegMask, LastNegMask, Clamp;
    start, end, firstNegMask, lastNegMask := 0, len - 1, 0, 0;
    first, last := 0, 7;
    MaskZero(0);
    MaskZero(7);
    match span {
      case Whole =>
      case From(from) =>
        var c := Clamp(from, len - 1, len);
        start, end := c.0, c.1;
        ClampSelects(from, len - 1, len, 8);
      case Between(from, to, inBits) =>
        var total := if inBits then 8 * len else len;
        var c := Clamp(from, to, total);
        start, end := c.0, c.1;
        ClampSelects(from, to, total, if inBits then 1 else 8);
        if inBits && start <= end {
          first, last := start % 8, end % 8;
          firstNegMask := FirstNegMask(start % 8);
          lastNegMask := LastNegMask(end % 8);
          start := start / 8;
          end := end / 8;
        }
    }
  }

  lemma ToTheEnd(span: Span, len: nat)
    ensures var r := Selected(span, len); !span.Between? && r.0 < r.1 ==> r.1 == 8 * len
  {
  }
}
