/** BITOP AND|OR|XOR|NOT destkey key [key ...]. */
module BitOpCommand {
  import opened Bits
  import opened BitSearch
  import opened Text

  datatype Op = And | Or | Xor | Not

  /** A source key: None where the key does not exist. */
  type Source = Option<seq<bv8>>

  function Bytes(src: Source): seq<bv8> {
    if src.Some? then src.value else []
  }

  /** Sources read as endless strings of zero bytes behind their end. */
  function ByteAt(src: Source, j: nat): bv8 {
    if j < |Bytes(src)| then Bytes(src)[j] else 0
  }

  function Combine(op: Op, a: bv8, b: bv8): bv8 {
    match op
    case And => a & b
    case Or => a | b
    case Xor => a ^ b
    case Not => a
  }

  /** Byte `j` of the result over the first `n` sources. */
  ghost function Fold(op: Op, srcs: seq<Source>, j: nat, n: nat): bv8
    requires 1 <= n <= |srcs|
  {
    if n == 1 then (if op.Not? then !ByteAt(srcs[0], j) else ByteAt(srcs[0], j))
    else Combine(op, Fold(op, srcs, j, n - 1), ByteAt(srcs[n - 1], j))
  }

  /** Bit `k` of byte `j` of a source, read as endless zeros behind its end. */
  ghost predicate SourceBit(src: Source, j: nat, k: nat)
    requires k < 8
  {
    j < |Bytes(src)| && BitOf(Bytes(src)[j], k)
  }

  /** How many of the first `n` sources have the bit. */
  ghost function Having(srcs: seq<Source>, j: nat, k: nat, n: nat): nat
    requires k < 8 && n <= |srcs|
  {
    if n == 0 then 0 else Having(srcs, j, k, n - 1) + if SourceBit(srcs[n - 1], j, k) then 1 else 0
  }

  /** A bit of the result: set in every source, in some source, in an odd number of them, or not in the only one. */
  ghost predicate ResultBit(op: Op, srcs: seq<Source>, j: nat, k: nat, n: nat)
    requires k < 8 && 1 <= n <= |srcs|
  {
    match op
    case And => Having(srcs, j, k, n) == n
    case Or => Having(srcs, j, k, n) > 0
    case Xor => Having(srcs, j, k, n) % 2 == 1
    case Not => !SourceBit(srcs[0], j, k)
  }

  lemma {:induction false} AtMostAll(srcs: seq<Source>, j: nat, k: nat, n: nat)
    requires k < 8 && n <= |srcs|
    ensures Having(srcs, j, k, n) <= n
  {
    if n > 0 {
      AtMostAll(srcs, j, k, n - 1);
    }
  }

  lemma ByteAtBit(src: Source, j: nat, k: nat)
    requires k < 8
    ensures BitOf(ByteAt(src, j), k) <==> SourceBit(src, j, k)
  {
    assert !BitOf(0, k);
  }

  lemma CombinedBit(op: Op, a: bv8, b: bv8, k: nat)
    requires k < 8
    ensures BitOf(Combine(op, a, b), k) <==>
      match op
      case And => BitOf(a, k) && BitOf(b, k)
      case Or => BitOf(a, k) || BitOf(b, k)
      case Xor => BitOf(a, k) != BitOf(b, k)
      case Not => BitOf(a, k)
  {
    hide BitOf;
    AndBit(a, b, k);
    OrBit(a, b, k);
    XorBit(a, b, k);
  }

  lemma {:induction false} FoldBit(op: Op, srcs: seq<Source>, j: nat, k: nat, n: nat)
    requires k < 8 && 1 <= n <= |srcs| && (op.Not? ==> n == 1)
    ensures BitOf(Fold(op, srcs, j, n), k) <==> ResultBit(op, srcs, j, k, n)
  {
    hide BitOf, Combine, ByteAt, SourceBit;
    ByteAtBit(srcs[n - 1], j, k);
    AtMostAll(srcs, j, k, n - 1);
    if n == 1 {
      NotBit(ByteAt(srcs[0], j), k);
    } else {
      FoldBit(op, srcs, j, k, n - 1);
      CombinedBit(op, Fold(op, srcs, j, n - 1), ByteAt(srcs[n - 1], j), k);
    }
  }

  ghost predicate HasResultBits(op: Op, srcs: seq<Source>, res: seq<bv8>)
    requires srcs != []
  {
    forall j, k :: 0 <= j < |res| && 0 <= k < 8 ==> (BitOf(res[j], k) <==> ResultBit(op, srcs, j, k, |srcs|))
  }

  lemma FoldedBits(op: Op, srcs: seq<Source>, res: seq<bv8>)
    requires srcs != [] && (op.Not? ==> |srcs| == 1)
    requires forall j :: 0 <= j < |res| ==> res[j] == Fold(op, srcs, j, |srcs|)
    ensures HasResultBits(op, srcs, res)
  {
    hide BitOf, ResultBit, Fold;
    forall j, k | 0 <= j < |res| && 0 <= k < 8 ensures BitOf(res[j], k) <==> ResultBit(op, srcs, j, k, |srcs|) {
      FoldBit(op, srcs, j, k, |srcs|);
    }
  }

  ghost function MaxLen(srcs: seq<Source>): nat {
    if srcs == [] then 0
    else
      var rest := MaxLen(srcs[..|srcs| - 1]);
      var len := |Bytes(srcs[|srcs| - 1])|;
      if len > rest then len else rest
  }

  lemma {:induction false} MaxLenCovers(srcs: seq<Source>, i: nat)
    requires i < |srcs|
    ensures |Bytes(srcs[i])| <= MaxLen(srcs)
  {
    if i < |srcs| - 1 {
      MaxLenCovers(srcs[..|srcs| - 1], i);
    }
  }

  lemma {:induction false} MaxLenReached(srcs: seq<Source>)
    requires srcs != []
    ensures exists i :: 0 <= i < |srcs| && |Bytes(srcs[i])| == MaxLen(srcs)
  {
    var last := |srcs| - 1;
    if last == 0 {
      assert MaxLen(srcs[..0]) == 0;
      assert |Bytes(srcs[last])| == MaxLen(srcs);
    } else {
      MaxLenReached(srcs[..last]);
      var i :| 0 <= i < last && |Bytes(srcs[..last][i])| == MaxLen(srcs[..last]);
      assert srcs[..last][i] == srcs[i];
      assert |Bytes(srcs[i])| == MaxLen(srcs) || |Bytes(srcs[last])| == MaxLen(srcs);
    }
  }

  // ---- words --------------------------------------------------------------------------------------

  function AndWords(a: bv64, b: bv64): bv64 { a & b }

  function OrWords(a: bv64, b: bv64): bv64 { a | b }

  function XorWords(a: bv64, b: bv64): bv64 { a ^ b }

  function CombineWords(op: Op, a: bv64, b: bv64): bv64 {
    match op
    case And => AndWords(a, b)
    case Or => OrWords(a, b)
    case Xor => XorWords(a, b)
    case Not => a
  }

  function Low(w: bv64): bv8 { (w & 0xFF) as bv8 }

  function Rest(w: bv64): bv64 { w >> 8 }

  /** Byte `k` of a word in memory. */
  function ByteOfWord(w: bv64, k: nat): bv8
    decreases k
  {
    if k == 0 then Low(w) else ByteOfWord(Rest(w), k - 1)
  }

  lemma NativeDrops(b0: bv8, b1: bv8, b2: bv8, b3: bv8, b4: bv8, b5: bv8, b6: bv8, b7: bv8)
    ensures Rest(Native(b0, b1, b2, b3, b4, b5, b6, b7)) == Native(b1, b2, b3, b4, b5, b6, b7, 0)
    ensures Low(Native(b0, b1, b2, b3, b4, b5, b6, b7)) == b0
  {
  }

  lemma {:induction false} LoadedBytes(s: seq<bv8>, k: nat)
    requires |s| == 8 && k < 8
    ensures ByteOfWord(Native(s[0], s[1], s[2], s[3], s[4], s[5], s[6], s[7]), k) == s[k]
    decreases k
  {
    hide Native, Low, Rest;
    NativeDrops(s[0], s[1], s[2], s[3], s[4], s[5], s[6], s[7]);
    if k > 0 {
      LoadedBytes(s[1..] + [0], k - 1);
    }
  }

  lemma AndDrops(a: bv64, b: bv64)
    ensures Rest(AndWords(a, b)) == AndWords(Rest(a), Rest(b))
  {
  }

  lemma AndLow(a: bv64, b: bv64)
    ensures Low(AndWords(a, b)) == Low(a) & Low(b)
  {
  }

  lemma OrDrops(a: bv64, b: bv64)
    ensures Rest(OrWords(a, b)) == OrWords(Rest(a), Rest(b))
  {
  }

  lemma OrLow(a: bv64, b: bv64)
    ensures Low(OrWords(a, b)) == Low(a) | Low(b)
  {
  }

  lemma XorDrops(a: bv64, b: bv64)
    ensures Rest(XorWords(a, b)) == XorWords(Rest(a), Rest(b))
  {
  }

  lemma XorLow(a: bv64, b: bv64)
    ensures Low(XorWords(a, b)) == Low(a) ^ Low(b)
  {
  }

  lemma CombinedDrops(op: Op, a: bv64, b: bv64)
    ensures Rest(CombineWords(op, a, b)) == CombineWords(op, Rest(a), Rest(b))
  {
    hide AndWords, OrWords, XorWords, Rest;
    AndDrops(a, b);
    OrDrops(a, b);
    XorDrops(a, b);
  }

  lemma CombinedLow(op: Op, a: bv64, b: bv64)
    ensures Low(CombineWords(op, a, b)) == Combine(op, Low(a), Low(b))
  {
    hide AndWords, OrWords, XorWords, Low;
    AndLow(a, b);
    OrLow(a, b);
    XorLow(a, b);
  }

  /** A bitwise operation on words is that operation on each of their bytes. */
  lemma {:induction false} WordwiseIsBytewise(op: Op, a: bv64, b: bv64, k: nat)
    ensures ByteOfWord(CombineWords(op, a, b), k) == Combine(op, ByteOfWord(a, k), ByteOfWord(b, k))
    decreases k
  {
    hide Low, Rest, Combine, CombineWords;
    if k == 0 {
      CombinedLow(op, a, b);
    } else {
      CombinedDrops(op, a, b);
      WordwiseIsBytewise(op, Rest(a), Rest(b), k - 1);
    }
  }

  function Invert(w: bv64): bv64 { !w }

  const ONES: bv64 := 0xFFFF_FFFF_FFFF_FFFF

  lemma InvertIsXor(a: bv64, b: bv8)
    ensures Invert(a) == CombineWords(Xor, a, ONES) && !b == Combine(Xor, b, 0xFF)
    ensures ONES == Native(0xFF, 0xFF, 0xFF, 0xFF, 0xFF, 0xFF, 0xFF, 0xFF)
  {
  }

  lemma InvertedBytes(a: bv64, k: nat)
    requires k < 8
    ensures ByteOfWord(Invert(a), k) == !ByteOfWord(a, k)
  {
    hide ByteOfWord, Invert, Native, ONES, Combine, CombineWords;
    InvertIsXor(a, ByteOfWord(a, k));
    WordwiseIsBytewise(Xor, a, ONES, k);
    LoadedBytes([0xFF, 0xFF, 0xFF, 0xFF, 0xFF, 0xFF, 0xFF, 0xFF], k);
  }

  method StoreWord(res: array<bv8>, at: nat, w: bv64)
    requires at + 8 <= res.Length
    modifies res
    ensures forall k :: 0 <= k < res.Length ==> res[k] == if at <= k < at + 8 then ByteOfWord(w, k - at) else old(res[k])
  {
    hide ByteOfWord;
    res[at] := ByteOfWord(w, 0);
    res[at + 1] := ByteOfWord(w, 1);
    res[at + 2] := ByteOfWord(w, 2);
    res[at + 3] := ByteOfWord(w, 3);
    res[at + 4] := ByteOfWord(w, 4);
    res[at + 5] := ByteOfWord(w, 5);
    res[at + 6] := ByteOfWord(w, 6);
    res[at + 7] := ByteOfWord(w, 7);
  }

  /** One word of the result combined with the word of a source at the same place. */
  method UpdateWord(op: Op, res: array<bv8>, at: nat, src: seq<bv8>)
    requires at + 8 <= res.Length && at + 8 <= |src|
    modifies res
    ensures forall k :: 0 <= k < res.Length ==> res[k] == if at <= k < at + 8 then Combine(op, old(res[k]), src[k]) else old(res[k])
  {
    hide ByteOfWord, Combine, CombineWords, Native;
    ghost var was := res[..];
    var a := NativeAt(res[..], at);
    var b := NativeAt(src, at);
    forall k | 0 <= k < 8
      ensures ByteOfWord(CombineWords(op, a, b), k) == Combine(op, was[at + k], src[at + k])
    {
      WordwiseIsBytewise(op, a, b, k);
      LoadedBytes(was[at..at + 8], k);
      LoadedBytes(src[at..at + 8], k);
    }
    StoreWord(res, at, CombineWords(op, a, b));
    assert forall k :: at <= k < at + 8 ==> res[k] == Combine(op, was[at + (k - at)], src[at + (k - at)]);
  }

  method NegateWord(res: array<bv8>, at: nat)
    requires at + 8 <= res.Length
    modifies res
    ensures forall k :: 0 <= k < res.Length ==> res[k] == if at <= k < at + 8 then !old(res[k]) else old(res[k])
  {
    hide ByteOfWord, Native, Invert;
    ghost var was := res[..];
    var a := NativeAt(res[..], at);
    forall k | 0 <= k < 8
      ensures ByteOfWord(Invert(a), k) == !was[at + k]
    {
      InvertedBytes(a, k);
      LoadedBytes(was[at..at + 8], k);
    }
    StoreWord(res, at, Invert(a));
    assert forall k :: at <= k < at + 8 ==> res[k] == !was[at + (k - at)];
  }

  // ---- the command ----------------------------------------------------------------------------------

  /** Every byte of the result in lo..hi is the fold over the first `n` sources. */
  ghost predicate Done(op: Op, srcs: seq<Source>, res: seq<bv8>, lo: nat, hi: nat, n: nat)
    requires 1 <= n <= |srcs|
  {
    hi <= |res| && forall k :: lo <= k < hi ==> res[k] == Fold(op, srcs, k, n)
  }

  method Lengths(srcs: seq<Source>) returns (minlen: nat, maxlen: nat)
    ensures maxlen == MaxLen(srcs)
    ensures forall i :: 0 <= i < |srcs| ==> minlen <= |Bytes(srcs[i])|
    ensures srcs != [] ==> exists i :: 0 <= i < |srcs| && |Bytes(srcs[i])| == minlen
  {
    minlen, maxlen := 0, 0;
    for j := 0 to |srcs|
      invariant maxlen == MaxLen(srcs[..j])
      invariant forall i :: 0 <= i < j ==> minlen <= |Bytes(srcs[i])|
      invariant j > 0 ==> exists i :: 0 <= i < j && |Bytes(srcs[i])| == minlen
    {
      assert srcs[..j + 1][..j] == srcs[..j];
      if srcs[j].None? {
        minlen := 0;
      } else {
        var len := |srcs[j].value|;
        if len > maxlen {
          maxlen := len;
        }
        if j == 0 || len < minlen {
          minlen := len;
        }
      }
    }
    assert srcs[..|srcs|] == srcs;
  }

  /** One 32-byte stretch: four words of the result combined with every further source. */
  method FastStretch(op: Op, srcs: seq<Source>, res: array<bv8>, j: nat)
    requires srcs != [] && j + 32 <= res.Length && (op.Not? ==> |srcs| == 1)
    requires forall i :: 0 <= i < |srcs| ==> j + 32 <= |Bytes(srcs[i])|
    requires forall k :: j <= k < j + 32 ==> res[k] == ByteAt(srcs[0], k)
    modifies res
    ensures Done(op, srcs, res[..], j, j + 32, |srcs|)
    ensures forall k :: 0 <= k < res.Length && !(j <= k < j + 32) ==> res[k] == old(res[k])
  {
    hide Combine;
    if op.Not? {
      NegateWord(res, j);
      NegateWord(res, j + 8);
      NegateWord(res, j + 16);
      NegateWord(res, j + 24);
    } else {
      for i := 1 to |srcs|
        invariant Done(op, srcs, res[..], j, j + 32, i)
        invariant forall k :: 0 <= k < res.Length && !(j <= k < j + 32) ==> res[k] == old(res[k])
      {
        UpdateStretch(op, res, j, Bytes(srcs[i]));
      }
    }
  }

  method UpdateStretch(op: Op, res: array<bv8>, j: nat, src: seq<bv8>)
    requires j + 32 <= res.Length && j + 32 <= |src|
    modifies res
    ensures forall k :: 0 <= k < res.Length ==> res[k] == if j <= k < j + 32 then Combine(op, old(res[k]), src[k]) else old(res[k])
  {
    hide Combine;
    UpdateWord(op, res, j, src);
    UpdateWord(op, res, j + 8, src);
    UpdateWord(op, res, j + 16, src);
    UpdateWord(op, res, j + 24, src);
  }

  /** The unrolled path over the bytes all sources have. */
  method FastPath(op: Op, srcs: seq<Source>, minlen0: nat, res: array<bv8>) returns (j: nat)
    requires srcs != [] && (op.Not? ==> |srcs| == 1) && minlen0 <= res.Length
    requires forall i :: 0 <= i < |srcs| ==> minlen0 <= |Bytes(srcs[i])|
    modifies res
    ensures j <= minlen0 && Done(op, srcs, res[..], 0, j, |srcs|)
  {
    hide Fold;
    forall k | 0 <= k < minlen0 {
      res[k] := Bytes(srcs[0])[k];
    }
    j := 0;
    var minlen := minlen0;
    while minlen >= 32
      invariant j + minlen == minlen0
      invariant Done(op, srcs, res[..], 0, j, |srcs|)
      invariant forall k :: j <= k < minlen0 ==> res[k] == ByteAt(srcs[0], k)
    {
      FastStretch(op, srcs, res, j);
      j := j + 32;
      minlen := minlen - 32;
    }
  }

  /** An output that the operator can no longer change. */
  lemma {:induction false} Absorbed(op: Op, srcs: seq<Source>, j: nat, n: nat, m: nat)
    requires 1 <= n <= m <= |srcs|
    requires (op.And? && Fold(op, srcs, j, n) == 0) || (op.Or? && Fold(op, srcs, j, n) == 0xFF)
    ensures Fold(op, srcs, j, m) == Fold(op, srcs, j, n)
  {
    if n < m {
      Absorbed(op, srcs, j, n, m - 1);
      Absorbs(ByteAt(srcs[m - 1], j));
    }
  }

  lemma Absorbs(b: bv8)
    ensures 0 & b == 0 && 0xFF | b == 0xFF
  {
  }

  /** One byte with the early exit. */
  method OutputByte(op: Op, srcs: seq<Source>, j: nat) returns (output: bv8)
    requires srcs != [] && (op.Not? ==> |srcs| == 1)
    ensures output == Fold(op, srcs, j, |srcs|)
  {
    output := if |Bytes(srcs[0])| <= j then 0 else Bytes(srcs[0])[j];
    if op.Not? {
      output := !output;
    }
    var i := 1;
    while i < |srcs|
      invariant 1 <= i <= |srcs| && output == Fold(op, srcs, j, i)
    {
      var byte := if |Bytes(srcs[i])| <= j then 0 else Bytes(srcs[i])[j];
      output := Combine(op, output, byte);
      i := i + 1;
      if (op.And? && output == 0) || (op.Or? && output == 0xFF) {
        Absorbed(op, srcs, j, i, |srcs|);
        return;
      }
    }
  }

  /** None: the destination key is deleted. `aligned` builds have no fast path. */
  method BitOp(op: Op, srcs: seq<Source>, aligned: bool) returns (r: Option<seq<bv8>>)
    requires srcs != [] && (op.Not? ==> |srcs| == 1)
    ensures r.None? <==> MaxLen(srcs) == 0
    ensures r.Some? ==> |r.value| == MaxLen(srcs) && forall j :: 0 <= j < |r.value| ==> r.value[j] == Fold(op, srcs, j, |srcs|)
    ensures r.Some? ==> HasResultBits(op, srcs, r.value)
  {
    hide Fold, HasResultBits;
    var minlen, maxlen := Lengths(srcs);
    if maxlen == 0 {
      return None;
    }
    MaxLenCovers(srcs, 0);
    var res := new bv8[maxlen](_ => 0);
    var j := 0;
    if !aligned && minlen >= 32 && |srcs| <= 16 {
      j := FastPath(op, srcs, minlen, res);
    }
    while j < maxlen
      invariant j <= maxlen && Done(op, srcs, res[..], 0, j, |srcs|)
    {
      res[j] := OutputByte(op, srcs, j);
      j := j + 1;
    }
    r := Some(res[..]);
    FoldedBits(op, srcs, res[..]);
  }
}
