/** sdscatrepr and sdssplitargs: a quoted string is split back into the string. */
module TextQuote {
  import opened Text
  import opened Seqs

  /** The printable characters of the C locale. */
  predicate IsPrint(c: char) {
    ' ' <= c <= '~'
  }

  function HexDigit(v: nat): (c: char)
    requires v < 16
    ensures IsHexDigit(c) && HexValue(c) == v
  {
    if v < 10 then ('0' as int + v) as char else ('a' as int + v - 10) as char
  }

  /** How sdscatrepr writes one byte. */
  function Escaped(c: char): string
    requires c as int < 256
  {
    if c == '\\' || c == '"' then ['\\', c]
    else if c == '\n' then "\\n"
    else if c == '\r' then "\\r"
    else if c == '\t' then "\\t"
    else if c == 7 as char then "\\a"
    else if c == 8 as char then "\\b"
    else if IsPrint(c) then [c]
    else "\\x" + [HexDigit(c as int / 16), HexDigit(c as int % 16)]
  }

  predicate Bytes(s: string) {
    forall i :: 0 <= i < |s| ==> s[i] as int < 256
  }

  function EscapedAll(s: string): string
    requires Bytes(s)
  {
    if s == "" then "" else EscapedAll(s[..|s| - 1]) + Escaped(s[|s| - 1])
  }

  function Quoted(s: string): string
    requires Bytes(s)
  {
    "\"" + EscapedAll(s) + "\""
  }

  /** sdscatrepr */
  method CatRepr(s: string, p: string) returns (r: string)
    requires Bytes(p)
    ensures r == s + Quoted(p)
  {
    hide Escaped;
    r := s + "\"";
    var j := 0;
    while j < |p|
      invariant 0 <= j <= |p| && r == s + "\"" + EscapedAll(p[..j])
    {
      assert p[..j + 1][..j] == p[..j];
      Associates(s + "\"", EscapedAll(p[..j]), Escaped(p[j]));
      r := r + Escaped(p[j]);
      j := j + 1;
    }
    assert p[..j] == p;
    r := r + "\"";
    assert s + "\"" + EscapedAll(p) + "\"" == s + ("\"" + EscapedAll(p) + "\"");
  }

  // ---- reading it back ------------------------------------------------------------------------------------------------

  /** f holds s at position p. */
  ghost predicate Holds(f: string, p: nat, s: string) {
    p + |s| <= |f| && forall i :: 0 <= i < |s| ==> f[p + i] == s[i]
  }

  lemma HoldsParts(f: string, p: nat, a: string, b: string)
    requires Holds(f, p, a + b)
    ensures Holds(f, p, a) && Holds(f, p + |a|, b)
  {
    assert forall i :: 0 <= i < |a| ==> (a + b)[i] == a[i];
    forall i | 0 <= i < |b| ensures f[p + |a| + i] == b[i] {
      assert f[p + (|a| + i)] == (a + b)[|a| + i] == b[i];
    }
  }

  lemma HoldsRoom(f: string, p: nat, s: string)
    requires Holds(f, p, s)
    ensures p + |s| <= |f|
  {
  }

  lemma HoldsOne(f: string, p: nat, c: char)
    ensures Holds(f, p, [c]) <==> p < |f| && f[p] == c
  {
    assert Holds(f, p, [c]) ==> f[p + 0] == [c][0];
  }

  /** What can stand between double quotes: a character, an escaped character, or a byte in hexadecimal. */
  datatype Piece = Plain(c: char) | Escape(c: char) | Hex(high: char, low: char)

  predicate ValidPiece(p: Piece) {
    match p
    case Plain(c) => c != '"' && c != '\\'
    case Escape(c) => c != 'x'
    case Hex(high, low) => IsHexDigit(high) && IsHexDigit(low)
  }

  function PieceText(p: Piece): string {
    match p
    case Plain(c) => [c]
    case Escape(c) => ['\\', c]
    case Hex(high, low) => ['\\', 'x', high, low]
  }

  function PieceMeaning(p: Piece): char
    requires ValidPiece(p)
  {
    match p
    case Plain(c) => c
    case Escape(c) =>
      if c == 'n' then '\n' else if c == 'r' then '\r' else if c == 't' then '\t'
      else if c == 'b' then 8 as char else if c == 'a' then 7 as char else c
    case Hex(high, low) => (16 * HexValue(high) + HexValue(low)) as char
  }

  ghost predicate ValidPieces(ps: seq<Piece>) {
    forall i :: 0 <= i < |ps| ==> ValidPiece(ps[i])
  }

  function PiecesText(ps: seq<Piece>): string {
    if ps == [] then "" else PiecesText(ps[..|ps| - 1]) + PieceText(ps[|ps| - 1])
  }

  ghost function PiecesMeaning(ps: seq<Piece>): (r: string)
    requires ValidPieces(ps)
    ensures |r| == |ps| && forall i :: 0 <= i < |ps| ==> r[i] == PieceMeaning(ps[i])
  {
    seq(|ps|, i requires 0 <= i < |ps| => PieceMeaning(ps[i]))
  }

  /** One piece is read as what it means, whatever follows. */
  lemma ReadPiece(f: string, at: nat, p: Piece, cur: string)
    requires ValidPiece(p) && Holds(f, at, PieceText(p))
    ensures ReadToken(f, at, InDouble, cur) == ReadToken(f, at + |PieceText(p)|, InDouble, cur + [PieceMeaning(p)])
  {
    var t := PieceText(p);
    assert f[at + 0] == t[0];
    if !p.Plain? {
      assert f[at + 1] == t[1];
    }
    if p.Hex? {
      assert f[at + 2] == t[2] && f[at + 3] == t[3];
    }
  }

  lemma {:induction false} ReadPieces(f: string, at: nat, ps: seq<Piece>, cur: string)
    requires ValidPieces(ps) && Holds(f, at, PiecesText(ps))
    ensures ReadToken(f, at, InDouble, cur) == ReadToken(f, at + |PiecesText(ps)|, InDouble, cur + PiecesMeaning(ps))
    decreases |ps|
  {
    hide ReadToken, PieceText, PieceMeaning, ValidPiece, Holds;
    if ps == [] {
      PlusNothing(cur);
      assert cur + PiecesMeaning(ps) == cur;
    } else {
      var n := |ps| - 1;
      var a, b := PiecesText(ps[..n]), PieceText(ps[n]);
      HoldsParts(f, at, a, b);
      ReadPieces(f, at, ps[..n], cur);
      HoldsRoom(f, at, a);
      ReadPiece(f, at + |a|, ps[n], cur + PiecesMeaning(ps[..n]));
      assert PiecesMeaning(ps) == PiecesMeaning(ps[..n]) + [PieceMeaning(ps[n])];
      Associates(cur, PiecesMeaning(ps[..n]), [PieceMeaning(ps[n])]);
    }
  }

  function QuotedPieces(ps: seq<Piece>): string {
    "\"" + PiecesText(ps) + "\""
  }

  lemma OpenQuote(f: string, p: nat)
    requires p < |f| && f[p] == '"'
    ensures ReadToken(f, p, Bare, "") == ReadToken(f, p + 1, InDouble, "")
  {
  }

  lemma CloseQuote(f: string, p: nat, cur: string)
    requires p < |f| && f[p] == '"' && (p + 1 < |f| ==> f[p + 1] == ' ')
    ensures ReadToken(f, p, InDouble, cur) == Some((cur, p + 1))
  {
  }

  lemma QuotedParts(f: string, p: nat, ps: seq<Piece>)
    requires Holds(f, p, QuotedPieces(ps))
    ensures var e := PiecesText(ps);
      |QuotedPieces(ps)| == |e| + 2 && f[p] == '"' && Holds(f, p + 1, e) && f[p + 1 + |e|] == '"'
  {
    hide PiecesText;
    var q, e := QuotedPieces(ps), PiecesText(ps);
    assert f[p] == q[0] && f[p + (|e| + 1)] == q[|e| + 1];
    forall i | 0 <= i < |e| ensures f[p + 1 + i] == e[i] {
      assert f[p + (i + 1)] == q[i + 1] == e[i];
    }
  }

  /** Pieces in double quotes, followed by a blank or the end of the line, are one token: what they mean. */
  lemma ReadQuoted(f: string, p: nat, ps: seq<Piece>)
    requires ValidPieces(ps) && Holds(f, p, QuotedPieces(ps))
    requires p + |QuotedPieces(ps)| < |f| ==> f[p + |QuotedPieces(ps)|] == ' '
    ensures ReadToken(f, p, Bare, "") == Some((PiecesMeaning(ps), p + |QuotedPieces(ps)|))
  {
    hide ReadToken, QuotedPieces, PiecesText, PiecesMeaning, ValidPieces;
    var e := PiecesText(ps);
    QuotedParts(f, p, ps);
    OpenQuote(f, p);
    ReadPieces(f, p + 1, ps, "");
    assert "" + PiecesMeaning(ps) == PiecesMeaning(ps);
    CloseQuote(f, p + 1 + |e|, PiecesMeaning(ps));
  }

  ghost predicate AllValid(tokens: seq<seq<Piece>>) {
    forall i :: 0 <= i < |tokens| ==> ValidPieces(tokens[i])
  }

  ghost function Texts(tokens: seq<seq<Piece>>): (r: seq<string>)
    ensures |r| == |tokens| && forall i :: 0 <= i < |tokens| ==> r[i] == QuotedPieces(tokens[i])
  {
    seq(|tokens|, i requires 0 <= i < |tokens| => QuotedPieces(tokens[i]))
  }

  ghost function Meanings(tokens: seq<seq<Piece>>): (r: seq<string>)
    requires AllValid(tokens)
    ensures |r| == |tokens| && forall i :: 0 <= i < |tokens| ==> r[i] == PiecesMeaning(tokens[i])
  {
    seq(|tokens|, i requires 0 <= i < |tokens| => PiecesMeaning(tokens[i]))
  }

  /** The blank behind a token is skipped. */
  lemma SkipOne(f: string, p: nat)
    requires p < |f| && f[p] == ' '
    ensures SplitFrom(f, p) == SplitFrom(f, p + 1)
  {
    hide ReadToken;
  }

  lemma SplitEnd(f: string, p: nat)
    requires p <= |f| && f[p..] == Join([])
    ensures SplitFrom(f, p) == Some([])
  {
    assert |f[p..]| == 0;
  }

  /** Reading on behind a token. */
  lemma SplitStep(f: string, p: nat, token: string, next: nat)
    requires p < |f| && !IsSpace(f[p]) && p < next <= |f| && ReadToken(f, p, Bare, "") == Some((token, next))
    ensures SplitFrom(f, p) ==
      match SplitFrom(f, next) case None => None case Some(rest) => Some([token] + rest)
  {
    hide ReadToken, IsSpace;
  }

  lemma {:induction false} SplitQuoted(f: string, p: nat, tokens: seq<seq<Piece>>)
    requires AllValid(tokens) && p <= |f| && f[p..] == Join(Texts(tokens))
    ensures SplitFrom(f, p) == Some(Meanings(tokens))
    decreases |tokens|
  {
    hide ReadToken, QuotedPieces, PiecesMeaning, SplitFrom, Join, IsSpace, Holds, ValidPieces;
    var qs := Texts(tokens);
    if tokens == [] {
      SplitEnd(f, p);
    } else {
      var e := p + |qs[0]|;
      FirstPiece(f, p, qs);
      StartsQuoted(tokens[0]);
      ReadQuoted(f, p, tokens[0]);
      SplitStep(f, p, PiecesMeaning(tokens[0]), e);
      assert qs[1..] == Texts(tokens[1..]);
      if |tokens| > 1 {
        SkipOne(f, e);
        SplitQuoted(f, e + 1, tokens[1..]);
      } else {
        SplitQuoted(f, e, tokens[1..]);
      }
      assert Meanings(tokens) == [PiecesMeaning(tokens[0])] + Meanings(tokens[1..]);
    }
  }

  lemma StartsQuoted(ps: seq<Piece>)
    ensures QuotedPieces(ps) != "" && QuotedPieces(ps)[0] == '"' && !IsSpace('"')
  {
  }

  lemma FirstPiece(f: string, p: nat, ws: seq<string>)
    requires p <= |f| && ws != [] && f[p..] == Join(ws)
    ensures var e := p + |ws[0]|;
      && Holds(f, p, ws[0]) && (ws[0] != "" ==> p < |f| && f[p] == ws[0][0]) && e <= |f| && (|ws| == 1 ==> e == |f| && f[e..] == Join(ws[1..]))
      && (|ws| > 1 ==> e < |f| && f[e] == ' ' && f[e + 1..] == Join(ws[1..]))
  {
    var w, j := ws[0], Join(ws);
    forall i | 0 <= i < |w| ensures f[p + i] == w[i] {
      assert f[p..][i] == j[i] == w[i];
    }
    if |ws| > 1 {
      assert j[|w|] == ' ' && j[|w| + 1..] == Join(ws[1..]);
      assert f[p + |w|] == f[p..][|w|] && f[p..][|w| + 1..] == f[p + |w| + 1..];
    }
  }

  /** Double-quoted tokens, with any mix of escapes and joined by blanks, are split into what they mean. */
  lemma QuotedTokens(tokens: seq<seq<Piece>>)
    requires AllValid(tokens)
    ensures SplitArgs(Join(Texts(tokens))) == Some(Meanings(tokens))
  {
    hide SplitFrom, Texts, Meanings;
    var f := Join(Texts(tokens));
    assert f[0..] == f;
    SplitQuoted(f, 0, tokens);
  }

  // ---- what sdscatrepr writes -------------------------------------------------------------------------------------

  /** The piece that sdscatrepr writes for a byte. */
  function PieceOf(c: char): (p: Piece)
    requires c as int < 256
    ensures ValidPiece(p) && PieceText(p) == Escaped(c) && PieceMeaning(p) == c
  {
    if c == '\\' || c == '"' then Escape(c)
    else if c == '\n' then Escape('n')
    else if c == '\r' then Escape('r')
    else if c == '\t' then Escape('t')
    else if c == 7 as char then Escape('a')
    else if c == 8 as char then Escape('b')
    else if IsPrint(c) then Plain(c)
    else Hex(HexDigit(c as int / 16), HexDigit(c as int % 16))
  }

  ghost function PiecesOf(s: string): (r: seq<Piece>)
    requires Bytes(s)
    ensures |r| == |s| && forall i :: 0 <= i < |s| ==> r[i] == PieceOf(s[i])
  {
    seq(|s|, i requires 0 <= i < |s| => PieceOf(s[i]))
  }

  lemma {:induction false} PiecesSpell(s: string)
    requires Bytes(s)
    ensures PiecesText(PiecesOf(s)) == EscapedAll(s) && ValidPieces(PiecesOf(s)) && PiecesMeaning(PiecesOf(s)) == s
  {
    hide PieceOf, Escaped, PieceText, PieceMeaning, ValidPiece;
    if s != "" {
      var n := |s| - 1;
      PiecesSpell(s[..n]);
      assert PiecesOf(s)[..n] == PiecesOf(s[..n]);
    }
  }

  ghost predicate AllBytes(ss: seq<string>) {
    forall i :: 0 <= i < |ss| ==> Bytes(ss[i])
  }

  ghost function QuotedAll(ss: seq<string>): (r: seq<string>)
    requires AllBytes(ss)
    ensures |r| == |ss| && forall i :: 0 <= i < |ss| ==> r[i] == Quoted(ss[i])
  {
    seq(|ss|, i requires 0 <= i < |ss| => Quoted(ss[i]))
  }

  /** Strings of any bytes, quoted by sdscatrepr and joined by blanks, are split back into themselves. */
  lemma QuotedRoundTrip(ss: seq<string>)
    requires AllBytes(ss)
    ensures SplitArgs(Join(QuotedAll(ss))) == Some(ss)
  {
    hide SplitArgs, PiecesText, PiecesMeaning, EscapedAll, ValidPieces, Join, PiecesOf;
    var tokens := seq(|ss|, i requires 0 <= i < |ss| => PiecesOf(ss[i]));
    forall i | 0 <= i < |ss|
      ensures ValidPieces(tokens[i]) && PiecesMeaning(tokens[i]) == ss[i] && QuotedPieces(tokens[i]) == Quoted(ss[i])
    {
      PiecesSpell(ss[i]);
    }
    assert Texts(tokens) == QuotedAll(ss) && Meanings(tokens) == ss;
    QuotedTokens(tokens);
  }

  /** What sdscatrepr writes is printable. */
  lemma {:induction false} EscapedIsPrintable(s: string, i: nat)
    requires Bytes(s) && i < |EscapedAll(s)|
    ensures IsPrint(EscapedAll(s)[i])
  {
    var n := |s| - 1;
    if i < |EscapedAll(s[..n])| {
      EscapedIsPrintable(s[..n], i);
    }
  }

  // ---- single quotes ----------------------------------------------------------------------------------------------

  /** A string between single quotes: only the single quote is escaped. */
  function Single(s: string): string {
    if s == "" then "" else SingleOne(s[0]) + Single(s[1..])
  }

  lemma SingleStart(s: string)
    ensures s != "" ==> Single(s) != "" && Single(s)[0] == (if s[0] == '\'' then '\\' else s[0])
  {
  }

  /** How the first character of s is written. */
  function SingleOne(c: char): string {
    if c == '\'' then "\\'" else [c]
  }

  lemma SingleFirst(s: string)
    requires s != ""
    ensures Single(s) == SingleOne(s[0]) + Single(s[1..])
    ensures Single(s) + "'" == SingleOne(s[0]) + (Single(s[1..]) + "'")
  {
    hide SingleOne;
    Associates(SingleOne(s[0]), Single(s[1..]), "'");
  }

  lemma HoldsSingle(f: string, p: nat, c: char)
    requires Holds(f, p, SingleOne(c))
    ensures |SingleOne(c)| == if c == '\'' then 2 else 1
    ensures if c == '\'' then p + 1 < |f| && f[p] == '\\' && f[p + 1] == '\'' else p < |f| && f[p] == c
  {
    var t := SingleOne(c);
    assert f[p + 0] == t[0];
    assert c == '\'' ==> f[p + 1] == t[1];
  }

  /** The text behind the first character of s, and the quote behind all of it. */
  lemma SingleParts(f: string, p: nat, s: string)
    requires s != "" && Holds(f, p, Single(s) + "'")
    ensures |Single(s)| == |SingleOne(s[0])| + |Single(s[1..])| && p + |Single(s)| < |f| && f[p + |Single(s)|] == '\''
    ensures Holds(f, p, SingleOne(s[0])) && Holds(f, p + |SingleOne(s[0])|, Single(s[1..]) + "'")
  {
    hide *;
    var one := SingleOne(s[0]);
    SingleFirst(s);
    HoldsParts(f, p, one, Single(s[1..]) + "'");
    HoldsParts(f, p, Single(s), "'");
    HoldsOne(f, p + |Single(s)|, '\'');
  }

  /** Up to the closing quote, or, when the string ends with a backslash, over it. */
  lemma {:induction false} ReadSingle(f: string, p: nat, s: string, cur: string)
    requires Holds(f, p, Single(s) + "'") && p + |Single(s)| + 1 == |f|
    ensures ReadToken(f, p, InSingle, cur) ==
      if s != "" && s[|s| - 1] == '\\' then None else Some((cur + s, |f|))
    decreases |s|
  {
    if s == "" {
      assert f[p + 0] == (Single(s) + "'")[0];
      PlusNothing(cur);
    } else {
      SingleParts(f, p, s);
      HoldsSingle(f, p, s[0]);
      SingleStart(s[1..]);
      var c, k := s[0], if s[0] == '\'' then 2 else 1;
      if s[1..] != "" {
        assert f[p + k + 0] == (Single(s[1..]) + "'")[0];
        ReadSingle(f, p + k, s[1..], cur + [c]);
        assert cur + [c] + s[1..] == cur + s;
      } else {
        ReadLast(f, p, c, cur);
        assert cur + s == cur + [c];
      }
    }
  }

  lemma ReadLast(f: string, p: nat, c: char, cur: string)
    requires if c == '\'' then p + 3 == |f| && f[p] == '\\' && f[p + 1] == c && f[p + 2] == '\''
      else p + 2 == |f| && f[p] == c && f[p + 1] == '\''
    ensures ReadToken(f, p, InSingle, cur) == if c == '\\' then None else Some((cur + [c], |f|))
  {
    if c == '\'' {
      assert ReadToken(f, p, InSingle, cur) == ReadToken(f, p + 2, InSingle, cur + [c]);
    } else if c == '\\' {
      assert ReadToken(f, p, InSingle, cur) == ReadToken(f, p + 2, InSingle, cur + ['\'']);
    } else {
      assert ReadToken(f, p, InSingle, cur) == ReadToken(f, p + 1, InSingle, cur + [c]);
    }
  }

  /** A string written between single quotes comes back if and only if it does not end with a backslash. */
  lemma SingleRoundTripIff(s: string)
    ensures SplitArgs("'" + Single(s) + "'") == Some([s]) <==> s == "" || s[|s| - 1] != '\\'
  {
    hide Single, ReadToken, SplitFrom, Holds;
    var f := "'" + Single(s) + "'";
    SingleLine(s);
    ReadSingle(f, 1, s, "");
    OpenSingle(f, 0);
    assert "" + s == s;
    if s == "" || s[|s| - 1] != '\\' {
      SplitStep(f, 0, s, |f|);
      assert f[|f|..] == Join([]);
      SplitEnd(f, |f|);
      assert [s] + [] == [s];
    } else {
      SplitFails(f, 0);
    }
  }

  lemma SingleLine(s: string)
    ensures var f := "'" + Single(s) + "'"; f[0] == '\'' && Holds(f, 1, Single(s) + "'") && |f| == |Single(s)| + 2
  {
    hide Single;
    var f, t := "'" + Single(s) + "'", Single(s) + "'";
    Associates("'", Single(s), "'");
    assert f == "'" + t;
    assert forall i :: 0 <= i < |t| ==> f[1 + i] == t[i];
  }

  lemma SplitFails(f: string, p: nat)
    requires p < |f| && !IsSpace(f[p]) && ReadToken(f, p, Bare, "").None?
    ensures SplitFrom(f, p) == None
  {
    hide ReadToken, IsSpace;
  }

  lemma OpenSingle(f: string, p: nat)
    requires p < |f| && f[p] == '\''
    ensures ReadToken(f, p, Bare, "") == ReadToken(f, p + 1, InSingle, "")
  {
  }
}
