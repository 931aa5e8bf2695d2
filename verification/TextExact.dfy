/** Exactly which token lists survive being joined by blanks and split again. */
module TextExact {
  import opened Text

  /** A character that the splitter copies outside quotes. */
  predicate Copied(c: char) {
    c != ' ' && c != '\n' && c != '\r' && c != '\t' && c != '"' && c != '\''
  }

  /** The token was copied from the line, up to a separator or the end. */
  ghost predicate Verbatim(s: string, p: nat, cur: string, token: string, next: nat, k: nat) {
    && p + k <= |s| && token == cur + s[p..p + k]
    && (forall i :: p <= i < p + k ==> Copied(s[i]))
    && (p + k < |s| ==> IsSpace(s[p + k]))
    && next == if p + k < |s| then p + k + 1 else p + k
  }

  predicate IsQuote(c: char) {
    c == '"' || c == '\''
  }

  /** Inside quotes at least the closing quote is dropped, and a blank or the end follows it. */
  lemma {:induction false} QuotedIsShorter(s: string, p: nat, q: Quote, cur: string)
    requires p <= |s| && !q.Bare? && ReadToken(s, p, q, cur).Some?
    ensures var r := ReadToken(s, p, q, cur).value;
      |r.0| - |cur| <= r.1 - p - 1 && (r.1 < |s| ==> IsSpace(s[r.1])) && IsQuote(s[r.1 - 1])
    decreases |s| - p
  {
    if q.InDouble? {
      if s[p] == '\\' && p + 3 < |s| && s[p + 1] == 'x' && IsHexDigit(s[p + 2]) && IsHexDigit(s[p + 3]) {
        QuotedIsShorter(s, p + 4, q, cur + [(HexValue(s[p + 2]) * 16 + HexValue(s[p + 3])) as char]);
      } else if s[p] == '\\' && p + 1 < |s| {
        QuotedIsShorter(s, p + 2, q, cur + [Unescaped(s[p + 1])]);
      } else if s[p] != '"' {
        QuotedIsShorter(s, p + 1, q, cur + [s[p]]);
      }
    } else if s[p] == '\\' && p + 1 < |s| && s[p + 1] == '\'' {
      QuotedIsShorter(s, p + 2, q, cur + ['\'']);
    } else if s[p] != '\'' {
      QuotedIsShorter(s, p + 1, q, cur + [s[p]]);
    }
  }

  /** A token is either a verbatim copy or at least two characters shorter than its source. */
  lemma {:induction false} VerbatimOrShorter(s: string, p: nat, cur: string) returns (k: nat)
    requires p <= |s| && ReadToken(s, p, Bare, cur).Some?
    ensures var r := ReadToken(s, p, Bare, cur).value;
      || Verbatim(s, p, cur, r.0, r.1, k)
      || (|r.0| - |cur| <= r.1 - p - 2 && (r.1 < |s| ==> IsSpace(s[r.1])) && IsQuote(s[r.1 - 1]))
    decreases |s| - p
  {
    k := 0;
    if p < |s| {
      var c := s[p];
      if c == '"' {
        QuotedIsShorter(s, p + 1, InDouble, cur);
      } else if c == '\'' {
        QuotedIsShorter(s, p + 1, InSingle, cur);
      } else if Copied(c) {
        k := VerbatimOrShorter(s, p + 1, cur + [c]);
        var r := ReadToken(s, p, Bare, cur).value;
        if Verbatim(s, p + 1, cur + [c], r.0, r.1, k) {
          assert s[p..p + 1 + k] == [c] + s[p + 1..p + 1 + k];
          k := k + 1;
        }
      } else {
        assert s[p..p] == "";
      }
    } else {
      assert s[p..p] == "";
    }
  }

  ghost predicate Clean(token: string) {
    token != "" && !IsSpace(token[0]) && forall j :: 0 <= j < |token| ==> Copied(token[j])
  }

  ghost predicate AllClean(ts: seq<string>) {
    forall i :: 0 <= i < |ts| ==> Clean(ts[i])
  }

  lemma VerbatimIsClean(s: string, start: nat, token: string, next: nat, k: nat)
    requires Verbatim(s, start, "", token, next, k) && start < |s| && !IsSpace(s[start])
    ensures Clean(token) && |token| == k
  {
    assert token == s[start..start + k];
    assert k > 0 ==> token[0] == s[start];
    assert forall j :: 0 <= j < |token| ==> token[j] == s[start + j];
  }

  lemma JoinLength(token: string, rest: seq<string>)
    ensures |Join([token] + rest)| == |token| + if rest == [] then 0 else 1 + |Join(rest)|
  {
    assert ([token] + rest)[1..] == rest;
  }

  lemma CleanCons(token: string, rest: seq<string>)
    requires Clean(token) && AllClean(rest)
    ensures AllClean([token] + rest)
  {
  }

  /** A line is never shorter than what it splits into, and if it is no longer, the tokens stand in it as they are. */
  lemma {:induction false} SplitLengths(s: string, p: nat)
    requires p <= |s| && SplitFrom(s, p).Some?
    ensures |Join(SplitFrom(s, p).value)| <= |s| - p
    ensures |Join(SplitFrom(s, p).value)| == |s| - p ==> AllClean(SplitFrom(s, p).value)
    decreases |s| - p
  {
    hide ReadToken, IsSpace, Join, Clean;
    var start := SkipBlanks(s, p);
    if start == |s| {
      assert Join([]) == "" by { JoinNothing(); }
    } else {
      var token, next := ReadToken(s, start, Bare, "").value.0, ReadToken(s, start, Bare, "").value.1;
      var k := VerbatimOrShorter(s, start, "");
      SplitLengths(s, next);
      var rest := SplitFrom(s, next).value;
      JoinLength(token, rest);
      if Verbatim(s, start, "", token, next, k) {
        VerbatimIsClean(s, start, token, next, k);
        if AllClean(rest) {
          CleanCons(token, rest);
        }
        VerbatimFits(s, start, token, next, k);
      }
    }
  }

  lemma JoinNothing()
    ensures Join([]) == ""
  {
  }

  lemma VerbatimFits(s: string, start: nat, token: string, next: nat, k: nat)
    requires Verbatim(s, start, "", token, next, k) && next <= |s|
    ensures |token| + 1 + (|s| - next) <= |s| - start || (next == |s| && |token| <= |s| - start)
    ensures |token| == |s| - start ==> next == |s|
  {
  }

  ghost predicate NoNul(ts: seq<string>) {
    forall i, j :: 0 <= i < |ts| && 0 <= j < |ts[i]| ==> ts[i][j] != NUL
  }

  /** Token lists that come back are exactly the lists of plain tokens. */
  lemma SplitArgsJoinIff(ts: seq<string>)
    requires NoNul(ts)
    ensures SplitArgs(Join(ts)) == Some(ts) <==> PlainTokens(ts)
  {
    if PlainTokens(ts) {
      SplitArgsJoin(ts);
    }
    if SplitArgs(Join(ts)) == Some(ts) {
      SplitLengths(Join(ts), 0);
      forall i | 0 <= i < |ts|
        ensures PlainToken(ts[i])
      {
        assert Clean(ts[i]);
        assert forall j :: 0 <= j < |ts[i]| ==> Copied(ts[i][j]) && ts[i][j] != NUL;
      }
    }
  }

  // ---- lines with quotes ------------------------------------------------------------------------------------------

  predicate SpaceFree(w: string) {
    forall i :: 0 <= i < |w| ==> !IsSpace(w[i])
  }

  /** What the splitter makes of one word: the word, or less. */
  predicate Shrinks(t: string, w: string) {
    t != "" && w != "" && t[0] == w[0] && (t == w || (!PlainToken(w) && |t| < |w|))
  }

  lemma InPrefix(cur: string, c: char, t: string)
    requires cur + [c] <= t
    ensures c in t && cur <= t
  {
    assert t[|cur|] == (cur + [c])[|cur|] == c;
  }

  /** What has been read stays in the token, and so does every blank but the one that ends it. */
  lemma {:induction false} TokenKeeps(s: string, p: nat, q: Quote, cur: string)
    requires p <= |s| && ReadToken(s, p, q, cur).Some?
    ensures var r := ReadToken(s, p, q, cur).value;
      cur <= r.0 && (' ' in r.0 || forall i :: p <= i < r.1 - 1 ==> s[i] != ' ')
    decreases |s| - p
  {
    if p < |s| {
      var t, c := ReadToken(s, p, q, cur).value.0, s[p];
      match q
      case Bare =>
        if c == '"' { TokenKeeps(s, p + 1, InDouble, cur); }
        else if c == '\'' { TokenKeeps(s, p + 1, InSingle, cur); }
        else if Copied(c) { TokenKeeps(s, p + 1, Bare, cur + [c]); InPrefix(cur, c, t); }
      case InDouble =>
        if c == '\\' && p + 3 < |s| && s[p + 1] == 'x' && IsHexDigit(s[p + 2]) && IsHexDigit(s[p + 3]) {
          var d := (HexValue(s[p + 2]) * 16 + HexValue(s[p + 3])) as char;
          TokenKeeps(s, p + 4, q, cur + [d]);
          InPrefix(cur, d, t);
        } else if c == '\\' && p + 1 < |s| {
          TokenKeeps(s, p + 2, q, cur + [Unescaped(s[p + 1])]);
          InPrefix(cur, Unescaped(s[p + 1]), t);
        } else if c != '"' {
          TokenKeeps(s, p + 1, q, cur + [c]);
          InPrefix(cur, c, t);
        }
      case InSingle =>
        if c == '\\' && p + 1 < |s| && s[p + 1] == '\'' {
          TokenKeeps(s, p + 2, q, cur + ['\'']);
          InPrefix(cur, '\'', t);
        } else if c != '\'' {
          TokenKeeps(s, p + 1, q, cur + [c]);
          InPrefix(cur, c, t);
        }
    }
  }

  /** The word from p to e, when its token has no blank. */
  lemma FirstToken(s: string, p: nat, e: nat)
    requires p < e <= |s| && SpaceFree(s[p..e]) && Copied(s[p]) && (e < |s| ==> s[e] == ' ')
    requires ReadToken(s, p, Bare, "").Some? && ' ' !in ReadToken(s, p, Bare, "").value.0
    ensures var r := ReadToken(s, p, Bare, "").value;
      || (r.0 == s[p..e] && r.1 == if e < |s| then e + 1 else e)
      || (|r.0| < e - p && r.1 == e && r.0 != "" && r.0[0] == s[p])
  {
    hide ReadToken;
    var r := ReadToken(s, p, Bare, "").value;
    var k := VerbatimOrShorter(s, p, "");
    TokenKeeps(s, p, Bare, "");
    assert forall i :: p <= i < e ==> s[i] == s[p..e][i - p] && !IsSpace(s[i]);
    if Verbatim(s, p, "", r.0, r.1, k) {
      VerbatimWord(s, p, e, r.0, r.1, k);
    } else {
      hide Copied, Verbatim;
      assert e < |s| ==> !IsQuote(s[e]);
      assert r.1 == e;
      StartsWith(s, p);
    }
  }

  lemma VerbatimWord(s: string, p: nat, e: nat, token: string, next: nat, k: nat)
    requires p <= e <= |s| && (forall i :: p <= i < e ==> !IsSpace(s[i])) && (e < |s| ==> s[e] == ' ')
    requires Verbatim(s, p, "", token, next, k)
    ensures token == s[p..e] && next == if e < |s| then e + 1 else e
  {
    assert "" + s[p..p + k] == s[p..p + k];
    assert e < |s| ==> !Copied(s[e]);
    assert p + k < |s| ==> IsSpace(s[p + k]);
    assert p + k == e;
  }

  lemma StartsWith(s: string, p: nat)
    requires p < |s| && Copied(s[p]) && ReadToken(s, p, Bare, "").Some?
    ensures var t := ReadToken(s, p, Bare, "").value.0; t != "" && t[0] == s[p]
  {
    var c := s[p];
    assert "" + [c] == [c];
    assert ReadToken(s, p, Bare, "") == ReadToken(s, p + 1, Bare, "" + [c]);
    TokenKeeps(s, p + 1, Bare, [c]);
  }

  lemma SplitAfterBlank(s: string, e: nat)
    requires e < |s| && s[e] == ' '
    ensures SplitFrom(s, e) == SplitFrom(s, e + 1)
  {
    hide ReadToken;
  }

  /** A printed word: plain, or without any blank and starting as `quotable` says. */
  predicate Word(w: string, quotable: set<char>) {
    w != "" && !IsSpace(w[0]) && Copied(w[0]) && (PlainToken(w) || (w[0] in quotable && SpaceFree(w)))
  }

  ghost predicate Words(ws: seq<string>, quotable: set<char>) {
    forall i :: 0 <= i < |ws| ==> Word(ws[i], quotable)
  }

  ghost predicate NoBlanks(ts: seq<string>, quotable: set<char>) {
    forall i :: 0 <= i < |ts| && ts[i] != "" && ts[i][0] in quotable ==> ' ' !in ts[i]
  }

  /** The first word of a line. */
  lemma FirstWordReads(s: string, p: nat, w: string, quotable: set<char>)
    requires Word(w, quotable)
    requires p + |w| <= |s| && s[p..p + |w|] == w && (p + |w| < |s| ==> s[p + |w|] == ' ')
    requires ReadToken(s, p, Bare, "").Some?
    requires var t := ReadToken(s, p, Bare, "").value.0; t != "" && t[0] in quotable ==> ' ' !in t
    ensures var r, e := ReadToken(s, p, Bare, "").value, p + |w|;
      Shrinks(r.0, w) && SplitFrom(s, r.1) == if e < |s| then SplitFrom(s, e + 1) else Some([])
  {
    hide ReadToken, SplitFrom, IsSpace, Copied;
    var e := p + |w|;
    assert s[p] == s[p..e][0];
    if PlainToken(w) {
      ReadPlain(s, p, w, 0);
      assert w[..0] == "";
    } else {
      StartsWith(s, p);
      FirstToken(s, p, e);
    }
    if e < |s| { SplitAfterBlank(s, e); } else { SplitAtEnd(s); }
  }

  lemma SplitAtEnd(s: string)
    ensures SplitFrom(s, |s|) == Some([])
  {
  }

  /** Words whose tokens have no blank come back one by one, each as it is or shorter. */
  lemma {:induction false} WordsShrink(s: string, p: nat, ws: seq<string>, quotable: set<char>)
    requires p <= |s| && s[p..] == Join(ws) && Words(ws, quotable)
    requires SplitFrom(s, p).Some? && NoBlanks(SplitFrom(s, p).value, quotable)
    ensures var argv := SplitFrom(s, p).value; |argv| == |ws| && forall i :: 0 <= i < |ws| ==> Shrinks(argv[i], ws[i])
    decreases |ws|
  {
    hide *;
    if ws == [] {
      NothingJoined(s, p);
    } else {
      var w, argv := ws[0], SplitFrom(s, p).value;
      FirstOfWords(ws, quotable);
      WordAt(s, p, ws);
      SplitStep(s, p, w);
      FirstOfBlanks(argv, quotable);
      FirstWordReads(s, p, w, quotable);
      if |ws| > 1 {
        WordsShrink(s, p + |w| + 1, ws[1..], quotable);
      }
      assert forall i :: 1 <= i < |ws| ==> argv[i] == argv[1..][i - 1] && ws[i] == ws[1..][i - 1];
    }
  }

  lemma NothingJoined(s: string, p: nat)
    requires p <= |s| && s[p..] == Join([])
    ensures SplitFrom(s, p) == Some([])
  {
  }

  lemma FirstOfWords(ws: seq<string>, quotable: set<char>)
    requires ws != [] && Words(ws, quotable)
    ensures Word(ws[0], quotable) && ws[0] != "" && !IsSpace(ws[0][0]) && Words(ws[1..], quotable)
  {
  }

  lemma FirstOfBlanks(ts: seq<string>, quotable: set<char>)
    requires ts != [] && NoBlanks(ts, quotable)
    ensures ts[0] != "" && ts[0][0] in quotable ==> ' ' !in ts[0]
    ensures NoBlanks(ts[1..], quotable)
  {
  }

  /** Where the first word of a joined list stands, and the rest. */
  lemma WordAt(s: string, p: nat, ws: seq<string>)
    requires p <= |s| && s[p..] == Join(ws) && ws != []
    ensures var e := p + |ws[0]|;
      && e <= |s| && s[p..e] == ws[0] && (e < |s| <==> |ws| > 1)
      && (|ws| > 1 ==> s[e] == ' ' && s[e + 1..] == Join(ws[1..]))
  {
    var w, j := ws[0], Join(ws);
    assert j[..|w|] == w;
    assert s[p..][..|w|] == s[p..p + |w|];
    if |ws| > 1 {
      assert j[|w| + 1..] == Join(ws[1..]);
      assert s[p..][|w|] == s[p + |w|] && s[p..][|w| + 1..] == s[p + |w| + 1..];
    }
  }

  lemma SplitStep(s: string, p: nat, w: string)
    requires w != "" && !IsSpace(w[0]) && p + |w| <= |s| && s[p..p + |w|] == w && SplitFrom(s, p).Some?
    ensures ReadToken(s, p, Bare, "").Some?
    ensures var r := ReadToken(s, p, Bare, "").value;
      SplitFrom(s, r.1).Some? && SplitFrom(s, p).value == [r.0] + SplitFrom(s, r.1).value
  {
    hide ReadToken;
    assert s[p] == s[p..p + |w|][0];
    assert SkipBlanks(s, p) == p;
  }
}
