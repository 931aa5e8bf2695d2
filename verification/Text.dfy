/** Byte-string helpers shared by the models: letter case, blank-separated token
    lists, and the argument splitter of sds.c.  Strings stand for C strings, so
    they hold no NUL; positions stand for addresses in them. */
module Text {

  datatype Option<+T> = None | Some(value: T)

  const NUL := '\0'

  /** The six characters for which C's isspace() holds. */
  predicate IsSpace(c: char) {
    c == ' ' || c == '\t' || c == '\n' || c == '\r' || c == 11 as char || c == 12 as char
  }

  function ToLower(c: char): char {
    if 'A' <= c <= 'Z' then (c as int + 32) as char else c
  }

  function Lower(s: string): (r: string)
    ensures |r| == |s|
    ensures forall i :: 0 <= i < |s| ==> r[i] == ToLower(s[i])
  {
    seq(|s|, i requires 0 <= i < |s| => ToLower(s[i]))
  }

  lemma LowerTwice(s: string)
    ensures Lower(Lower(s)) == Lower(s)
  {
  }

  /** strcasecmp(a, b) == 0 */
  predicate EqNoCase(a: string, b: string) {
    Lower(a) == Lower(b)
  }

  /** Tokens separated by single blanks, with none before the first or after the last. */
  function Join(tokens: seq<string>): string {
    if tokens == [] then ""
    else if |tokens| == 1 then tokens[0]
    else tokens[0] + " " + Join(tokens[1..])
  }

  lemma {:induction false} JoinConcat(a: seq<string>, b: seq<string>)
    ensures a == [] ==> Join(a + b) == Join(b)
    ensures b == [] ==> Join(a + b) == Join(a)
    ensures a != [] && b != [] ==> Join(a + b) == Join(a) + " " + Join(b)
  {
    if a == [] {
      assert a + b == b;
    } else if b == [] {
      assert a + b == a;
    } else if |a| == 1 {
      assert (a + b)[1..] == b;
    } else {
      assert (a + b)[1..] == a[1..] + b;
      JoinConcat(a[1..], b);
    }
  }

  predicate PlainChar(c: char) {
    c != ' ' && c != '\n' && c != '\r' && c != '\t' && c != '"' && c != '\'' && c != NUL
  }

  /** A token that survives being written into a blank-separated line and split
      again: not empty, no separator or quote inside, no blank of any kind in front. */
  predicate PlainToken(t: string) {
    t != "" && !IsSpace(t[0]) && forall i :: 0 <= i < |t| ==> PlainChar(t[i])
  }

  predicate PlainTokens(ts: seq<string>) {
    forall i :: 0 <= i < |ts| ==> PlainToken(ts[i])
  }

  datatype Quote = Bare | InDouble | InSingle

  predicate IsHexDigit(c: char) {
    '0' <= c <= '9' || 'a' <= c <= 'f' || 'A' <= c <= 'F'
  }

  function HexValue(c: char): (v: nat)
    requires IsHexDigit(c)
    ensures v < 16
  {
    if c <= '9' then c as int - '0' as int
    else if c <= 'F' then c as int - 'A' as int + 10
    else c as int - 'a' as int + 10
  }

  function Unescaped(c: char): char {
    match c
    case 'n' => '\n'
    case 'r' => '\r'
    case 't' => '\t'
    case 'b' => 8 as char
    case 'a' => 7 as char
    case _ => c
  }

  function SkipBlanks(s: string, p: nat): (q: nat)
    requires p <= |s|
    ensures p <= q <= |s|
    ensures q < |s| ==> !IsSpace(s[q])
    decreases |s| - p
  {
    if p < |s| && IsSpace(s[p]) then SkipBlanks(s, p + 1) else p
  }

  /** The inner loop of sdssplitargs: reads one token from p on, appending to cur.
      None is the unbalanced-quotes error; otherwise the token and where it stopped. */
  function ReadToken(s: string, p: nat, q: Quote, cur: string): (r: Option<(string, nat)>)
    requires p <= |s|
    ensures r.Some? ==> p <= r.value.1 <= |s|
    ensures r.Some? && p < |s| ==> p < r.value.1
    decreases |s| - p
  {
    if p == |s| then
      (if q.Bare? then Some((cur, p)) else None)
    else match q
      case Bare =>
        var c := s[p];
        if c == ' ' || c == '\n' || c == '\r' || c == '\t' then Some((cur, p + 1))
        else if c == '"' then ReadToken(s, p + 1, InDouble, cur)
        else if c == '\'' then ReadToken(s, p + 1, InSingle, cur)
        else ReadToken(s, p + 1, Bare, cur + [c])
      case InDouble =>
        if s[p] == '\\' && p + 3 < |s| && s[p + 1] == 'x' && IsHexDigit(s[p + 2]) && IsHexDigit(s[p + 3]) then
          ReadToken(s, p + 4, InDouble, cur + [(HexValue(s[p + 2]) * 16 + HexValue(s[p + 3])) as char])
        else if s[p] == '\\' && p + 1 < |s| then
          ReadToken(s, p + 2, InDouble, cur + [Unescaped(s[p + 1])])
        else if s[p] == '"' then
          (if p + 1 < |s| && !IsSpace(s[p + 1]) then None else Some((cur, p + 1)))
        else ReadToken(s, p + 1, InDouble, cur + [s[p]])
      case InSingle =>
        if s[p] == '\\' && p + 1 < |s| && s[p + 1] == '\'' then
          ReadToken(s, p + 2, InSingle, cur + ['\''])
        else if s[p] == '\'' then
          (if p + 1 < |s| && !IsSpace(s[p + 1]) then None else Some((cur, p + 1)))
        else ReadToken(s, p + 1, InSingle, cur + [s[p]])
  }

  /** sdssplitargs: None stands for the NULL it returns on unbalanced quotes. */
  function SplitFrom(s: string, p: nat): Option<seq<string>>
    requires p <= |s|
    decreases |s| - p
  {
    var start := SkipBlanks(s, p);
    if start == |s| then Some([])
    else match ReadToken(s, start, Bare, "")
      case None => None
      case Some((token, next)) =>
        match SplitFrom(s, next)
        case None => None
        case Some(rest) => Some([token] + rest)
  }

  function SplitArgs(s: string): Option<seq<string>> {
    SplitFrom(s, 0)
  }

  /** A plain token followed by a blank or the end of the line is read whole. */
  lemma {:induction false} ReadPlain(s: string, p: nat, t: string, k: nat)
    requires p + |t| <= |s| && s[p..p + |t|] == t
    requires forall i :: 0 <= i < |t| ==> PlainChar(t[i])
    requires p + |t| < |s| ==> s[p + |t|] == ' '
    requires k <= |t|
    ensures ReadToken(s, p + k, Bare, t[..k])
         == Some((t, if p + |t| < |s| then p + |t| + 1 else p + |t|))
    decreases |t| - k
  {
    if k == |t| {
      assert t[..k] == t;
    } else {
      assert s[p + k] == s[p..p + |t|][k] == t[k];
      assert PlainChar(t[k]);
      assert t[..k] + [t[k]] == t[..k + 1];
      ReadPlain(s, p, t, k + 1);
    }
  }

  /** Splitting a joined list of plain tokens gives the list back. */
  lemma {:induction false} SplitJoined(s: string, p: nat, tokens: seq<string>)
    requires p <= |s| && s[p..] == Join(tokens)
    requires PlainTokens(tokens)
    ensures SplitFrom(s, p) == Some(tokens)
    decreases |tokens|
  {
    if tokens == [] {
      assert p == |s|;
    } else {
      var t, rest := tokens[0], tokens[1..];
      assert PlainToken(t);
      assert Join(tokens)[..|t|] == t;
      assert s[p..][..|t|] == s[p..p + |t|];
      assert s[p] == t[0];
      assert PlainChar(t[0]);
      if rest == [] {
        assert |tokens| == 1;
        assert s[p + |t|..] == Join([]);
      } else {
        assert Join(tokens)[|t| + 1..] == Join(rest);
        assert Join(tokens)[|t|] == ' ';
        assert s[p..][|t| + 1..] == s[p + |t| + 1..];
        assert s[p + |t|] == s[p..][|t|];
      }
      ReadPlain(s, p, t, 0);
      assert t[..0] == "";
      var next := if p + |t| < |s| then p + |t| + 1 else p + |t|;
      SplitJoined(s, next, rest);
      assert SkipBlanks(s, p) == p;
      assert tokens == [t] + rest;
    }
  }

  /** SplitArgs(Join(ts)) == ts for plain tokens. */
  lemma SplitArgsJoin(tokens: seq<string>)
    requires PlainTokens(tokens)
    ensures SplitArgs(Join(tokens)) == Some(tokens)
  {
    assert Join(tokens)[0..] == Join(tokens);
    SplitJoined(Join(tokens), 0, tokens);
  }
}
