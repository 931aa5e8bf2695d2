/** The description of a user as one line of text, and reading such a line back:
    splitting at blanks, gathering parenthesised selectors, applying the operations. */
module AclUserText {
  import opened Text
  import opened Seqs
  import opened AclRuleText
  import opened AclCommands
  import opened AclReplay
  import opened AclSelector
  import opened AclInvariant
  import opened AclDescribe
  import opened AclUser
  import opened AclRoundTrip

  // ---------------------------------------------------------------- printing

  /** Words each followed by a blank. */
  function Spaced(ws: seq<string>): string {
    if ws == [] then "" else ws[0] + " " + Spaced(ws[1..])
  }

  /** ACLDescribeSelector */
  function DescribeSelector(s: Selector): string
    requires Printable(s)
  {
    Spaced(KeyWords(s)) + Spaced(ChannelWords(s)) + Join(CommandWords(s))
  }

  function DescribeOthers(ss: seq<Selector>): string
    requires forall i :: 0 <= i < |ss| ==> Printable(ss[i])
  {
    if ss == [] then "" else " (" + DescribeSelector(ss[0]) + ")" + DescribeOthers(ss[1..])
  }

  /** ACLDescribeUser */
  function DescribeUser(u: User): string
    requires Printable(u.root) && forall i :: 0 <= i < |u.others| ==> Printable(u.others[i])
  {
    Spaced(FlagWords(u)) + Spaced(PasswordWords(u.passwords)) + DescribeSelector(u.root) + DescribeOthers(u.others)
  }

  // ---------------------------------------------------------------- reading

  predicate BlankFree(w: string) {
    ' ' !in w
  }

  function FirstBlankAt(s: string): (r: nat)
    ensures r <= |s| && (r < |s| ==> s[r] == ' ') && BlankFree(s[..r])
  {
    if s == "" || s[0] == ' ' then 0
    else
      var r := 1 + FirstBlankAt(s[1..]);
      assert s[..r] == [s[0]] + s[1..][..r - 1];
      r
  }

  function SplitRest(s: string): seq<string> {
    var i := FirstBlankAt(s);
    if i == |s| then [s] else [s[..i]] + SplitRest(s[i + 1..])
  }

  /** sdssplitlen(line, " "): every blank separates; a line without characters has no words. */
  function SplitBlank(s: string): seq<string> {
    if s == "" then [] else SplitRest(s)
  }

  predicate Closes(op: string) {
    op != "" && op[|op| - 1] == ')'
  }

  predicate Opens(op: string) {
    op != "" && op[0] == '(' && !Closes(op)
  }

  /** ACLMergeSelectorArguments from one argument on, inside a selector or not; None when a
      parenthesis stays open. */
  function MergeFrom(args: seq<string>, open: Option<string>): Option<seq<string>>
    decreases |args|
  {
    if args == [] then (if open.None? then Some([]) else None)
    else if open.None? && Opens(args[0]) then MergeFrom(args[1..], Some(args[0]))
    else if open.Some? && !Closes(args[0]) then MergeFrom(args[1..], Some(open.value + " " + args[0]))
    else
      Prepend([if open.Some? then open.value + " " + args[0] else args[0]], MergeFrom(args[1..], None))
  }

  function Prepend(a: seq<string>, r: Option<seq<string>>): Option<seq<string>> {
    match r
    case None => None
    case Some(rest) => Some(a + rest)
  }

  lemma PrependConcat(a: seq<string>, b: seq<string>, r: Option<seq<string>>)
    ensures Prepend(a + b, r) == Prepend(a, Prepend(b, r))
    ensures Prepend([], r) == r
  {
    if r.Some? {
      assert a + b + r.value == a + (b + r.value);
      assert [] + r.value == r.value;
    }
  }

  /** An argument that opens a parenthesis which no argument before position n closes. */
  predicate Unclosed(argv: seq<string>, i: nat, n: nat)
    requires n <= |argv|
  {
    i < n && Opens(argv[i]) && forall k :: i < k < n ==> !Closes(argv[k])
  }

  /** The loop of ACLMergeSelectorArguments.  When a parenthesis stays open, `invalid` is the first
      argument that opens one which is never closed. */
  method MergeSelectorArguments(argv: seq<string>) returns (r: Option<seq<string>>, invalid: nat)
    ensures r == MergeFrom(argv, None)
    ensures r.Some? ==> forall i :: 0 <= i < |argv| ==> !Unclosed(argv, i, |argv|)
    ensures r.None? ==> Unclosed(argv, invalid, |argv|) && forall i :: 0 <= i < invalid ==> !Unclosed(argv, i, |argv|)
  {
    hide Opens, Closes, Unclosed;
    var merged: seq<string>, start: int, selector, j := [], -1, "", 0;
    assert argv[0..] == argv;
    PrependConcat([], [], MergeFrom(argv, None));
    while j < |argv|
      invariant 0 <= j <= |argv| && -1 <= start < j
      invariant MergeFrom(argv, None)
             == Prepend(merged, MergeFrom(argv[j..], if start != -1 then Some(selector) else None))
      invariant start != -1 ==> Unclosed(argv, start, j)
      invariant forall i :: 0 <= i < (if start == -1 then j else start) ==> !Unclosed(argv, i, j)
    {
      var op := argv[j];
      assert argv[j..][0] == op && argv[j..][1..] == argv[j + 1..];
      PrependConcat(merged, [if start != -1 then selector + " " + op else op], MergeFrom(argv[j + 1..], None));
      var next := j + 1;
      StaysClosed(argv, j, next);
      if start == -1 && Opens(op) {
        selector, start := op, j;
      } else if start != -1 {
        selector := selector + " " + op;
        if Closes(op) {
          start, merged := -1, merged + [selector];
          NotOpened(op);
        }
      } else {
        merged := merged + [op];
      }
      j := next;
    }
    assert merged + [] == merged;
    if start != -1 { return None, start; }
    return Some(merged), 0;
  }

  /** What is closed stays closed; an argument that closes leaves nothing open before it. */
  lemma StaysClosed(argv: seq<string>, j: nat, next: nat)
    requires j < |argv| && next == j + 1
    ensures forall i :: 0 <= i < j && !Unclosed(argv, i, j) ==> !Unclosed(argv, i, next)
    ensures Closes(argv[j]) ==> forall i :: 0 <= i < j ==> !Unclosed(argv, i, next)
    ensures !Closes(argv[j]) ==> forall i :: 0 <= i < j && Unclosed(argv, i, j) ==> Unclosed(argv, i, next)
    ensures Unclosed(argv, j, next) <==> Opens(argv[j])
  {
    hide Opens, Closes;
  }

  // ---------------------------------------------------------------- text and words

  lemma {:induction false} SpacedThenJoin(a: seq<string>, b: seq<string>)
    requires b != []
    ensures Spaced(a) + Join(b) == Join(a + b)
  {
    if a == [] {
      assert a + b == b;
    } else {
      SpacedThenJoin(a[1..], b);
      assert (a + b)[1..] == a[1..] + b;
    }
  }

  lemma FirstWord(w: string, rest: string)
    requires BlankFree(w)
    ensures var s := w + " " + rest; FirstBlankAt(s) == |w| < |s| && s[..|w|] == w && s[|w| + 1..] == rest
  {
    var s := w + " " + rest;
    assert s[|w|] == ' ';
    assert forall k :: 0 <= k < |w| ==> s[k] == w[k] != ' ';
    NoBlankUpTo(s, FirstBlankAt(s));
  }

  lemma OnlyWord(w: string)
    requires BlankFree(w)
    ensures FirstBlankAt(w) == |w|
  {
    NoBlankUpTo(w, FirstBlankAt(w));
  }

  lemma {:induction false} SplitRestJoin(ws: seq<string>)
    requires ws != [] && forall i :: 0 <= i < |ws| ==> BlankFree(ws[i])
    ensures SplitRest(Join(ws)) == ws
  {
    hide BlankFree, FirstBlankAt;
    if |ws| == 1 {
      assert ws == [ws[0]];
      OnlyWord(ws[0]);
    } else {
      FirstWord(ws[0], Join(ws[1..]));
      SplitRestJoin(ws[1..]);
      assert ws == [ws[0]] + ws[1..];
    }
  }

  lemma NoBlankUpTo(s: string, i: nat)
    requires i <= |s| && BlankFree(s[..i])
    ensures forall k :: 0 <= k < i ==> s[k] != ' '
  {
    forall k | 0 <= k < i ensures s[k] != ' ' {
      assert s[k] == s[..i][k];
    }
  }

  /** The words of a selector in parentheses. */
  function Parenthesised(ws: seq<string>): (r: seq<string>)
    requires |ws| >= 2
    ensures |r| == |ws|
  {
    ["(" + ws[0]] + ws[1..|ws| - 1] + [ws[|ws| - 1] + ")"]
  }

  lemma JoinLast(ws: seq<string>, w: string, tail: string)
    ensures Join(ws + [w + tail]) == Join(ws + [w]) + tail
  {
    JoinConcat(ws, [w + tail]);
    JoinConcat(ws, [w]);
    assert ws == [] ==> ws + [w] == [w] && ws + [w + tail] == [w + tail];
  }

  lemma JoinParenthesised(ws: seq<string>)
    requires |ws| >= 2
    ensures Join(Parenthesised(ws)) == "(" + Join(ws) + ")"
  {
    hide Join;
    var n := |ws| - 1;
    var front := ["(" + ws[0]] + ws[1..n];
    var bare := front + [ws[n]];
    SwapHead("(" + ws[0], ws);
    calc {
      Join(Parenthesised(ws));
      Join(front + [ws[n] + ")"]);
      { JoinLast(front, ws[n], ")"); }
      Join(bare) + ")";
      { JoinTwo(bare); }
      (("(" + ws[0]) + " " + Join(ws[1..])) + ")";
      { Regroup("(", ws[0], " " , Join(ws[1..])); }
      "(" + (ws[0] + " " + Join(ws[1..])) + ")";
      { JoinTwo(ws); }
      "(" + Join(ws) + ")";
    }
  }

  lemma SwapHead<T>(x: T, ws: seq<T>)
    requires |ws| >= 2
    ensures var r := [x] + ws[1..|ws| - 1] + [ws[|ws| - 1]]; r[0] == x && r[1..] == ws[1..]
  {
    var r, n := [x] + ws[1..|ws| - 1] + [ws[|ws| - 1]], |ws| - 1;
    assert r[1..] == ws[1..n] + [ws[n]];
  }

  lemma JoinTwo(ws: seq<string>)
    requires |ws| >= 2
    ensures Join(ws) == ws[0] + " " + Join(ws[1..])
  {
  }

  // ---------------------------------------------------------------- merging

  lemma {:induction false} MergePlain(a: seq<string>, rest: seq<string>)
    requires forall i :: 0 <= i < |a| ==> !Opens(a[i])
    ensures MergeFrom(a + rest, None) == Prepend(a, MergeFrom(rest, None))
  {
    if a == [] {
      assert a + rest == rest;
      PrependConcat([], [], MergeFrom(rest, None));
    } else {
      assert (a + rest)[1..] == a[1..] + rest;
      MergePlain(a[1..], rest);
      assert a == [a[0]] + a[1..];
      PrependConcat([a[0]], a[1..], MergeFrom(rest, None));
    }
  }

  /** Inside a selector, words are gathered up to the first that closes it. */
  lemma {:induction false} MergeInside(open: string, ws: seq<string>, rest: seq<string>)
    requires ws != [] && Closes(ws[|ws| - 1]) && forall i :: 0 <= i < |ws| - 1 ==> !Closes(ws[i])
    ensures MergeFrom(ws + rest, Some(open)) == Prepend([Join([open] + ws)], MergeFrom(rest, None))
    decreases |ws|
  {
    assert (ws + rest)[1..] == ws[1..] + rest;
    assert ([open] + ws)[1..] == ws;
    var longer := open + " " + ws[0];
    if |ws| == 1 {
      assert ws[1..] + rest == rest;
    } else {
      MergeInside(longer, ws[1..], rest);
      assert ([longer] + ws[1..])[1..] == ws[1..];
      assert Join([longer] + ws[1..]) == Join([open] + ws);
    }
  }

  lemma MergeParenthesised(ws: seq<string>, rest: seq<string>)
    requires |ws| >= 2 && forall i :: 0 <= i < |ws| - 1 ==> !Closes(ws[i])
    requires ws[0] != ""
    ensures MergeFrom(Parenthesised(ws) + rest, None) == Prepend(["(" + Join(ws) + ")"], MergeFrom(rest, None))
  {
    var p := Parenthesised(ws);
    assert p[0] == "(" + ws[0] && p[0][|p[0]| - 1] == ws[0][|ws[0]| - 1];
    assert Opens(p[0]);
    assert (p + rest)[1..] == p[1..] + rest;
    assert p[|p| - 1][|p[|p| - 1]| - 1] == ')';
    MergeInside(p[0], p[1..], rest);
    assert [p[0]] + p[1..] == p;
    JoinParenthesised(ws);
  }

  lemma {:induction false} JoinShorter(ws: seq<string>, n: nat)
    requires 0 < n < |ws|
    ensures |Join(ws[..n])| < |Join(ws)|
  {
    assert ws == ws[..n] + ws[n..];
    JoinConcat(ws[..n], ws[n..]);
  }

  lemma InParentheses(ws: seq<string>)
    requires |ws| >= 2 && ws[0] != ""
    ensures var p := Parenthesised(ws);
      && p[0] == "(" + ws[0] && (Closes(p[0]) <==> Closes(ws[0])) && (Opens(p[0]) <==> !Closes(ws[0]))
      && forall k :: 0 < k < |ws| - 1 ==> p[k] == ws[k]
  {
    var p := Parenthesised(ws);
    assert p[0][|p[0]| - 1] == ws[0][|ws[0]| - 1];
  }

  /** The first operation gathered from words of which word i is the first that closes. */
  lemma GatheredUpTo(p: seq<string>, i: nat)
    requires 0 < i < |p| && Opens(p[0]) && Closes(p[i]) && forall k :: 0 < k < i ==> !Closes(p[k])
    ensures MergeFrom(p, None) == Prepend([Join(p[..i + 1])], MergeFrom(p[i + 1..], None))
  {
    hide Join, Opens, Closes, MergeFrom, Prepend;
    var ws := p[1..i + 1];
    Slices(p, i);
    MergeOpened(p);
    MergeInside(p[0], ws, p[i + 1..]);
  }

  lemma Slices(p: seq<string>, i: nat)
    requires 0 < i < |p|
    ensures var ws := p[1..i + 1];
      && p[1..] == ws + p[i + 1..] && [p[0]] + ws == p[..i + 1]
      && ws[|ws| - 1] == p[i] && forall k :: 0 <= k < |ws| - 1 ==> ws[k] == p[k + 1]
  {
  }

  lemma MergeOpened(p: seq<string>)
    requires p != [] && Opens(p[0])
    ensures MergeFrom(p, None) == MergeFrom(p[1..], Some(p[0]))
  {
    hide Opens;
  }

  /** A word that closes the parenthesis before the last one ends the first operation there. */
  lemma ClosedEarly(ws: seq<string>, i: nat)
    requires |ws| >= 2 && i < |ws| - 1 && Closes(ws[i]) && forall k :: 0 <= k < i ==> !Closes(ws[k])
    requires ws[0] != ""
    ensures MergeFrom(Parenthesised(ws), None) != Some(["(" + Join(ws) + ")"])
  {
    hide Join, Parenthesised, Opens, Closes, Prepend;
    var p := Parenthesised(ws);
    InParentheses(ws);
    JoinParenthesised(ws);
    JoinShorter(p, i + 1);
    if i == 0 {
      assert p[..1] == [p[0]];
      JoinOne(p[0]);
      NotOpened(p[0]);
      FirstOf([p[0]], MergeFrom(p[1..], None));
    } else {
      hide MergeFrom;
      GatheredUpTo(p, i);
      FirstOf([Join(p[..i + 1])], MergeFrom(p[i + 1..], None));
    }
  }

  lemma NotOpened(op: string)
    requires Closes(op)
    ensures !Opens(op)
  {
  }

  lemma JoinOne(w: string)
    ensures Join([w]) == w
  {
  }

  lemma FirstOf(a: seq<string>, r: Option<seq<string>>)
    requires |a| == 1
    ensures forall x :: Prepend(a, r) == Some([x]) ==> x == a[0]
  {
    if r.Some? { assert (a + r.value)[0] == a[0]; }
  }

  /** A list of words in parentheses is gathered into one operation if and only if no word before the
      last closes the parenthesis. */
  lemma {:induction false} GatheredIff(ws: seq<string>)
    requires |ws| >= 2 && ws[0] != ""
    ensures MergeFrom(Parenthesised(ws), None) == Some(["(" + Join(ws) + ")"])
      <==> forall k :: 0 <= k < |ws| - 1 ==> !Closes(ws[k])
  {
    if k :| 0 <= k < |ws| - 1 && Closes(ws[k]) {
      var i := FirstClosing(ws, 0, k);
      ClosedEarly(ws, i);
    } else {
      MergeParenthesised(ws, []);
      assert Parenthesised(ws) + [] == Parenthesised(ws);
      assert ["(" + Join(ws) + ")"] + [] == ["(" + Join(ws) + ")"];
    }
  }

  lemma {:induction false} FirstClosing(ws: seq<string>, from: nat, k: nat) returns (i: nat)
    requires from <= k < |ws| && Closes(ws[k]) && forall j :: 0 <= j < from ==> !Closes(ws[j])
    ensures i <= k && Closes(ws[i]) && forall j :: 0 <= j < i ==> !Closes(ws[j])
    decreases k - from
  {
    if Closes(ws[from]) { i := from; } else { i := FirstClosing(ws, from + 1, k); }
  }
}
