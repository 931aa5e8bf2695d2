/** The round trip of a whole user: printed, split, merged and applied to a new user. */
module AclUserRoundTrip {
  import opened Text
  import opened Seqs
  import opened AclRuleText
  import opened AclCommands
  import opened AclReplay
  import opened AclSelector
  import opened AclInvariant
  import opened AclDescribe
  import opened AclUser
  import opened AclUserInvariant
  import opened AclRoundTrip
  import opened AclUserText
  import opened TextExact

  ghost predicate SameUser(x: User, u: User) {
    && x.enabled == u.enabled && x.disabled == u.disabled && x.noPass == u.noPass
    && x.sanitize == u.sanitize && x.skipSanitize == u.skipSanitize
    && x.passwords == u.passwords
    && SameSelector(x.root, u.root)
    && |x.others| == |u.others| && forall i :: 0 <= i < |u.others| ==> SameSelector(x.others[i], u.others[i])
  }

  /** What a selector in parentheses may hold to be read back: no quotes, and no word before the
      last that would close the parenthesis. */
  ghost predicate Enclosable(s: Selector)
    requires Printable(s)
  {
    && StarFree(s)
    && PlainTokens(SelectorWords(s))
    && forall i :: 0 <= i < |SelectorWords(s)| - 1 ==> !Closes(SelectorWords(s)[i])
  }

  /** Where the round trip of a user is promised. */
  ghost predicate Rereadable(sv: Server, u: User)
    requires GoodUser(sv, u)
  {
    && StarFree(u.root)
    && forall i :: 0 <= i < |u.others| ==> GoodSelector(sv.table, u.others[i]) && Printable(u.others[i]) && Enclosable(u.others[i])
  }

  lemma GoodIsPrintable(t: CommandTable, s: Selector)
    requires GoodSelector(t, s)
    ensures Printable(s)
  {
    ValidLog(t, s);
  }

  // ---------------------------------------------------------------- the line and its words

  function LineWords(u: User): seq<string>
    requires Printable(u.root)
  {
    FlagWords(u) + PasswordWords(u.passwords) + SelectorWords(u.root)
  }

  function OtherWords(ss: seq<Selector>): seq<string>
    requires forall i :: 0 <= i < |ss| ==> Printable(ss[i])
  {
    if ss == [] then []
    else Parenthesised(SelectorWords(ss[0])) + OtherWords(ss[1..])
  }

  lemma SelectorText(s: Selector)
    requires Printable(s)
    ensures DescribeSelector(s) == Join(SelectorWords(s)) && |SelectorWords(s)| >= 2
  {
    SpacedThenJoin(ChannelWords(s), CommandWords(s));
    SpacedThenJoin(KeyWords(s), ChannelWords(s) + CommandWords(s));
    assert KeyWords(s) + (ChannelWords(s) + CommandWords(s)) == SelectorWords(s);
  }

  lemma {:induction false} OthersText(ss: seq<Selector>, front: seq<string>)
    requires front != [] && forall i :: 0 <= i < |ss| ==> Printable(ss[i])
    ensures Join(front) + DescribeOthers(ss) == Join(front + OtherWords(ss))
    decreases |ss|
  {
    hide SelectorWords, DescribeSelector, Printable, Join, Parenthesised;
    if ss == [] {
      assert front + [] == front;
    } else {
      var ws, rest := SelectorWords(ss[0]), DescribeOthers(ss[1..]);
      var p := Parenthesised(ws);
      calc {
        Join(front) + DescribeOthers(ss);
        { SelectorText(ss[0]); }
        Join(front) + (" (" + Join(ws) + ")" + rest);
        { JoinParenthesised(ws); Blanks(Join(front), Join(ws), rest); }
        Join(front) + " " + Join(p) + rest;
        { JoinConcat(front, p); }
        Join(front + p) + rest;
        { OthersText(ss[1..], front + p); }
        Join(front + p + OtherWords(ss[1..]));
        { Associates(front, p, OtherWords(ss[1..])); }
        Join(front + OtherWords(ss));
      }
    }
  }

  lemma Blanks(a: string, b: string, c: string)
    ensures a + (" (" + b + ")" + c) == a + " " + ("(" + b + ")") + c
  {
    assert " (" == " " + "(";
  }

  lemma UserText(u: User)
    requires Printable(u.root) && forall i :: 0 <= i < |u.others| ==> Printable(u.others[i])
    ensures DescribeUser(u) == Join(LineWords(u) + OtherWords(u.others))
  {
    hide SelectorWords, DescribeSelector, Printable, Join, FlagWords, Spaced;
    SelectorText(u.root);
    SpacedThenJoin(PasswordWords(u.passwords), SelectorWords(u.root));
    SpacedThenJoin(FlagWords(u), PasswordWords(u.passwords) + SelectorWords(u.root));
    assert FlagWords(u) + (PasswordWords(u.passwords) + SelectorWords(u.root)) == LineWords(u);
    OthersText(u.others, LineWords(u));
  }

  // ---------------------------------------------------------------- no word holds a blank

  ghost predicate AllBlankFree(ws: seq<string>) {
    forall i :: 0 <= i < |ws| ==> BlankFree(ws[i])
  }

  lemma SelectorWordsBlankFree(t: CommandTable, s: Selector)
    requires GoodSelector(t, s)
    ensures Printable(s) && AllBlankFree(SelectorWords(s))
  {
    hide Logged, KeywordOf, Valid;
    ValidLog(t, s);
    forall i | 0 <= i < |KeyWords(s)| ensures BlankFree(KeyWords(s)[i]) {
      if !s.allKeys { NoSpacesNoBlank(s.patterns[i].pattern); }
    }
    forall i | 0 <= i < |ChannelWords(s)| ensures BlankFree(ChannelWords(s)[i]) {
      if !s.allChannels && i > 0 { NoSpacesNoBlank(s.channels[i - 1]); }
    }
    forall i | 0 <= i < |CommandWords(s)| ensures BlankFree(CommandWords(s)[i]) {
      if i > 0 { PlainIsBlankFree(t, s.log[i - 1]); }
    }
    assert AllBlankFree(KeyWords(s)) && AllBlankFree(ChannelWords(s)) && AllBlankFree(CommandWords(s));
  }

  lemma NoSpacesNoBlank(w: string)
    requires !HasSpaces(w)
    ensures BlankFree(w)
  {
    forall i | 0 <= i < |w| ensures w[i] != ' ' {
      assert !IsSpace(w[i]);
    }
  }

  lemma PlainIsBlankFree(t: CommandTable, w: string)
    requires Logged(t, w)
    ensures BlankFree(w)
  {
  }

  lemma LineWordsBlankFree(sv: Server, u: User)
    requires GoodUser(sv, u)
    ensures Printable(u.root) && AllBlankFree(LineWords(u))
  {
    hide SelectorWords, GoodSelector;
    SelectorWordsBlankFree(sv.table, u.root);
    FlagWordsBlankFree(u);
    PasswordWordsBlankFree(sv, u);
    hide FlagWords, PasswordWords, BlankFree;
  }

  lemma FlagWordsBlankFree(u: User)
    ensures AllBlankFree(FlagWords(u))
  {
  }

  lemma PasswordWordsBlankFree(sv: Server, u: User)
    requires GoodUser(sv, u)
    ensures AllBlankFree(PasswordWords(u.passwords))
  {
    hide GoodSelector;
    forall i | 0 <= i < |u.passwords| ensures BlankFree(PasswordWords(u.passwords)[i]) {
      assert IsHash(u.passwords[i]);
    }
  }

  lemma {:induction false} OtherWordsBlankFree(t: CommandTable, ss: seq<Selector>)
    requires forall i :: 0 <= i < |ss| ==> GoodSelector(t, ss[i])
    ensures (forall i :: 0 <= i < |ss| ==> Printable(ss[i])) && AllBlankFree(OtherWords(ss))
  {
    hide SelectorWords, GoodSelector, Printable;
    forall i | 0 <= i < |ss| ensures Printable(ss[i]) {
      GoodIsPrintable(t, ss[i]);
    }
    if ss != [] {
      OtherWordsBlankFree(t, ss[1..]);
      SelectorWordsBlankFree(t, ss[0]);
      SelectorText(ss[0]);
      ParenthesisedBlankFree(SelectorWords(ss[0]));
    }
  }

  lemma ParenthesisedBlankFree(ws: seq<string>)
    requires |ws| >= 2 && AllBlankFree(ws)
    ensures AllBlankFree(Parenthesised(ws))
  {
    assert BlankFree(ws[0]) && BlankFree(ws[|ws| - 1]);
  }

  /** Splitting the line at blanks gives its words. */
  lemma LineSplits(sv: Server, u: User)
    requires GoodUser(sv, u)
    ensures Printable(u.root) && forall i :: 0 <= i < |u.others| ==> Printable(u.others[i])
    ensures SplitBlank(DescribeUser(u)) == LineWords(u) + OtherWords(u.others)
  {
    hide SelectorWords, GoodSelector, Printable, Join, FlagWords, IsHash, DescribeUser;
    LineWordsBlankFree(sv, u);
    OtherWordsBlankFree(sv.table, u.others);
    var ws := LineWords(u) + OtherWords(u.others);
    UserText(u);
    SelectorText(u.root);
    SplitRestJoin(ws);
    JoinNotEmpty(ws);
  }

  lemma JoinNotEmpty(ws: seq<string>)
    requires |ws| >= 2
    ensures Join(ws) != ""
  {
  }

  // ---------------------------------------------------------------- merging the words

  /** The operations that stand for the selectors in parentheses. */
  function OtherOps(ss: seq<Selector>): seq<string>
    requires forall i :: 0 <= i < |ss| ==> Printable(ss[i])
  {
    if ss == [] then []
    else ["(" + Join(SelectorWords(ss[0])) + ")"] + OtherOps(ss[1..])
  }

  lemma {:induction false} OthersMerge(ss: seq<Selector>)
    requires forall i :: 0 <= i < |ss| ==> Printable(ss[i]) && Enclosable(ss[i])
    ensures MergeFrom(OtherWords(ss), None) == Some(OtherOps(ss))
  {
    hide SelectorWords, Printable, Join, Parenthesised, StarFree;
    if ss != [] {
      var ws := SelectorWords(ss[0]);
      assert Enclosable(ss[0]) && PlainToken(ws[0]);
      OthersMerge(ss[1..]);
      MergeParenthesised(ws, OtherWords(ss[1..]));
    }
  }

  /** How the words of a selector start: never like a user operation or a parenthesis. */
  predicate RootWord(w: string) {
    w == "resetchannels"
    || (w != "" && (w[0] == '~' || w[0] == '%' || w[0] == '&' || w[0] == '+' || w[0] == '-'))
  }

  ghost predicate RootWords(ws: seq<string>) {
    forall i :: 0 <= i < |ws| ==> RootWord(ws[i])
  }

  lemma SelectorWordsAreRoot(t: CommandTable, s: Selector)
    requires GoodSelector(t, s)
    ensures Printable(s) && RootWords(SelectorWords(s))
  {
    hide Valid, HasSpaces;
    ValidLog(t, s);
    assert RootWords(KeyWords(s)) && RootWords(ChannelWords(s));
    forall i | 0 <= i < |CommandWords(s)| ensures RootWord(CommandWords(s)[i]) {
      if i > 0 { LoggedIsRoot(t, s.log[i - 1]); }
    }
  }

  lemma LoggedIsRoot(t: CommandTable, w: string)
    requires Logged(t, w)
    ensures RootWord(w)
  {
  }

  lemma LineWordsDoNotOpen(sv: Server, u: User)
    requires GoodUser(sv, u)
    ensures Printable(u.root) && forall i :: 0 <= i < |LineWords(u)| ==> !Opens(LineWords(u)[i])
  {
    hide SelectorWords, GoodSelector, IsHash;
    SelectorWordsAreRoot(sv.table, u.root);
    var f, p := FlagWords(u), PasswordWords(u.passwords);
    assert forall i :: 0 <= i < |f| ==> !Opens(f[i]);
    assert forall i :: 0 <= i < |p| ==> !Opens(p[i]);
    assert forall i :: 0 <= i < |SelectorWords(u.root)| ==> !Opens(SelectorWords(u.root)[i]);
  }

  // ---------------------------------------------------------------- applying the operations

  lemma {:induction false} SetUserAllConcat(sv: Server, u: User, a: seq<string>, b: seq<string>)
    ensures SetUserAll(sv, u, a + b) ==
      match SetUserAll(sv, u, a)
      case Err(e) => Err(e)
      case Ok(x) => SetUserAll(sv, x, b)
    decreases |a|
  {
    hide SetUser;
    if a == [] {
      assert a + b == b;
    } else {
      assert (a + b)[1..] == a[1..] + b;
      if SetUser(sv, u, a[0]).Ok? {
        SetUserAllConcat(sv, SetUser(sv, u, a[0]).value, a[1..], b);
      }
    }
  }

  lemma FlagWordsUnderstood()
    ensures UserWordOf("on") == OnWord && UserWordOf("off") == OffWord && UserWordOf("nopass") == NoPassWord
    ensures UserWordOf("skip-sanitize-payload") == SkipWord && UserWordOf("sanitize-payload") == SanitizeWord
  {
    assert |Lower("on")| == 2 && |Lower("off")| == 3 && |Lower("nopass")| == 6;
    assert |Lower("skip-sanitize-payload")| == 21 && |Lower("sanitize-payload")| == 16;
  }

  /** Words of a selector, passwords and parentheses are no user keyword. */
  lemma NoUserKeyword(op: string)
    requires op == "resetchannels"
      || (op != "" && (op[0] == '~' || op[0] == '%' || op[0] == '&' || op[0] == '+' || op[0] == '-'
                       || op[0] == '#' || op[0] == '('))
    ensures UserWordOf(op) == NoUserWord
  {
    assert op == "resetchannels" ==> |Lower(op)| == 13;
    assert Lower(op)[0] == ToLower(op[0]);
    assert |Lower("clearselectors")| == 14 && |Lower("reset")| == 5 && |Lower("resetpass")| == 9;
    assert |Lower("on")| == 2 && |Lower("off")| == 3 && |Lower("nopass")| == 6;
    assert |Lower("skip-sanitize-payload")| == 21 && |Lower("sanitize-payload")| == 16;
    assert Lower("clearselectors")[0] == 'c' && Lower("reset")[0] == 'r' && Lower("resetpass")[0] == 'r';
    assert Lower("on")[0] == 'o' && Lower("off")[0] == 'o' && Lower("nopass")[0] == 'n';
    assert Lower("skip-sanitize-payload")[0] == 's' && Lower("sanitize-payload")[0] == 's';
  }

  lemma OneWord(sv: Server, u: User, w: string)
    ensures SetUserAll(sv, u, [w]) == SetUser(sv, u, w)
  {
    hide SetUser;
    assert [w][1..] == [];
  }

  function WithFlags(x: User, u: User): User {
    x.(enabled := u.enabled, disabled := u.disabled, noPass := u.noPass,
       sanitize := u.sanitize, skipSanitize := u.skipSanitize)
  }

  lemma FlagsReread(sv: Server, u: User)
    requires u.enabled == !u.disabled && u.sanitize == !u.skipSanitize
    ensures SetUserAll(sv, NewUser(sv), FlagWords(u)) == Ok(WithFlags(NewUser(sv), u))
  {
    hide UserWordOf, SetUserAll;
    FlagWordsUnderstood();
    var x0 := NewUser(sv);
    var first := if u.enabled then "on" else "off";
    var pass: seq<string> := if u.noPass then ["nopass"] else [];
    var last := if u.sanitize then "sanitize-payload" else "skip-sanitize-payload";
    assert FlagWords(u) == [first] + pass + [last];
    var x1 := x0.(enabled := u.enabled, disabled := u.disabled);
    var x2 := x1.(noPass := u.noPass);
    OneWord(sv, x0, first);
    OneWord(sv, x1, "nopass");
    SetUserAllNone(sv, x1);
    OneWord(sv, x2, last);
    SetUserAllConcat(sv, x0, [first], pass);
    SetUserAllConcat(sv, x0, [first] + pass, [last]);
  }

  lemma SetUserAllNone(sv: Server, u: User)
    ensures SetUserAll(sv, u, []) == Ok(u)
  {
  }

  lemma {:induction false} PasswordsReread(sv: Server, x: User, ps: seq<string>)
    requires (forall i :: 0 <= i < |ps| ==> IsHash(ps[i]) && ps[i] !in x.passwords) && Distinct(ps)
    requires !x.noPass
    ensures SetUserAll(sv, x, PasswordWords(ps)) == Ok(x.(passwords := x.passwords + ps))
    decreases |ps|
  {
    hide SetUser, IsHash;
    if ps == [] {
      assert PasswordWords(ps) == [];
      assert x.passwords + [] == x.passwords;
    } else {
      var w := "#" + ps[0];
      var x' := x.(passwords := x.passwords + [ps[0]]);
      PasswordUnderstood(sv, x, ps[0]);
      assert PasswordWords(ps)[1..] == PasswordWords(ps[1..]);
      forall i | 0 <= i < |ps[1..]| ensures IsHash(ps[1..][i]) && ps[1..][i] !in x'.passwords {
        assert ps[1..][i] == ps[i + 1];
      }
      PasswordsReread(sv, x', ps[1..]);
      assert x.passwords + ps == x'.passwords + ps[1..];
    }
  }

  lemma PasswordUnderstood(sv: Server, x: User, h: string)
    requires IsHash(h) && h !in x.passwords && !x.noPass
    ensures SetUser(sv, x, "#" + h) == Ok(x.(passwords := x.passwords + [h]))
  {
    hide UserWordOf, IsHash;
    NoUserKeyword("#" + h);
    assert ("#" + h)[1..] == h;
  }

  function WithRoot(x: User, r: Result<Selector>): Result<User> {
    match r
    case Err(e) => Err(e)
    case Ok(s) => Ok(x.(root := s))
  }

  /** Words of a selector outside parentheses go to the root selector, in order. */
  lemma {:induction false} RootReread(sv: Server, x: User, ws: seq<string>)
    requires RootWords(ws)
    ensures SetUserAll(sv, x, ws) == WithRoot(x, RunAll(sv.table, x.root, ws))
    decreases |ws|
  {
    hide SetUser, SetSelector, RuleTokens, RootWord;
    if ws == [] {
      SetUserAllNone(sv, x);
    } else {
      var n := |ws| - 1;
      RootReread(sv, x, ws[..n]);
      SetUserAllConcat(sv, x, ws[..n], [ws[n]]);
      assert ws == ws[..n] + [ws[n]];
      if RunAll(sv.table, x.root, ws[..n]).Ok? {
        var y := x.(root := RunAll(sv.table, x.root, ws[..n]).value);
        OneWord(sv, y, ws[n]);
        RootWordUnderstood(sv, y, ws[n]);
      }
    }
  }

  lemma RootWordUnderstood(sv: Server, x: User, w: string)
    requires RootWord(w)
    ensures SetUser(sv, x, w) == SetRoot(sv, x, w)
  {
    hide UserWordOf, SetRoot;
    NoUserKeyword(w);
  }

  ghost predicate SameSelectors(xs: seq<Selector>, ss: seq<Selector>) {
    |xs| == |ss| && forall i :: 0 <= i < |ss| ==> SameSelector(xs[i], ss[i])
  }

  lemma OtherReread(sv: Server, x: User, s: Selector)
    requires GoodSelector(sv.table, s) && Printable(s) && Enclosable(s)
    ensures var op := "(" + Join(SelectorWords(s)) + ")";
      && SetUser(sv, x, op).Ok?
      && SetUser(sv, x, op).value == x.(others := SetUser(sv, x, op).value.others)
      && |SetUser(sv, x, op).value.others| == |x.others| + 1
      && SetUser(sv, x, op).value.others[..|x.others|] == x.others
      && SameSelector(SetUser(sv, x, op).value.others[|x.others|], s)
  {
    hide UserWordOf, SelectorWords, RunAll, Join, GoodSelector, StarFree, SplitArgs;
    var ws := SelectorWords(s);
    var op := "(" + Join(ws) + ")";
    assert op[1..|op| - 1] == Join(ws) && op[|op| - 1] == ')';
    NoUserKeyword(op);
    SplitArgsJoin(ws);
    SelectorReread(sv.table, s, sv.pubsubDefault);
  }

  lemma {:induction false} OthersReread(sv: Server, x: User, ss: seq<Selector>)
    requires forall i :: 0 <= i < |ss| ==>
      GoodSelector(sv.table, ss[i]) && Printable(ss[i]) && Enclosable(ss[i])
    ensures SetUserAll(sv, x, OtherOps(ss)).Ok?
    ensures var y := SetUserAll(sv, x, OtherOps(ss)).value;
      && y == x.(others := y.others)
      && |y.others| == |x.others| + |ss| && y.others[..|x.others|] == x.others
      && SameSelectors(y.others[|x.others|..], ss)
    decreases |ss|
  {
    hide SelectorWords, GoodSelector, Printable, Enclosable, SetUser, SameSelector;
    if ss != [] {
      OtherReread(sv, x, ss[0]);
      var op := "(" + Join(SelectorWords(ss[0])) + ")";
      assert OtherOps(ss)[0] == op && OtherOps(ss)[1..] == OtherOps(ss[1..]);
      var x' := SetUser(sv, x, op).value;
      OthersReread(sv, x', ss[1..]);
      var y, n := SetUserAll(sv, x', OtherOps(ss[1..])).value, |x.others|;
      assert y.others[..n] == y.others[..n + 1][..n] == x.others;
      assert y.others[n] == y.others[..n + 1][n];
      forall i | 0 <= i < |ss| ensures SameSelector(y.others[n..][i], ss[i]) {
        if i > 0 {
          assert y.others[n..][i] == y.others[n + 1..][i - 1] && ss[i] == ss[1..][i - 1];
        }
      }
    }
  }

  // ---------------------------------------------------------------- the theorem

  /** Reading a description back: split at blanks, gather the selectors, apply to a new user. */
  function Reread(sv: Server, line: string): Option<Result<User>> {
    match MergeFrom(SplitBlank(line), None)
    case None => None
    case Some(ops) => Some(SetUserAll(sv, NewUser(sv), ops))
  }

  /** The operations of a description: its words, and what is gathered from the parentheses. */
  lemma OpsOfLine(sv: Server, u: User)
    requires GoodUser(sv, u)
    ensures Printable(u.root) && forall i :: 0 <= i < |u.others| ==> Printable(u.others[i])
    ensures MergeFrom(SplitBlank(DescribeUser(u)), None) == Prepend(LineWords(u), MergeFrom(OtherWords(u.others), None))
  {
    hide LineWords, GoodSelector, DescribeUser, SplitBlank, Enclosable;
    LineSplits(sv, u);
    LineWordsDoNotOpen(sv, u);
    MergePlain(LineWords(u), OtherWords(u.others));
  }

  /** The words before the parentheses give back flags and passwords, and run on the root selector. */
  lemma LineReread(sv: Server, u: User)
    requires GoodUser(sv, u)
    ensures Printable(u.root)
    ensures SetUserAll(sv, NewUser(sv), LineWords(u)) ==
      WithRoot(WithFlags(NewUser(sv), u).(passwords := u.passwords), RunAll(sv.table, Fresh(sv.pubsubDefault), SelectorWords(u.root)))
  {
    hide GoodSelector, SelectorWords, FlagWords, SetUserAll, RunAll, Printable, IsHash;
    var x0 := NewUser(sv);
    var x1 := WithFlags(x0, u);
    SelectorWordsAreRoot(sv.table, u.root);
    var flags, pass, root := FlagWords(u), PasswordWords(u.passwords), SelectorWords(u.root);
    FlagsReread(sv, u);
    PasswordsOfUser(sv, x1, u);
    RootReread(sv, x1.(passwords := u.passwords), root);
    SetUserAllConcat(sv, x0, flags, pass);
    SetUserAllConcat(sv, x0, flags + pass, root);
  }

  /** ACLDescribeUser then ACLSetUser on a new user: the same user. */
  lemma UserRoundTrip(sv: Server, u: User)
    requires GoodServer(sv) && GoodUser(sv, u) && Rereadable(sv, u)
    ensures Printable(u.root) && forall i :: 0 <= i < |u.others| ==> Printable(u.others[i])
    ensures var r := Reread(sv, DescribeUser(u));
      r.Some? && r.value.Ok? && SameUser(r.value.value, u)
  {
    hide GoodSelector, DescribeUser, SplitBlank, Enclosable, SelectorWords, FlagWords, SetUserAll, RunAll,
         SameSelector, Printable, StarFree, ValidTable, IsHash, LineWords, OtherWords, MergeFrom;
    OpsOfLine(sv, u);
    OthersMerge(u.others);
    LineReread(sv, u);
    SelectorReread(sv.table, u.root, sv.pubsubDefault);
    SetUserAllConcat(sv, NewUser(sv), LineWords(u), OtherOps(u.others));
    var x := SetUserAll(sv, NewUser(sv), LineWords(u)).value;
    OthersReread(sv, x, u.others);
    var y := SetUserAll(sv, x, OtherOps(u.others)).value;
    assert y.others[0..] == y.others;
  }

  lemma PasswordsOfUser(sv: Server, x: User, u: User)
    requires GoodUser(sv, u) && x.passwords == [] && x.noPass == u.noPass
    ensures SetUserAll(sv, x, PasswordWords(u.passwords)) == Ok(x.(passwords := u.passwords))
  {
    hide GoodSelector, SetUserAll, IsHash;
    if u.noPass {
      assert PasswordWords(u.passwords) == [];
      SetUserAllNone(sv, x);
    } else {
      assert Distinct(u.passwords);
      PasswordsReread(sv, x, u.passwords);
      assert [] + u.passwords == u.passwords;
    }
  }

  /** The printed words of a selector in parentheses come back as those words exactly when it is
      enclosable, apart from its patterns. */
  lemma EnclosedWordsIff(s: Selector)
    requires Printable(s) && NoNul(SelectorWords(s)) && SelectorWords(s)[0] != ""
    ensures var ws := SelectorWords(s);
      (MergeFrom(Parenthesised(ws), None) == Some(["(" + Join(ws) + ")"]) && SplitArgs(Join(ws)) == Some(ws) && StarFree(s))
      <==> Enclosable(s)
  {
    hide SelectorWords, Join, SplitArgs, MergeFrom, Parenthesised, Closes, StarFree, PlainTokens, NoNul;
    GatheredIff(SelectorWords(s));
    SplitArgsJoinIff(SelectorWords(s));
  }
}
