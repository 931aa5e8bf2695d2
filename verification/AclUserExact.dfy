/** Exactly which users come back from their description.  Reading a selector back never makes it
    heavier, so one whose text loses a quote or a parenthesis on the way cannot come back. */
module AclUserExact {
  import opened Text
  import opened Seqs
  import opened TextExact
  import opened AclRuleText
  import opened AclCommands
  import opened AclReplay
  import opened AclSelector
  import opened AclInvariant
  import opened AclDescribe
  import opened AclUser
  import opened AclUserInvariant
  import opened AclRoundTrip
  import opened AclUserText
  import opened AclUserRoundTrip

  // ---------------------------------------------------------------- the weight of a selector

  function Total(ws: seq<string>): nat {
    if ws == [] then 0 else Total(ws[..|ws| - 1]) + |ws[|ws| - 1]|
  }

  lemma {:induction false} TotalConcat(a: seq<string>, b: seq<string>)
    ensures Total(a + b) == Total(a) + Total(b)
  {
    if b == [] {
      assert a + b == a;
    } else {
      var n := |b| - 1;
      assert (a + b)[..|a + b| - 1] == a + b[..n] && (a + b)[|a + b| - 1] == b[n];
      TotalConcat(a, b[..n]);
    }
  }

  function PatternTotal(ps: seq<KeyPattern>): nat {
    if ps == [] then 0 else |ps[0].pattern| + PatternTotal(ps[1..])
  }

  /** The characters in the patterns, the channels and the rules of a selector. */
  function Weight(s: Selector): nat {
    PatternTotal(s.patterns) + Total(s.channels) + Total(s.log)
  }

  /** How much an operation can add. */
  function Part(op: string): nat {
    if op == "" || op == "~*" || op == "&*" || op == "+@all" || op == "-@all" then 0
    else if op[0] == '~' || op[0] == '&' then |op| - 1
    else if op[0] == '%' then (if |op| >= 3 then |op| - 3 else 0)
    else if op[0] == '+' || op[0] == '-' then |op|
    else 0
  }

  function Parts(ops: seq<string>): nat {
    if ops == [] then 0 else Parts(ops[..|ops| - 1]) + Part(ops[|ops| - 1])
  }

  lemma {:induction false} PartsConcat(a: seq<string>, b: seq<string>)
    ensures Parts(a + b) == Parts(a) + Parts(b)
  {
    hide Part;
    if b == [] {
      assert a + b == a;
    } else {
      var n := |b| - 1;
      assert (a + b)[..|a + b| - 1] == a + b[..n] && (a + b)[|a + b| - 1] == b[n];
      PartsConcat(a, b[..n]);
    }
  }

  /** The words that may hold quotes: key patterns and channels. */
  const Quotable: set<char> := {'~', '%', '&'}

  // ---------------------------------------------------------------- operations and their weight

  lemma {:induction false} AddedPattern(ps: seq<KeyPattern>, p: KeyPattern)
    ensures PatternTotal(AddPattern(ps, p)) <= PatternTotal(ps) + |p.pattern|
  {
    if ps == [] {
      assert [p][1..] == [];
    } else {
      AddedPattern(ps[1..], p);
      assert ps[0].pattern == p.pattern ==> AddPattern(ps, p)[1..] == ps[1..];
      assert ps[0].pattern != p.pattern ==> AddPattern(ps, p)[1..] == AddPattern(ps[1..], p);
    }
  }

  lemma {:induction false} SurvivingTotal(name: string, tokens: seq<string>)
    requires RuleTokens(tokens)
    ensures Total(Surviving(name, tokens)) <= Total(tokens)
  {
    hide Supersedes, RuleToken;
    if tokens != [] {
      var rest := Surviving(name, tokens[1..]);
      SurvivingTotal(name, tokens[1..]);
      assert tokens == [tokens[0]] + tokens[1..];
      TotalConcat([tokens[0]], tokens[1..]);
      TotalConcat([tokens[0]], rest);
    }
  }

  lemma {:induction false} PermsAt(op: string, at: nat, r: bool, w: bool)
    requires at <= |op| && ParsePerms(op, at, r, w).Some?
    ensures var p := ParsePerms(op, at, r, w).value;
      && p.2 >= at && (p.0 || p.1 ==> p.2 >= at + (if r || w then 0 else 1))
      && (p.2 == |op| || p.2 >= at + 1 + (if (p.0 || p.1) && !(r || w) then 1 else 0))
      && forall i :: at <= i < p.2 ==> op[i] != ' '
    decreases |op| - at
  {
    if at < |op| {
      if (op[at] == 'R' || op[at] == 'r') && !r {
        PermsAt(op, at + 1, true, w);
      } else if (op[at] == 'W' || op[at] == 'w') && !w {
        PermsAt(op, at + 1, r, true);
      }
    }
  }

  lemma NoSpaceNoBlank(op: string, at: nat)
    requires at <= |op| && !HasSpaces(op[at..]) && forall i :: 0 <= i < at ==> op[i] != ' '
    ensures ' ' !in op
  {
    forall i | 0 <= i < |op| ensures op[i] != ' ' {
      if i >= at { assert op[i] == op[at..][i - at] && !IsSpace(op[at..][i - at]); }
    }
  }

  lemma PatternWeight(s: Selector, op: string)
    requires op != "" && (op[0] == '~' || op[0] == '%') && op != "~*" && SetKeyPattern(s, op).Ok?
    ensures Weight(SetKeyPattern(s, op).value) <= Weight(s) + Part(op) && ' ' !in op
  {
    hide HasSpaces, AddPattern, ParsePerms, Total, PatternTotal;
    var perms := if op[0] == '%' then ParsePerms(op, 1, false, false) else Some((true, true, 1));
    var (r, w, at) := perms.value;
    if op[0] == '%' { PermsAt(op, 1, false, false); }
    NoSpaceNoBlank(op, at);
    AddedPattern(s.patterns, KeyPattern(op[at..], r, w));
  }

  lemma ChannelWeight(s: Selector, op: string)
    requires op != "" && op[0] == '&' && op != "&*" && SetChannel(s, op).Ok?
    ensures Weight(SetChannel(s, op).value) <= Weight(s) + Part(op) && ' ' !in op
  {
    hide HasSpaces;
    NoSpaceNoBlank(op, 1);
    TotalConcat(s.channels, [op[1..]]);
    TotalOne(op[1..]);
  }

  lemma TotalOne(w: string)
    ensures Total([w]) == |w|
  {
    assert [w][..0] == [];
  }

  lemma NotAll(op: string)
    requires IsRule(op) && !MeansAll(op)
    ensures Part(op) == |op|
  {
  }

  lemma RuleWeight(t: CommandTable, s: Selector, op: string)
    requires ValidTable(t) && RuleTokens(s.log) && IsRule(op) && !MeansAll(op) && Resolve(t, op[0] == '+', op[1..]).Ok?
    ensures Weight(ApplyRule(s, op[0] == '+', Resolve(t, op[0] == '+', op[1..]).value)) <= Weight(s) + Part(op)
  {
    hide Resolve, Surviving, ValidTable, RuleTokens, Total, PatternTotal, MeansAll;
    var allow := op[0] == '+';
    ResolveLogged(t, allow, op[1..]);
    var r := Resolve(t, allow, op[1..]).value;
    var added := (if allow then "+" else "-") + r.name;
    SurvivingTotal(r.name, s.log);
    TotalConcat(Surviving(r.name, s.log), [added]);
    TotalOne(added);
    NotAll(op);
  }

  lemma KeywordWeight(t: CommandTable, s: Selector, op: string)
    requires RuleTokens(s.log) && KeywordOf(op) != OtherWord
    ensures SetSelector(t, s, op).Ok? && Weight(SetSelector(t, s, op).value) <= Weight(s)
    ensures op != "" && op[0] in Quotable ==> op == "~*" || op == "&*"
  {
    assert Total([]) == 0 && PatternTotal([]) == 0;
    if op != "" && op[0] in Quotable {
      NotAKeyword(op);
    }
  }

  /** An accepted operation adds no more than its part, and a pattern or channel holds no blank. */
  lemma OpWeight(t: CommandTable, s: Selector, op: string)
    requires ValidTable(t) && RuleTokens(s.log) && SetSelector(t, s, op).Ok?
    ensures Weight(SetSelector(t, s, op).value) <= Weight(s) + Part(op)
    ensures op != "" && op[0] in Quotable ==> ' ' !in op
  {
    hide KeywordOf, Weight, Part, Resolve, SetKeyPattern, SetChannel, ApplyRule, ValidTable, RuleTokens, MeansAll;
    if KeywordOf(op) != OtherWord {
      KeywordWeight(t, s, op);
    } else if op[0] == '~' || op[0] == '%' {
      NotStarred(op);
      PatternWeight(s, op);
    } else if op[0] == '&' {
      NotStarred(op);
      ChannelWeight(s, op);
    } else {
      RuleKeyword(op);
      RuleWeight(t, s, op);
    }
  }

  lemma NotStarred(op: string)
    requires KeywordOf(op) == OtherWord
    ensures op != "~*" && op != "&*"
  {
  }

  lemma {:induction false} RunWeight(t: CommandTable, s: Selector, ops: seq<string>)
    requires ValidTable(t) && RunAll(t, s, ops).Ok?
    ensures Weight(RunAll(t, s, ops).value) <= Weight(s) + Parts(ops)
    ensures NoBlanks(ops, Quotable)
  {
    hide Weight, Part, SetSelector, ValidTable, RuleTokens;
    if ops != [] {
      var n := |ops| - 1;
      RunWeight(t, s, ops[..n]);
      OpWeight(t, RunAll(t, s, ops[..n]).value, ops[n]);
      forall i | 0 <= i < |ops| && ops[i] != "" && ops[i][0] in Quotable ensures ' ' !in ops[i] {
        if i < n { assert ops[i] == ops[..n][i]; }
      }
    }
  }

  // ---------------------------------------------------------------- the words of a selector

  /** How a printed word looks. */
  predicate Shaped(w: string) {
    && Word(w, Quotable) && NUL !in w
    && (w == "resetchannels" || w[0] in Quotable || w[0] == '+' || w[0] == '-')
    && (w[0] == '%' ==> |w| >= 3 && w[2] == '~' && PlainChar(w[1]))
  }

  ghost predicate AllShaped(ws: seq<string>) {
    forall i :: 0 <= i < |ws| ==> Shaped(ws[i])
  }

  lemma SpacesSeen(w: string, prefix: string, p: string)
    requires w == prefix + p && !HasSpaces(p) && SpaceFree(prefix) && NUL !in prefix
    ensures SpaceFree(w) && NUL !in w
  {
    forall i | 0 <= i < |w| ensures !IsSpace(w[i]) && w[i] != NUL {
      if i >= |prefix| {
        assert w[i] == p[i - |prefix|];
      } else {
        assert w[i] == prefix[i];
      }
    }
  }

  lemma PatternShaped(p: KeyPattern)
    requires (p.read || p.write) && !HasSpaces(p.pattern)
    ensures Shaped(PatternToken(p))
    ensures Part(PatternToken(p)) <= |p.pattern|
  {
    hide HasSpaces;
    var prefix := if p.read && p.write then "~" else if p.read then "%R~" else "%W~";
    SpacesSeen(PatternToken(p), prefix, p.pattern);
  }

  lemma ChannelShaped(c: string)
    requires !HasSpaces(c)
    ensures Shaped("&" + c) && Part("&" + c) <= |c|
  {
    hide HasSpaces;
    SpacesSeen("&" + c, "&", c);
  }

  lemma RuleShaped(t: CommandTable, w: string)
    requires Logged(t, w)
    ensures Shaped(w) && Part(w) <= |w|
  {
    hide Resolve;
    forall i | 0 <= i < |w| ensures w[i] != NUL { assert PlainChar(w[i]); }
    assert PlainChar(w[0]);
  }

  lemma {:induction false} PatternsShaped(ps: seq<KeyPattern>)
    requires forall i :: 0 <= i < |ps| ==> (ps[i].read || ps[i].write) && !HasSpaces(ps[i].pattern)
    ensures AllShaped(PatternTokens(ps)) && Parts(PatternTokens(ps)) <= PatternTotal(ps)
  {
    hide HasSpaces, Shaped, Part, PatternToken;
    if ps != [] {
      var first, rest := PatternToken(ps[0]), PatternTokens(ps[1..]);
      PatternShaped(ps[0]);
      PatternsShaped(ps[1..]);
      assert PatternTokens(ps) == [first] + rest;
      PartsConcat([first], rest);
      PartsOne(first);
    }
  }

  lemma PartsOne(w: string)
    ensures Parts([w]) == Part(w)
  {
    hide Part;
    assert [w][..0] == [];
  }

  lemma {:induction false} ChannelsShaped(cs: seq<string>)
    requires forall i :: 0 <= i < |cs| ==> !HasSpaces(cs[i])
    ensures AllShaped(ChannelTokens(cs)) && Parts(ChannelTokens(cs)) <= Total(cs)
  {
    hide HasSpaces, Shaped, Part;
    if cs != [] {
      var n := |cs| - 1;
      ChannelShaped(cs[n]);
      ChannelsShaped(cs[..n]);
      assert ChannelTokens(cs) == ChannelTokens(cs[..n]) + ["&" + cs[n]];
      PartsConcat(ChannelTokens(cs[..n]), ["&" + cs[n]]);
      PartsOne("&" + cs[n]);
    }
  }

  lemma {:induction false} RulesShaped(t: CommandTable, log: seq<string>)
    requires AllLogged(t, log)
    ensures AllShaped(log) && Parts(log) <= Total(log)
  {
    hide Shaped, Part, Logged;
    if log != [] {
      RuleShaped(t, log[|log| - 1]);
      RulesShaped(t, log[..|log| - 1]);
    }
  }

  lemma FixedWords()
    ensures AllShaped(["~*"]) && AllShaped(["&*"]) && AllShaped(["resetchannels"]) && AllShaped(["+@all"]) && AllShaped(["-@all"])
    ensures Part("~*") == 0 && Part("&*") == 0 && Part("resetchannels") == 0 && Part("+@all") == 0 && Part("-@all") == 0
  {
  }

  lemma ShapedConcat(a: seq<string>, b: seq<string>)
    requires AllShaped(a) && AllShaped(b)
    ensures AllShaped(a + b)
  {
    hide Shaped;
  }

  lemma KeysWeight(s: Selector)
    requires SelectorShape(s)
    ensures AllShaped(KeyWords(s)) && Parts(KeyWords(s)) <= PatternTotal(s.patterns)
  {
    hide HasSpaces, Shaped, Part;
    FixedWords();
    PartsOne("~*");
    if !s.allKeys { PatternsShaped(s.patterns); }
  }

  lemma ChannelsWeight(s: Selector)
    requires SelectorShape(s)
    ensures AllShaped(ChannelWords(s)) && Parts(ChannelWords(s)) <= Total(s.channels)
  {
    hide HasSpaces, Shaped, Part;
    FixedWords();
    PartsOne("&*");
    PartsOne("resetchannels");
    if !s.allChannels {
      ChannelsShaped(s.channels);
      PartsConcat(["resetchannels"], ChannelTokens(s.channels));
    }
  }

  lemma CommandsWeight(t: CommandTable, s: Selector)
    requires AllLogged(t, s.log) && |s.bits| == BITS
    ensures AllShaped(CommandWords(s)) && Parts(CommandWords(s)) <= Total(s.log)
  {
    hide Shaped, Part, Logged;
    FixedWords();
    RulesShaped(t, s.log);
    var start := if s.bits[BITS - 1] then "+@all" else "-@all";
    PartsOne(start);
    PartsConcat([start], s.log);
  }

  /** The printed words of a selector, and their weight. */
  lemma WordsWeight(t: CommandTable, s: Selector)
    requires GoodSelector(t, s)
    ensures Printable(s) && AllShaped(SelectorWords(s)) && Parts(SelectorWords(s)) <= Weight(s)
  {
    hide SelectorShape, Valid, KeyWords, ChannelWords, CommandWords, AllShaped, Parts, AllLogged;
    ValidLog(t, s);
    KeysWeight(s);
    ChannelsWeight(s);
    CommandsWeight(t, s);
    PartsConcat(KeyWords(s), ChannelWords(s));
    PartsConcat(KeyWords(s) + ChannelWords(s), CommandWords(s));
    ShapedConcat(KeyWords(s), ChannelWords(s));
    ShapedConcat(KeyWords(s) + ChannelWords(s), CommandWords(s));
  }

  lemma SameWeight(x: Selector, s: Selector)
    requires SameSelector(x, s)
    ensures Weight(x) == Weight(s)
  {
  }

  // ---------------------------------------------------------------- words that lose characters

  lemma PartShrinks(t: string, w: string)
    requires Shaped(w) && Shrinks(t, w)
    ensures Part(t) <= Part(w) && (t != w ==> Part(t) < Part(w))
  {
    assert |w| == 3 && w[0] == '%' ==> PlainToken(w);
  }

  lemma {:induction false} PartsShrink(ts: seq<string>, ws: seq<string>)
    requires AllShaped(ws) && |ts| == |ws| && forall i :: 0 <= i < |ws| ==> Shrinks(ts[i], ws[i])
    ensures Parts(ts) <= Parts(ws) && (ts != ws ==> Parts(ts) < Parts(ws))
  {
    hide Shaped, Shrinks, Part;
    if ws != [] {
      var n := |ws| - 1;
      PartShrinks(ts[n], ws[n]);
      PartsShrink(ts[..n], ws[..n]);
      assert ts == ts[..n] + [ts[n]] && ws == ws[..n] + [ws[n]];
    }
  }

  lemma QuotesWeigh(w: string)
    requires Shaped(w) && !PlainToken(w)
    ensures Part(w) > 0
  {
    assert |w| == 1 || (|w| == 3 && w[0] == '%') ==> PlainToken(w);
  }

  lemma {:induction false} SomePartWeighs(ws: seq<string>, i: nat)
    requires i < |ws|
    ensures Part(ws[i]) <= Parts(ws)
  {
    hide Part;
    if i < |ws| - 1 { SomePartWeighs(ws[..|ws| - 1], i); }
  }

  lemma ShapedWords(ws: seq<string>)
    requires AllShaped(ws)
    ensures Words(ws, Quotable) && NoNul(ws)
  {
    hide Word;
    forall i, j | 0 <= i < |ws| && 0 <= j < |ws[i]| ensures ws[i][j] != NUL {
      assert Shaped(ws[i]) && ws[i][j] in ws[i];
    }
  }

  lemma OpSetIs(sv: Server, text: string)
    ensures var argv := SplitArgs(text);
      SelectorFromOpSet(sv, "(" + text + ")") == RunAll(sv.table, Fresh(sv.pubsubDefault), if argv.Some? then argv.value else [])
  {
    hide SplitArgs, RunAll;
    var op := "(" + text + ")";
    assert op[1..|op| - 1] == text;
  }

  lemma FreshWeight(pubsubDefault: bool)
    ensures Weight(Fresh(pubsubDefault)) == 0
  {
  }

  lemma NoOps(t: CommandTable, s: Selector)
    ensures RunAll(t, s, []) == Ok(s)
  {
  }

  /** Words read back from inside parentheses make a selector that is no heavier than they are, and
      lighter if one of them has a quote. */
  lemma ReadBackWeight(sv: Server, ws: seq<string>)
    requires ValidTable(sv.table) && AllShaped(ws) && SelectorFromOpSet(sv, "(" + Join(ws) + ")").Ok?
    ensures var x := SelectorFromOpSet(sv, "(" + Join(ws) + ")").value;
      Weight(x) <= Parts(ws) && (!PlainTokens(ws) ==> Weight(x) < Parts(ws))
  {
    hide *;
    var argv, base := SplitArgs(Join(ws)), Fresh(sv.pubsubDefault);
    OpSetIs(sv, Join(ws));
    FreshWeight(sv.pubsubDefault);
    ShapedWords(ws);
    SplitArgsJoinIff(ws);
    if argv.Some? {
      RunWeight(sv.table, base, argv.value);
      SplitArgsIs(Join(ws));
      WordsShrink(Join(ws), 0, ws, Quotable);
      PartsShrink(argv.value, ws);
    } else {
      NoOps(sv.table, base);
      var i := NotPlain(ws);
      SomePartWeighs(ws, i);
    }
  }

  lemma SplitArgsIs(s: string)
    ensures SplitArgs(s) == SplitFrom(s, 0) && s[0..] == s
  {
    hide SplitFrom;
  }

  lemma NotPlain(ws: seq<string>) returns (i: nat)
    requires AllShaped(ws) && !PlainTokens(ws)
    ensures i < |ws| && Part(ws[i]) > 0
  {
    hide PlainToken, Shaped, Part;
    i :| 0 <= i < |ws| && !PlainToken(ws[i]);
    QuotesWeigh(ws[i]);
  }

  // ---------------------------------------------------------------- words in parentheses

  /** The first word from `from` on that closes the parenthesis; the last one does. */
  function Closer(ws: seq<string>, from: nat): (i: nat)
    requires from < |ws|
    ensures from <= i < |ws| && (i < |ws| - 1 ==> AclUserText.Closes(ws[i]))
    ensures forall k :: from <= k < i ==> !AclUserText.Closes(ws[k])
    decreases |ws| - from
  {
    if from == |ws| - 1 || AclUserText.Closes(ws[from]) then from else Closer(ws, from + 1)
  }

  function Chopped(w: string): string
    requires w != ""
  {
    w[..|w| - 1]
  }

  /** The words that are gathered into the first parenthesis. */
  function Gathered(ws: seq<string>): seq<string>
    requires ws != []
  {
    var i := Closer(ws, 0);
    if i == |ws| - 1 then ws else ws[..i] + [Chopped(ws[i])]
  }

  lemma ChoppedIsLighter(w: string)
    requires Shaped(w) && AclUserText.Closes(w)
    ensures Shaped(Chopped(w)) && Part(Chopped(w)) < Part(w)
  {
    var c := Chopped(w);
    assert w != "resetchannels" && |w| >= 2;
    assert forall i :: 0 <= i < |c| ==> c[i] == w[i];
  }

  lemma GatheredIsLighter(ws: seq<string>)
    requires ws != [] && AllShaped(ws)
    ensures AllShaped(Gathered(ws)) && Parts(Gathered(ws)) <= Parts(ws)
    ensures Closer(ws, 0) < |ws| - 1 ==> Parts(Gathered(ws)) < Parts(ws)
  {
    hide *;
    var i := Closer(ws, 0);
    GatheredIs(ws);
    if i < |ws| - 1 {
      ShapedAt(ws, i);
      NotEmpty(ws[i]);
      ChoppedIsLighter(ws[i]);
      ShapedOne(Chopped(ws[i]));
      ShapedConcat(ws[..i], [Chopped(ws[i])]);
      PartsConcat(ws[..i], [Chopped(ws[i])]);
      PartsOne(Chopped(ws[i]));
      PartsAround(ws, i);
    }
  }

  lemma NotEmpty(w: string)
    requires Shaped(w)
    ensures w != ""
  {
  }

  lemma GatheredIs(ws: seq<string>)
    requires ws != []
    ensures var i := Closer(ws, 0);
      if i == |ws| - 1 then Gathered(ws) == ws else ws[i] != "" && Gathered(ws) == ws[..i] + [Chopped(ws[i])]
  {
  }

  lemma ShapedAt(ws: seq<string>, i: nat)
    requires AllShaped(ws) && i < |ws|
    ensures Shaped(ws[i]) && AllShaped(ws[..i])
  {
    hide Shaped;
  }

  lemma ShapedOne(w: string)
    requires Shaped(w)
    ensures AllShaped([w])
  {
    hide Shaped;
  }

  lemma PartsAround(ws: seq<string>, i: nat)
    requires i < |ws|
    ensures Parts(ws[..i]) + Part(ws[i]) <= Parts(ws)
  {
    hide *;
    PartsConcat(ws[..i], [ws[i]]);
    PartsOne(ws[i]);
    PartsConcat(ws[..i] + [ws[i]], ws[i + 1..]);
    assert ws == ws[..i] + [ws[i]] + ws[i + 1..];
  }

  lemma ClosersAre(s: Selector)
    requires Printable(s)
    ensures Enclosable(s) <==> StarFree(s) && PlainTokens(SelectorWords(s)) && Closer(SelectorWords(s), 0) == |SelectorWords(s)| - 1
  {
    hide StarFree, PlainTokens, SelectorWords;
  }

  /** A selector comes back from what is gathered of its text if and only if it is enclosable. */
  lemma SelectorBackIff(sv: Server, s: Selector)
    requires ValidTable(sv.table) && GoodSelector(sv.table, s)
    ensures Printable(s)
    ensures var r := SelectorFromOpSet(sv, "(" + Join(Gathered(SelectorWords(s))) + ")");
      (r.Ok? && SameSelector(r.value, s)) <==> Enclosable(s)
  {
    hide *;
    WordsWeight(sv.table, s);
    ClosersAre(s);
    var ws := SelectorWords(s);
    var r := SelectorFromOpSet(sv, "(" + Join(Gathered(ws)) + ")");
    SelectorText(s);
    GatheredIsLighter(ws);
    if Enclosable(s) || (r.Ok? && SameSelector(r.value, s)) {
      if !Enclosable(s) {
        ReadBackWeight(sv, Gathered(ws));
        SameWeight(r.value, s);
      }
      assert Closer(ws, 0) == |ws| - 1;
      GatheredIs(ws);
      assert PlainTokens(ws);
      SplitArgsJoin(ws);
      OpSetIs(sv, Join(ws));
      SelectorRoundTrip(sv.table, s, sv.pubsubDefault);
    }
  }

  lemma JoinOpened(w: string, tail: seq<string>)
    ensures Join(["(" + w] + tail) == "(" + Join([w] + tail)
  {
    assert (["(" + w] + tail)[1..] == tail && ([w] + tail)[1..] == tail;
  }

  lemma GatheredText(ws: seq<string>, i: nat)
    requires i < |ws| && AclUserText.Closes(ws[i])
    ensures Join(ws[..i + 1]) == Join(ws[..i] + [Chopped(ws[i])]) + ")"
  {
    hide Join;
    var w := ws[i];
    assert w == Chopped(w) + ")";
    assert ws[..i + 1] == ws[..i] + [w];
    JoinLast(ws[..i], Chopped(w), ")");
  }

  /** Merging starts with one operation, of what is gathered, and goes on behind the word that closed it. */
  lemma MergeGathered(ws: seq<string>, rest: seq<string>)
    requires |ws| >= 2 && ws[0] != ""
    ensures MergeFrom(Parenthesised(ws) + rest, None) ==
      Prepend(["(" + Join(Gathered(ws)) + ")"], MergeFrom(Parenthesised(ws)[Closer(ws, 0) + 1..] + rest, None))
  {
    hide Join, Prepend, MergeFrom;
    var i, p := Closer(ws, 0), Parenthesised(ws);
    if i == |ws| - 1 {
      hide AclUserText.Closes;
      MergeParenthesised(ws, rest);
      assert p[i + 1..] + rest == rest;
    } else {
      GatheredText(ws, i);
      Associates("(", Join(Gathered(ws)), ")");
      OpenedPrefix(ws, rest, i);
      if i == 0 {
        assert ws[..1] == [ws[0]];
        JoinOne(ws[0]);
        MergeClosed(p + rest);
      } else {
        InParentheses(ws);
        MergeUpTo(p + rest, ws, i);
      }
    }
  }

  lemma OpenedPrefix(ws: seq<string>, rest: seq<string>, i: nat)
    requires i < |ws| - 1
    ensures var q := Parenthesised(ws) + rest;
      && q[..i + 1] == ["(" + ws[0]] + ws[1..i + 1] && q[i + 1..] == Parenthesised(ws)[i + 1..] + rest
      && [ws[0]] + ws[1..i + 1] == ws[..i + 1]
  {
    var q := Parenthesised(ws) + rest;
    assert forall k :: 0 < k <= i ==> q[k] == ws[k];
  }

  lemma MergeClosed(q: seq<string>)
    requires q != [] && AclUserText.Closes(q[0])
    ensures MergeFrom(q, None) == Prepend([q[0]], MergeFrom(q[1..], None))
  {
    NotOpened(q[0]);
  }

  lemma MergeUpTo(q: seq<string>, ws: seq<string>, i: nat)
    requires 0 < i < |ws| - 1 && |ws| <= |q| && Opens(q[0]) && q[..i + 1] == ["(" + ws[0]] + ws[1..i + 1]
    requires AclUserText.Closes(ws[i]) && forall k :: 0 < k < i ==> !AclUserText.Closes(ws[k])
    ensures MergeFrom(q, None) == Prepend(["(" + Join(ws[..i + 1])], MergeFrom(q[i + 1..], None))
  {
    hide Join, Prepend, MergeFrom, Opens, AclUserText.Closes;
    assert forall k :: 0 < k <= i ==> q[k] == q[..i + 1][k] == ws[k];
    GatheredUpTo(q, i);
    JoinOpened(ws[0], ws[1..i + 1]);
    assert [ws[0]] + ws[1..i + 1] == ws[..i + 1];
  }

  // ---------------------------------------------------------------- what the rest of a line does

  /** The words behind the passwords: of a selector, or opening a parenthesis. */
  predicate GrowWord(w: string) {
    w == "resetchannels" || (w != "" && (w[0] in Quotable || w[0] == '+' || w[0] == '-' || w[0] == '('))
  }

  ghost predicate GrowWords(ws: seq<string>) {
    forall i :: 0 <= i < |ws| ==> GrowWord(ws[i])
  }

  /** Later selectors are added behind the earlier ones, and ALLKEYS of the root stays. */
  ghost predicate Grown(x: User, y: User) {
    x.others <= y.others && (x.root.allKeys ==> y.root.allKeys)
  }

  lemma NoResetKeys(w: string)
    requires GrowWord(w)
    ensures KeywordOf(w) != ResetKeysWord
  {
    assert Lower(w)[0] == ToLower(w[0]);
    assert Lower("resetkeys")[0] == 'r' && |Lower("resetkeys")| == 9 && |Lower("resetchannels")| == 13;
  }

  lemma GrowStep(sv: Server, x: User, op: string)
    requires GrowWord(op) && SetUser(sv, x, op).Ok?
    ensures Grown(x, SetUser(sv, x, op).value)
  {
    hide UserWordOf, SelectorFromOpSet, KeywordOf, RunAll, SetSelector, RuleTokens, GrowWord;
    GrowIsNoKeyword(op);
    NoResetKeys(op);
    if x.root.allKeys && RuleTokens(x.root.log) {
      OneOp(sv.table, x.root, op);
      AllKeysSticks(sv.table, x.root, [op]);
    }
  }

  lemma OneOp(t: CommandTable, s: Selector, op: string)
    requires RuleTokens(s.log)
    ensures RunAll(t, s, [op]) == SetSelector(t, s, op)
  {
    hide SetSelector, RuleTokens;
    assert [op][..0] == [];
  }

  lemma GrowIsNoKeyword(op: string)
    requires GrowWord(op)
    ensures UserWordOf(op) == NoUserWord && op != "" && op[0] != '>' && op[0] != '#' && op[0] != '<' && op[0] != '!'
  {
    NoUserKeyword(op);
  }

  lemma {:induction false} Grow(sv: Server, x: User, ops: seq<string>)
    requires GrowWords(ops) && SetUserAll(sv, x, ops).Ok?
    ensures Grown(x, SetUserAll(sv, x, ops).value)
    decreases |ops|
  {
    hide SetUser, GrowWord;
    if ops != [] {
      GrowStep(sv, x, ops[0]);
      Grow(sv, SetUser(sv, x, ops[0]).value, ops[1..]);
    }
  }

  lemma {:induction false} MergedGrow(args: seq<string>, open: Option<string>)
    requires GrowWords(args) && (open.Some? ==> open.value != "" && open.value[0] == '(')
    requires MergeFrom(args, open).Some?
    ensures GrowWords(MergeFrom(args, open).value)
    decreases |args|
  {
    if args != [] {
      var w, rest := args[0], args[1..];
      if open.None? && Opens(w) {
        MergedGrow(rest, Some(w));
      } else if open.Some? && !AclUserText.Closes(w) {
        MergedGrow(rest, Some(open.value + " " + w));
      } else {
        MergedGrow(rest, None);
      }
    }
  }

  // ---------------------------------------------------------------- the theorem

  lemma LastWord(t: CommandTable, s: Selector)
    requires GoodSelector(t, s)
    ensures Printable(s)
    ensures var w := SelectorWords(s)[|SelectorWords(s)| - 1]; w != "" && (w[0] == '+' || w[0] == '-')
  {
    hide Valid, Resolve, HasSpaces;
    ValidLog(t, s);
    var n := |s.log|;
    assert n > 0 ==> Logged(t, s.log[n - 1]);
    assert CommandWords(s)[n] == if n == 0 then CommandWords(s)[0] else s.log[n - 1];
    assert SelectorWords(s)[|SelectorWords(s)| - 1] == CommandWords(s)[n];
  }

  lemma ParenthesisedGrow(ws: seq<string>)
    requires |ws| >= 2 && AllShaped(ws)
    requires var w := ws[|ws| - 1]; w != "" && (w[0] == '+' || w[0] == '-')
    ensures GrowWords(Parenthesised(ws))
  {
    hide Word, PlainChar;
    var p := Parenthesised(ws);
    forall i | 0 <= i < |p| ensures GrowWord(p[i]) {
      NotEmpty(ws[i]);
      if i == 0 {
        assert p[i] == "(" + ws[0];
      } else if i == |ws| - 1 {
        assert p[i] == ws[i] + ")" && p[i][0] == ws[i][0];
      } else {
        assert p[i] == ws[i];
      }
    }
  }

  lemma {:induction false} OtherWordsGrow(t: CommandTable, ss: seq<Selector>)
    requires forall i :: 0 <= i < |ss| ==> GoodSelector(t, ss[i])
    ensures (forall i :: 0 <= i < |ss| ==> Printable(ss[i])) && GrowWords(OtherWords(ss))
  {
    hide GoodSelector, Printable, SelectorWords, GrowWord, Shaped, Parenthesised;
    forall i | 0 <= i < |ss| ensures Printable(ss[i]) {
      GoodIsPrintable(t, ss[i]);
    }
    if ss != [] {
      OtherWordsGrow(t, ss[1..]);
      WordsWeight(t, ss[0]);
      LastWord(t, ss[0]);
      ParenthesisedGrow(SelectorWords(ss[0]));
    }
  }

  lemma OpenOp(sv: Server, x: User, text: string)
    ensures var op := "(" + text + ")";
      var r := SelectorFromOpSet(sv, op);
      SetUser(sv, x, op) == match r
        case Err(e) => Err(e)
        case Ok(s) => Ok(x.(others := x.others + [s]))
  {
    hide UserWordOf, SelectorFromOpSet, SetRoot;
    var op := "(" + text + ")";
    NoUserKeyword(op);
  }

  lemma FirstMerged(a: string, r: Option<seq<string>>)
    requires Prepend([a], r).Some?
    ensures r.Some? && Prepend([a], r).value != [] && Prepend([a], r).value[0] == a && Prepend([a], r).value[1..] == r.value
  {
  }

  /** The same as it was, from one selector on. */
  ghost predicate BackFrom(y: User, n: nat, ss: seq<Selector>) {
    |y.others| == n + |ss| && forall i :: 0 <= i < |ss| ==> SameSelector(y.others[n + i], ss[i])
  }

  /** The first selector of a line: it comes back only if it is enclosable. */
  lemma FirstBack(sv: Server, x: User, s: Selector, rest: seq<string>, ops: seq<string>, y: User)
    requires ValidTable(sv.table) && GoodSelector(sv.table, s) && Printable(s) && GrowWords(rest)
    requires MergeFrom(Parenthesised(SelectorWords(s)) + rest, None) == Some(ops) && SetUserAll(sv, x, ops) == Ok(y)
    requires |x.others| < |y.others| && SameSelector(y.others[|x.others|], s)
    ensures Enclosable(s)
    ensures ops != [] && MergeFrom(rest, None) == Some(ops[1..])
    ensures exists x' :: SetUserAll(sv, x', ops[1..]) == Ok(y) && |x'.others| == |x.others| + 1
  {
    hide *;
    var ws := SelectorWords(s);
    var i, p, op := Closer(ws, 0), Parenthesised(ws), "(" + Join(Gathered(ws)) + ")";
    SelectorText(s);
    WordsWeight(sv.table, s);
    ShapedAt(ws, 0);
    NotEmpty(ws[0]);
    LastWord(sv.table, s);
    ParenthesisedGrow(ws);
    MergeGathered(ws, rest);
    FirstMerged(op, MergeFrom(p[i + 1..] + rest, None));
    GrowTail(p, i + 1, rest);
    MergedGrow(p[i + 1..] + rest, None);
    FirstApplied(sv, x, ops);
    OpenOp(sv, x, Join(Gathered(ws)));
    var x' := SetUser(sv, x, op).value;
    Grow(sv, x', ops[1..]);
    GrownAt(x, x', y);
    SelectorBackIff(sv, s);
    ClosersAre(s);
    assert p[i + 1..] + rest == rest;
  }

  lemma GrowTail(p: seq<string>, i: nat, rest: seq<string>)
    requires i <= |p| && GrowWords(p) && GrowWords(rest)
    ensures GrowWords(p[i..] + rest)
  {
    hide GrowWord;
  }

  lemma FirstApplied(sv: Server, x: User, ops: seq<string>)
    requires ops != [] && SetUserAll(sv, x, ops).Ok?
    ensures SetUser(sv, x, ops[0]).Ok? && SetUserAll(sv, x, ops) == SetUserAll(sv, SetUser(sv, x, ops[0]).value, ops[1..])
  {
    hide SetUser;
  }

  lemma GrownAt(x: User, x': User, y: User)
    requires |x'.others| == |x.others| + 1 && Grown(x', y)
    ensures |x.others| < |y.others| && y.others[|x.others|] == x'.others[|x.others|]
  {
  }

  lemma {:induction false} OthersBack(sv: Server, x: User, ss: seq<Selector>, ops: seq<string>, y: User)
    requires ValidTable(sv.table) && forall i :: 0 <= i < |ss| ==> GoodSelector(sv.table, ss[i]) && Printable(ss[i])
    requires MergeFrom(OtherWords(ss), None) == Some(ops) && SetUserAll(sv, x, ops) == Ok(y) && BackFrom(y, |x.others|, ss)
    ensures forall i :: 0 <= i < |ss| ==> Enclosable(ss[i])
    decreases |ss|
  {
    hide ValidTable, GoodSelector, Printable, SelectorWords, MergeFrom, SetUserAll, Enclosable, SameSelector, Parenthesised, GrowWords;
    if ss != [] {
      var rest := OtherWords(ss[1..]);
      OtherWordsGrow(sv.table, ss[1..]);
      assert SameSelector(y.others[|x.others| + 0], ss[0]);
      FirstBack(sv, x, ss[0], rest, ops, y);
      var x' :| SetUserAll(sv, x', ops[1..]) == Ok(y) && |x'.others| == |x.others| + 1;
      forall i | 0 <= i < |ss| - 1 ensures SameSelector(y.others[|x'.others| + i], ss[1..][i]) {
        assert SameSelector(y.others[|x.others| + (i + 1)], ss[i + 1]);
      }
      OthersBack(sv, x', ss[1..], ops[1..], y);
    }
  }

  /** A root selector with a stored star comes back with ALLKEYS, whatever follows. */
  lemma RootBack(sv: Server, u: User, x: User, ops: seq<string>, y: User)
    requires GoodSelector(sv.table, u.root) && Printable(u.root) && GrowWords(ops)
    requires RunAll(sv.table, Fresh(sv.pubsubDefault), SelectorWords(u.root)) == Ok(x.root)
    requires SetUserAll(sv, x, ops) == Ok(y) && SameSelector(y.root, u.root)
    ensures StarFree(u.root)
  {
    hide SelectorWords, RunAll, Valid, SetUserAll, GrowWords, HasSpaces;
    if !StarFree(u.root) {
      var k := FirstStar(u.root.patterns);
      StarIsLost(sv.table, u.root, sv.pubsubDefault, k);
      Grow(sv, x, ops);
      assert false;
    }
  }

  lemma UserBack(sv: Server, u: User)
    requires GoodServer(sv) && GoodUser(sv, u) && Printable(u.root) && forall i :: 0 <= i < |u.others| ==> Printable(u.others[i])
    requires var r := Reread(sv, DescribeUser(u)); r.Some? && r.value.Ok? && SameUser(r.value.value, u)
    ensures Rereadable(sv, u)
  {
    hide GoodSelector, DescribeUser, SplitBlank, Enclosable, SelectorWords, SetUserAll, RunAll, SameSelector, Printable,
      StarFree, ValidTable, IsHash, LineWords, OtherWords, MergeFrom, GrowWords;
    var y := Reread(sv, DescribeUser(u)).value.value;
    OpsOfLine(sv, u);
    var ops := MergeFrom(OtherWords(u.others), None).value;
    SetUserAllConcat(sv, NewUser(sv), LineWords(u), ops);
    LineReread(sv, u);
    var x := SetUserAll(sv, NewUser(sv), LineWords(u)).value;
    OtherWordsGrow(sv.table, u.others);
    MergedGrow(OtherWords(u.others), None);
    RootBack(sv, u, x, ops, y);
    OthersBack(sv, x, u.others, ops, y);
  }

  /** ACLDescribeUser then ACLSetUser on a new user gives the same user if and only if no pattern is "*"
      with both permissions, and no selector in parentheses holds a quote or closes too early. */
  lemma UserRoundTripIff(sv: Server, u: User)
    requires GoodServer(sv) && GoodUser(sv, u)
    ensures Printable(u.root) && forall i :: 0 <= i < |u.others| ==> Printable(u.others[i])
    ensures var r := Reread(sv, DescribeUser(u));
      (r.Some? && r.value.Ok? && SameUser(r.value.value, u)) <==> Rereadable(sv, u)
  {
    hide *;
    OpsOfLine(sv, u);
    if Rereadable(sv, u) {
      UserRoundTrip(sv, u);
    } else if Reread(sv, DescribeUser(u)).Some? && Reread(sv, DescribeUser(u)).value.Ok? && SameUser(Reread(sv, DescribeUser(u)).value.value, u) {
      UserBack(sv, u);
      assert false;
    }
  }
}
