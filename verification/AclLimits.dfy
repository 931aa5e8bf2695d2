/** Where the provisos on rules come from: exactly which accepted rules can be read back
    from the log, and when recomputing sets the ALLCOMMANDS flag. */
module AclLimits {
  import opened Text
  import opened TextExact
  import opened AclRuleText
  import opened AclCommands
  import opened AclReplay
  import opened AclSelector
  import opened AclInvariant
  import opened AclDescribe

  /** A rule that ACLSetSelector accepts, with no proviso on its spelling. */
  predicate Accepted(t: CommandTable, op: string) {
    IsRule(op) && !MeansAll(op) && Resolve(t, op[0] == '+', op[1..]).Ok?
  }

  /** The log after an accepted rule splits back into its rules exactly when the rule is a plain token. */
  lemma AcceptedRuleReadsBackIff(t: CommandTable, s: Selector, op: string)
    requires Valid(t, s) && Accepted(t, op) && RuleTokens(s.log) && NUL !in op
    ensures SetSelector(t, s, op).Ok?
    ensures var s' := SetSelector(t, s, op).value; SplitArgs(LogText(s')) == Some(s'.log) <==> PlainToken(op)
  {
    hide *;
    ValidLog(t, s);
    NewLog(t, s, op);
    LoggedAreRules(t, s.log);
    var kept := Surviving(Lower(op[1..]), s.log);
    PlainIffLower(op);
    SurvivorsArePlain(Lower(op[1..]), s.log);
    LastDecides(kept, Lower(op));
    SplitArgsJoinIff(kept + [Lower(op)]);
    LogTextIs(SetSelector(t, s, op).value);
  }

  lemma LogTextIs(s: Selector)
    ensures LogText(s) == Join(s.log)
  {
  }

  lemma NewLog(t: CommandTable, s: Selector, op: string)
    requires Valid(t, s) && Accepted(t, op) && RuleTokens(s.log)
    ensures op != "" && SetSelector(t, s, op).Ok?
    ensures SetSelector(t, s, op).value.log == Surviving(Lower(op[1..]), s.log) + [Lower(op)]
  {
    hide Resolve, KeywordOf, Valid, MeansAll, Surviving, RuleTokens;
    RuleKeyword(op);
    ValidLog(t, s);
    var allow := op[0] == '+';
    ResolveLogged(t, allow, op[1..]);
    assert Lower(op) == [op[0]] + Lower(op[1..]);
  }

  lemma PlainIffLower(op: string)
    requires NUL !in op
    ensures PlainToken(Lower(op)) <==> PlainToken(op)
    ensures forall i :: 0 <= i < |op| ==> Lower(op)[i] != NUL
  {
    forall i | 0 <= i < |op|
      ensures PlainChar(Lower(op)[i]) <==> PlainChar(op[i])
      ensures IsSpace(Lower(op)[i]) <==> IsSpace(op[i])
      ensures Lower(op)[i] != NUL
    {
      assert op[i] in op;
    }
  }

  lemma SurvivorsArePlain(name: string, tokens: seq<string>)
    requires RuleTokens(tokens) && PlainTokens(tokens)
    ensures PlainTokens(Surviving(name, tokens))
  {
    forall i | 0 <= i < |Surviving(name, tokens)|
      ensures PlainToken(Surviving(name, tokens)[i])
    {
      SurvivingExactly(name, tokens, Surviving(name, tokens)[i]);
    }
  }

  lemma LastDecides(kept: seq<string>, token: string)
    requires PlainTokens(kept) && forall i :: 0 <= i < |token| ==> token[i] != NUL
    ensures NoNul(kept + [token])
    ensures PlainTokens(kept + [token]) <==> PlainToken(token)
  {
    var all := kept + [token];
    assert all[|kept|] == token;
    forall i, j | 0 <= i < |all| && 0 <= j < |all[i]|
      ensures all[i][j] != NUL
    {
      if i < |kept| {
        assert PlainToken(kept[i]) && PlainChar(kept[i][j]);
      }
    }
    assert forall i :: 0 <= i < |kept| ==> all[i] == kept[i];
  }

  // ---------------------------------------------------------------- examples

  /** A server with the single command GET. */
  function GetOnly(): CommandTable {
    CommandTable(map["get" := Command(0, "get", 0, None)], map[])
  }

  lemma GetOnlyIsValid()
    ensures ValidTable(GetOnly())
  {
    var t := GetOnly();
    assert Lower("get") == "get";
    assert forall n, k :: n in t.commands && k in t.commands ==> SubcommandIds(t.commands[k]) == {};
  }

  lemma GetResolves(allow: bool)
    ensures Resolve(GetOnly(), allow, "get") == Ok(Resolved(SetBits({0}, allow, {0}), "get", ""))
  {
    assert Lower("get") == "get";
    assert '|' !in "get";
    assert FirstBar("get").None? && LastBar("get").None?;
    assert {0} + {} == {0};
  }

  lemma BlankResolves()
    ensures Resolve(GetOnly(), true, "get|a b") == Ok(Resolved(AddFirstArg(0, "a b"), "get|a b", "a b"))
  {
    hide Lookup, LastBar, FirstBar, Lower, GetOnly;
    assert NoBar("get|a b", 0, 3) && NoBar("get|a b", 4, 7);
    BarsAt("get|a b", 3);
    assert "get|a b"[..3] == "get" && "get|a b"[4..] == "a b";
    LowerSame();
    GetFound();
  }

  lemma LowerSame()
    ensures Lower("get|a b") == "get|a b" && Lower("a b") == "a b"
  {
  }

  lemma GetFound()
    ensures Lookup(GetOnly(), "get") == Some(Top(Command(0, "get", 0, None)))
  {
    assert Lower("get") == "get" && '|' !in "get" && FirstBar("get").None?;
  }

  lemma BlankAccepted(s: Selector)
    requires s.log == []
    ensures var r := SetSelector(GetOnly(), s, "+get|a b"); r.Ok? && r.value.log == ["+get|a b"] && r.value.bits == s.bits
  {
    hide Resolve, KeywordOf;
    var op := "+get|a b";
    assert op[1..] == "get|a b";
    BlankResolves();
    assert Lower(op)[1] == 'g';
    RuleKeyword(op);
    assert "+" + "get|a b" == op;
    assert Surviving("get|a b", s.log) == [];
  }

  lemma BlankSplits()
    ensures SplitArgs("+get|a b") == Some(["+get|a", "b"])
  {
    var argv := ["+get|a", "b"];
    assert argv[1..] == ["b"];
    assert Join(argv) == "+get|a" + " " + "b" == "+get|a b";
    assert PlainToken("+get|a") && PlainToken("b");
    SplitArgsJoin(argv);
  }

  /** A first-arg with a blank is accepted, but its log can no longer be replayed. */
  lemma BlankInFirstArgIsLost(s: Selector)
    requires s == Fresh(false)
    ensures var r := SetSelector(GetOnly(), s, "+get|a b");
      r.Ok? && r.value.log == ["+get|a b"] && |r.value.bits| == BITS && Recompute(GetOnly(), r.value).Err?
  {
    hide SetSelector, SplitArgs, RunAll, GetOnly;
    BlankAccepted(s);
    BlankSplits();
    var s' := SetSelector(GetOnly(), s, "+get|a b").value;
    assert Join(["+get|a b"]) == "+get|a b";
    LastRefused(GetOnly(), AllCommands(s', s'.bits[BITS - 1]), ["+get|a", "b"]);
  }

  lemma LastRefused(t: CommandTable, s: Selector, argv: seq<string>)
    requires argv != [] && argv[|argv| - 1] == "b"
    ensures RunAll(t, s, argv).Err?
  {
    hide RuleTokens;
    assert Lower("b") == "b";
    assert |Lower("b")| == 1;
    match RunAll(t, s, argv[..|argv| - 1])
    case Err(_) =>
    case Ok(x) => assert KeywordOf("b") == OtherWord;
  }

  lemma GetRule(s: Selector, allow: bool)
    requires RuleTokens(s.log)
    ensures Storable(Token(allow, "get"))
    ensures SetSelector(GetOnly(), s, Token(allow, "get")) == Ok(ApplyRule(s, allow, Resolved(SetBits({0}, allow, {0}), "get", "")))
  {
    hide Resolve, KeywordOf, ApplyRule;
    var op := Token(allow, "get");
    GetResolves(allow);
    assert op[1..] == "get" && '|' !in op;
    assert Lower(op)[1] == 'g';
    RuleKeyword(op);
  }

  lemma DenyGet(s: Selector)
    requires s.log == [] && |s.bits| == BITS && s.bits[BITS - 1]
    ensures var s' := ApplyRule(s, false, Resolved(SetBits({0}, false, {0}), "get", ""));
      !s'.allCommands && s'.log == ["-get"] && |s'.bits| == BITS && s'.bits[BITS - 1]
  {
    assert "-" + "get" == "-get";
    assert TouchesBitmap({0}) by { assert 0 in {0}; }
  }

  lemma AllowGet(s: Selector)
    requires s.log == ["-get"] && |s.bits| == BITS && s.bits[BITS - 1] && !s.allCommands
    ensures RuleTokens(s.log)
    ensures var s' := ApplyRule(s, true, Resolved(SetBits({0}, true, {0}), "get", ""));
      !s'.allCommands && s'.log == ["+get"] && |s'.bits| == BITS && s'.bits[BITS - 1]
  {
    assert "-get"[1..] == "get";
    assert Surviving("get", ["-get"]) == [];
    assert "+" + "get" == "+get";
  }

  /** After +@all -get +get all bits are set and the flag is not; recomputing the bitmap sets it. */
  lemma FlagIsGained(s0: Selector, s1: Selector, s2: Selector)
    requires s0 == AllCommands(Fresh(false), true)
    requires SetSelector(GetOnly(), s0, "-get") == Ok(s1)
    requires RuleTokens(s1.log) && SetSelector(GetOnly(), s1, "+get") == Ok(s2)
    ensures !s2.allCommands && |s2.bits| == BITS && Recompute(GetOnly(), s2).Ok? && Recompute(GetOnly(), s2).value.allCommands
  {
    hide SetSelector, ApplyRule, GetOnly, ValidTable, Recompute, Valid, Resolve;
    var t := GetOnly();
    GetOnlyIsValid();
    StartOnLog(t, Fresh(false), true);
    assert Token(false, "get") == "-get" && Token(true, "get") == "+get";
    GetRule(s0, false);
    DenyGet(s0);
    OperationKeepsValid(t, s0, "-get");
    GetRule(s1, true);
    AllowGet(s1);
    OperationKeepsValid(t, s1, "+get");
    ValidLog(t, s2);
    RecomputeForNewTable(t, t, s2);
    assert !Denies(t, s2.log[0]);
  }
}
