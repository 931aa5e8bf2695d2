/** Whole runs: every reachable selector has a faithful log, the sanity check of
    ACLDescribeSelectorCommandRules never fires, and the bitmaps can be recomputed
    from the logs when the command table changes. */
module AclDescribe {
  import opened Text
  import opened AclRuleText
  import opened AclCommands
  import opened AclReplay
  import opened AclSelector
  import opened AclInvariant

  lemma StartOnLog(t: CommandTable, s: Selector, all: bool)
    requires ValidTable(t)
    ensures Valid(t, AllCommands(s, all))
    ensures PermsOf(AllCommands(s, all)) == Start(all)
  {
    var s' := AllCommands(s, all);
    assert ArgCells(s'.args) == {};
    assert s'.bits == Start(all).bits;
  }

  lemma FreshIsValid(t: CommandTable, pubsubDefault: bool)
    requires ValidTable(t)
    ensures Valid(t, Fresh(pubsubDefault))
  {
    StartOnLog(t, Fresh(pubsubDefault), false);
    assert ArgCells(map[]) == {};
  }

  /** Keys, channels and flags are apart from the log. */
  lemma SameLogStaysValid(t: CommandTable, s: Selector, s': Selector)
    requires Valid(t, s)
    requires s'.bits == s.bits && s'.args == s.args && s'.log == s.log && s'.allCommands == s.allCommands
    ensures Valid(t, s')
  {
  }

  /** A rule is no keyword, except "+@all" and "-@all". */
  lemma RuleKeyword(op: string)
    requires IsRule(op)
    ensures MeansAll(op) <==> KeywordOf(op) != OtherWord
    ensures MeansAll(op) ==> KeywordOf(op).AllCommandsWord? || KeywordOf(op).NoCommandsWord?
  {
    assert Lower(op)[0] == op[0];
  }

  /** Every operation, accepted or refused, keeps the invariant. */
  lemma OperationKeepsValid(t: CommandTable, s: Selector, op: string)
    requires Valid(t, s) && Storable(op)
    ensures RuleTokens(s.log)
    ensures SetSelector(t, s, op).Ok? ==> Valid(t, SetSelector(t, s, op).value)
  {
    hide KeywordOf, Resolve, Valid, Storable, ApplyRule, MeansAll;
    assert RuleTokens(s.log) by { ValidLog(t, s); }
    StartOnLogOf(t, s);
    if IsRule(op) {
      RuleKeyword(op);
      if AcceptedRule(t, op) {
        RuleKeepsValid(t, s, op);
      }
    } else if SetSelector(t, s, op).Ok? && !KeywordOf(op).AllCommandsWord? && !KeywordOf(op).NoCommandsWord? {
      SameLogStaysValid(t, s, SetSelector(t, s, op).value);
    }
  }

  lemma ValidLog(t: CommandTable, s: Selector)
    requires Valid(t, s)
    ensures ValidTable(t) && RuleTokens(s.log) && AllLogged(t, s.log) && |s.bits| == BITS
  {
    LoggedAreRules(t, s.log);
  }

  lemma StartOnLogOf(t: CommandTable, s: Selector)
    requires Valid(t, s)
    ensures Valid(t, AllCommands(s, true)) && Valid(t, AllCommands(s, false))
  {
    StartOnLog(t, s, true);
    StartOnLog(t, s, false);
  }

  /** A run of ACL operations: a refused one changes nothing. */
  ghost function Run(t: CommandTable, s: Selector, ops: seq<string>): (r: Selector)
    requires Valid(t, s) && forall i :: 0 <= i < |ops| ==> Storable(ops[i])
    ensures Valid(t, r)
    decreases |ops|
  {
    if ops == [] then s
    else
      OperationKeepsValid(t, s, ops[0]);
      match SetSelector(t, s, ops[0])
      case Err(_) => Run(t, s, ops[1..])
      case Ok(s') => Run(t, s', ops[1..])
  }

  /** A list of operations of which none may be refused (serverAssert(res == C_OK)). */
  function RunAll(t: CommandTable, s: Selector, ops: seq<string>): Result<Selector> {
    if ops == [] then Ok(s)
    else
      match RunAll(t, s, ops[..|ops| - 1])
      case Err(e) => Err(e)
      case Ok(x) => if RuleTokens(x.log) then SetSelector(t, x, ops[|ops| - 1]) else Err(EINVAL)
  }

  lemma {:induction false} RunAllConcat(t: CommandTable, s: Selector, a: seq<string>, b: seq<string>)
    ensures RunAll(t, s, a + b) ==
      match RunAll(t, s, a)
      case Err(e) => Err(e)
      case Ok(x) => RunAll(t, x, b)
  {
    hide SetSelector, RuleTokens;
    if b == [] {
      assert a + b == a;
    } else {
      assert (a + b)[..|a + b| - 1] == a + b[..|b| - 1];
      RunAllConcat(t, s, a, b[..|b| - 1]);
    }
  }

  lemma {:induction false} NothingSuperseded(name: string, tokens: seq<string>)
    requires RuleTokens(tokens)
    requires forall i :: 0 <= i < |tokens| ==> !Supersedes(name, NameOf(tokens[i]))
    ensures Surviving(name, tokens) == tokens
  {
    if tokens != [] {
      assert RuleToken(tokens[0]);
      assert NameOf(tokens[0]) == tokens[0][1..];
      forall i | 0 <= i < |tokens[1..]| ensures !Supersedes(name, NameOf(tokens[1..][i])) {
        assert tokens[1..][i] == tokens[i + 1];
      }
      NothingSuperseded(name, tokens[1..]);
    }
  }

  /** Running one logged rule again is ApplyRule. */
  lemma RerunStep(t: CommandTable, x: Selector, token: string)
    requires RuleTokens(x.log) && Logged(t, token)
    ensures SetSelector(t, x, token) == Ok(ApplyRule(x, Allows(token), Resolve(t, Allows(token), NameOf(token)).value))
    ensures AcceptedRule(t, token)
  {
    hide Resolve;
    RuleKeyword(token);
  }

  /** What running a log again, from all ones or all zeros, leads to. */
  ghost predicate Rerun(t: CommandTable, base: Selector, all: bool, log: seq<string>, x: Selector)
    requires AllLogged(t, log)
  {
    && x.log == log
    && PermsOf(x) == Replay(t, log, Start(all))
    && x.allCommands == (all && forall i :: 0 <= i < |log| ==> !Denies(t, log[i]))
    && x.allKeys == base.allKeys && x.allChannels == base.allChannels
    && x.patterns == base.patterns && x.channels == base.channels
  }

  lemma {:induction false} RerunPrefix(t: CommandTable, base: Selector, all: bool, log: seq<string>, n: nat)
    requires ValidTable(t) && AllLogged(t, log) && Compact(log) && n <= |log|
    ensures AllLogged(t, log[..n])
    ensures RunAll(t, AllCommands(base, all), log[..n]).Ok?
    ensures Rerun(t, base, all, log[..n], RunAll(t, AllCommands(base, all), log[..n]).value)
  {
    hide Resolve, ValidTable, SetSelector, ApplyRule, Supersedes, MeansAll, Denies;
    if n == 0 {
      StartOnLog(t, base, all);
    } else {
      var shorter, token := log[..n - 1], log[n - 1];
      assert log[..n][..n - 1] == shorter && log[..n] == shorter + [token];
      RerunPrefix(t, base, all, log, n - 1);
      var x := RunAll(t, AllCommands(base, all), shorter).value;
      LoggedAreRules(t, shorter);
      RerunStep(t, x, token);
      RerunOne(t, base, all, shorter, token, x);
    }
  }

  lemma RerunOne(t: CommandTable, base: Selector, all: bool, log: seq<string>, token: string, x: Selector)
    requires ValidTable(t) && AllLogged(t, log) && Logged(t, token) && RuleTokens(log)
    requires forall i :: 0 <= i < |log| ==> !Supersedes(NameOf(token), NameOf(log[i]))
    requires Rerun(t, base, all, log, x)
    ensures AllLogged(t, log + [token])
    ensures Rerun(t, base, all, log + [token],
                  ApplyRule(x, Allows(token), Resolve(t, Allows(token), NameOf(token)).value))
  {
    hide *;
    var allow := Allows(token);
    LoggedAreAll(t, log, token);
    var r := Resolve(t, allow, NameOf(token)).value;
    RerunRest(base, all, t, log, token, x);
    RerunPerms(t, base, all, log, token, x);
    RerunFlag(t, base, all, log, token, x);
    RerunIs(t, base, all, log + [token], ApplyRule(x, allow, r));
  }

  lemma RerunIs(t: CommandTable, base: Selector, all: bool, log: seq<string>, x: Selector)
    requires AllLogged(t, log)
    ensures Rerun(t, base, all, log, x) <==>
      && x.log == log && PermsOf(x) == Replay(t, log, Start(all))
      && x.allCommands == (all && forall i :: 0 <= i < |log| ==> !Denies(t, log[i]))
      && x.allKeys == base.allKeys && x.allChannels == base.allChannels && x.patterns == base.patterns && x.channels == base.channels
  {
  }

  lemma LoggedAreAll(t: CommandTable, log: seq<string>, token: string)
    requires AllLogged(t, log) && Logged(t, token)
    ensures AllLogged(t, log + [token]) && token != "" && Resolve(t, Allows(token), NameOf(token)).Ok?
  {
    hide Resolve;
  }

  /** The log grows by the rule; keys and channels stay. */
  lemma RerunRest(base: Selector, all: bool, t: CommandTable, log: seq<string>, token: string, x: Selector)
    requires ValidTable(t) && AllLogged(t, log) && Logged(t, token) && RuleTokens(log) && Rerun(t, base, all, log, x)
    requires forall i :: 0 <= i < |log| ==> !Supersedes(NameOf(token), NameOf(log[i]))
    ensures RuleTokens(x.log)
    ensures var y := ApplyRule(x, Allows(token), Resolve(t, Allows(token), NameOf(token)).value);
      && y.log == log + [token]
      && y.allKeys == base.allKeys && y.allChannels == base.allChannels && y.patterns == base.patterns && y.channels == base.channels
  {
    hide Resolve, ValidTable, MeansAll, Supersedes, Replay, Denies, PermsOf, Surviving, RuleTokens;
    var r := Resolve(t, Allows(token), NameOf(token)).value;
    NothingSuperseded(r.name, log);
    assert token == [token[0]] + token[1..];
    assert Token(Allows(token), r.name) == token;
  }

  lemma RerunPerms(t: CommandTable, base: Selector, all: bool, log: seq<string>, token: string, x: Selector)
    requires ValidTable(t) && AllLogged(t, log) && Logged(t, token) && RuleTokens(x.log) && Rerun(t, base, all, log, x)
    ensures AllLogged(t, log + [token])
    ensures PermsOf(ApplyRule(x, Allows(token), Resolve(t, Allows(token), NameOf(token)).value)) == Replay(t, log + [token], Start(all))
  {
    hide Resolve, ValidTable, MeansAll, Put, Supersedes, ApplyRule, PermsOf, Replay, PlainToken, Denies;
    ResolvedShape(t, Allows(token), NameOf(token));
    ApplyRulePuts(x, Allows(token), Resolve(t, Allows(token), NameOf(token)).value);
    ReplayAppend(t, log, token, Start(all));
  }

  lemma RerunFlag(t: CommandTable, base: Selector, all: bool, log: seq<string>, token: string, x: Selector)
    requires AllLogged(t, log) && Logged(t, token) && RuleTokens(x.log) && Rerun(t, base, all, log, x)
    ensures AllLogged(t, log + [token])
    ensures ApplyRule(x, Allows(token), Resolve(t, Allows(token), NameOf(token)).value).allCommands
         == (all && forall i :: 0 <= i < |log + [token]| ==> !Denies(t, (log + [token])[i]))
  {
    hide Resolve, ApplyRule, PermsOf, Replay, Denies, Logged, Rerun;
    LoggedAreAll(t, log, token);
    RerunIs(t, base, all, log, x);
    FlagAfter(t, token, x);
    NoDenialsAppend(t, log, token);
  }

  lemma NoDenialsAppend(t: CommandTable, log: seq<string>, token: string)
    requires AllLogged(t, log) && Logged(t, token) && AllLogged(t, log + [token])
    ensures (forall i :: 0 <= i < |log + [token]| ==> !Denies(t, (log + [token])[i]))
       <==> (forall i :: 0 <= i < |log| ==> !Denies(t, log[i])) && !Denies(t, token)
  {
    hide Denies, Logged;
    var log' := log + [token];
    assert forall i :: 0 <= i < |log| ==> log'[i] == log[i];
    assert log'[|log|] == token;
  }

  lemma FlagAfter(t: CommandTable, token: string, x: Selector)
    requires Logged(t, token) && RuleTokens(x.log)
    ensures ApplyRule(x, Allows(token), Resolve(t, Allows(token), NameOf(token)).value).allCommands == (x.allCommands && !Denies(t, token))
  {
    hide Resolve;
    ResolvedShape(t, Allows(token), NameOf(token));
  }

  /** ACLDescribeSelectorCommandRules: the log text splits into the log, every rule is
      accepted by the fake selector, and its bitmap is the one of the real selector. */
  lemma DescribeNeverPanics(t: CommandTable, s: Selector, pubsubDefault: bool)
    requires Valid(t, s)
    ensures SplitArgs(LogText(s)) == Some(s.log)
    ensures var fake := RunAll(t, AllCommands(Fresh(pubsubDefault), s.bits[BITS - 1]), s.log);
      fake.Ok? && fake.value.bits == s.bits && fake.value.log == s.log && ArgCells(fake.value.args) == ArgCells(s.args)
  {
    LoggedAreRules(t, s.log);
    SplitArgsJoin(s.log);
    RerunPrefix(t, Fresh(pubsubDefault), s.bits[BITS - 1], s.log, |s.log|);
    assert s.log[..|s.log|] == s.log;
  }

  /** ACLRecomputeCommandBitsFromCommandRulesAllUsers on one selector. */
  ghost function Recompute(t: CommandTable, s: Selector): Result<Selector>
    requires |s.bits| == BITS
  {
    match SplitArgs(LogText(s))
    case None => Err(EINVAL)
    case Some(argv) => RunAll(t, AllCommands(s, s.bits[BITS - 1]), argv)
  }

  /** For a new command table in which all rules still resolve, recomputing succeeds and
      re-establishes the invariant, with the same log and the same access to future
      commands; keys and channels are untouched. */
  lemma RecomputeForNewTable(t: CommandTable, t': CommandTable, s: Selector)
    requires Valid(t, s) && ValidTable(t') && AllLogged(t', s.log)
    ensures Recompute(t', s).Ok?
    ensures var s' := Recompute(t', s).value;
      && Valid(t', s')
      && s'.log == s.log && s'.bits[BITS - 1] == s.bits[BITS - 1]
      && s'.allKeys == s.allKeys && s'.allChannels == s.allChannels
      && s'.patterns == s.patterns && s'.channels == s.channels
      && s'.allCommands == (s.bits[BITS - 1] && forall i :: 0 <= i < |s.log| ==> !Denies(t', s.log[i]))
  {
    LoggedAreRules(t, s.log);
    SplitArgsJoin(s.log);
    RerunPrefix(t', s, s.bits[BITS - 1], s.log, |s.log|);
    assert s.log[..|s.log|] == s.log;
    ReservedBit(t', s.log, Start(s.bits[BITS - 1]));
  }

  /** For the same table recomputing changes no permission.  The ALLCOMMANDS flag can only
      be gained, and then all bits are set anyway. */
  lemma RecomputeChangesNothing(t: CommandTable, s: Selector)
    requires Valid(t, s)
    ensures Recompute(t, s).Ok?
    ensures var s' := Recompute(t, s).value;
      && s'.bits == s.bits && ArgCells(s'.args) == ArgCells(s.args) && s'.log == s.log
      && (s.allCommands ==> s'.allCommands)
      && (s'.allCommands ==> forall i :: 0 <= i < BITS ==> s.bits[i])
  {
    RecomputeForNewTable(t, t, s);
    LoggedAreRules(t, s.log);
    SplitArgsJoin(s.log);
    RerunPrefix(t, s, s.bits[BITS - 1], s.log, |s.log|);
    assert s.log[..|s.log|] == s.log;
    FlagMeansAllBits(t, Recompute(t, s).value);
  }

  /** The ALLCOMMANDS flag is only a shortcut: whenever it is set, every bit is. */
  lemma FlagMeansAllBits(t: CommandTable, s: Selector)
    requires Valid(t, s)
    ensures s.allCommands ==> forall i :: 0 <= i < BITS ==> s.bits[i]
  {
    if s.allCommands {
      NoDenialKeepsAll(t, s.log, Start(true));
    }
  }

  lemma {:induction false} NoDenialKeepsAll(t: CommandTable, log: seq<string>, p: Perms)
    requires AllLogged(t, log) && forall i :: 0 <= i < |log| ==> !Denies(t, log[i])
    requires |p.bits| == BITS && forall i :: 0 <= i < BITS ==> p.bits[i]
    ensures forall i :: 0 <= i < BITS ==> Replay(t, log, p).bits[i]
  {
    if log != [] {
      assert !Denies(t, log[0]);
      ResolvedShape(t, Allows(log[0]), NameOf(log[0]));
      NoDenialKeepsAll(t, log[1..], Put(WriteOf(t, log[0]), p));
    }
  }
}
