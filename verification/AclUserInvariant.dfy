/** Every user reachable through ACLSetUser is well formed. */
module AclUserInvariant {
  import opened Text
  import opened AclRuleText
  import opened AclCommands
  import opened AclReplay
  import opened AclSelector
  import opened AclInvariant
  import opened AclDescribe
  import opened AclUser

  lemma AddPatternKeepsShape(s: Selector, p: KeyPattern)
    requires KeysShape(s) && !s.allKeys && (p.read || p.write) && !HasSpaces(p.pattern)
    ensures KeysShape(s.(patterns := AddPattern(s.patterns, p)))
  {
    hide HasSpaces;
    var ps := s.patterns;
    if i :| 0 <= i < |ps| && ps[i].pattern == p.pattern {
      AddPatternAt(ps, p, i);
    } else {
      AddPatternAt(ps, p, |ps|);
    }
  }

  lemma KeyPatternKeepsShape(s: Selector, op: string)
    requires KeysShape(s) && op != "" && SetKeyPattern(s, op).Ok?
    ensures KeysShape(SetKeyPattern(s, op).value)
  {
    hide HasSpaces, AddPattern, ParsePerms, KeysShape;
    var perms := if op[0] == '%' then ParsePerms(op, 1, false, false) else Some((true, true, 1));
    var (r, w, at) := perms.value;
    AddPatternKeepsShape(s, KeyPattern(op[at..], r, w));
  }

  lemma ChannelKeepsShape(s: Selector, op: string)
    requires ChannelsShape(s) && op != "" && op[0] == '&' && KeywordOf(op) == OtherWord && SetChannel(s, op).Ok?
    ensures ChannelsShape(SetChannel(s, op).value)
  {
    assert op == "&" + op[1..];
    assert op[1..] != "*";
  }

  /** Every selector operation keeps keys and channels well formed. */
  lemma OperationKeepsShape(t: CommandTable, s: Selector, op: string)
    requires RuleTokens(s.log) && SelectorShape(s) && SetSelector(t, s, op).Ok?
    ensures SelectorShape(SetSelector(t, s, op).value)
  {
    hide KeywordOf, Resolve, HasSpaces, SetKeyPattern, SetChannel, ApplyRule, KeysShape, ChannelsShape, RuleTokens;
    var s' := SetSelector(t, s, op).value;
    EmptyShapes(s');
    ShapesDepend(s, s');
    if KeywordOf(op).OtherWord? {
      if op[0] == '~' || op[0] == '%' {
        KeyPatternKeepsShape(s, op);
        SetKeyPatternKeepsRest(s, op);
      } else if op[0] == '&' {
        ChannelKeepsShape(s, op);
        SetChannelKeepsRest(s, op);
      } else {
        RuleKeepsKeys(s, op[0] == '+', Resolve(t, op[0] == '+', op[1..]).value);
      }
    }
  }

  lemma EmptyShapes(s: Selector)
    ensures s.patterns == [] ==> KeysShape(s)
    ensures s.channels == [] ==> ChannelsShape(s)
  {
  }

  lemma ShapesDepend(s: Selector, s': Selector)
    ensures s.allKeys == s'.allKeys && s.patterns == s'.patterns && KeysShape(s) ==> KeysShape(s')
    ensures s.allChannels == s'.allChannels && s.channels == s'.channels && ChannelsShape(s) ==> ChannelsShape(s')
  {
  }

  lemma RuleKeepsKeys(s: Selector, allow: bool, r: Resolved)
    requires RuleTokens(s.log)
    ensures var s' := ApplyRule(s, allow, r);
      && s'.allKeys == s.allKeys && s'.patterns == s.patterns
      && s'.allChannels == s.allChannels && s'.channels == s.channels
  {
  }

  lemma SetKeyPatternKeepsRest(s: Selector, op: string)
    requires op != "" && SetKeyPattern(s, op).Ok?
    ensures SetKeyPattern(s, op).value.(patterns := s.patterns) == s
  {
  }

  lemma SetChannelKeepsRest(s: Selector, op: string)
    requires op != "" && SetChannel(s, op).Ok?
    ensures SetChannel(s, op).value.(channels := s.channels) == s
  {
  }

  lemma OperationKeepsGood(t: CommandTable, s: Selector, op: string)
    requires GoodSelector(t, s) && Storable(op)
    ensures RuleTokens(s.log)
    ensures SetSelector(t, s, op).Ok? ==> GoodSelector(t, SetSelector(t, s, op).value)
  {
    hide SetSelector, Valid, SelectorShape;
    OperationKeepsValid(t, s, op);
    if SetSelector(t, s, op).Ok? {
      OperationKeepsShape(t, s, op);
    }
  }

  lemma {:induction false} RunAllKeepsGood(t: CommandTable, s: Selector, ops: seq<string>)
    requires GoodSelector(t, s) && AllStorable(ops)
    ensures RunAll(t, s, ops).Ok? ==> GoodSelector(t, RunAll(t, s, ops).value)
  {
    hide SetSelector, GoodSelector, Storable;
    if ops != [] {
      RunAllKeepsGood(t, s, ops[..|ops| - 1]);
      if RunAll(t, s, ops[..|ops| - 1]).Ok? {
        OperationKeepsGood(t, RunAll(t, s, ops[..|ops| - 1]).value, ops[|ops| - 1]);
      }
    }
  }

  ghost predicate AllStorable(ops: seq<string>) {
    forall i :: 0 <= i < |ops| ==> Storable(ops[i])
  }

  /** The operations a user string may hold: its rules, inside parentheses too, are storable. */
  ghost predicate StorableUserOp(op: string) {
    && Storable(op)
    && (|op| >= 2 && op[0] == '(' ==>
          var argv := SplitArgs(op[1..|op| - 1]); argv.Some? ==> AllStorable(argv.value))
  }

  lemma NewUserIsGood(sv: Server)
    requires GoodServer(sv)
    ensures GoodUser(sv, NewUser(sv))
  {
    FreshIsValid(sv.table, sv.pubsubDefault);
  }

  ghost predicate Distinct(ps: seq<string>) {
    forall i, j :: 0 <= i < j < |ps| ==> ps[i] != ps[j]
  }

  lemma {:induction false} WithoutKeepsDistinct(ps: seq<string>, h: string)
    requires Distinct(ps)
    ensures Distinct(Without(ps, h)) && forall x :: x in Without(ps, h) ==> x in ps
  {
    if ps != [] && ps[0] != h {
      var rest := Without(ps[1..], h);
      WithoutKeepsDistinct(ps[1..], h);
      assert forall x :: x in ps[1..] ==> x in ps && x != ps[0];
      forall j | 0 <= j < |rest| ensures rest[j] != ps[0] {
        assert rest[j] in rest;
      }
    }
  }

  lemma RemoveKeepsGood(sv: Server, u: User, h: string)
    requires GoodUser(sv, u) && RemovePassword(u, h).Ok?
    ensures GoodUser(sv, RemovePassword(u, h).value)
  {
    hide GoodSelector, IsHash;
    assert Distinct(u.passwords);
    WithoutKeepsDistinct(u.passwords, h);
    var rest := Without(u.passwords, h);
    forall i | 0 <= i < |rest| ensures IsHash(rest[i]) {
      assert rest[i] in u.passwords;
    }
    assert Distinct(rest);
  }

  lemma AddKeepsGood(sv: Server, u: User, h: string)
    requires GoodUser(sv, u) && IsHash(h)
    ensures GoodUser(sv, AddPassword(u, h))
  {
    hide GoodSelector, IsHash;
  }

  lemma NewSelectorIsGood(sv: Server, op: string)
    requires GoodServer(sv) && |op| >= 2 && op[0] == '(' && StorableUserOp(op)
    ensures SelectorFromOpSet(sv, op).Ok? ==> GoodSelector(sv.table, SelectorFromOpSet(sv, op).value)
  {
    hide Storable, SplitArgs, RunAll, ValidTable, Valid;
    FreshIsValid(sv.table, sv.pubsubDefault);
    var argv := SplitArgs(op[1..|op| - 1]);
    RunAllKeepsGood(sv.table, Fresh(sv.pubsubDefault), if argv.Some? then argv.value else []);
  }

  lemma ResetKeepsGood(sv: Server, u: User)
    requires GoodServer(sv)
    ensures GoodUser(sv, ResetUser(sv, u))
  {
    StartOnLog(sv.table, u.root.(allKeys := false, patterns := [], allChannels := sv.pubsubDefault, channels := []), false);
  }

  /** Every ACLSetUser operation keeps the user well formed. */
  lemma UserOperationKeepsGood(sv: Server, u: User, op: string)
    requires GoodServer(sv) && GoodUser(sv, u) && StorableUserOp(op)
    ensures SetUser(sv, u, op).Ok? ==> GoodUser(sv, SetUser(sv, u, op).value)
  {
    hide UserWordOf, GoodSelector, IsHash, StorableUserOp, SelectorFromOpSet, RemovePassword, AddPassword,
         ResetUser, SetSelector;
    if SetUser(sv, u, op).Ok? && op != "" {
      match UserWordOf(op)
      case ResetWord => ResetKeepsGood(sv, u);
      case NoUserWord =>
        if op[0] == '>' { AddKeepsGood(sv, u, sv.hash(op[1..])); }
        else if op[0] == '#' { AddKeepsGood(sv, u, op[1..]); }
        else if op[0] == '<' { RemoveKeepsGood(sv, u, sv.hash(op[1..])); }
        else if op[0] == '!' { RemoveKeepsGood(sv, u, op[1..]); }
        else if op[0] == '(' && op[|op| - 1] == ')' { NewSelectorIsGood(sv, op); }
        else { OperationKeepsGood(sv.table, u.root, op) by { StorableRoot(op); } }
      case _ =>
    }
  }

  lemma StorableRoot(op: string)
    requires StorableUserOp(op)
    ensures Storable(op)
  {
  }

  /** Operations applied one after the other; a refused one changes nothing. */
  function RunUser(sv: Server, u: User, ops: seq<string>): User
    decreases |ops|
  {
    if ops == [] then u
    else RunUser(sv, if SetUser(sv, u, ops[0]).Ok? then SetUser(sv, u, ops[0]).value else u, ops[1..])
  }

  lemma {:induction false} RunKeepsGood(sv: Server, u: User, ops: seq<string>)
    requires GoodServer(sv) && GoodUser(sv, u) && forall i :: 0 <= i < |ops| ==> StorableUserOp(ops[i])
    ensures GoodUser(sv, RunUser(sv, u, ops))
    decreases |ops|
  {
    hide SetUser, GoodUser, GoodServer, StorableUserOp;
    if ops != [] {
      UserOperationKeepsGood(sv, u, ops[0]);
      RunKeepsGood(sv, if SetUser(sv, u, ops[0]).Ok? then SetUser(sv, u, ops[0]).value else u, ops[1..]);
    }
  }

  /** Every sequence of operations on a new user leaves a good one. */
  lemma EveryUserIsGood(sv: Server, ops: seq<string>)
    requires GoodServer(sv) && forall i :: 0 <= i < |ops| ==> StorableUserOp(ops[i])
    ensures GoodUser(sv, RunUser(sv, NewUser(sv), ops))
  {
    hide SetUser, GoodUser, GoodServer, StorableUserOp;
    NewUserIsGood(sv);
    RunKeepsGood(sv, NewUser(sv), ops);
  }
}
