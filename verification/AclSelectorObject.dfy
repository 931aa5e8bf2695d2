/** The selector as the server holds it: fields updated in place by ACLSetSelector and
    its helpers.  Each method is proved against the functions of AclSelector. */
module AclSelectorObject {
  import opened Text
  import opened AclRuleText
  import opened AclCommands
  import opened AclReplay
  import opened AclSelector
  import opened AclInvariant
  import opened AclDescribe

  // ---------------------------------------------------------------- composing changes

  lemma ChangeBitsTwice(s: Selector, a: set<nat>, fa: set<nat>, b: set<nat>, fb: set<nat>, allow: bool)
    ensures ChangeBits(ChangeBits(s, a, allow, fa), b, allow, fb) == ChangeBits(s, a + b, allow, fa + fb)
  {
    var once, twice := ChangeBits(s, a + b, allow, fa + fb), ChangeBits(ChangeBits(s, a, allow, fa), b, allow, fb);
    assert twice.bits == once.bits;
    assert twice.args == once.args;
    assert TouchesBitmap(a + b) <==> TouchesBitmap(a) || TouchesBitmap(b) by {
      if TouchesBitmap(a) { var i :| i in a && i < BITS; assert i in a + b; }
      if TouchesBitmap(b) { var i :| i in b && i < BITS; assert i in a + b; }
    }
  }

  lemma ChangeBitsNone(s: Selector, allow: bool)
    ensures ChangeBits(s, {}, allow, {}) == s
  {
    assert WithBits(s.bits, {}, allow) == s.bits;
    assert s.args - {} == s.args;
  }

  lemma CategoryGrows(commands: map<string, Command>, n: string, c: Command, flag: bv64)
    requires n !in commands
    ensures Flagged(commands[n := c], flag) == Flagged(commands, flag) + FlaggedOf(c, flag)
    ensures Touched(commands[n := c], flag) == Touched(commands, flag) + TouchedOf(c, flag)
  {
    var bigger := commands[n := c];
    forall id | id in Flagged(commands, flag) + FlaggedOf(c, flag) ensures id in Flagged(bigger, flag) {
      if id in FlaggedOf(c, flag) {
        assert id in FlaggedOf(bigger[n], flag);
      } else {
        var k :| k in commands && id in FlaggedOf(commands[k], flag);
        assert id in FlaggedOf(bigger[k], flag);
      }
    }
    forall id | id in Touched(commands, flag) + TouchedOf(c, flag) ensures id in Touched(bigger, flag) {
      if id in TouchedOf(c, flag) {
        assert id in TouchedOf(bigger[n], flag);
      } else {
        var k :| k in commands && id in TouchedOf(commands[k], flag);
        assert id in TouchedOf(bigger[k], flag);
      }
    }
  }

  class SelectorObject {
    var allKeys: bool
    var allChannels: bool
    var allCommands: bool
    const allowed: array<bool>
    var firstArgs: map<nat, seq<string>>
    var commandRules: string
    var patterns: seq<KeyPattern>
    var channels: seq<string>
    /** The rules that commandRules spells. */
    ghost var log: seq<string>

    ghost predicate Good()
      reads this
    {
      allowed.Length == BITS && RuleTokens(log) && commandRules == Join(log)
    }

    ghost function View(): Selector
      reads this, allowed
    {
      Selector(allKeys, allChannels, allCommands, allowed[..], firstArgs, log, patterns, channels)
    }

    /** ACLCreateSelector */
    constructor (pubsubDefault: bool)
      ensures Good() && fresh(allowed)
      ensures View() == Fresh(pubsubDefault)
    {
      allKeys, allChannels, allCommands := false, pubsubDefault, false;
      allowed := new bool[BITS](_ => false);
      firstArgs, commandRules, patterns, channels := map[], "", [], [];
      log := [];
      new;
      assert allowed[..] == Fresh(pubsubDefault).bits;
    }

    /** ACLSetSelectorCommandBit */
    method SetCommandBit(id: nat, value: bool)
      requires Good()
      modifies this`allCommands, allowed
      ensures Good() && View() == ChangeBits(old(View()), {id}, value, {})
    {
      if id < BITS {
        allowed[id] := value;
        if !value { allCommands := false; }
      }
      assert old(View()).args - {} == old(View()).args;
      assert allowed[..] == WithBits(old(allowed[..]), {id}, value);
      assert TouchesBitmap({id}) <==> id < BITS by {
        if id < BITS { assert id in {id}; }
      }
    }

    /** The loop of ACLChangeSelectorPerm over the subcommands of a container. */
    method SetSubcommandBits(subs: map<string, Subcommand>, value: bool)
      requires Good()
      modifies this`allCommands, allowed
      ensures Good() && View() == ChangeBits(old(View()), set m | m in subs :: subs[m].id, value, {})
    {
      var todo := subs.Keys;
      ghost var done: set<nat> := {};
      ChangeBitsNone(View(), value);
      while todo != {}
        invariant Good() && todo <= subs.Keys
        invariant done == set m | m in subs && m !in todo :: subs[m].id
        invariant View() == ChangeBits(old(View()), done, value, {})
        decreases todo
      {
        var m :| m in todo;
        SetCommandBit(subs[m].id, value);
        ChangeBitsTwice(old(View()), done, {}, {subs[m].id}, {}, value);
        todo := todo - {m};
        done := done + {subs[m].id};
      }
      assert done == set m | m in subs :: subs[m].id;
    }

    /** ACLResetFirstArgsForCommand */
    method ResetFirstArgsFor(id: nat)
      requires Good()
      modifies this`firstArgs
      ensures Good() && View() == old(View()).(args := old(View()).args - {id})
    {
      firstArgs := firstArgs - {id};
    }

    /** ACLChangeSelectorPerm */
    method ChangePermissions(f: Found, allow: bool)
      requires Good()
      modifies this`allCommands, this`firstArgs, allowed
      ensures Good()
      ensures View() == ChangeBits(old(View()), ChangePerm(f, allow).ids, allow, ChangePerm(f, allow).flushed)
    {
      var id := if f.Top? then f.cmd.id else f.sub.id;
      SetCommandBit(id, allow);
      ghost var first := View();
      ResetFirstArgsFor(id);
      assert View() == ChangeBits(old(View()), {id}, allow, {id}) by {
        assert old(View()).args - {} == old(View()).args;
      }
      if f.Top? && f.cmd.subcommands.Some? {
        SetSubcommandBits(f.cmd.subcommands.value, allow);
        ChangeBitsTwice(old(View()), {id}, {id}, SubcommandIds(f.cmd), {}, allow);
      }
      assert {id} + {} == {id};
    }

    /** ACLSetSelectorCommandBitsForCategory on the subcommands of one container. */
    method SetCategoryOfSubcommands(subs: map<string, Subcommand>, flag: bv64, value: bool)
      requires Good()
      modifies this`allCommands, this`firstArgs, allowed
      ensures Good()
      ensures var ids := set m | m in subs && InCategory(subs[m].categories, flag) :: subs[m].id;
        View() == ChangeBits(old(View()), ids, value, ids)
    {
      var todo := subs.Keys;
      ghost var done: set<nat> := {};
      ChangeBitsNone(View(), value);
      while todo != {}
        invariant Good() && todo <= subs.Keys
        invariant done == set m | m in subs && m !in todo && InCategory(subs[m].categories, flag) :: subs[m].id
        invariant View() == ChangeBits(old(View()), done, value, done)
        decreases todo
      {
        var m :| m in todo;
        if InCategory(subs[m].categories, flag) {
          ChangePermissions(Child(subs[m]), value);
          ChangeBitsTwice(old(View()), done, done, {subs[m].id}, {subs[m].id}, value);
          done := done + {subs[m].id};
        }
        todo := todo - {m};
      }
      assert done == set m | m in subs && InCategory(subs[m].categories, flag) :: subs[m].id;
    }

    /** ACLSetSelectorCommandBitsForCategory on one entry of the command table. */
    method SetCategoryOfCommand(c: Command, flag: bv64, value: bool)
      requires Good()
      modifies this`allCommands, this`firstArgs, allowed
      ensures Good() && View() == ChangeBits(old(View()), TouchedOf(c, flag), value, FlaggedOf(c, flag))
    {
      ghost var ids, flushed: set<nat> := {}, {};
      ChangeBitsNone(View(), value);
      if InCategory(c.categories, flag) {
        ChangePermissions(Top(c), value);
        ids, flushed := {c.id} + SubcommandIds(c), {c.id};
      }
      if c.subcommands.Some? {
        SetCategoryOfSubcommands(c.subcommands.value, flag, value);
        ChangeBitsTwice(old(View()), ids, flushed, FlaggedSubcommands(c, flag), FlaggedSubcommands(c, flag), value);
      }
      assert TouchedOf(c, flag) == ids + FlaggedSubcommands(c, flag);
      assert FlaggedOf(c, flag) == flushed + FlaggedSubcommands(c, flag);
      if c.subcommands.None? {
        assert TouchedOf(c, flag) == ids && FlaggedOf(c, flag) == flushed;
      }
    }

    /** ACLSetSelectorCommandBitsForCategory on the whole table, in any order. */
    method SetCategory(commands: map<string, Command>, flag: bv64, value: bool)
      requires Good()
      modifies this`allCommands, this`firstArgs, allowed
      ensures Good()
      ensures View() == ChangeBits(old(View()), Touched(commands, flag), value, Flagged(commands, flag))
    {
      var todo := commands.Keys;
      ghost var done: map<string, Command> := map[];
      ChangeBitsNone(View(), value);
      assert Touched(done, flag) == {} && Flagged(done, flag) == {};
      while todo != {}
        invariant Good() && todo <= commands.Keys
        invariant done == commands - todo
        invariant View() == ChangeBits(old(View()), Touched(done, flag), value, Flagged(done, flag))
        decreases todo
      {
        var n :| n in todo;
        SetCategoryOfCommand(commands[n], flag, value);
        ChangeBitsTwice(old(View()), Touched(done, flag), Flagged(done, flag),
                        TouchedOf(commands[n], flag), FlaggedOf(commands[n], flag), value);
        CategoryGrows(done, n, commands[n], flag);
        todo := todo - {n};
        done := done[n := commands[n]];
        assert done == commands - todo;
      }
      assert done == commands;
    }

    /** ACLUpdateCommandRules */
    method UpdateCommandRules(rule: string, allow: bool)
      requires Good() && RuleToken("+" + Lower(rule))
      modifies this`commandRules, this`log
      ensures Good() && View() == LogRule(old(View()), Lower(rule), allow)
    {
      hide Surviving, Join;
      var newRule := Lower(rule);
      var n := |commandRules|;
      var text := commandRules;
      var buf := new char[n + 1](i requires 0 <= i < n + 1 => if i < n then text[i] else NUL);
      JoinNoNul(log);
      assert buf[..n] == text && Terminated(buf[..], n);
      var len := RemoveCommandRule(buf, newRule, log);
      commandRules := buf[..len];
      var sign := if allow then "+" else "-";
      AppendedRule(Surviving(newRule, log), sign, newRule);
      log := Surviving(newRule, log) + [sign + newRule];
      if |commandRules| > 0 { commandRules := commandRules + " "; }
      commandRules := commandRules + sign + newRule;
    }

    /** ACLAddAllowedFirstArg */
    method AddAllowedFirstArg(id: nat, sub: string)
      requires Good()
      modifies this`firstArgs
      ensures Good() && View() == old(View()).(args := AddArg(old(View()).args, id, sub))
    {
      var present := if id in firstArgs then firstArgs[id] else [];
      var items := 0;
      while items < |present|
        invariant 0 <= items <= |present|
        invariant forall i :: 0 <= i < items ==> !EqNoCase(present[i], sub)
      {
        if EqNoCase(present[items], sub) { return; }
        items := items + 1;
      }
      firstArgs := firstArgs[id := present + [sub]];
    }

    /** The permission letters of "%RW~pattern". */
    method ReadPerms(op: string) returns (r: Option<(bool, bool, nat)>)
      requires op != ""
      ensures r == ParsePerms(op, 1, false, false)
    {
      var offset, read, write := 1, false, false;
      while offset < |op|
        invariant 1 <= offset <= |op|
        invariant ParsePerms(op, offset, read, write) == ParsePerms(op, 1, false, false)
      {
        if (op[offset] == 'R' || op[offset] == 'r') && !read {
          read := true;
        } else if (op[offset] == 'W' || op[offset] == 'w') && !write {
          write := true;
        } else if op[offset] == '~' {
          return Some((read, write, offset + 1));
        } else {
          return None;
        }
        offset := offset + 1;
      }
      r := Some((read, write, offset));
    }

    /** listSearchKey on the key patterns, then an update of the node or a new one. */
    method AddKeyPattern(p: KeyPattern)
      requires Good()
      modifies this`patterns
      ensures Good() && View() == old(View()).(patterns := AddPattern(old(patterns), p))
    {
      var i := 0;
      while i < |patterns| && patterns[i].pattern != p.pattern
        invariant 0 <= i <= |patterns|
        invariant forall k :: 0 <= k < i ==> patterns[k].pattern != p.pattern
      {
        i := i + 1;
      }
      AddPatternAt(patterns, p, i);
      if i == |patterns| {
        patterns := patterns + [p];
      } else {
        var q := patterns[i];
        patterns := patterns[i := KeyPattern(q.pattern, q.read || p.read, q.write || p.write)];
      }
    }

    /** "~pattern" and "%perms~pattern" */
    method SetKeys(op: string) returns (err: Option<Errno>)
      requires Good() && op != ""
      modifies this`patterns
      ensures Good()
      ensures match SetKeyPattern(old(View()), op)
              case Ok(s) => err.None? && View() == s
              case Err(e) => err == Some(e) && View() == old(View())
    {
      if allKeys { return Some(EEXIST); }
      var read, write, offset := true, true, 1;
      if op[0] == '%' {
        var perms := ReadPerms(op);
        if perms.None? || !(perms.value.0 || perms.value.1) { return Some(EINVAL); }
        read, write, offset := perms.value.0, perms.value.1, perms.value.2;
      }
      if HasSpaces(op[offset..]) { return Some(EINVAL); }
      AddKeyPattern(KeyPattern(op[offset..], read, write));
      err := None;
    }

    /** "&pattern" */
    method SetChannels(op: string) returns (err: Option<Errno>)
      requires Good() && op != ""
      modifies this`channels
      ensures Good()
      ensures match SetChannel(old(View()), op)
              case Ok(s) => err.None? && View() == s
              case Err(e) => err == Some(e) && View() == old(View())
    {
      if allChannels { return Some(EISDIR); }
      if HasSpaces(op[1..]) { return Some(EINVAL); }
      if op[1..] !in channels { channels := channels + [op[1..]]; }
      err := None;
    }

    /** "+@all" and "-@all": memset the bitmap, clear the log and the first-args. */
    method SetAllCommands(all: bool)
      requires Good()
      modifies this`allCommands, this`firstArgs, this`commandRules, this`log, allowed
      ensures Good() && View() == AllCommands(old(View()), all)
    {
      forall i | 0 <= i < BITS { allowed[i] := all; }
      allCommands, commandRules, firstArgs := all, "", map[];
      log := [];
      assert allowed[..] == AllCommands(old(View()), all).bits;
    }

    /** "+name" and "-name", in the branches of ACLSetSelector. */
    method SetRule(t: CommandTable, op: string) returns (err: Option<Errno>)
      requires Good() && ValidTable(t) && IsRule(op) && !MeansAll(op) && Storable(op)
      modifies this, allowed
      ensures Good()
      ensures match Resolve(t, op[0] == '+', op[1..])
              case Ok(r) => err.None? && View() == ApplyRule(old(View()), op[0] == '+', r)
              case Err(e) => err == Some(e) && View() == old(View())
    {
      var allow, name := op[0] == '+', op[1..];
      if name != "" && name[0] == '@' {
        err := SetSelectorCategory(t, op);
      } else if allow && LastBar(name).Some? {
        err := AllowPart(t, op);
      } else {
        match Lookup(t, name) {
          case None => err := Some(ENOENT);
          case Some(f) =>
            assert RuleToken("+" + Lower(Fullname(f))) by { AcceptedToken(t, op); }
            ChangePermissions(f, allow);
            UpdateCommandRules(Fullname(f), allow);
            err := None;
        }
      }
    }

    /** ACLSetSelectorCategory */
    method SetSelectorCategory(t: CommandTable, op: string) returns (err: Option<Errno>)
      requires Good() && ValidTable(t) && IsRule(op) && !MeansAll(op) && Storable(op)
      requires |op| > 1 && op[1] == '@'
      modifies this, allowed
      ensures Good()
      ensures match Resolve(t, op[0] == '+', op[1..])
              case Ok(r) => err.None? && View() == ApplyRule(old(View()), op[0] == '+', r)
              case Err(e) => err == Some(e) && View() == old(View())
    {
      var category := Lower(op[2..]);
      assert op[1..][1..] == op[2..];
      if category !in t.categories { return Some(ENOENT); }
      assert RuleToken("+" + Lower(op[1..])) by { AcceptedToken(t, op); }
      UpdateCommandRules(op[1..], op[0] == '+');
      SetCategory(t.commands, t.categories[category], op[0] == '+');
      err := None;
    }

    /** "+command|part" */
    method AllowPart(t: CommandTable, op: string) returns (err: Option<Errno>)
      requires Good() && ValidTable(t) && IsRule(op) && !MeansAll(op) && Storable(op)
      requires op[0] == '+' && op[1..] != "" && op[1] != '@' && LastBar(op[1..]).Some?
      modifies this, allowed
      ensures Good()
      ensures match Resolve(t, true, op[1..])
              case Ok(r) => err.None? && View() == ApplyRule(old(View()), true, r)
              case Err(e) => err == Some(e) && View() == old(View())
    {
      hide Lookup, ValidTable, Storable, MeansAll, Surviving, WithBits;
      var name := op[1..];
      var bar := LastBar(name).value;
      var copy, sub := name[..bar], name[bar + 1..];
      match Lookup(t, copy) {
        case None => return Some(ENOENT);
        case Some(Child(_)) => return Some(ECHILD);
        case Some(Top(cmd)) =>
          if |sub| == 0 { return Some(EINVAL); }
          if cmd.subcommands.Some? {
            var found := Lookup(t, name);
            if found.None? { return Some(ENOENT); }
            assert RuleToken("+" + Lower(name)) by { AcceptedToken(t, op); }
            ChangePermissions(found.value, true);
          } else {
            assert RuleToken("+" + Lower(name)) by { AcceptedToken(t, op); }
            AddAllowedFirstArg(cmd.id, sub);
          }
      }
      UpdateCommandRules(name, true);
      err := None;
    }

    /** ACLSetSelector */
    method SetSelectorOp(t: CommandTable, op: string) returns (err: Option<Errno>)
      requires Good() && ValidTable(t) && Storable(op)
      modifies this, allowed
      ensures Good()
      ensures match SetSelector(t, old(View()), op)
              case Ok(s) => err.None? && View() == s
              case Err(e) => err == Some(e) && View() == old(View())
      ensures old(Valid(t, View())) ==> Valid(t, View())
    {
      hide KeywordOf, Resolve, Valid, ValidTable, Storable, MeansAll, SetKeyPattern, SetChannel, ApplyRule;
      err := None;
      if old(Valid(t, View())) { OperationKeepsValid(t, View(), op); }
      if IsRule(op) { RuleKeyword(op); }
      match KeywordOf(op) {
        case AllKeysWord => allKeys, patterns := true, [];
        case ResetKeysWord => allKeys, patterns := false, [];
        case AllChannelsWord => allChannels, channels := true, [];
        case ResetChannelsWord => allChannels, channels := false, [];
        case AllCommandsWord => SetAllCommands(true);
        case NoCommandsWord => SetAllCommands(false);
        case OtherWord =>
          if op == "" { err := Some(EINVAL); }
          else if op[0] == '~' || op[0] == '%' { err := SetKeys(op); }
          else if op[0] == '&' { err := SetChannels(op); }
          else if IsRule(op) { err := SetRule(t, op); }
          else { err := Some(EINVAL); }
      }
    }

    /** The loop, in the two operations below, that runs the rules of a log again;
        none is refused. */
    method RerunLog(t: CommandTable, ghost base: Selector, all: bool, rules: seq<string>)
      requires Good() && ValidTable(t) && AllLogged(t, rules) && Compact(rules)
      modifies this, allowed
      requires View() == AllCommands(base, all)
      ensures Good() && RunAll(t, AllCommands(base, all), rules) == Ok(View())
    {
      hide SetSelector, ValidTable, Valid, AllLogged, Compact, AllCommands, Good;
      var i := 0;
      assert rules[..0] == [];
      while i < |rules|
        invariant 0 <= i <= |rules| && Good()
        invariant RunAll(t, AllCommands(base, all), rules[..i]) == Ok(View())
      {
        RerunPrefix(t, base, all, rules, i + 1);
        assert rules[..i + 1][..i] == rules[..i];
        LoggedIsStorable(t, rules, i);
        var err := SetSelectorOp(t, rules[i]);
        assert err.None?;
        i := i + 1;
      }
      assert rules[..|rules|] == rules;
    }

    /** ACLDescribeSelectorCommandRules.  The source panics where the assertion is. */
    method DescribeCommandRules(t: CommandTable, pubsubDefault: bool) returns (rules: string)
      requires Good() && Valid(t, View())
      ensures rules == Join([if View().bits[BITS - 1] then "+@all" else "-@all"] + log)
    {
      hide Valid, SplitArgs, Join, RunAll;
      ValidLog(t, View());
      DescribeNeverPanics(t, View(), pubsubDefault);
      var fake := new SelectorObject(pubsubDefault);
      var future := allowed[BITS - 1];
      fake.SetAllCommands(future);
      var argv := SplitArgs(commandRules);
      ValidParts(t, View());
      fake.RerunLog(t, Fresh(pubsubDefault), future, argv.value);
      assert fake.allowed[..] == allowed[..];
      rules := DescriptionText(future, commandRules, log);
    }

    /** ACLRecomputeCommandBitsFromCommandRulesAllUsers on this selector, for a table in
        which all rules still resolve. */
    method RecomputeCommandBits(ghost before: CommandTable, t: CommandTable)
      requires Good() && Valid(before, View()) && ValidTable(t) && AllLogged(t, log)
      modifies this, allowed
      ensures Good() && Valid(t, View())
      ensures Recompute(t, old(View())) == Ok(View())
    {
      hide Valid, SplitArgs, Join, RunAll, ValidTable, AllLogged;
      ghost var base := View();
      ValidLog(before, base);
      ValidParts(before, base);
      RecomputeForNewTable(before, t, base);
      assert SplitArgs(commandRules) == Some(log) by {
        DescribeNeverPanics(before, base, false);
      }
      var argv := SplitArgs(commandRules);
      var future := allowed[BITS - 1];
      SetAllCommands(future);
      RerunLog(t, base, future, argv.value);
    }
  }

  lemma LoggedIsStorable(t: CommandTable, rules: seq<string>, i: nat)
    requires AllLogged(t, rules) && i < |rules|
    ensures Storable(rules[i])
  {
    assert Logged(t, rules[i]);
  }

  lemma ValidParts(t: CommandTable, s: Selector)
    requires Valid(t, s)
    ensures ValidTable(t) && AllLogged(t, s.log) && Compact(s.log)
  {
  }

  /** "+@all " or "-@all ", then the log and a blank, less the final blank. */
  method DescriptionText(future: bool, text: string, ghost log: seq<string>) returns (rules: string)
    requires RuleTokens(log) && text == Join(log)
    ensures rules == Join([if future then "+@all" else "-@all"] + log)
  {
    ghost var start := if future then "+@all" else "-@all";
    JoinNoNul(log);
    JoinConcat([start], log);
    rules := if future then "+@all " else "-@all ";
    assert rules == start + " ";
    if |text| > 0 { rules := rules + text + " "; }
    rules := rules[..|rules| - 1];
  }

  lemma AcceptedToken(t: CommandTable, op: string)
    requires ValidTable(t) && AcceptedRule(t, op)
    ensures RuleToken("+" + Resolve(t, op[0] == '+', op[1..]).value.name)
  {
    hide Resolve;
    AcceptedIsLogged(t, op);
    var name := Resolve(t, op[0] == '+', op[1..]).value.name;
    var token := Token(op[0] == '+', name);
    assert PlainToken(token);
    assert forall i :: 0 < i < |token| ==> token[i] == ("+" + name)[i];
  }

  /** Appending a rule to the text, after a blank unless it is the first. */
  lemma AppendedRule(kept: seq<string>, sign: string, name: string)
    requires RuleTokens(kept) && RuleToken("+" + name) && (sign == "+" || sign == "-")
    ensures RuleTokens(kept + [sign + name])
    ensures (if |Join(kept)| > 0 then Join(kept) + " " else Join(kept)) + sign + name == Join(kept + [sign + name])
  {
    hide *;
    SignedToken(sign, name);
    OneMoreToken(kept, sign + name);
    JoinConcat(kept, [sign + name]);
    JoinsOne(sign + name);
    JoinIsEmptyIff(kept);
    Glue(Join(kept) + " ", sign, name);
    Glue("", sign, name);
    if kept == [] {
      assert kept + [sign + name] == [sign + name];
    }
  }

  lemma SignedToken(sign: string, name: string)
    requires RuleToken("+" + name) && (sign == "+" || sign == "-")
    ensures RuleToken(sign + name)
  {
    assert forall i :: 0 < i < |sign + name| ==> (sign + name)[i] == ("+" + name)[i];
  }

  lemma OneMoreToken(kept: seq<string>, token: string)
    requires RuleTokens(kept) && RuleToken(token)
    ensures RuleTokens(kept + [token])
  {
    hide RuleToken;
  }

  lemma Glue(a: string, b: string, c: string)
    ensures a + b + c == a + (b + c) && "" + (b + c) == b + c
  {
  }

  /** Only the empty list has an empty text. */
  lemma JoinIsEmptyIff(tokens: seq<string>)
    requires RuleTokens(tokens)
    ensures Join(tokens) == "" <==> tokens == []
  {
    JoinNoNul(tokens);
  }

  lemma JoinsOne(token: string)
    ensures Join([token]) == token && Join([]) == ""
  {
  }
}
