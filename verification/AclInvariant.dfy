/** Every operation keeps the log faithful, so describing a selector never panics and
    recomputing the bitmaps for a new command table works. */
module AclInvariant {
  import opened Text
  import opened AclRuleText
  import opened AclCommands
  import opened AclReplay
  import opened AclSelector

  // ---------------------------------------------------------------- one rule

  lemma PlainLower(s: string)
    requires PlainToken(s)
    ensures PlainToken(Lower(s))
  {
  }

  /** The name of an accepted rule is plain unless it carries a first-arg. */
  lemma AcceptedNameIsPlain(t: CommandTable, allow: bool, name: string)
    requires ValidTable(t) && Resolve(t, allow, name).Ok? && '|' !in name
    ensures PlainToken(Lower(name))
  {
    hide Touched, Flagged, SubcommandIds, DistinctIds;
    if name != "" && name[0] == '@' {
      var c := Lower(name[1..]);
      assert NamePart(c);
      assert Lower(name) == "@" + c;
    } else {
      assert FirstBar(name).None? && LastBar(name).None?;
      assert ValidCommand(Lower(name), t.commands[Lower(name)]);
    }
  }

  function Token(allow: bool, name: string): string {
    (if allow then "+" else "-") + name
  }

  predicate AcceptedRule(t: CommandTable, op: string) {
    IsRule(op) && !MeansAll(op) && Storable(op) && Resolve(t, op[0] == '+', op[1..]).Ok?
  }

  /** An accepted operation is logged as a token that resolves to the same effect. */
  lemma AcceptedIsLogged(t: CommandTable, op: string)
    requires ValidTable(t) && AcceptedRule(t, op)
    ensures var r := Resolve(t, op[0] == '+', op[1..]).value;
      var token := Token(op[0] == '+', r.name);
      && Logged(t, token) && WriteOf(t, token) == r.write && r.name == Lower(op[1..])
      && Allows(token) == (op[0] == '+') && NameOf(token) == r.name
  {
    hide Resolve, ValidTable;
    var allow, name := op[0] == '+', op[1..];
    var r := Resolve(t, allow, name).value;
    ResolveLogged(t, allow, name);
    var token := Token(allow, r.name);
    assert token[1..] == r.name;
    assert Lower(op) == token;
    LowerTwice(op);
    if '|' in op {
      PlainLower(op);
    } else {
      AcceptedNameIsPlain(t, allow, name);
    }
  }

  lemma ArgCellsAdd(args: map<nat, seq<string>>, id: nat, arg: string)
    ensures ArgCells(AddArg(args, id, arg)) == ArgCells(args) + {(id, Lower(arg))}
  {
    var present := if id in args then args[id] else [];
    var args' := AddArg(args, id, arg);
    var cells, cells' := ArgCells(args), ArgCells(args');
    if HasArg(present, arg) {
      var i :| 0 <= i < |present| && EqNoCase(present[i], arg);
      assert (id, Lower(args[id][i])) in cells;
      assert cells + {(id, Lower(arg))} == cells;
    } else {
      assert args'[id][|present|] == arg;
      assert (id, Lower(args'[id][|present|])) in cells';
      forall c | c in cells ensures c in cells' {
        var k, i :| k in args && 0 <= i < |args[k]| && c == (k, Lower(args[k][i]));
        assert args'[k][i] == args[k][i];
      }
      forall c | c in cells' ensures c in cells + {(id, Lower(arg))} {
        var k, i :| k in args' && 0 <= i < |args'[k]| && c == (k, Lower(args'[k][i]));
        if k != id || i < |present| {
          assert args'[k][i] == args[k][i];
        }
      }
    }
  }

  lemma ArgCellsFlush(args: map<nat, seq<string>>, flushed: set<nat>)
    ensures ArgCells(args - flushed) == set c | c in ArgCells(args) && c.0 !in flushed
  {
    forall c | c in ArgCells(args) && c.0 !in flushed ensures c in ArgCells(args - flushed) {
      var k, i :| k in args && 0 <= i < |args[k]| && c == (k, Lower(args[k][i]));
      assert (args - flushed)[k][i] == args[k][i];
    }
  }

  /** On permissions, an accepted rule is the write it resolves to. */
  lemma ApplyRulePuts(s: Selector, allow: bool, r: Resolved)
    requires RuleTokens(s.log)
    requires r.write.SetBits? ==> r.write.allow == allow
    requires r.write.AddFirstArg? ==> r.write.arg == Lower(r.arg)
    ensures PermsOf(ApplyRule(s, allow, r)) == Put(r.write, PermsOf(s))
  {
    match r.write
    case SetBits(ids, _, flushed) => ArgCellsFlush(s.args, flushed);
    case AddFirstArg(id, _) => ArgCellsAdd(s.args, id, r.arg);
  }

  lemma ResolvedShape(t: CommandTable, allow: bool, name: string)
    requires Resolve(t, allow, name).Ok?
    ensures var r := Resolve(t, allow, name).value;
      && (r.write.SetBits? ==> r.write.allow == allow)
      && (r.write.AddFirstArg? ==> r.write.arg == Lower(r.arg))
  {
    hide Touched, Flagged, Lookup, LastBar, Lower, SubcommandIds;
  }

  lemma {:induction false} SurvivingExactly(name: string, tokens: seq<string>, x: string)
    requires RuleTokens(tokens)
    ensures x in Surviving(name, tokens) <==> x in tokens && NameOf(x) != name && !(name + "|" <= NameOf(x))
  {
    if tokens != [] {
      SurvivingExactly(name, tokens[1..], x);
      assert tokens == [tokens[0]] + tokens[1..];
      assert RuleToken(tokens[0]);
      assert NameOf(tokens[0]) == tokens[0][1..];
    }
  }

  lemma {:induction false} SurvivingCompact(name: string, tokens: seq<string>)
    requires RuleTokens(tokens) && Compact(tokens)
    ensures Compact(Surviving(name, tokens))
  {
    if tokens != [] {
      var rest, kept := Surviving(name, tokens[1..]), Surviving(name, tokens);
      SurvivingCompact(name, tokens[1..]);
      if kept != rest {
        forall j | 0 <= j < |rest| ensures !Supersedes(NameOf(rest[j]), NameOf(tokens[0])) {
          SurvivingExactly(name, tokens[1..], rest[j]);
          var k :| 0 <= k < |tokens[1..]| && tokens[1..][k] == rest[j];
          assert tokens[k + 1] == rest[j];
        }
        CompactCons(tokens[0], rest);
      }
    }
  }

  lemma CompactCons(x: string, rest: seq<string>)
    requires Compact(rest)
    requires forall j :: 0 <= j < |rest| ==> !Supersedes(NameOf(rest[j]), NameOf(x))
    ensures Compact([x] + rest)
  {
  }

  lemma CompactAppend(log: seq<string>, token: string)
    requires RuleTokens(log) && RuleToken(token) && Compact(log)
    ensures Compact(Surviving(NameOf(token), log) + [token])
  {
    var kept := Surviving(NameOf(token), log);
    SurvivingCompact(NameOf(token), log);
    forall i | 0 <= i < |kept| ensures !Supersedes(NameOf(token), NameOf(kept[i])) {
      SurvivingExactly(NameOf(token), log, kept[i]);
    }
  }

  /** An accepted rule keeps the log faithful. */
  lemma RuleKeepsFaithful(t: CommandTable, s: Selector, op: string)
    requires ValidTable(t) && Faithful(t, s)
    requires AcceptedRule(t, op)
    ensures RuleTokens(s.log)
    ensures var s' := ApplyRule(s, op[0] == '+', Resolve(t, op[0] == '+', op[1..]).value);
      Faithful(t, s') && s'.bits[BITS - 1] == s.bits[BITS - 1]
  {
    var allow := op[0] == '+';
    var r := Resolve(t, allow, op[1..]).value;
    var token, all := Token(allow, r.name), s.bits[BITS - 1];
    LoggedAreRules(t, s.log);
    AcceptedIsLogged(t, op);
    ResolvedShape(t, allow, op[1..]);
    ApplyRulePuts(s, allow, r);
    LogAndReplay(t, token, s.log, all);
    WriteBelowReserved(t, allow, op[1..]);
    var s' := ApplyRule(s, allow, r);
    assert s'.bits == Put(r.write, PermsOf(s)).bits;
  }

  /** An accepted rule keeps the whole invariant. */
  lemma RuleKeepsValid(t: CommandTable, s: Selector, op: string)
    requires Valid(t, s) && AcceptedRule(t, op)
    ensures RuleTokens(s.log)
    ensures Valid(t, ApplyRule(s, op[0] == '+', Resolve(t, op[0] == '+', op[1..]).value))
  {
    hide Resolve, ValidTable, MeansAll, Put, Replay, Supersedes, Storable;
    RuleKeepsFaithful(t, s, op);
    AcceptedIsLogged(t, op);
    var r := Resolve(t, op[0] == '+', op[1..]).value;
    CompactAppend(s.log, Token(op[0] == '+', r.name));
    FlagKept(t, s, op);
  }

  lemma FlagKept(t: CommandTable, s: Selector, op: string)
    requires Valid(t, s) && AcceptedRule(t, op)
    requires RuleTokens(s.log)
    requires var s' := ApplyRule(s, op[0] == '+', Resolve(t, op[0] == '+', op[1..]).value);
      Faithful(t, s') && s'.bits[BITS - 1] == s.bits[BITS - 1]
    ensures FlagSound(t, ApplyRule(s, op[0] == '+', Resolve(t, op[0] == '+', op[1..]).value))
  {
    hide Resolve, ValidTable, Replay, Put, Supersedes, MeansAll, TouchesBitmap, Surviving;
    var r := Resolve(t, op[0] == '+', op[1..]).value;
    var s', token := ApplyRule(s, op[0] == '+', r), Token(op[0] == '+', r.name);
    var kept := Surviving(r.name, s.log);
    AcceptedIsLogged(t, op);
    if s'.allCommands {
      forall i | 0 <= i < |s'.log| ensures !Denies(t, s'.log[i]) {
        if i < |kept| {
          assert s'.log[i] == kept[i];
          SurvivingExactly(r.name, s.log, kept[i]);
          var k :| 0 <= k < |s.log| && s.log[k] == kept[i];
        } else {
          assert s'.log[i] == token;
        }
      }
    }
  }

  /** Adding a pattern updates the first node with that pattern, or appends. */
  lemma {:induction false} AddPatternAt(ps: seq<KeyPattern>, p: KeyPattern, i: nat)
    requires i <= |ps| && forall k :: 0 <= k < i ==> ps[k].pattern != p.pattern
    ensures i == |ps| ==> AddPattern(ps, p) == ps + [p]
    ensures i < |ps| && ps[i].pattern == p.pattern ==>
      AddPattern(ps, p) == ps[i := KeyPattern(p.pattern, ps[i].read || p.read, ps[i].write || p.write)]
  {
    if i > 0 {
      AddPatternAt(ps[1..], p, i - 1);
      assert ps == [ps[0]] + ps[1..];
    }
  }
}
