/** Replaying a rule log.  A rule writes constants to permission cells: bits, and
    (command, first-arg) pairs.  The last writer of a cell wins, so a rule may be
    dropped from the log as soon as a later rule writes all of its cells. */
module AclReplay {
  import opened Text
  import opened AclRuleText
  import opened AclCommands

  /** The permissions a rule log determines: the command bitmap, and the allowed
      first-args, whose letter case the server ignores. */
  datatype Perms = Perms(bits: seq<bool>, firstArgs: set<(nat, string)>)

  /** The state after "+@all" or "-@all". */
  function Start(all: bool): Perms {
    Perms(seq(BITS, _ => all), {})
  }

  function Put(w: Write, p: Perms): (r: Perms)
    ensures |r.bits| == |p.bits|
  {
    match w
    case SetBits(ids, allow, flushed) =>
      Perms(seq(|p.bits|, i requires 0 <= i < |p.bits| => if i in ids then allow else p.bits[i]),
            set c | c in p.firstArgs && c.0 !in flushed)
    case AddFirstArg(id, arg) => p.(firstArgs := p.firstArgs + {(id, arg)})
  }

  predicate WritesBit(w: Write, i: nat) {
    w.SetBits? && i in w.ids
  }

  predicate WritesArg(w: Write, c: (nat, string)) {
    match w
    case SetBits(_, _, flushed) => c.0 in flushed
    case AddFirstArg(id, arg) => c == (id, arg)
  }

  /** Only a command without subcommands can have first-args.  A rule on a subcommand
      flushes the first-args of that subcommand, but there are none to flush. */
  ghost predicate TakesFirstArgs(t: CommandTable, id: nat) {
    exists n :: n in t.commands && t.commands[n].id == id && t.commands[n].subcommands.None?
  }

  ghost predicate ProperArgs(t: CommandTable, p: Perms) {
    forall c :: c in p.firstArgs ==> TakesFirstArgs(t, c.0)
  }

  /** Every cell `was` writes is also written by `w`. */
  ghost predicate Covers(t: CommandTable, w: Write, was: Write) {
    && (forall i :: WritesBit(was, i) ==> WritesBit(w, i))
    && (forall c :: WritesArg(was, c) && TakesFirstArgs(t, c.0) ==> WritesArg(w, c))
  }

  /** The same outside the cells of w. */
  ghost predicate AgreeBut(w: Write, p: Perms, q: Perms) {
    && |p.bits| == |q.bits|
    && (forall i :: 0 <= i < |p.bits| && !WritesBit(w, i) ==> p.bits[i] == q.bits[i])
    && (forall c :: !WritesArg(w, c) ==> (c in p.firstArgs <==> c in q.firstArgs))
  }

  lemma AgreeButPut(w: Write, x: Write, p: Perms, q: Perms)
    requires AgreeBut(w, p, q)
    ensures AgreeBut(w, Put(x, p), Put(x, q))
  {
  }

  lemma CoveredIsInvisible(t: CommandTable, w: Write, was: Write, p: Perms)
    requires Covers(t, w, was) && ProperArgs(t, p) && ProperArgs(t, Put(was, p))
    ensures AgreeBut(w, Put(was, p), p)
  {
    if was.AddFirstArg? {
      assert WritesArg(was, (was.id, was.arg));
      assert (was.id, was.arg) in Put(was, p).firstArgs;
    }
  }

  lemma LastWriterWins(w: Write, p: Perms, q: Perms)
    requires AgreeBut(w, p, q)
    ensures Put(w, p) == Put(w, q)
  {
    assert Put(w, p).bits == Put(w, q).bits;
    assert Put(w, p).firstArgs == Put(w, q).firstArgs;
  }

  // ---------------------------------------------------------------- the log

  predicate Allows(token: string) {
    token != "" && token[0] == '+'
  }

  function NameOf(token: string): string {
    if token == "" then "" else token[1..]
  }

  /** "+@all" and "-@all" reset the log instead of being logged. */
  predicate MeansAll(token: string) {
    EqNoCase(token, "+@all") || EqNoCase(token, "-@all")
  }

  /** A rule as the log holds it: signed, resolvable in t, in the spelling it is logged in. */
  predicate Logged(t: CommandTable, token: string) {
    && PlainToken(token) && (token[0] == '+' || token[0] == '-') && !MeansAll(token)
    && var r := Resolve(t, Allows(token), NameOf(token));
       r.Ok? && r.value.name == NameOf(token)
  }

  predicate AllLogged(t: CommandTable, tokens: seq<string>) {
    forall i :: 0 <= i < |tokens| ==> Logged(t, tokens[i])
  }

  function WriteOf(t: CommandTable, token: string): Write
    requires Logged(t, token)
  {
    Resolve(t, Allows(token), NameOf(token)).value.write
  }

  function Replay(t: CommandTable, tokens: seq<string>, p: Perms): (r: Perms)
    requires AllLogged(t, tokens)
    ensures |r.bits| == |p.bits|
  {
    if tokens == [] then p
    else Replay(t, tokens[1..], Put(WriteOf(t, tokens[0]), p))
  }

  lemma {:induction false} ReplayAppend(t: CommandTable, tokens: seq<string>, token: string, p: Perms)
    requires AllLogged(t, tokens) && Logged(t, token)
    ensures AllLogged(t, tokens + [token])
    ensures Replay(t, tokens + [token], p) == Put(WriteOf(t, token), Replay(t, tokens, p))
  {
    hide Put, WriteOf, Logged;
    if tokens == [] {
      assert tokens + [token] == [token];
      assert [token][1..] == [];
    } else {
      assert (tokens + [token])[1..] == tokens[1..] + [token];
      ReplayAppend(t, tokens[1..], token, Put(WriteOf(t, tokens[0]), p));
    }
  }

  lemma LoggedAreRules(t: CommandTable, tokens: seq<string>)
    requires AllLogged(t, tokens)
    ensures RuleTokens(tokens) && PlainTokens(tokens)
  {
    forall i | 0 <= i < |tokens| ensures RuleToken(tokens[i]) {
      assert Logged(t, tokens[i]);
    }
  }

  // ---------------------------------------------------------------- superseded rules

  /** Only one level of subcommands: a second bar is an error. */
  lemma TwoBars(t: CommandTable, allow: bool, name: string, bar: nat)
    requires bar < |name| && name[bar] == '|' && NoBar(name, 0, bar) && name[0] != '@'
    ensures !NoBar(name, bar + 1, |name|) ==> Resolve(t, allow, name).Err?
  {
    BarsAt(name, bar);
    if !NoBar(name, bar + 1, |name|) {
      var last := LastBar(name).value;
      assert name[last] in name[bar + 1..] by {
        assert name[bar + 1..][last - bar - 1] == name[last];
      }
      assert Lookup(t, name).None?;
      if allow {
        BarsAt(name[..last], bar);
      }
    }
  }

  /** A logged name with a '|': a subcommand of a container, or a first-arg. */
  lemma BarredName(t: CommandTable, allow: bool, name: string, bar: nat)
    requires ValidTable(t) && Resolve(t, allow, name).Ok? && Lower(name) == name
    requires bar < |name| && name[bar] == '|' && NoBar(name, 0, bar)
    requires name[0] != '@'
    ensures NoBar(name, bar + 1, |name|)
    ensures name[..bar] in t.commands
    ensures var c := t.commands[name[..bar]];
      match c.subcommands
      case None => allow && Resolve(t, allow, name).value.write == AddFirstArg(c.id, name[bar + 1..])
      case Some(subs) => name[bar + 1..] in subs
                         && Resolve(t, allow, name).value.write
                            == ChangePerm(Child(subs[name[bar + 1..]]), allow)
  {
    TwoBars(t, allow, name, bar);
    LookupBarred(t, name, bar);
    BarsAt(name, bar);
    assert Lower(name[bar + 1..]) == name[bar + 1..];
  }

  lemma LookupBarred(t: CommandTable, name: string, bar: nat)
    requires Lower(name) == name
    requires bar < |name| && name[bar] == '|' && NoBar(name, 0, bar) && NoBar(name, bar + 1, |name|)
    ensures Lookup(t, name[..bar]) == if name[..bar] in t.commands then Some(Top(t.commands[name[..bar]])) else None
    ensures Lookup(t, name) ==
      if name[..bar] in t.commands && t.commands[name[..bar]].subcommands.Some?
         && name[bar + 1..] in t.commands[name[..bar]].subcommands.value
      then Some(Child(t.commands[name[..bar]].subcommands.value[name[bar + 1..]])) else None
  {
    BarsAt(name, bar);
    assert Lower(name[..bar]) == name[..bar] && Lower(name[bar + 1..]) == name[bar + 1..];
    assert FirstBar(name[..bar]).None?;
    assert '|' !in name[bar + 1..];
  }

  /** A logged name without '|' that is no category: a whole command. */
  lemma BarlessName(t: CommandTable, allow: bool, name: string)
    requires Resolve(t, allow, name).Ok? && Lower(name) == name
    requires NoBar(name, 0, |name|) && (name == "" || name[0] != '@')
    ensures name in t.commands
    ensures Resolve(t, allow, name).value.write == ChangePerm(Top(t.commands[name]), allow)
  {
    assert FirstBar(name).None? && LastBar(name).None?;
  }

  /** The heart of the log's upkeep: a rule that supersedes another writes all its cells. */
  lemma SupersededIsCovered(t: CommandTable, token: string, was: string)
    requires ValidTable(t) && Logged(t, token) && Logged(t, was)
    requires Supersedes(NameOf(token), NameOf(was))
    ensures Covers(t, WriteOf(t, token), WriteOf(t, was))
  {
    hide Resolve, ValidTable, Covers, PlainToken, MeansAll;
    var name, other := NameOf(token), NameOf(was);
    ResolveLogged(t, Allows(token), name);
    ResolveLogged(t, Allows(was), other);
    if other != name {
      var bar := |name|;
      assert other[..bar + 1] == name + "|";
      assert other[bar] == '|' && other[..bar] == name;
      SubordinateIsCovered(t, Allows(token), Allows(was), name, other);
    } else {
      SameNameCovered(t, Allows(token), Allows(was), name);
    }
  }

  lemma CoversItself(t: CommandTable, w: Write)
    ensures Covers(t, w, w)
  {
  }

  /** Allowing and denying the same commands write the same cells. */
  lemma SignDoesNotMatter(t: CommandTable, f: Found, a: bool, b: bool)
    ensures Covers(t, ChangePerm(f, a), ChangePerm(f, b))
  {
  }

  lemma CategoryCovered(t: CommandTable, a: bool, b: bool, name: string)
    requires name != "" && name[0] == '@' && Resolve(t, a, name).Ok? && Resolve(t, b, name).Ok?
    ensures Covers(t, Resolve(t, a, name).value.write, Resolve(t, b, name).value.write)
  {
    hide Lookup, ResolvePart, LastBar, ChangePerm, Touched, Flagged, TakesFirstArgs;
  }

  lemma BarlessCovered(t: CommandTable, a: bool, b: bool, name: string)
    requires Lower(name) == name && NoBar(name, 0, |name|) && (name == "" || name[0] != '@')
    requires Resolve(t, a, name).Ok? && Resolve(t, b, name).Ok?
    ensures Covers(t, Resolve(t, a, name).value.write, Resolve(t, b, name).value.write)
  {
    hide *;
    BarlessName(t, a, name);
    BarlessName(t, b, name);
    SignDoesNotMatter(t, Top(t.commands[name]), a, b);
  }

  lemma BarredCovered(t: CommandTable, a: bool, b: bool, name: string, bar: nat)
    requires ValidTable(t) && Lower(name) == name && bar < |name| && name[bar] == '|' && NoBar(name, 0, bar) && name[0] != '@'
    requires Resolve(t, a, name).Ok? && Resolve(t, b, name).Ok?
    ensures Covers(t, Resolve(t, a, name).value.write, Resolve(t, b, name).value.write)
  {
    hide *;
    BarredName(t, a, name, bar);
    BarredName(t, b, name, bar);
    var c := t.commands[name[..bar]];
    if c.subcommands.Some? {
      SignDoesNotMatter(t, Child(c.subcommands.value[name[bar + 1..]]), a, b);
    } else {
      CoversItself(t, Resolve(t, a, name).value.write);
    }
  }

  lemma SameNameCovered(t: CommandTable, a: bool, b: bool, name: string)
    requires ValidTable(t) && Lower(name) == name
    requires Resolve(t, a, name).Ok? && Resolve(t, b, name).Ok?
    ensures Covers(t, Resolve(t, a, name).value.write, Resolve(t, b, name).value.write)
  {
    var first := FirstBar(name);
    hide *;
    if name != "" && name[0] == '@' {
      CategoryCovered(t, a, b, name);
    } else if first.None? {
      NoBarAt(name);
      BarlessCovered(t, a, b, name);
    } else {
      NoBarAt(name);
      BarredCovered(t, a, b, name, first.value);
    }
  }

  lemma NoBarAt(name: string)
    ensures match FirstBar(name)
            case None => NoBar(name, 0, |name|)
            case Some(bar) => bar < |name| && name[bar] == '|' && NoBar(name, 0, bar)
  {
  }

  lemma SubordinateIsCovered(t: CommandTable, a: bool, b: bool, name: string, other: string)
    requires ValidTable(t) && Resolve(t, a, name).Ok? && Resolve(t, b, other).Ok?
    requires Lower(name) == name && Lower(other) == other
    requires |name| < |other| && other[|name|] == '|' && other[..|name|] == name
    ensures Covers(t, Resolve(t, a, name).value.write, Resolve(t, b, other).value.write)
  {
    NotACategory(t, a, b, name, other);
    var bar := FirstBar(other).value;
    BarredName(t, b, other, bar);
    assert bar == |name| && other[..bar] == name;
    assert forall k :: 0 <= k < |name| ==> name[k] == other[k];
    BarlessName(t, a, name);
    ContainerCovers(t, name, a, b, other[bar + 1..]);
  }

  /** A rule on a command covers the rules on its subcommands and its first-args. */
  lemma ContainerCovers(t: CommandTable, n: string, a: bool, b: bool, part: string)
    requires ValidTable(t) && n in t.commands
    ensures var c := t.commands[n];
      && Covers(t, ChangePerm(Top(c), a), AddFirstArg(c.id, part))
      && (c.subcommands.Some? && part in c.subcommands.value ==>
            Covers(t, ChangePerm(Top(c), a), ChangePerm(Child(c.subcommands.value[part]), b)))
  {
    var c := t.commands[n];
    if c.subcommands.Some? && part in c.subcommands.value {
      var id := c.subcommands.value[part].id;
      assert SubcommandId(t, n, id);
      assert !TakesFirstArgs(t, id);
    }
  }

  /** Category names have no '|', so only commands have subordinate rules. */
  lemma NotACategory(t: CommandTable, a: bool, b: bool, name: string, other: string)
    requires ValidTable(t) && Resolve(t, a, name).Ok? && Resolve(t, b, other).Ok?
    requires |name| < |other| && other[|name|] == '|' && other[..|name|] == name
    ensures name != "" && other[0] == name[0] != '@'
  {
    EmptyName(t, a);
    assert other[0] == name[0];
    var rest := Lower(other[1..]);
    assert rest[|name| - 1] == '|';
    assert rest in t.categories ==> NamePart(rest);
  }

  lemma EmptyName(t: CommandTable, allow: bool)
    requires ValidTable(t)
    ensures Resolve(t, allow, "").Err?
  {
    assert forall n :: n in t.commands ==> NamePart(n) && n != "";
    assert Lower("") == "";
  }

  lemma PutKeepsProper(t: CommandTable, allow: bool, name: string, p: Perms)
    requires Resolve(t, allow, name).Ok? && ProperArgs(t, p)
    ensures ProperArgs(t, Put(Resolve(t, allow, name).value.write, p))
  {
    var w := Resolve(t, allow, name).value.write;
    if w.AddFirstArg? {
      assert TakesFirstArgs(t, w.id);
    }
  }

  lemma {:induction false} ReplayAgree(t: CommandTable, token: string, tokens: seq<string>, p: Perms, q: Perms)
    requires ValidTable(t) && Logged(t, token) && AllLogged(t, tokens)
    requires ProperArgs(t, p) && AgreeBut(WriteOf(t, token), p, q)
    ensures RuleTokens(tokens) && AllLogged(t, Surviving(NameOf(token), tokens))
    ensures AgreeBut(WriteOf(t, token), Replay(t, tokens, p), Replay(t, Surviving(NameOf(token), tokens), q))
  {
    hide Put, AgreeBut, ProperArgs, ValidTable, PlainToken, MeansAll, Supersedes, Resolve;
    LoggedAreRules(t, tokens);
    if tokens != [] {
      var w, was := WriteOf(t, token), WriteOf(t, tokens[0]);
      var rest := Surviving(NameOf(token), tokens[1..]);
      var p' := Put(was, p);
      PutKeepsProper(t, Allows(tokens[0]), NameOf(tokens[0]), p);
      if Supersedes(NameOf(token), tokens[0][1..]) {
        SupersededIsCovered(t, token, tokens[0]);
        CoveredIsInvisible(t, w, was, p);
        AgreeButTrans(w, p', p, q);
        ReplayAgree(t, token, tokens[1..], p', q);
      } else {
        AgreeButPut(w, was, p, q);
        ReplayAgree(t, token, tokens[1..], p', Put(was, q));
        assert Surviving(NameOf(token), tokens) == [tokens[0]] + rest;
        assert ([tokens[0]] + rest)[1..] == rest;
      }
    }
  }

  lemma AgreeButTrans(w: Write, p: Perms, q: Perms, r: Perms)
    requires AgreeBut(w, p, q) && AgreeBut(w, q, r)
    ensures AgreeBut(w, p, r)
  {
  }

  /** Logging a rule: dropping what it supersedes and appending it at the end has, on
      replay, the effect of running it after the whole old log. */
  lemma LogAndReplay(t: CommandTable, token: string, tokens: seq<string>, all: bool)
    requires ValidTable(t) && Logged(t, token) && AllLogged(t, tokens)
    ensures RuleTokens(tokens) && AllLogged(t, Surviving(NameOf(token), tokens) + [token])
    ensures Replay(t, Surviving(NameOf(token), tokens) + [token], Start(all))
         == Put(WriteOf(t, token), Replay(t, tokens, Start(all)))
  {
    var kept, p := Surviving(NameOf(token), tokens), Start(all);
    ReplayAgree(t, token, tokens, p, p);
    ReplayAppend(t, kept, token, p);
    LastWriterWins(WriteOf(t, token), Replay(t, tokens, p), Replay(t, kept, p));
  }

  /** No command owns the reserved bit, so replaying never changes it. */
  lemma {:induction false} ReservedBit(t: CommandTable, tokens: seq<string>, p: Perms)
    requires ValidTable(t) && AllLogged(t, tokens) && |p.bits| == BITS
    ensures Replay(t, tokens, p).bits[BITS - 1] == p.bits[BITS - 1]
  {
    if tokens != [] {
      WriteBelowReserved(t, Allows(tokens[0]), NameOf(tokens[0]));
      ReservedBit(t, tokens[1..], Put(WriteOf(t, tokens[0]), p));
    }
  }

  lemma WriteBelowReserved(t: CommandTable, allow: bool, name: string)
    requires ValidTable(t) && Resolve(t, allow, name).Ok?
    ensures !WritesBit(Resolve(t, allow, name).value.write, BITS - 1)
  {
    if name != "" && name[0] == '@' {
      CategoryBelowReserved(t, t.categories[Lower(name[1..])]);
    } else if Lookup(t, name).Some? {
      LookupBelowReserved(t, name, allow);
    }
  }

  lemma CategoryBelowReserved(t: CommandTable, flag: bv64)
    requires ValidTable(t)
    ensures forall i :: i in Touched(t.commands, flag) ==> i < BITS - 1
  {
    forall n | n in t.commands ensures ValidCommand(n, t.commands[n]) {}
  }

  lemma LookupBelowReserved(t: CommandTable, name: string, allow: bool)
    requires ValidTable(t) && Lookup(t, name).Some?
    ensures forall i :: i in ChangePerm(Lookup(t, name).value, allow).ids ==> i < BITS - 1
  {
    forall n | n in t.commands ensures ValidCommand(n, t.commands[n]) {}
  }
}
