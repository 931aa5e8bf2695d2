/** What each operation of ACLSetSelector does to a selector, permission by permission. */
module AclEffects {
  import opened Text
  import opened AclRuleText
  import opened AclCommands
  import opened AclReplay
  import opened AclSelector
  import opened AclInvariant
  import opened AclDescribe
  import opened AclRoundTrip

  // ---------------------------------------------------------------- rules on categories

  /** The bit test of a category. */
  predicate HasCategory(categories: bv64, flag: bv64) {
    categories & flag != 0
  }

  lemma CategoryTest(categories: bv64, flag: bv64)
    ensures InCategory(categories, flag) <==> HasCategory(categories, flag)
  {
  }

  ghost predicate IsSubcommand(c: Command, id: nat) {
    c.subcommands.Some? && exists m :: m in c.subcommands.value && c.subcommands.value[m].id == id
  }

  /** A subcommand that is in the category itself. */
  ghost predicate SubcommandIn(c: Command, flag: bv64, id: nat) {
    c.subcommands.Some? && exists m ::
      m in c.subcommands.value && c.subcommands.value[m].id == id && HasCategory(c.subcommands.value[m].categories, flag)
  }

  /** The command of this id is in the category, or it is a subcommand of one that is. */
  ghost predicate InReach(t: CommandTable, flag: bv64, id: nat) {
    exists n :: n in t.commands && var c := t.commands[n];
      (HasCategory(c.categories, flag) && (c.id == id || IsSubcommand(c, id))) || SubcommandIn(c, flag, id)
  }

  /** The command of this id is in the category itself. */
  ghost predicate IsIn(t: CommandTable, flag: bv64, id: nat) {
    exists n :: n in t.commands && var c := t.commands[n]; (HasCategory(c.categories, flag) && c.id == id) || SubcommandIn(c, flag, id)
  }

  lemma SubcommandsIff(c: Command, flag: bv64, id: nat)
    ensures id in FlaggedSubcommands(c, flag) <==> SubcommandIn(c, flag, id)
    ensures id in SubcommandIds(c) <==> IsSubcommand(c, id)
  {
    hide InCategory, HasCategory;
    if c.subcommands.Some? {
      var subs := c.subcommands.value;
      forall m | m in subs ensures InCategory(subs[m].categories, flag) <==> HasCategory(subs[m].categories, flag) {
        CategoryTest(subs[m].categories, flag);
      }
    }
  }

  lemma TouchedOfIff(c: Command, flag: bv64, id: nat)
    ensures id in TouchedOf(c, flag) <==> (HasCategory(c.categories, flag) && (c.id == id || IsSubcommand(c, id))) || SubcommandIn(c, flag, id)
    ensures id in FlaggedOf(c, flag) <==> (HasCategory(c.categories, flag) && c.id == id) || SubcommandIn(c, flag, id)
  {
    hide FlaggedSubcommands, SubcommandIds, SubcommandIn, IsSubcommand, InCategory, HasCategory;
    SubcommandsIff(c, flag, id);
    CategoryTest(c.categories, flag);
  }

  lemma TouchedIff(t: CommandTable, flag: bv64, id: nat)
    ensures id in Touched(t.commands, flag) <==> InReach(t, flag, id)
  {
    hide TouchedOf, IsSubcommand, SubcommandIn, HasCategory;
    forall n | n in t.commands
      ensures id in TouchedOf(t.commands[n], flag) <==> var c := t.commands[n];
        (HasCategory(c.categories, flag) && (c.id == id || IsSubcommand(c, id))) || SubcommandIn(c, flag, id)
    {
      TouchedOfIff(t.commands[n], flag, id);
    }
  }

  lemma FlaggedIff(t: CommandTable, flag: bv64, id: nat)
    ensures id in Flagged(t.commands, flag) <==> IsIn(t, flag, id)
  {
    hide FlaggedOf, SubcommandIn, HasCategory;
    forall n | n in t.commands
      ensures id in FlaggedOf(t.commands[n], flag) <==> var c := t.commands[n];
        (HasCategory(c.categories, flag) && c.id == id) || SubcommandIn(c, flag, id)
    {
      TouchedOfIff(t.commands[n], flag, id);
    }
  }

  /** Only what a rule on commands is about has changed: the bits of the ids in `reached`, the first-args
      of those in `flushed`, and the ALLCOMMANDS flag when a bit was taken away. */
  ghost predicate BitsChanged(s: Selector, s': Selector, allow: bool, reached: iset<nat>, flushed: iset<nat>) {
    && |s'.bits| == |s.bits|
    && (forall i :: 0 <= i < |s.bits| ==> s'.bits[i] == if i in reached then allow else s.bits[i])
    && (forall id :: id in s'.args <==> id in s.args && id !in flushed)
    && (forall id :: id in s'.args ==> s'.args[id] == s.args[id])
    && (s'.allCommands <==> s.allCommands && (allow || !exists i :: i in reached && i < BITS))
    && SameKeys(s, s')
  }

  ghost predicate SameKeys(s: Selector, s': Selector) {
    s'.allKeys == s.allKeys && s'.patterns == s.patterns && s'.allChannels == s.allChannels && s'.channels == s.channels
  }

  lemma ChangedBits(s: Selector, ids: set<nat>, allow: bool, flushed: set<nat>, name: string, reached: iset<nat>, emptied: iset<nat>)
    requires RuleTokens(s.log)
    requires (forall i :: i in ids <==> i in reached) && (forall i :: i in flushed <==> i in emptied)
    ensures BitsChanged(s, ApplyRule(s, allow, Resolved(SetBits(ids, allow, flushed), name, "")), allow, reached, emptied)
  {
    hide Surviving, RuleTokens;
    assert TouchesBitmap(ids) <==> exists i :: i in reached && i < BITS;
  }

  /** A rule that is not "@all" is resolved and applied. */
  lemma RuleIs(t: CommandTable, s: Selector, op: string)
    requires RuleTokens(s.log) && IsRule(op) && KeywordOf(op) == OtherWord
    ensures var r := Resolve(t, op[0] == '+', op[1..]);
      SetSelector(t, s, op) == if r.Ok? then Ok(ApplyRule(s, op[0] == '+', r.value)) else Err(r.errno)
  {
    hide KeywordOf, Resolve, ApplyRule, RuleTokens;
  }

  lemma CategoryIs(t: CommandTable, allow: bool, name: string)
    requires name != "" && name[0] == '@'
    ensures var c := Lower(name[1..]);
      Resolve(t, allow, name) == if c !in t.categories then Err(ENOENT)
        else Ok(Resolved(SetBits(Touched(t.commands, t.categories[c]), allow, Flagged(t.commands, t.categories[c])), Lower(name), ""))
  {
    hide Touched, Flagged, Lookup, ResolvePart;
  }

  /** "+@category" and "-@category": the commands of the category, all their subcommands, and every
      subcommand of the category get the bit; no other bit changes.  An unknown category is an error. */
  lemma CategoryRule(t: CommandTable, s: Selector, op: string)
    requires RuleTokens(s.log) && |op| >= 2 && (op[0] == '+' || op[0] == '-') && op[1] == '@'
    requires Lower(op) != "+@all" && Lower(op) != "-@all"
    ensures var name, r := Lower(op[2..]), SetSelector(t, s, op);
      if name !in t.categories then r == Err(ENOENT)
      else r.Ok? && var flag := t.categories[name];
        BitsChanged(s, r.value, op[0] == '+', iset i: nat | InReach(t, flag, i), iset i: nat | IsIn(t, flag, i))
  {
    hide *;
    NotAll(op);
    assert IsRule(op) by { RuleLooks(op); }
    RuleIs(t, s, op);
    CategoryIs(t, op[0] == '+', op[1..]);
    assert op[1..][1..] == op[2..];
    var name := Lower(op[2..]);
    if name in t.categories {
      var flag := t.categories[name];
      forall i: nat ensures i in Touched(t.commands, flag) <==> InReach(t, flag, i) { TouchedIff(t, flag, i); }
      forall i: nat ensures i in Flagged(t.commands, flag) <==> IsIn(t, flag, i) { FlaggedIff(t, flag, i); }
      ChangedBits(s, Touched(t.commands, flag), op[0] == '+', Flagged(t.commands, flag), Lower(op[1..]),
        iset i: nat | InReach(t, flag, i), iset i: nat | IsIn(t, flag, i));
    }
  }

  lemma RuleLooks(op: string)
    requires op != "" && (op[0] == '+' || op[0] == '-')
    ensures IsRule(op)
  {
  }

  lemma NotAll(op: string)
    requires op != "" && (op[0] == '+' || op[0] == '-') && Lower(op) != "+@all" && Lower(op) != "-@all"
    ensures KeywordOf(op) == OtherWord
  {
    WordsAreLower();
    hide KeywordOf;
    RuleKeyword(op);
  }

  // ---------------------------------------------------------------- rules on commands

  /** A rule on a command, not on a category. */
  predicate NamesCommand(op: string) {
    op != "" && (op[0] == '+' || op[0] == '-') && (|op| > 1 ==> op[1] != '@')
  }

  lemma NotCategory(op: string)
    requires NamesCommand(op)
    ensures KeywordOf(op) == OtherWord && IsRule(op)
  {
    assert |op| > 1 ==> Lower(op)[1] != '@';
    assert "+@all"[1] == '@' && "-@all"[1] == '@';
    NotAll(op);
  }

  lemma NoBarIn(s: string)
    requires '|' !in s
    ensures FirstBar(s).None? && LastBar(s).None?
  {
  }

  lemma PlainIs(t: CommandTable, allow: bool, name: string)
    requires (name != "" ==> name[0] != '@') && '|' !in name
    ensures var n := Lower(name);
      Resolve(t, allow, name) == if n !in t.commands then Err(ENOENT) else
        var c := t.commands[n]; Ok(Resolved(SetBits({c.id} + SubcommandIds(c), allow, {c.id}), Lower(c.fullname), ""))
  {
    hide ResolvePart, SubcommandIds;
    NoBarIn(name);
  }

  /** "+command" and "-command": that command and all its subcommands, and nothing else. */
  lemma CommandRule(t: CommandTable, s: Selector, op: string)
    requires RuleTokens(s.log) && NamesCommand(op) && '|' !in op
    ensures var name, r := Lower(op[1..]), SetSelector(t, s, op);
      if name !in t.commands then r == Err(ENOENT)
      else r.Ok? && var c := t.commands[name];
        BitsChanged(s, r.value, op[0] == '+', iset i: nat | i == c.id || IsSubcommand(c, i), iset{c.id})
  {
    hide *;
    NotCategory(op);
    RuleIs(t, s, op);
    NameOfRule(op);
    PlainIs(t, op[0] == '+', op[1..]);
    if Lower(op[1..]) in t.commands {
      var c := t.commands[Lower(op[1..])];
      forall i: nat ensures i in {c.id} + SubcommandIds(c) <==> i == c.id || IsSubcommand(c, i) { SubcommandsIff(c, 0, i); }
      ChangedBits(s, {c.id} + SubcommandIds(c), op[0] == '+', {c.id}, Lower(c.fullname),
        iset i: nat | i == c.id || IsSubcommand(c, i), iset{c.id});
    }
  }

  lemma NameOfRule(op: string)
    requires NamesCommand(op)
    ensures op != "" && (op[1..] != "" ==> op[1..][0] != '@') && ('|' !in op ==> '|' !in op[1..])
  {
  }

  /** The name of a rule, split at its only bar. */
  ghost predicate OneBar(op: string, a: string, b: string) {
    NamesCommand(op) && op[1..] == a + "|" + b && '|' !in a && '|' !in b
  }

  lemma BarIn(name: string, a: string, b: string)
    requires name == a + "|" + b && '|' !in a && '|' !in b
    ensures FirstBar(name) == Some(|a|) && LastBar(name) == Some(|a|) && name[..|a|] == a && name[|a| + 1..] == b
  {
    hide FirstBar, LastBar;
    assert name[|a|] == '|';
    assert forall k :: 0 <= k < |a| ==> name[k] == a[k] && a[k] in a;
    assert forall k :: |a| < k < |name| ==> name[k] == b[k - |a| - 1] && b[k - |a| - 1] in b;
    BarsAt(name, |a|);
  }

  lemma LookupOne(t: CommandTable, name: string, a: string, b: string)
    requires name == a + "|" + b && '|' !in a && '|' !in b && Lower(a) in t.commands
    ensures Lookup(t, a) == Some(Top(t.commands[Lower(a)]))
    ensures var subs := t.commands[Lower(a)].subcommands;
      Lookup(t, name) == if subs.Some? && Lower(b) in subs.value then Some(Child(subs.value[Lower(b)])) else None
  {
    BarIn(name, a, b);
    NoBarIn(a);
    hide FirstBar, Lower;
  }

  lemma PartIs(t: CommandTable, allow: bool, name: string, a: string, b: string)
    requires name == a + "|" + b && '|' !in a && '|' !in b && Lower(a) in t.commands && name[0] != '@'
    ensures var r, subs := Resolve(t, allow, name), t.commands[Lower(a)].subcommands;
      if allow && b == "" then r == Err(EINVAL)
      else if subs.None? then r == if allow then Ok(Resolved(AddFirstArg(t.commands[Lower(a)].id, Lower(b)), Lower(name), b)) else Err(ENOENT)
      else if Lower(b) !in subs.value then r == Err(ENOENT)
      else var id := subs.value[Lower(b)].id; r.Ok? && r.value.write == SetBits({id}, allow, {id}) && r.value.arg == ""
  {
    LookupOne(t, name, a, b);
    BarIn(name, a, b);
    hide Lookup, LastBar, Lower;
  }

  /** "+command|part" and "-command|part" where the command has subcommands: that subcommand only. */
  lemma SubcommandRule(t: CommandTable, s: Selector, op: string, a: string, b: string)
    requires RuleTokens(s.log) && OneBar(op, a, b) && Lower(a) in t.commands && t.commands[Lower(a)].subcommands.Some?
    ensures var subs, r := t.commands[Lower(a)].subcommands.value, SetSelector(t, s, op);
      if op[0] == '+' && b == "" then r == Err(EINVAL)
      else if Lower(b) !in subs then r == Err(ENOENT)
      else r.Ok? && var id := subs[Lower(b)].id; BitsChanged(s, r.value, op[0] == '+', iset{id}, iset{id})
  {
    hide *;
    BarOf(op, a, b);
    NotCategory(op);
    RuleIs(t, s, op);
    PartIs(t, op[0] == '+', op[1..], a, b);
    var subs, r := t.commands[Lower(a)].subcommands.value, Resolve(t, op[0] == '+', op[1..]);
    if r.Ok? {
      var id := subs[Lower(b)].id;
      ChangedBits(s, {id}, op[0] == '+', {id}, r.value.name, iset{id}, iset{id});
      assert r.value == Resolved(SetBits({id}, op[0] == '+', {id}), r.value.name, "");
    }
  }

  lemma BarOf(op: string, a: string, b: string)
    requires OneBar(op, a, b)
    ensures NamesCommand(op) && op != "" && op[1..] == a + "|" + b && '|' !in a && '|' !in b && op[1..][0] != '@'
  {
  }

  /** The argument is there, in some letter case. */
  ghost predicate Held(present: seq<string>, arg: string) {
    exists i :: 0 <= i < |present| && Lower(present[i]) == Lower(arg)
  }

  /** Where `id` stands in the first-args is all that changed. */
  ghost predicate ArgAdded(s: Selector, s': Selector, id: nat, arg: string) {
    && s'.bits == s.bits && s'.allCommands == s.allCommands && SameKeys(s, s')
    && (forall other :: other != id ==> (other in s'.args <==> other in s.args))
    && (forall other :: other != id && other in s.args ==> s'.args[other] == s.args[other])
    && var was := if id in s.args then s.args[id] else [];
       if Held(was, arg) then s'.args == s.args else id in s'.args && s'.args[id] == was + [arg]
  }

  lemma AddedArg(s: Selector, id: nat, lower: string, name: string, arg: string)
    requires RuleTokens(s.log)
    ensures ArgAdded(s, ApplyRule(s, true, Resolved(AddFirstArg(id, lower), name, arg)), id, arg)
  {
    hide Surviving, RuleTokens, HasArg, Held;
    HeldAlready(if id in s.args then s.args[id] else [], arg);
  }

  lemma HeldAlready(present: seq<string>, arg: string)
    ensures HasArg(present, arg) <==> Held(present, arg)
  {
    hide Lower;
    assert forall i :: 0 <= i < |present| ==> (EqNoCase(present[i], arg) <==> Lower(present[i]) == Lower(arg));
  }

  /** "+command|part" where the command has none: the part is allowed as first argument, once in any
      letter case; no bit changes. */
  lemma FirstArgRule(t: CommandTable, s: Selector, op: string, a: string, b: string)
    requires RuleTokens(s.log) && OneBar(op, a, b) && Lower(a) in t.commands && t.commands[Lower(a)].subcommands.None?
    ensures var r, id := SetSelector(t, s, op), t.commands[Lower(a)].id;
      if op[0] == '-' then r == Err(ENOENT) else if b == "" then r == Err(EINVAL) else r.Ok? && ArgAdded(s, r.value, id, b)
  {
    hide *;
    BarOf(op, a, b);
    NotCategory(op);
    RuleIs(t, s, op);
    SignOf(op);
    PartIs(t, op[0] == '+', op[1..], a, b);
    AddedArg(s, t.commands[Lower(a)].id, Lower(b), Lower(op[1..]), b);
  }

  lemma SignOf(op: string)
    requires NamesCommand(op)
    ensures op[0] == '+' || op[0] == '-'
  {
  }

  /** A rule on a part of a command the server does not have is an error. */
  lemma UnknownRule(t: CommandTable, s: Selector, op: string, a: string, b: string)
    requires RuleTokens(s.log) && OneBar(op, a, b) && Lower(a) !in t.commands
    ensures SetSelector(t, s, op) == Err(ENOENT)
  {
    hide *;
    BarOf(op, a, b);
    NotCategory(op);
    RuleIs(t, s, op);
    UnknownPart(t, op[0] == '+', op[1..], a, b);
  }

  lemma UnknownPart(t: CommandTable, allow: bool, name: string, a: string, b: string)
    requires name == a + "|" + b && '|' !in a && '|' !in b && name[0] != '@' && Lower(a) !in t.commands
    ensures Resolve(t, allow, name) == Err(ENOENT)
  {
    hide FirstBar, LastBar, Lower;
    BarIn(name, a, b);
    NoBarIn(a);
  }

  ghost predicate IsPart(t: CommandTable, a: string, b: string) {
    Lower(a) in t.commands && t.commands[Lower(a)].subcommands.Some? && Lower(b) in t.commands[Lower(a)].subcommands.value
  }

  /** So is a rule on a part of a part, with an errno of its own for a first argument of a subcommand. */
  lemma PartOfPartRule(t: CommandTable, s: Selector, op: string, a: string, b: string, c: string)
    requires RuleTokens(s.log) && NamesCommand(op) && op[1..] == a + "|" + (b + "|" + c) && '|' !in a && '|' !in c
    ensures SetSelector(t, s, op) == Err(if op[0] == '+' && '|' !in b && IsPart(t, a, b) then ECHILD else ENOENT)
  {
    hide *;
    NotCategory(op);
    NameOfRule(op);
    RuleIs(t, s, op);
    PartOfPart(t, op[0] == '+', op[1..], a, b, c);
  }

  lemma PartOfPart(t: CommandTable, allow: bool, name: string, a: string, b: string, c: string)
    requires name == a + "|" + (b + "|" + c) && '|' !in a && '|' !in c && name[0] != '@'
    ensures Resolve(t, allow, name) == Err(if allow && '|' !in b && IsPart(t, a, b) then ECHILD else ENOENT)
  {
    hide FirstBar, LastBar, Lower;
    var bar, front := |a| + 1 + |b|, a + "|" + b;
    assert name[bar] == '|' && name[..bar] == front;
    assert forall k :: bar < k < |name| ==> name[k] == c[k - bar - 1] && c[k - bar - 1] in c;
    BarsAt(name, bar);
    FirstBarIs(name, a, b + "|" + c);
    FirstBarIs(front, a, b);
    assert '|' in b + "|" + c by { assert (b + "|" + c)[|b|] == '|'; }
  }

  lemma FirstBarIs(name: string, a: string, b: string)
    requires |a| < |name| && name[..|a|] == a && name[|a|] == '|' && name[|a| + 1..] == b && '|' !in a
    ensures FirstBar(name) == Some(|a|)
  {
    hide FirstBar;
    assert forall k :: 0 <= k < |a| ==> name[k] == a[k] && a[k] in a;
    BarsAt(name, |a|);
  }

  // ---------------------------------------------------------------- keywords

  /** The words without a sign. */
  lemma WordRule(t: CommandTable, s: Selector, op: string)
    requires RuleTokens(s.log)
    ensures var r, w := SetSelector(t, s, op), Lower(op);
      && (w == "allkeys" || w == "~*" ==> r == Ok(s.(allKeys := true, patterns := [])))
      && (w == "resetkeys" ==> r == Ok(s.(allKeys := false, patterns := [])))
      && (w == "allchannels" || w == "&*" ==> r == Ok(s.(allChannels := true, channels := [])))
      && (w == "resetchannels" ==> r == Ok(s.(allChannels := false, channels := [])))
      && (w == "allcommands" || w == "+@all" ==> r.Ok? && AllOrNothing(s, r.value, true))
      && (w == "nocommands" || w == "-@all" ==> r.Ok? && AllOrNothing(s, r.value, false))
  {
    hide RuleTokens;
    WordsAreLower();
  }

  /** Every bit is set or cleared, and rules and first-args are forgotten. */
  ghost predicate AllOrNothing(s: Selector, s': Selector, all: bool) {
    && |s'.bits| == BITS && (forall i :: 0 <= i < BITS ==> s'.bits[i] == all) && s'.allCommands == all
    && s'.log == [] && s'.args == map[] && SameKeys(s, s')
  }

  lemma WordsAreLower()
    ensures Lower("allkeys") == "allkeys" && Lower("~*") == "~*" && Lower("resetkeys") == "resetkeys"
    ensures Lower("allchannels") == "allchannels" && Lower("&*") == "&*" && Lower("resetchannels") == "resetchannels"
    ensures Lower("allcommands") == "allcommands" && Lower("+@all") == "+@all"
    ensures Lower("nocommands") == "nocommands" && Lower("-@all") == "-@all"
  {
  }

  // ---------------------------------------------------------------- keys and channels

  /** A pattern that is there gets the permissions too, at its place; otherwise it goes to the end. */
  ghost predicate Granted(ps: seq<KeyPattern>, ps': seq<KeyPattern>, text: string, read: bool, write: bool) {
    if exists i :: 0 <= i < |ps| && ps[i].pattern == text then
      exists i :: 0 <= i < |ps| && ps[i].pattern == text && (forall j :: 0 <= j < i ==> ps[j].pattern != text)
        && ps' == ps[i := KeyPattern(text, ps[i].read || read, ps[i].write || write)]
    else ps' == ps + [KeyPattern(text, read, write)]
  }

  lemma PatternIsGranted(ps: seq<KeyPattern>, p: KeyPattern)
    ensures Granted(ps, AddPattern(ps, p), p.pattern, p.read, p.write)
  {
    if exists i :: 0 <= i < |ps| && ps[i].pattern == p.pattern {
      var i := FirstOf(ps, p.pattern);
      AddPatternAt(ps, p, i);
    } else {
      AddPatternAt(ps, p, |ps|);
    }
  }

  lemma {:induction false} FirstOf(ps: seq<KeyPattern>, text: string) returns (i: nat)
    requires exists k :: 0 <= k < |ps| && ps[k].pattern == text
    ensures i < |ps| && ps[i].pattern == text && forall j :: 0 <= j < i ==> ps[j].pattern != text
  {
    i := 0;
    while ps[i].pattern != text
      invariant i < |ps| && forall j :: 0 <= j < i ==> ps[j].pattern != text
      decreases |ps| - i
    {
      i := i + 1;
    }
  }

  /** The outcome of an operation that grants a key pattern. */
  ghost predicate GrantsKey(s: Selector, r: Result<Selector>, text: string, read: bool, write: bool) {
    if s.allKeys then r == Err(EEXIST)
    else if exists i :: 0 <= i < |text| && (IsSpace(text[i]) || text[i] == NUL) then r == Err(EINVAL)
    else r.Ok? && r.value == s.(patterns := r.value.patterns) && Granted(s.patterns, r.value.patterns, text, read, write)
  }

  /** "~pattern" grants both permissions. */
  lemma KeyRule(t: CommandTable, s: Selector, op: string)
    requires RuleTokens(s.log) && op != "" && op[0] == '~' && op != "~*"
    ensures GrantsKey(s, SetSelector(t, s, op), op[1..], true, true)
  {
    hide RuleTokens, KeywordOf, AddPattern, Granted;
    NotAKeyword(op);
    PatternIsGranted(s.patterns, KeyPattern(op[1..], true, true));
  }

  /** The letters between '%' and '~': each permission at most once, at least one. */
  predicate PermissionLetters(ls: string) {
    Lower(ls) == "r" || Lower(ls) == "w" || Lower(ls) == "rw" || Lower(ls) == "wr"
  }

  lemma LetterIs(c: char)
    ensures ToLower(c) == 'r' <==> c == 'R' || c == 'r'
    ensures ToLower(c) == 'w' <==> c == 'W' || c == 'w'
  {
  }

  lemma PermsRead(op: string, ls: string)
    requires PermissionLetters(ls) && |op| > |ls| && op[1..|ls| + 1] == ls && (|op| > |ls| + 1 ==> op[|ls| + 1] == '~')
    ensures ParsePerms(op, 1, false, false) ==
      Some(('r' in Lower(ls), 'w' in Lower(ls), if |op| > |ls| + 1 then |ls| + 2 else |ls| + 1))
  {
    assert op[1] == ls[0] && Lower(ls)[0] == ToLower(ls[0]);
    LetterIs(ls[0]);
    if |ls| == 2 {
      assert op[2] == ls[1] && Lower(ls)[1] == ToLower(ls[1]);
      LetterIs(ls[1]);
      assert ParsePerms(op, 2, Lower(ls)[0] == 'r', Lower(ls)[0] == 'w') == ParsePerms(op, 3, true, true);
      assert 'r' in Lower(ls) && 'w' in Lower(ls);
    } else {
      assert Lower(ls) == "r" ==> 'w' !in Lower(ls);
      assert Lower(ls) == "w" ==> 'r' !in Lower(ls);
    }
  }

  /** "%letters~pattern" grants the permissions of the letters; without the '~' the pattern is empty. */
  lemma PermissionRule(t: CommandTable, s: Selector, ls: string, text: string, tilde: bool)
    requires RuleTokens(s.log) && PermissionLetters(ls) && (!tilde ==> text == "")
    ensures GrantsKey(s, SetSelector(t, s, "%" + ls + (if tilde then "~" else "") + text), text, 'r' in Lower(ls), 'w' in Lower(ls))
  {
    hide RuleTokens, KeywordOf, AddPattern, Granted, ParsePerms;
    var op := "%" + ls + (if tilde then "~" else "") + text;
    assert op[1..|ls| + 1] == ls;
    PermsRead(op, ls);
    NotAKeyword(op);
    var at := if |op| > |ls| + 1 then |ls| + 2 else |ls| + 1;
    assert op[at..] == text;
    PatternIsGranted(s.patterns, KeyPattern(text, 'r' in Lower(ls), 'w' in Lower(ls)));
  }

  /** Any other "%..." is an error. */
  lemma BadPermissionRule(t: CommandTable, s: Selector, op: string)
    requires RuleTokens(s.log) && op != "" && op[0] == '%'
    requires forall n :: 1 <= n <= |op| && PermissionLetters(op[1..n]) ==> n < |op| && op[n] != '~'
    ensures SetSelector(t, s, op) == Err(if s.allKeys then EEXIST else EINVAL)
  {
    NotAKeyword(op);
    if ParsePerms(op, 1, false, false).Some? {
      hide KeywordOf;
      var p := ParsePerms(op, 1, false, false).value;
      if p.0 || p.1 {
        var n := LettersOf(op);
        assert false;
      }
    }
  }

  lemma LettersOf(op: string) returns (n: nat)
    requires |op| > 0 && ParsePerms(op, 1, false, false).Some?
    requires var p := ParsePerms(op, 1, false, false).value; p.0 || p.1
    ensures 1 <= n <= |op| && PermissionLetters(op[1..n]) && (n < |op| ==> op[n] == '~')
  {
    LetterIs(op[1]);
    assert Lower(op[1..2]) == [ToLower(op[1])];
    var r, w := ToLower(op[1]) == 'r', ToLower(op[1]) == 'w';
    assert r || w;
    assert ParsePerms(op, 1, false, false) == ParsePerms(op, 2, r, w);
    if |op| == 2 || op[2] == '~' {
      n := 2;
    } else {
      LetterIs(op[2]);
      assert Lower(op[1..3]) == [ToLower(op[1]), ToLower(op[2])];
      assert ParsePerms(op, 2, r, w) == ParsePerms(op, 3, true, true);
      n := 3;
    }
  }

  /** "&channel" allows the channel, once. */
  lemma ChannelRule(t: CommandTable, s: Selector, op: string)
    requires RuleTokens(s.log) && op != "" && op[0] == '&' && op != "&*"
    ensures var r, c := SetSelector(t, s, op), op[1..];
      if s.allChannels then r == Err(EISDIR)
      else if exists i :: 0 <= i < |c| && (IsSpace(c[i]) || c[i] == NUL) then r == Err(EINVAL)
      else r == Ok(if c in s.channels then s else s.(channels := s.channels + [c]))
  {
    hide RuleTokens, KeywordOf;
    NotAKeyword(op);
  }

  /** Anything else is an error. */
  lemma OtherOperation(t: CommandTable, s: Selector, op: string)
    requires RuleTokens(s.log) && (op == "" || op[0] !in "~%&+-")
    requires Lower(op) !in {"allkeys", "resetkeys", "allchannels", "resetchannels", "allcommands", "nocommands"}
    ensures SetSelector(t, s, op) == Err(EINVAL)
  {
    hide RuleTokens;
    WordsAreLower();
    if op != "" {
      assert Lower(op)[0] == ToLower(op[0]);
      assert "~*"[0] == '~' && "&*"[0] == '&' && "+@all"[0] == '+' && "-@all"[0] == '-';
    }
  }
}
