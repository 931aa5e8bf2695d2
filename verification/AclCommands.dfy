/** The command table the ACL rules are about, and what a rule on commands does:
    which permission cells it writes, and under which name it is logged. */
module AclCommands {
  import opened Text

  /** USER_COMMAND_BITS_COUNT; the last bit is reserved and never given to a command. */
  const BITS := 1024

  datatype Subcommand = Subcommand(id: nat, fullname: string, categories: bv64)

  datatype Command = Command(id: nat, fullname: string, categories: bv64,
                             subcommands: Option<map<string, Subcommand>>)

  /** server.orig_commands and ACLCommandCategories, keyed by lower-case names. */
  datatype CommandTable = CommandTable(commands: map<string, Command>, categories: map<string, bv64>)

  datatype Errno = EEXIST | EINVAL | EISDIR | ENOENT | ECHILD | ENODEV | EBADMSG

  datatype Result<+T> = Ok(value: T) | Err(errno: Errno)

  /** A command, subcommand or category name as the server registers it. */
  predicate NamePart(n: string) {
    PlainToken(n) && Lower(n) == n && '|' !in n
  }

  ghost predicate ValidSubcommands(parent: string, subs: map<string, Subcommand>) {
    forall m :: m in subs ==>
      NamePart(m) && Lower(subs[m].fullname) == parent + "|" + m && subs[m].id < BITS - 1
  }

  ghost predicate ValidCommand(n: string, c: Command) {
    && NamePart(n) && n[0] != '@'
    && Lower(c.fullname) == n
    && c.id < BITS - 1
    && (c.subcommands.Some? ==> ValidSubcommands(n, c.subcommands.value))
  }

  predicate SubcommandId(t: CommandTable, n: string, id: nat) {
    n in t.commands && id in SubcommandIds(t.commands[n])
  }

  /** No subcommand shares its id with a command. */
  ghost predicate DistinctIds(t: CommandTable) {
    forall n, k :: n in t.commands && k in t.commands ==> !SubcommandId(t, k, t.commands[n].id)
  }

  /** What registration guarantees: names in lower case without '|', blanks or quotes,
      full names built from them, and ids that are distinct and below the reserved bit
      (ACLGetCommandID). */
  ghost predicate ValidTable(t: CommandTable) {
    && (forall n :: n in t.commands ==> ValidCommand(n, t.commands[n]))
    && (forall c :: c in t.categories ==> NamePart(c))
    && DistinctIds(t)
  }

  // ---------------------------------------------------------------- lookup

  datatype Found = Top(cmd: Command) | Child(sub: Subcommand)

  predicate NoBar(s: string, lo: nat, hi: nat) {
    forall k :: lo <= k < hi && k < |s| ==> s[k] != '|'
  }

  function FirstBar(s: string): (r: Option<nat>)
    ensures r.None? ==> '|' !in s
    ensures r.Some? ==> r.value < |s| && s[r.value] == '|' && NoBar(s, 0, r.value)
  {
    if s == "" then None
    else if s[0] == '|' then Some(0)
    else
      match FirstBar(s[1..])
      case None => None
      case Some(i) => assert forall k :: 0 < k < i + 1 ==> s[k] == s[1..][k - 1]; Some(i + 1)
  }

  /** strrchr(s, '|') */
  function LastBar(s: string): (r: Option<nat>)
    ensures r.None? ==> '|' !in s
    ensures r.Some? ==> r.value < |s| && s[r.value] == '|' && NoBar(s, r.value + 1, |s|)
  {
    if s == "" then None
    else if s[|s| - 1] == '|' then Some(|s| - 1)
    else
      match LastBar(s[..|s| - 1])
      case None => None
      case Some(i) => assert forall k :: i < k < |s| - 1 ==> s[k] == s[..|s| - 1][k]; Some(i)
  }

  /** ACLLookupCommand: at most one level of subcommands, letter case ignored. */
  function Lookup(t: CommandTable, name: string): Option<Found> {
    match FirstBar(name)
    case None =>
      var n := Lower(name);
      if n in t.commands then Some(Top(t.commands[n])) else None
    case Some(i) =>
      var n, m := Lower(name[..i]), Lower(name[i + 1..]);
      if '|' in name[i + 1..] || n !in t.commands then None
      else
        match t.commands[n].subcommands
        case None => None
        case Some(subs) => if m in subs then Some(Child(subs[m])) else None
  }

  function Fullname(f: Found): string {
    match f
    case Top(c) => c.fullname
    case Child(s) => s.fullname
  }

  // ---------------------------------------------------------------- effects

  /** What a rule does to the permissions: it gives bits a value and flushes the
      first-args of some commands, or it allows one first-arg of a command. */
  datatype Write = SetBits(ids: set<nat>, allow: bool, flushed: set<nat>) | AddFirstArg(id: nat, arg: string)

  /** A rule as understood by ACLSetSelector: its effect, the name it is logged under,
      and the first-arg as the user spelled it. */
  datatype Resolved = Resolved(write: Write, name: string, arg: string)

  function SubcommandIds(c: Command): set<nat> {
    match c.subcommands
    case None => {}
    case Some(subs) => set m | m in subs :: subs[m].id
  }

  /** ACLChangeSelectorPerm: a container brings its subcommands along. */
  function ChangePerm(f: Found, allow: bool): Write {
    match f
    case Top(c) => SetBits({c.id} + SubcommandIds(c), allow, {c.id})
    case Child(s) => SetBits({s.id}, allow, {s.id})
  }

  predicate InCategory(categories: bv64, flag: bv64) {
    categories & flag != 0
  }

  /** The subcommands of c flagged with a category. */
  function FlaggedSubcommands(c: Command, flag: bv64): set<nat> {
    match c.subcommands
    case None => {}
    case Some(subs) => set m | m in subs && InCategory(subs[m].categories, flag) :: subs[m].id
  }

  /** What c contributes to a category: itself and its flagged subcommands. */
  function FlaggedOf(c: Command, flag: bv64): set<nat> {
    (if InCategory(c.categories, flag) then {c.id} else {}) + FlaggedSubcommands(c, flag)
  }

  /** The ids a rule on a category touches through c: a flagged container brings all its
      subcommands along. */
  function TouchedOf(c: Command, flag: bv64): set<nat> {
    (if InCategory(c.categories, flag) then {c.id} + SubcommandIds(c) else {}) + FlaggedSubcommands(c, flag)
  }

  function Flagged(commands: map<string, Command>, flag: bv64): set<nat> {
    set n, id | n in commands && id in FlaggedOf(commands[n], flag) :: id
  }

  function Touched(commands: map<string, Command>, flag: bv64): set<nat> {
    set n, id | n in commands && id in TouchedOf(commands[n], flag) :: id
  }

  /** The branches of ACLSetSelector for "+name" and "-name", name possibly "@category". */
  function Resolve(t: CommandTable, allow: bool, name: string): Result<Resolved> {
    if name != "" && name[0] == '@' then
      var c := Lower(name[1..]);
      if c in t.categories then
        var flag := t.categories[c];
        Ok(Resolved(SetBits(Touched(t.commands, flag), allow, Flagged(t.commands, flag)), Lower(name), ""))
      else Err(ENOENT)
    else if !allow || LastBar(name).None? then
      match Lookup(t, name)
      case None => Err(ENOENT)
      case Some(f) => Ok(Resolved(ChangePerm(f, allow), Lower(Fullname(f)), ""))
    else ResolvePart(t, name, LastBar(name).value)
  }

  /** "+command|part": a subcommand, or a first-arg of a command without subcommands. */
  function ResolvePart(t: CommandTable, name: string, bar: nat): Result<Resolved>
    requires bar < |name|
  {
    var part := name[bar + 1..];
    match Lookup(t, name[..bar])
    case None => Err(ENOENT)
    case Some(Child(_)) => Err(ECHILD)
    case Some(Top(c)) =>
      if part == "" then Err(EINVAL)
      else if c.subcommands.Some? then
        match Lookup(t, name)
        case None => Err(ENOENT)
        case Some(f) => Ok(Resolved(ChangePerm(f, true), Lower(name), ""))
      else Ok(Resolved(AddFirstArg(c.id, Lower(part)), Lower(name), part))
  }

  // ---------------------------------------------------------------- facts

  lemma {:induction false} BarsAt(s: string, i: nat)
    requires i < |s| && s[i] == '|'
    ensures NoBar(s, 0, i) ==> FirstBar(s) == Some(i)
    ensures NoBar(s, i + 1, |s|) ==> LastBar(s) == Some(i)
  {
    assert '|' in s;
  }

  lemma BarLower(s: string)
    ensures '|' in Lower(s) <==> '|' in s
    ensures FirstBar(Lower(s)) == FirstBar(s)
    ensures LastBar(Lower(s)) == LastBar(s)
  {
    var l := Lower(s);
    assert forall i :: 0 <= i < |s| ==> (l[i] == '|' <==> s[i] == '|');
    if '|' in s {
      var i, j := FirstBar(s).value, LastBar(s).value;
      assert l[i] == '|';
      BarsAt(l, i);
      BarsAt(l, j);
    }
  }

  lemma LookupLower(t: CommandTable, name: string)
    ensures Lookup(t, Lower(name)) == Lookup(t, name)
  {
    BarLower(name);
    LowerTwice(name);
    if FirstBar(name).Some? {
      var i := FirstBar(name).value;
      assert Lower(name)[..i] == Lower(name[..i]) && Lower(name)[i + 1..] == Lower(name[i + 1..]);
      LowerTwice(name[..i]);
      LowerTwice(name[i + 1..]);
      BarLower(name[i + 1..]);
    }
  }

  lemma LowerAtBar(name: string, i: nat)
    requires i < |name| && name[i] == '|'
    ensures Lower(name) == Lower(name[..i]) + "|" + Lower(name[i + 1..])
  {
  }

  /** The full name of a found command finds the command again. */
  lemma LookupFullname(t: CommandTable, name: string)
    requires ValidTable(t) && Lookup(t, name).Some?
    ensures Lower(Fullname(Lookup(t, name).value)) == Lower(name)
  {
    match FirstBar(name)
    case None =>
      assert ValidCommand(Lower(name), t.commands[Lower(name)]);
    case Some(i) =>
      assert ValidCommand(Lower(name[..i]), t.commands[Lower(name[..i])]);
      LowerAtBar(name, i);
  }

  /** A rule is logged under its own name in lower case, and resolving that name again
      gives the same effect and the same name. */
  lemma ResolveLogged(t: CommandTable, allow: bool, name: string)
    requires ValidTable(t) && Resolve(t, allow, name).Ok?
    ensures var r := Resolve(t, allow, name).value;
      && r.name == Lower(name)
      && Resolve(t, allow, r.name).Ok?
      && Resolve(t, allow, r.name).value.write == r.write
      && Resolve(t, allow, r.name).value.name == r.name
  {
    var lower := Lower(name);
    LowerTwice(name);
    if name != "" && name[0] == '@' {
      assert lower[1..] == Lower(name[1..]);
      LowerTwice(name[1..]);
    } else {
      BarLower(name);
      LookupLower(t, name);
      if !allow || LastBar(name).None? {
        LookupFullname(t, name);
      } else {
        ResolvePartLogged(t, name, LastBar(name).value);
      }
    }
  }

  lemma ResolvePartLogged(t: CommandTable, name: string, bar: nat)
    requires bar < |name| && ResolvePart(t, name, bar).Ok?
    ensures var r := ResolvePart(t, name, bar).value;
      && r.name == Lower(name)
      && ResolvePart(t, r.name, bar).Ok?
      && ResolvePart(t, r.name, bar).value.write == r.write
      && ResolvePart(t, r.name, bar).value.name == r.name
  {
    var lower := Lower(name);
    LowerTwice(name);
    LookupLower(t, name);
    assert lower[..bar] == Lower(name[..bar]);
    assert lower[bar + 1..] == Lower(name[bar + 1..]);
    LookupLower(t, name[..bar]);
    LowerTwice(name[bar + 1..]);
  }
}
