/** What ACLSetSelector does to a selector, as a function of its state and the
    operation string, and the invariant every operation keeps: replaying the log
    rebuilds the bitmap. */
module AclSelector {
  import opened Text
  import opened AclRuleText
  import opened AclCommands
  import opened AclReplay

  datatype KeyPattern = KeyPattern(pattern: string, read: bool, write: bool)

  /** aclSelector: flags, bitmap, first-args as spelled by the user (per command id),
      the rule log as a list, key patterns and channels. */
  datatype Selector = Selector(
    allKeys: bool, allChannels: bool, allCommands: bool,
    bits: seq<bool>, args: map<nat, seq<string>>, log: seq<string>,
    patterns: seq<KeyPattern>, channels: seq<string>)

  /** ACLCreateSelector; the flag is acl-pubsub-default. */
  function Fresh(pubsubDefault: bool): Selector {
    Selector(false, pubsubDefault, false, seq(BITS, _ => false), map[], [], [], [])
  }

  /** command_rules */
  function LogText(s: Selector): string {
    Join(s.log)
  }

  function ArgCells(args: map<nat, seq<string>>): set<(nat, string)> {
    set id, i | id in args && 0 <= i < |args[id]| :: (id, Lower(args[id][i]))
  }

  function PermsOf(s: Selector): Perms {
    Perms(s.bits, ArgCells(s.args))
  }

  // ---------------------------------------------------------------- rules on commands

  predicate HasArg(present: seq<string>, arg: string) {
    exists i :: 0 <= i < |present| && EqNoCase(present[i], arg)
  }

  /** ACLAddAllowedFirstArg: nothing is added when the arg is there in any letter case. */
  function AddArg(args: map<nat, seq<string>>, id: nat, arg: string): map<nat, seq<string>> {
    var present := if id in args then args[id] else [];
    if HasArg(present, arg) then args
    else args[id := present + [arg]]
  }

  /** The bitmap after ACLSetSelectorCommandBit on each id of a set. */
  function WithBits(bits: seq<bool>, ids: set<nat>, allow: bool): (r: seq<bool>)
    ensures |r| == |bits|
  {
    seq(|bits|, i requires 0 <= i < |bits| => if i in ids then allow else bits[i])
  }

  /** ACLSetSelectorCommandBit ignores ids that overflow the bitmap. */
  predicate TouchesBitmap(ids: set<nat>) {
    exists i :: i in ids && i < BITS
  }

  /** ACLChangeSelectorPerm on a set of commands: their bits, the ALLCOMMANDS flag when
      bits are taken away, and the first-args of the commands themselves. */
  function ChangeBits(s: Selector, ids: set<nat>, allow: bool, flushed: set<nat>): Selector {
    s.(bits := WithBits(s.bits, ids, allow),
       allCommands := s.allCommands && (allow || !TouchesBitmap(ids)),
       args := s.args - flushed)
  }

  /** ACLUpdateCommandRules */
  function LogRule(s: Selector, name: string, allow: bool): Selector
    requires RuleTokens(s.log)
  {
    s.(log := Surviving(name, s.log) + [(if allow then "+" else "-") + name])
  }

  /** An accepted rule: its effect on bits, flag and first-args, and the new log. */
  function ApplyRule(s: Selector, allow: bool, r: Resolved): Selector
    requires RuleTokens(s.log)
  {
    match r.write
    case SetBits(ids, _, flushed) => ChangeBits(LogRule(s, r.name, allow), ids, allow, flushed)
    case AddFirstArg(id, _) => LogRule(s, r.name, allow).(args := AddArg(s.args, id, r.arg))
  }

  function AllCommands(s: Selector, all: bool): Selector {
    s.(bits := seq(BITS, _ => all), allCommands := all, log := [], args := map[])
  }

  // ---------------------------------------------------------------- keys and channels

  predicate HasSpaces(s: string) {
    exists i :: 0 <= i < |s| && (IsSpace(s[i]) || s[i] == NUL)
  }

  /** The permission letters after '%': each at most once, up to '~' or the end. */
  function ParsePerms(op: string, at: nat, r: bool, w: bool): (p: Option<(bool, bool, nat)>)
    requires at <= |op|
    ensures p.Some? ==> p.value.2 <= |op|
    decreases |op| - at
  {
    if at == |op| then Some((r, w, at))
    else if (op[at] == 'R' || op[at] == 'r') && !r then ParsePerms(op, at + 1, true, w)
    else if (op[at] == 'W' || op[at] == 'w') && !w then ParsePerms(op, at + 1, r, true)
    else if op[at] == '~' then Some((r, w, at + 1))
    else None
  }

  function AddPattern(ps: seq<KeyPattern>, p: KeyPattern): seq<KeyPattern> {
    if ps == [] then [p]
    else if ps[0].pattern == p.pattern then
      [KeyPattern(p.pattern, ps[0].read || p.read, ps[0].write || p.write)] + ps[1..]
    else [ps[0]] + AddPattern(ps[1..], p)
  }

  function SetKeyPattern(s: Selector, op: string): Result<Selector>
    requires op != ""
  {
    if s.allKeys then Err(EEXIST)
    else
      var perms := if op[0] == '%' then ParsePerms(op, 1, false, false) else Some((true, true, 1));
      if perms.None? || !(perms.value.0 || perms.value.1) then Err(EINVAL)
      else
        var (r, w, at) := perms.value;
        if HasSpaces(op[at..]) then Err(EINVAL)
        else Ok(s.(patterns := AddPattern(s.patterns, KeyPattern(op[at..], r, w))))
  }

  function SetChannel(s: Selector, op: string): Result<Selector>
    requires op != ""
  {
    if s.allChannels then Err(EISDIR)
    else if HasSpaces(op[1..]) then Err(EINVAL)
    else Ok(s.(channels := if op[1..] in s.channels then s.channels else s.channels + [op[1..]]))
  }

  // ---------------------------------------------------------------- the operation

  predicate IsRule(op: string) {
    op != "" && (op[0] == '+' || op[0] == '-')
  }

  datatype Keyword = AllKeysWord | ResetKeysWord | AllChannelsWord | ResetChannelsWord
                   | AllCommandsWord | NoCommandsWord | OtherWord

  /** The strcasecmp tests that open ACLSetSelector. */
  function KeywordOf(op: string): Keyword {
    if EqNoCase(op, "allkeys") || EqNoCase(op, "~*") then AllKeysWord
    else if EqNoCase(op, "resetkeys") then ResetKeysWord
    else if EqNoCase(op, "allchannels") || EqNoCase(op, "&*") then AllChannelsWord
    else if EqNoCase(op, "resetchannels") then ResetChannelsWord
    else if EqNoCase(op, "allcommands") || EqNoCase(op, "+@all") then AllCommandsWord
    else if EqNoCase(op, "nocommands") || EqNoCase(op, "-@all") then NoCommandsWord
    else OtherWord
  }

  /** ACLSetSelector: what the operation makes of the selector, or its errno. */
  function SetSelector(t: CommandTable, s: Selector, op: string): Result<Selector>
    requires RuleTokens(s.log)
  {
    match KeywordOf(op)
    case AllKeysWord => Ok(s.(allKeys := true, patterns := []))
    case ResetKeysWord => Ok(s.(allKeys := false, patterns := []))
    case AllChannelsWord => Ok(s.(allChannels := true, channels := []))
    case ResetChannelsWord => Ok(s.(allChannels := false, channels := []))
    case AllCommandsWord => Ok(AllCommands(s, true))
    case NoCommandsWord => Ok(AllCommands(s, false))
    case OtherWord =>
      if op == "" then Err(EINVAL)
      else if op[0] == '~' || op[0] == '%' then SetKeyPattern(s, op)
      else if op[0] == '&' then SetChannel(s, op)
      else if IsRule(op) then
        match Resolve(t, op[0] == '+', op[1..])
        case Err(e) => Err(e)
        case Ok(r) => Ok(ApplyRule(s, op[0] == '+', r))
      else Err(EINVAL)
  }

  /** A first-arg is logged verbatim, so it must read back as part of one token. */
  predicate Storable(op: string) {
    IsRule(op) && '|' in op ==> PlainToken(op)
  }

  // ---------------------------------------------------------------- the invariant

  /** No rule of the log supersedes an earlier one. */
  ghost predicate Compact(log: seq<string>) {
    forall i, j :: 0 <= i < j < |log| ==> !Supersedes(NameOf(log[j]), NameOf(log[i]))
  }

  /** The theorem of the log: starting from all ones or all zeros, as the reserved bit
      says, replaying the log gives the bitmap and the first-args. */
  ghost predicate Faithful(t: CommandTable, s: Selector) {
    && |s.bits| == BITS
    && AllLogged(t, s.log)
    && PermsOf(s) == Replay(t, s.log, Start(s.bits[BITS - 1]))
  }

  /** A rule that takes a bit away; such a rule clears the ALLCOMMANDS flag. */
  predicate Denies(t: CommandTable, token: string)
    requires Logged(t, token)
  {
    var w := WriteOf(t, token);
    w.SetBits? && !Allows(token) && TouchesBitmap(w.ids)
  }

  /** The flag is set only while no bit was taken away since the last "+@all". */
  ghost predicate FlagSound(t: CommandTable, s: Selector)
    requires Faithful(t, s)
  {
    s.allCommands ==>
      && s.bits[BITS - 1]
      && forall i :: 0 <= i < |s.log| ==> !Denies(t, s.log[i])
  }

  ghost predicate Valid(t: CommandTable, s: Selector) {
    ValidTable(t) && Faithful(t, s) && Compact(s.log) && FlagSound(t, s)
  }
}
