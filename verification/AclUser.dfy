/** Users: ACLSetUser on top of the selectors, and the text that describes a user. */
module AclUser {
  import opened Text
  import opened AclRuleText
  import opened AclCommands
  import opened AclReplay
  import opened AclSelector
  import opened AclDescribe

  /** user: the flags, the password hashes, the root selector and the others. */
  datatype User = User(enabled: bool, disabled: bool, noPass: bool, sanitize: bool, skipSanitize: bool,
                       passwords: seq<string>, root: Selector, others: seq<Selector>)

  /** What the surroundings fix: the command table, acl-pubsub-default, and the password
      hash (SHA-256 in hexadecimal), about which only its format is known. */
  datatype Server = Server(table: CommandTable, pubsubDefault: bool, hash: string -> string)

  /** ACLCreateUser */
  function NewUser(sv: Server): User {
    User(false, true, false, true, false, [], Fresh(sv.pubsubDefault), [])
  }

  /** ACLCheckPasswordHash */
  predicate IsHash(h: string) {
    |h| == 64 && forall i :: 0 <= i < |h| ==> 'a' <= h[i] <= 'f' || '0' <= h[i] <= '9'
  }

  // ---------------------------------------------------------------- ACLSetUser

  datatype UserWord = OnWord | OffWord | SkipWord | SanitizeWord | NoPassWord | ResetPassWord
                    | ClearWord | ResetWord | NoUserWord

  function UserWordOf(op: string): UserWord {
    if EqNoCase(op, "on") then OnWord
    else if EqNoCase(op, "off") then OffWord
    else if EqNoCase(op, "skip-sanitize-payload") then SkipWord
    else if EqNoCase(op, "sanitize-payload") then SanitizeWord
    else if EqNoCase(op, "nopass") then NoPassWord
    else if EqNoCase(op, "resetpass") then ResetPassWord
    else if EqNoCase(op, "clearselectors") then ClearWord
    else if EqNoCase(op, "reset") then ResetWord
    else NoUserWord
  }

  function AddPassword(u: User, h: string): User {
    u.(passwords := if h in u.passwords then u.passwords else u.passwords + [h], noPass := false)
  }

  /** listSearchKey and listDelNode: the first node with that hash goes. */
  function Without(ps: seq<string>, h: string): seq<string> {
    if ps == [] then []
    else if ps[0] == h then ps[1..]
    else [ps[0]] + Without(ps[1..], h)
  }

  function RemovePassword(u: User, h: string): Result<User> {
    if h in u.passwords then Ok(u.(passwords := Without(u.passwords, h))) else Err(ENODEV)
  }

  /** aclCreateSelectorFromOpSet: the operations between the parentheses, applied to a new
      selector; text the splitter cannot parse counts as empty. */
  function SelectorFromOpSet(sv: Server, op: string): Result<Selector>
    requires |op| >= 2
  {
    var argv := SplitArgs(op[1..|op| - 1]);
    RunAll(sv.table, Fresh(sv.pubsubDefault), if argv.Some? then argv.value else [])
  }

  function SetRoot(sv: Server, u: User, op: string): Result<User> {
    if !RuleTokens(u.root.log) then Err(EINVAL)
    else
      match SetSelector(sv.table, u.root, op)
      case Err(e) => Err(e)
      case Ok(s) => Ok(u.(root := s))
  }

  /** "reset": back to a user without passwords and permissions, switched off. */
  function ResetUser(sv: Server, u: User): User {
    User(false, true, false, true, false, [],
         AllCommands(u.root.(allKeys := false, patterns := [], allChannels := sv.pubsubDefault, channels := []), false),
         [])
  }

  /** ACLSetUser */
  function SetUser(sv: Server, u: User, op: string): Result<User> {
    if op == "" then Ok(u)
    else
      match UserWordOf(op)
      case OnWord => Ok(u.(enabled := true, disabled := false))
      case OffWord => Ok(u.(enabled := false, disabled := true))
      case SkipWord => Ok(u.(skipSanitize := true, sanitize := false))
      case SanitizeWord => Ok(u.(skipSanitize := false, sanitize := true))
      case NoPassWord => Ok(u.(noPass := true, passwords := []))
      case ResetPassWord => Ok(u.(noPass := false, passwords := []))
      case ClearWord => Ok(u.(others := []))
      case ResetWord => Ok(ResetUser(sv, u))
      case NoUserWord =>
        if op[0] == '>' then Ok(AddPassword(u, sv.hash(op[1..])))
        else if op[0] == '#' then (if IsHash(op[1..]) then Ok(AddPassword(u, op[1..])) else Err(EBADMSG))
        else if op[0] == '<' then RemovePassword(u, sv.hash(op[1..]))
        else if op[0] == '!' then (if IsHash(op[1..]) then RemovePassword(u, op[1..]) else Err(EBADMSG))
        else if op[0] == '(' && op[|op| - 1] == ')' then
          match SelectorFromOpSet(sv, op)
          case Err(e) => Err(e)
          case Ok(s) => Ok(u.(others := u.others + [s]))
        else SetRoot(sv, u, op)
  }

  function SetUserAll(sv: Server, u: User, ops: seq<string>): Result<User>
    decreases |ops|
  {
    if ops == [] then Ok(u)
    else
      match SetUser(sv, u, ops[0])
      case Err(e) => Err(e)
      case Ok(u') => SetUserAll(sv, u', ops[1..])
  }

  // ---------------------------------------------------------------- describing

  /** sdsCatPatternString */
  function PatternToken(p: KeyPattern): string
    requires p.read || p.write
  {
    (if p.read && p.write then "~" else if p.read then "%R~" else "%W~") + p.pattern
  }

  function PatternTokens(ps: seq<KeyPattern>): (r: seq<string>)
    requires forall i :: 0 <= i < |ps| ==> ps[i].read || ps[i].write
    ensures |r| == |ps| && forall i :: 0 <= i < |ps| ==> r[i] == PatternToken(ps[i])
  {
    seq(|ps|, i requires 0 <= i < |ps| => PatternToken(ps[i]))
  }

  function ChannelTokens(cs: seq<string>): (r: seq<string>)
    ensures |r| == |cs| && forall i :: 0 <= i < |cs| ==> r[i] == "&" + cs[i]
  {
    seq(|cs|, i requires 0 <= i < |cs| => "&" + cs[i])
  }

  /** The words of ACLDescribeSelector. */
  function KeyWords(s: Selector): seq<string>
    requires SelectorShape(s)
  {
    if s.allKeys then ["~*"] else PatternTokens(s.patterns)
  }

  function ChannelWords(s: Selector): seq<string> {
    if s.allChannels then ["&*"] else ["resetchannels"] + ChannelTokens(s.channels)
  }

  function CommandWords(s: Selector): seq<string>
    requires |s.bits| == BITS
  {
    [if s.bits[BITS - 1] then "+@all" else "-@all"] + s.log
  }

  predicate Printable(s: Selector) {
    SelectorShape(s) && |s.bits| == BITS
  }

  function SelectorWords(s: Selector): (r: seq<string>)
    requires Printable(s)
    ensures |r| >= 2
  {
    KeyWords(s) + ChannelWords(s) + CommandWords(s)
  }

  function FlagWords(u: User): seq<string> {
    (if u.enabled then ["on"] else []) + (if u.disabled then ["off"] else [])
    + (if u.noPass then ["nopass"] else [])
    + (if u.skipSanitize then ["skip-sanitize-payload"] else [])
    + (if u.sanitize then ["sanitize-payload"] else [])
  }

  function PasswordWords(ps: seq<string>): (r: seq<string>)
    ensures |r| == |ps| && forall i :: 0 <= i < |ps| ==> r[i] == "#" + ps[i]
  {
    seq(|ps|, i requires 0 <= i < |ps| => "#" + ps[i])
  }

  // ---------------------------------------------------------------- invariants

  /** The key patterns are distinct, each with a permission and without blanks, and
      give way to ALLKEYS. */
  predicate KeysShape(s: Selector) {
    && (s.allKeys ==> s.patterns == [])
    && (forall i :: 0 <= i < |s.patterns| ==>
          (s.patterns[i].read || s.patterns[i].write) && !HasSpaces(s.patterns[i].pattern))
    && (forall i, j :: 0 <= i < j < |s.patterns| ==> s.patterns[i].pattern != s.patterns[j].pattern)
  }

  /** The same for channels; "*" is never stored, it sets ALLCHANNELS. */
  predicate ChannelsShape(s: Selector) {
    && (s.allChannels ==> s.channels == [])
    && (forall i :: 0 <= i < |s.channels| ==> !HasSpaces(s.channels[i]) && s.channels[i] != "*")
    && (forall i, j :: 0 <= i < j < |s.channels| ==> s.channels[i] != s.channels[j])
  }

  predicate SelectorShape(s: Selector) {
    KeysShape(s) && ChannelsShape(s)
  }

  ghost predicate GoodSelector(t: CommandTable, s: Selector) {
    Valid(t, s) && SelectorShape(s)
  }

  ghost predicate GoodUser(sv: Server, u: User) {
    && u.enabled == !u.disabled && u.sanitize == !u.skipSanitize
    && (u.noPass ==> u.passwords == [])
    && (forall i :: 0 <= i < |u.passwords| ==> IsHash(u.passwords[i]))
    && (forall i, j :: 0 <= i < j < |u.passwords| ==> u.passwords[i] != u.passwords[j])
    && GoodSelector(sv.table, u.root)
    && (forall i :: 0 <= i < |u.others| ==> GoodSelector(sv.table, u.others[i]))
  }

  ghost predicate GoodServer(sv: Server) {
    ValidTable(sv.table) && forall p :: IsHash(sv.hash(p))
  }
}
