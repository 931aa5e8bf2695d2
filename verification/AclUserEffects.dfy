/** What each operation of ACLSetUser does to a user, field by field, and which passwords it then accepts. */
module AclUserEffects {
  import opened Text
  import opened AclRuleText
  import opened AclCommands
  import opened AclReplay
  import opened AclSelector
  import opened AclInvariant
  import opened AclDescribe
  import opened AclUser
  import opened AclUserInvariant
  import opened AclEffects

  // ---------------------------------------------------------------- keywords

  lemma UserWordsAreLower()
    ensures Lower("on") == "on" && Lower("off") == "off" && Lower("nopass") == "nopass" && Lower("resetpass") == "resetpass"
    ensures Lower("skip-sanitize-payload") == "skip-sanitize-payload" && Lower("sanitize-payload") == "sanitize-payload"
    ensures Lower("clearselectors") == "clearselectors" && Lower("reset") == "reset"
  {
  }

  /** The words that set or clear flags and lists; nothing else changes. */
  lemma UserWordRule(sv: Server, u: User, op: string)
    ensures var r, w := SetUser(sv, u, op), Lower(op);
      && (op == "" ==> r == Ok(u))
      && (w == "on" ==> r == Ok(u.(enabled := true, disabled := false)))
      && (w == "off" ==> r == Ok(u.(enabled := false, disabled := true)))
      && (w == "skip-sanitize-payload" ==> r == Ok(u.(skipSanitize := true, sanitize := false)))
      && (w == "sanitize-payload" ==> r == Ok(u.(skipSanitize := false, sanitize := true)))
      && (w == "nopass" ==> r == Ok(u.(noPass := true, passwords := [])))
      && (w == "resetpass" ==> r == Ok(u.(noPass := false, passwords := [])))
      && (w == "clearselectors" ==> r == Ok(u.(others := [])))
  {
    hide SetRoot, SelectorFromOpSet, IsHash;
    UserWordsAreLower();
  }

  /** "reset" leaves a user as ACLCreateUser makes it: off, without passwords, keys, commands or selectors. */
  lemma ResetRule(sv: Server, u: User, op: string)
    requires Lower(op) == "reset"
    ensures var r := SetUser(sv, u, op);
      && r == Ok(NewUser(sv))
      && !r.value.enabled && r.value.disabled && !r.value.noPass && r.value.passwords == [] && r.value.others == []
      && r.value.sanitize && !r.value.skipSanitize
      && !r.value.root.allKeys && r.value.root.patterns == []
      && r.value.root.allChannels == sv.pubsubDefault && r.value.root.channels == []
      && AllOrNothing(r.value.root, r.value.root, false)
  {
    hide SetRoot, SelectorFromOpSet, IsHash;
    UserWordsAreLower();
    assert UserWordOf(op) == ResetWord;
    assert ResetUser(sv, u).root == Fresh(sv.pubsubDefault);
  }

  // ---------------------------------------------------------------- passwords

  lemma SignedIsNoWord(op: string)
    requires op != "" && op[0] in "><#!("
    ensures UserWordOf(op) == NoUserWord
  {
    UserWordsAreLower();
    assert Lower(op)[0] == op[0];
    assert "on"[0] == 'o' && "off"[0] == 'o' && "nopass"[0] == 'n' && "resetpass"[0] == 'r' && "reset"[0] == 'r';
    assert "skip-sanitize-payload"[0] == 's' && "sanitize-payload"[0] == 's' && "clearselectors"[0] == 'c';
  }

  /** The 64 lower-case hexadecimal digits of a hash. */
  ghost predicate HashText(h: string) {
    |h| == 64 && forall i :: 0 <= i < 64 ==> h[i] in "0123456789abcdef"
  }

  lemma HashIs(h: string)
    ensures IsHash(h) <==> HashText(h)
  {
    forall c: char ensures c in "0123456789abcdef" <==> 'a' <= c <= 'f' || '0' <= c <= '9' {
    }
  }

  /** ">password" and "#hash": the hash is added at the end, if it is not there, and NOPASS is cleared. */
  lemma PasswordAdded(sv: Server, u: User, op: string)
    requires op != "" && (op[0] == '>' || op[0] == '#')
    ensures var r, h := SetUser(sv, u, op), if op[0] == '>' then sv.hash(op[1..]) else op[1..];
      if op[0] == '#' && !HashText(h) then r == Err(EBADMSG)
      else r == Ok(u.(noPass := false, passwords := if h in u.passwords then u.passwords else u.passwords + [h]))
  {
    hide UserWordOf, SetRoot, SelectorFromOpSet, IsHash, HashText;
    SignedIsNoWord(op);
    HashIs(op[1..]);
  }

  /** The first node with that hash is at i. */
  ghost predicate FirstAt(ps: seq<string>, h: string, i: nat) {
    i < |ps| && ps[i] == h && forall j :: 0 <= j < i ==> ps[j] != h
  }

  lemma {:induction false} WithoutAt(ps: seq<string>, h: string) returns (i: nat)
    requires h in ps
    ensures FirstAt(ps, h, i) && Without(ps, h) == ps[..i] + ps[i + 1..]
  {
    if ps[0] == h {
      i := 0;
      assert ps[1..] == ps[..0] + ps[1..];
    } else {
      var j := WithoutAt(ps[1..], h);
      i := j + 1;
      assert forall k :: 1 <= k < |ps| ==> ps[k] == ps[1..][k - 1];
      Shifted(ps, j);
    }
  }

  lemma Shifted(ps: seq<string>, j: nat)
    requires j + 1 < |ps|
    ensures [ps[0]] + (ps[1..][..j] + ps[1..][j + 1..]) == ps[..j + 1] + ps[j + 2..]
  {
  }

  /** "<password" and "!hash": the first node with that hash goes, the others stay in order. */
  lemma PasswordRemoved(sv: Server, u: User, op: string)
    requires op != "" && (op[0] == '<' || op[0] == '!')
    ensures var r, h := SetUser(sv, u, op), if op[0] == '<' then sv.hash(op[1..]) else op[1..];
      if op[0] == '!' && !HashText(h) then r == Err(EBADMSG)
      else if h !in u.passwords then r == Err(ENODEV)
      else
        && r.Ok? && r.value == u.(passwords := r.value.passwords)
        && exists i: nat :: FirstAt(u.passwords, h, i) && r.value.passwords == u.passwords[..i] + u.passwords[i + 1..]
  {
    hide UserWordOf, SetRoot, SelectorFromOpSet, IsHash, HashText, Without;
    SignedIsNoWord(op);
    HashIs(op[1..]);
    var h := if op[0] == '<' then sv.hash(op[1..]) else op[1..];
    if h in u.passwords {
      var i := WithoutAt(u.passwords, h);
    }
  }

  // ---------------------------------------------------------------- selectors

  /** "(operations)": a new selector at the end, made by the operations; the root selector stays. */
  lemma SelectorAdded(sv: Server, u: User, ws: seq<string>)
    requires PlainTokens(ws)
    ensures var r, made := SetUser(sv, u, "(" + Join(ws) + ")"), RunAll(sv.table, Fresh(sv.pubsubDefault), ws);
      r == if made.Ok? then Ok(u.(others := u.others + [made.value])) else Err(made.errno)
  {
    hide UserWordOf, SetRoot, RunAll, SplitArgs, Join, PlainTokens;
    var op := "(" + Join(ws) + ")";
    SignedIsNoWord(op);
    assert op[1..|op| - 1] == Join(ws);
    SplitArgsJoin(ws);
  }

  /** Text with unbalanced quotes between the parentheses counts as none: a selector without permissions. */
  lemma UnreadableSelector(sv: Server, u: User, text: string)
    requires SplitArgs(text).None?
    ensures SetUser(sv, u, "(" + text + ")") == Ok(u.(others := u.others + [Fresh(sv.pubsubDefault)]))
  {
    hide UserWordOf, SetRoot, SplitArgs;
    var op := "(" + text + ")";
    SignedIsNoWord(op);
    assert op[1..|op| - 1] == text;
  }

  /** Any other operation is one on the root selector; all else stays. */
  lemma RootOperation(sv: Server, u: User, op: string)
    requires RuleTokens(u.root.log) && op != "" && op[0] !in "><#!" && !(op[0] == '(' && op[|op| - 1] == ')')
    requires Lower(op) !in {"on", "off", "skip-sanitize-payload", "sanitize-payload", "nopass", "resetpass", "clearselectors", "reset"}
    ensures var r, s := SetUser(sv, u, op), SetSelector(sv.table, u.root, op);
      r == if s.Ok? then Ok(u.(root := s.value)) else Err(s.errno)
  {
    hide SelectorFromOpSet, SetSelector, RuleTokens, IsHash;
    UserWordsAreLower();
    assert UserWordOf(op) == NoUserWord;
  }

  // ---------------------------------------------------------------- which passwords are accepted

  /** ACLCheckUserCredentials for a user that exists. */
  method CheckUserCredentials(sv: Server, u: User, password: string) returns (ok: bool)
    ensures ok <==> !u.disabled && (u.noPass || sv.hash(password) in u.passwords)
  {
    if u.disabled { return false; }
    if u.noPass { return true; }
    var hashed := sv.hash(password);
    var j := 0;
    while j < |u.passwords|
      invariant 0 <= j <= |u.passwords| && hashed !in u.passwords[..j]
    {
      if u.passwords[j] == hashed { return true; }
      j := j + 1;
    }
    assert u.passwords[..j] == u.passwords;
    ok := false;
  }

  predicate LogsIn(sv: Server, u: User, password: string) {
    !u.disabled && (u.noPass || sv.hash(password) in u.passwords)
  }

  /** What an accepted operation on passwords does for every password that may be tried. */
  lemma PasswordsTried(sv: Server, u: User, op: string, tried: string)
    requires GoodUser(sv, u) && SetUser(sv, u, op).Ok?
    ensures var u' := SetUser(sv, u, op).value;
      && (op != "" && op[0] == '>' ==>
           (LogsIn(sv, u', tried) <==> !u.disabled && (sv.hash(tried) in u.passwords || sv.hash(tried) == sv.hash(op[1..]))))
      && (op != "" && op[0] == '<' ==>
           (LogsIn(sv, u', tried) <==> !u.disabled && sv.hash(tried) in u.passwords && sv.hash(tried) != sv.hash(op[1..])))
      && (Lower(op) == "nopass" ==> (LogsIn(sv, u', tried) <==> !u.disabled))
      && (Lower(op) == "resetpass" || Lower(op) == "off" || Lower(op) == "reset" ==> !LogsIn(sv, u', tried))
      && (Lower(op) == "on" ==> (LogsIn(sv, u', tried) <==> u.noPass || sv.hash(tried) in u.passwords))
  {
    hide SetUser, GoodSelector, IsHash, AllOrNothing;
    UserWordRule(sv, u, op);
    if Lower(op) == "reset" { ResetRule(sv, u, op); }
    if op != "" && op[0] == '>' { PasswordAdded(sv, u, op); }
    if op != "" && op[0] == '<' {
      PasswordRemoved(sv, u, op);
      assert Distinct(u.passwords);
      var i: nat :| FirstAt(u.passwords, sv.hash(op[1..]), i)
        && SetUser(sv, u, op).value.passwords == u.passwords[..i] + u.passwords[i + 1..];
      OneGone(u.passwords, i, sv.hash(tried));
    }
  }

  lemma OneGone(ps: seq<string>, i: nat, h: string)
    requires Distinct(ps) && i < |ps|
    ensures h in ps[..i] + ps[i + 1..] <==> h in ps && h != ps[i]
  {
    var left := ps[..i] + ps[i + 1..];
    if h in ps && h != ps[i] {
      var k :| 0 <= k < |ps| && ps[k] == h;
      assert left[if k < i then k else k - 1] == h;
    }
  }
}
