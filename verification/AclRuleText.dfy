/** The text log of a selector (command_rules in acl.c): blank-separated rules such as
    "+@read -config|set", edited in place when a rule is superseded. */
module AclRuleText {
  import opened Text

  /** A rule of the log: a sign character and a name. */
  predicate RuleToken(t: string) {
    t != "" && forall i :: 0 <= i < |t| ==> t[i] != ' ' && t[i] != NUL
  }

  predicate RuleTokens(ts: seq<string>) {
    forall i :: 0 <= i < |ts| ==> RuleToken(ts[i])
  }

  /** A new rule called `name` replaces the rules with the same name, and the rules
      on its subcommands, written with a '|'. */
  predicate Supersedes(name: string, existing: string) {
    existing == name || name + "|" <= existing
  }

  /** The rules that survive the arrival of a rule called `name`. */
  function Surviving(name: string, tokens: seq<string>): (r: seq<string>)
    requires RuleTokens(tokens)
    ensures RuleTokens(r)
  {
    if tokens == [] then []
    else if Supersedes(name, tokens[0][1..]) then Surviving(name, tokens[1..])
    else [tokens[0]] + Surviving(name, tokens[1..])
  }

  lemma {:induction false} SurvivingConcat(name: string, a: seq<string>, b: seq<string>)
    requires RuleTokens(a) && RuleTokens(b)
    ensures Surviving(name, a + b) == Surviving(name, a) + Surviving(name, b)
  {
    if a == [] {
      assert a + b == b;
    } else {
      assert (a + b)[1..] == a[1..] + b;
      assert (a + b)[0] == a[0];
      SurvivingConcat(name, a[1..], b);
    }
  }

  lemma SurvivingAppend(name: string, a: seq<string>, t: string)
    requires RuleTokens(a) && RuleToken(t)
    ensures Surviving(name, a + [t]) == Surviving(name, a) + if Supersedes(name, t[1..]) then [] else [t]
  {
    SurvivingConcat(name, a, [t]);
    assert [t][1..] == [];
  }

  lemma SurvivingNext(name: string, tokens: seq<string>, i: nat)
    requires RuleTokens(tokens) && i < |tokens|
    ensures tokens[i..][1..] == tokens[i + 1..] && tokens[i..][0] == tokens[i]
    ensures Surviving(name, tokens[..i + 1])
         == Surviving(name, tokens[..i]) + if Supersedes(name, tokens[i][1..]) then [] else [tokens[i]]
  {
    assert tokens[..i + 1] == tokens[..i] + [tokens[i]];
    SurvivingAppend(name, tokens[..i], tokens[i]);
  }

  lemma {:induction false} JoinNoNul(tokens: seq<string>)
    requires RuleTokens(tokens)
    ensures Free(Join(tokens), 0, |Join(tokens)|, NUL)
    ensures tokens != [] ==> Join(tokens) != ""
  {
    if |tokens| > 1 {
      JoinNoNul(tokens[1..]);
    }
  }

  // C string primitives on a buffer that holds a NUL at or after the position.

  /** c does not occur at positions lo to hi - 1. */
  ghost predicate Free(b: seq<char>, lo: nat, hi: nat, c: char) {
    forall k :: lo <= k < hi && k < |b| ==> b[k] != c
  }

  ghost predicate Terminated(b: seq<char>, len: nat) {
    len < |b| && b[len] == NUL && Free(b, 0, len, NUL)
  }

  method StrLen(buf: array<char>, from: nat, ghost len: nat) returns (n: nat)
    requires Terminated(buf[..], len) && from <= len
    ensures from + n == len
  {
    n := 0;
    while buf[from + n] != NUL
      invariant from + n <= len
      decreases len - from - n
    {
      assert buf[..][from + n] != NUL;
      n := n + 1;
    }
    assert buf[..][from + n] == NUL;
  }

  /** strchr: the first c at or after from, or None when the terminator comes first. */
  method StrChr(buf: array<char>, from: nat, c: char, ghost len: nat) returns (r: Option<nat>)
    requires Terminated(buf[..], len) && from <= len && c != NUL
    ensures r.None? ==> Free(buf[..], from, len, c)
    ensures r.Some? ==> from <= r.value < len && buf[r.value] == c && Free(buf[..], from, r.value, c)
  {
    var i := from;
    while buf[i] != NUL
      invariant from <= i <= len
      invariant Free(buf[..], from, i, c)
      decreases len - i
    {
      assert buf[..][i] != NUL;
      if buf[i] == c { return Some(i); }
      i := i + 1;
    }
    assert buf[..][i] == NUL;
    r := None;
  }

  /** memmove: n characters from src to dst, dst not after src. */
  method MemMove(buf: array<char>, dst: nat, src: nat, n: nat)
    requires dst <= src && src + n <= buf.Length
    modifies buf
    ensures buf[..dst] == old(buf[..dst])
    ensures buf[dst..dst + n] == old(buf[src..src + n])
  {
    var i := 0;
    while i < n
      invariant 0 <= i <= n
      invariant forall k :: 0 <= k < dst ==> buf[k] == old(buf[k])
      invariant forall k :: dst <= k < dst + i ==> buf[k] == old(buf[k + (src - dst)])
      invariant forall k :: src + i <= k < buf.Length ==> buf[k] == old(buf[k])
    {
      buf[dst + i] := buf[src + i];
      i := i + 1;
    }
  }

  /** memcmp(&buf[at], s, n) == 0 */
  method MemEq(buf: array<char>, at: nat, s: string, n: nat) returns (eq: bool)
    requires at + n <= buf.Length && n <= |s|
    ensures eq <==> buf[at..at + n] == s[..n]
  {
    var i := 0;
    while i < n
      invariant 0 <= i <= n
      invariant buf[at..at + i] == s[..i]
    {
      if buf[at + i] != s[i] {
        assert buf[at..at + n][i] != s[..n][i];
        return false;
      }
      assert buf[at..at + i + 1] == buf[at..at + i] + [buf[at + i]];
      i := i + 1;
    }
    eq := true;
  }

  /** Where the text of the rules still to be looked at starts. */
  ghost function StartAfter(kept: seq<string>): nat {
    if kept == [] then 0 else |Join(kept)| + 1
  }

  /** What the buffer holds at the head of the loop: the kept rules and the rest,
      with the cursor at the first character of the rest. */
  ghost predicate Cursor(b: seq<char>, len: nat, at: nat, kept: seq<string>, rest: seq<string>) {
    && RuleTokens(kept) && RuleTokens(rest)
    && Terminated(b, len)
    && b[..len] == Join(kept + rest)
    && at == (if rest == [] then len else StartAfter(kept))
  }

  /** The shape of the text around the cursor, which is all the loop body looks at. */
  lemma CursorShape(b: seq<char>, len: nat, at: nat, kept: seq<string>, rest: seq<string>)
    requires Cursor(b, len, at, kept, rest) && rest != []
    ensures at + |rest[0]| <= len && b[at..at + |rest[0]|] == rest[0]
    ensures |rest| == 1 ==> at + |rest[0]| == len
    ensures |rest| > 1 ==> at + |rest[0]| < len && b[at + |rest[0]|] == ' '
    ensures |rest| > 1 ==> b[at + |rest[0]| + 1..len] == Join(rest[1..])
    ensures b[at] != NUL
    ensures at == 0 <==> kept == []
    ensures kept != [] ==> b[..at - 1] == Join(kept) && b[..at] == Join(kept) + " "
    ensures kept == [] ==> b[..at] == ""
  {
    CursorSplit(b, len, at, kept, rest);
    assert RuleToken(rest[0]);
    JoinHead(b, at, len, rest);
  }

  lemma JoinHead(b: seq<char>, at: nat, len: nat, rest: seq<string>)
    requires rest != [] && at <= len <= |b| && b[at..len] == Join(rest)
    ensures at + |rest[0]| <= len && b[at..at + |rest[0]|] == rest[0]
    ensures rest[0] != [] ==> b[at] == rest[0][0]
    ensures |rest| == 1 ==> at + |rest[0]| == len
    ensures |rest| > 1 ==> at + |rest[0]| < len && b[at + |rest[0]|] == ' '
    ensures |rest| > 1 ==> b[at + |rest[0]| + 1..len] == Join(rest[1..])
  {
    var tail, n := b[at..len], |rest[0]|;
    if |rest| == 1 {
      assert tail == rest[0];
    } else {
      assert tail == rest[0] + " " + Join(rest[1..]);
      assert b[at..at + n] == tail[..n] == rest[0];
      assert b[at + n] == tail[n] == ' ';
      assert b[at + n + 1..len] == tail[n + 1..] == Join(rest[1..]);
    }
  }

  lemma CursorSplit(b: seq<char>, len: nat, at: nat, kept: seq<string>, rest: seq<string>)
    requires Cursor(b, len, at, kept, rest) && rest != []
    ensures at <= len && b[at..len] == Join(rest)
    ensures at == 0 <==> kept == []
    ensures kept != [] ==> b[..at - 1] == Join(kept) && b[..at] == Join(kept) + " "
    ensures kept == [] ==> b[..at] == ""
  {
    JoinConcat(kept, rest);
    var text := b[..len];
    if kept == [] {
      assert kept + rest == rest;
    } else {
      assert text == Join(kept) + " " + Join(rest);
      assert text[..at] == b[..at] && text[at..] == b[at..len] && text[..at - 1] == b[..at - 1];
    }
  }

  /** Where the rule at `at` ends, where the text after it starts, and where that text
      has to be copied if the rule goes: a removed last rule takes the blank before it. */
  method RuleBounds(buf: array<char>, at: nat, ghost size: nat, ghost kept: seq<string>, ghost rest: seq<string>)
    returns (copyPosition: nat, ruleEnd: nat, copyEnd: nat)
    requires rest != [] && Cursor(buf[..], size, at, kept, rest) && at < size
    ensures ruleEnd == at + |rest[0]| <= size
    ensures |rest| > 1 ==> copyPosition == at && copyEnd == ruleEnd + 1 <= size
    ensures |rest| == 1 ==> copyEnd == ruleEnd == size && copyPosition == if at == 0 then 0 else at - 1
  {
    CursorShape(buf[..], size, at, kept, rest);
    copyPosition := at;
    var space := StrChr(buf, at + 1, ' ', size);
    FirstBlank(buf[..], size, at, kept, rest, space);
    match space {
      case Some(blank) => ruleEnd := blank;
      case None =>
        var n := StrLen(buf, at + 1, size);
        ruleEnd := at + 1 + n;
        if copyPosition != 0 { copyPosition := copyPosition - 1; }
    }
    copyEnd := ruleEnd;
    if buf[copyEnd] == ' ' { copyEnd := copyEnd + 1; }
  }

  /** The memcmp test on the name between `existing` and `ruleEnd`. */
  method NameMatches(buf: array<char>, existing: nat, ruleEnd: nat, newRule: string) returns (b: bool)
    requires existing <= ruleEnd <= buf.Length
    ensures b == Supersedes(newRule, buf[existing..ruleEnd])
  {
    var newLen, existingLen := |newRule|, ruleEnd - existing;
    var eq := MemEq(buf, existing, newRule, if existingLen < newLen then existingLen else newLen);
    SupersedesBytes(buf[..], existing, newRule, buf[existing..ruleEnd]);
    b := eq && (existingLen == newLen || (existingLen > newLen && buf[existing + newLen] == '|'));
  }

  /** memmove of the later rules, with the terminator, over the rule at `at`. */
  method DropRule(buf: array<char>, copyPosition: nat, copyEnd: nat,
                  ghost at: nat, ghost size: nat, ghost kept: seq<string>, ghost rest: seq<string>)
    returns (ghost size': nat)
    requires rest != [] && Cursor(buf[..], size, at, kept, rest)
    requires |rest| > 1 ==> copyPosition == at && copyEnd == at + |rest[0]| + 1 <= size
    requires |rest| == 1 ==> copyEnd == at + |rest[0]| == size && copyPosition == if at == 0 then 0 else at - 1
    modifies buf
    ensures copyPosition <= size' < buf.Length
    ensures Cursor(buf[..], size', copyPosition, kept, rest[1..])
  {
    ghost var before := buf[..];
    var tail := StrLen(buf, copyEnd, size);
    MemMove(buf, copyPosition, copyEnd, tail + 1);
    size' := copyPosition + tail;
    assert buf[..][..copyPosition] == before[..copyPosition];
    assert buf[..][copyPosition..size' + 1] == before[copyEnd..size + 1];
    MovedOver(before, buf[..], size, at, copyPosition, copyEnd, kept, rest);
  }

  /** One turn of the loop: look at the rule at `at` and remove it, or step over it. */
  method ExamineRule(buf: array<char>, at: nat, newRule: string,
                     ghost size: nat, ghost kept: seq<string>, ghost rest: seq<string>)
    returns (existing: nat, ghost size': nat)
    requires rest != [] && Cursor(buf[..], size, at, kept, rest) && at < size
    modifies buf
    ensures existing <= size' < buf.Length
    ensures Cursor(buf[..], size', existing,
                   kept + if Supersedes(newRule, rest[0][1..]) then [] else [rest[0]], rest[1..])
  {
    hide Supersedes, Join;
    var copyPosition, ruleEnd, copyEnd := RuleBounds(buf, at, size, kept, rest);
    CurrentName(buf[..], size, at, kept, rest);
    var superseded := NameMatches(buf, at + 1, ruleEnd, newRule);
    if superseded {
      size' := DropRule(buf, copyPosition, copyEnd, at, size, kept, rest);
      existing := copyPosition;
      assert kept + [] == kept;
    } else {
      existing, size' := copyEnd, size;
      Advanced(buf[..], size, at, copyEnd, kept, rest);
    }
  }

  lemma CurrentName(b: seq<char>, len: nat, at: nat, kept: seq<string>, rest: seq<string>)
    requires Cursor(b, len, at, kept, rest) && rest != []
    ensures at + |rest[0]| <= len && 1 <= |rest[0]| && b[at + 1..at + |rest[0]|] == rest[0][1..]
  {
    CursorShape(b, len, at, kept, rest);
    assert RuleToken(rest[0]);
    assert b[at + 1..at + |rest[0]|] == b[at..at + |rest[0]|][1..];
  }

  /** ACLSelectorRemoveCommandRule: the loop over the existing rules, with cursor
      arithmetic and memmove inside one buffer.  `tokens` is the list the text spells. */
  method RemoveCommandRule(buf: array<char>, newRule: string, ghost tokens: seq<string>) returns (len: nat)
    requires RuleTokens(tokens)
    requires |Join(tokens)| < buf.Length && Terminated(buf[..], |Join(tokens)|)
    requires buf[..|Join(tokens)|] == Join(tokens)
    modifies buf
    ensures Terminated(buf[..], len)
    ensures buf[..len] == Join(Surviving(newRule, tokens))
  {
    hide Surviving, Cursor;
    assert Surviving(newRule, tokens[..0]) == [] && Cursor(buf[..], |Join(tokens)|, 0, [], tokens[0..]) by {
      CursorStart(buf[..], newRule, tokens);
    }
    var existing: nat := 0;
    ghost var i: nat, kept: seq<string>, size: nat := 0, [], |Join(tokens)|;
    assert kept + tokens[0..] == tokens && RuleTokens(kept);
    while buf[existing] != NUL
      invariant 0 <= i <= |tokens|
      invariant kept == Surviving(newRule, tokens[..i])
      invariant existing <= size < buf.Length
      invariant Cursor(buf[..], size, existing, kept, tokens[i..])
      decreases |tokens| - i
    {
      ghost var rest := tokens[i..];
      NotAtEnd(buf[..], size, existing, kept, rest);
      existing, size := ExamineRule(buf, existing, newRule, size, kept, rest);
      SurvivingNext(newRule, tokens, i);
      kept, i := Surviving(newRule, tokens[..i + 1]), i + 1;
    }
    assert buf[..][existing] == NUL;
    AtEnd(buf[..], size, existing, kept, tokens[i..]);
    assert tokens[..i] == tokens;
    len := StrLen(buf, 0, size);
  }

  lemma CursorStart(b: seq<char>, newRule: string, tokens: seq<string>)
    requires RuleTokens(tokens) && |Join(tokens)| < |b| && Terminated(b, |Join(tokens)|) && b[..|Join(tokens)|] == Join(tokens)
    ensures Surviving(newRule, tokens[..0]) == [] && Cursor(b, |Join(tokens)|, 0, [], tokens[0..])
  {
    assert [] + tokens[0..] == tokens;
  }

  /** Before the end there is a rule left, with the cursor inside the text. */
  lemma NotAtEnd(b: seq<char>, len: nat, at: nat, kept: seq<string>, rest: seq<string>)
    requires Cursor(b, len, at, kept, rest) && at <= len < |b| && b[at] != NUL
    ensures rest != [] && at < len
  {
  }

  lemma AtEnd(b: seq<char>, len: nat, at: nat, kept: seq<string>, rest: seq<string>)
    requires Cursor(b, len, at, kept, rest) && at < |b| && b[at] == NUL
    ensures rest == [] && b[..len] == Join(kept) && Terminated(b, len)
  {
    if rest != [] {
      CursorShape(b, len, at, kept, rest);
    }
    assert kept + [] == kept;
  }

  /** strchr stops exactly at the end of the current rule. */
  lemma FirstBlank(b: seq<char>, len: nat, at: nat, kept: seq<string>, rest: seq<string>, space: Option<nat>)
    requires Cursor(b, len, at, kept, rest) && rest != [] && at < len
    requires space.None? ==> Free(b, at + 1, len, ' ')
    requires space.Some? ==> at + 1 <= space.value < len && b[space.value] == ' ' && Free(b, at + 1, space.value, ' ')
    ensures space.None? <==> |rest| == 1
    ensures space.Some? ==> space.value == at + |rest[0]|
  {
    CursorShape(b, len, at, kept, rest);
    var t := rest[0];
    forall k | at <= k < at + |t| ensures b[k] != ' ' {
      assert b[k] == b[at..at + |t|][k - at] == t[k - at];
    }
  }

  /** The byte comparison decides Supersedes. */
  lemma SupersedesBytes(b: seq<char>, at: nat, name: string, existing: string)
    requires at + |existing| <= |b| && b[at..at + |existing|] == existing
    ensures var n := if |existing| < |name| then |existing| else |name|;
      (b[at..at + n] == name[..n]
       && (|existing| == |name| || (|existing| > |name| && b[at + |name|] == '|')))
      <==> Supersedes(name, existing)
  {
    var n := if |existing| < |name| then |existing| else |name|;
    assert b[at..at + n] == existing[..n];
    if |existing| > |name| {
      assert b[at + |name|] == existing[|name|];
      assert existing[..|name| + 1] == existing[..|name|] + [existing[|name|]];
      assert name[..n] == name;
    } else if |existing| == |name| {
      assert name[..n] == name && existing[..n] == existing;
    }
  }

  /** Copying the later rules over a superseded one leaves the others, well spaced. */
  lemma MovedOver(b: seq<char>, b': seq<char>, len: nat, at: nat, dst: nat, src: nat,
                  kept: seq<string>, rest: seq<string>)
    requires Cursor(b, len, at, kept, rest) && rest != []
    requires |b'| == |b|
    requires |rest| > 1 ==> dst == at && src == at + |rest[0]| + 1
    requires |rest| == 1 ==> src == len && dst == if at == 0 then 0 else at - 1
    requires dst <= src <= len
    requires b'[..dst] == b[..dst] && b'[dst..dst + (len - src) + 1] == b[src..len + 1]
    ensures Cursor(b', dst + (len - src), dst, kept, rest[1..])
  {
    MovedJoin(b, len, at, dst, src, kept, rest);
    CursorFacts(b, len, at, kept, rest);
    hide Join;
    var len' := dst + (len - src);
    MovedText(b, b', len, dst, src);
    JoinNoNul(kept + rest[1..]);
    assert Free(b', 0, len', NUL) by {
      assert forall k :: 0 <= k < len' ==> b'[k] == b'[..len'][k];
    }
  }

  lemma CursorFacts(b: seq<char>, len: nat, at: nat, kept: seq<string>, rest: seq<string>)
    requires Cursor(b, len, at, kept, rest) && rest != []
    ensures len < |b| && b[len] == NUL && RuleTokens(kept + rest[1..])
    ensures at == StartAfter(kept) && (at == 0 <==> kept == []) && (kept != [] ==> |Join(kept)| == at - 1)
  {
    CursorShape(b, len, at, kept, rest);
    assert forall i :: 0 <= i < |rest[1..]| ==> rest[1..][i] == rest[i + 1];
  }

  /** The text left and right of the superseded rule is the text of the rules that stay. */
  lemma MovedJoin(b: seq<char>, len: nat, at: nat, dst: nat, src: nat, kept: seq<string>, rest: seq<string>)
    requires Cursor(b, len, at, kept, rest) && rest != [] && len <= |b|
    requires |rest| > 1 ==> dst == at && src == at + |rest[0]| + 1
    requires |rest| == 1 ==> src == len && dst == if at == 0 then 0 else at - 1
    requires dst <= src <= len
    ensures b[..dst] + b[src..len] == Join(kept + rest[1..])
  {
    CursorShape(b, len, at, kept, rest);
    JoinConcat(kept, rest[1..]);
    hide Join;
    if |rest| == 1 {
      assert b[src..len] == "";
    } else {
      assert b[src..len] == Join(rest[1..]);
    }
  }

  lemma MovedText(b: seq<char>, b': seq<char>, len: nat, dst: nat, src: nat)
    requires dst <= src <= len < |b| == |b'|
    requires b'[..dst] == b[..dst] && b'[dst..dst + (len - src) + 1] == b[src..len + 1]
    ensures b'[..dst + (len - src)] == b[..dst] + b[src..len]
    ensures b'[dst + (len - src)] == b[len]
  {
    var n := len - src;
    var r := b[..dst] + b[src..len];
    forall k | 0 <= k < |r| ensures b'[..dst + n][k] == r[k] {
      MovedAt(b, b', dst, src, n, k);
    }
    MovedAt(b, b', dst, src, n, dst + n);
  }

  lemma MovedAt(b: seq<char>, b': seq<char>, dst: nat, src: nat, n: nat, k: nat)
    requires dst <= src && src + n < |b| == |b'| && k <= dst + n
    requires b'[..dst] == b[..dst] && b'[dst..dst + n + 1] == b[src..src + n + 1]
    ensures b'[k] == if k < dst then b[k] else b[src + (k - dst)]
  {
    if k < dst {
      assert b'[..dst][k] == b[..dst][k];
    } else {
      assert b'[dst..dst + n + 1][k - dst] == b[src..src + n + 1][k - dst];
    }
  }

  /** Stepping over a rule that stays. */
  lemma Advanced(b: seq<char>, len: nat, at: nat, next: nat, kept: seq<string>, rest: seq<string>)
    requires Cursor(b, len, at, kept, rest) && rest != []
    requires |rest| > 1 ==> next == at + |rest[0]| + 1
    requires |rest| == 1 ==> next == len
    ensures Cursor(b, len, next, kept + [rest[0]], rest[1..])
  {
    CursorShape(b, len, at, kept, rest);
    assert kept + rest == kept + [rest[0]] + rest[1..];
    JoinConcat(kept, [rest[0]]);
  }
}
