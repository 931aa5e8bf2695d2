/** ACLDescribeSelector and ACLDescribeUser: the loops that print a user, and the order of what they print. */
module AclUserPrint {
  import opened Text
  import opened AclRuleText
  import opened AclCommands
  import opened AclSelector
  import opened AclUser
  import opened AclUserText
  import opened AclUserRoundTrip
  import opened Seqs

  // ---------------------------------------------------------------- the loops

  lemma {:induction false} SpacedAppend(ws: seq<string>, w: string)
    ensures Spaced(ws + [w]) == Spaced(ws) + w + " "
  {
    if ws == [] {
      assert ws + [w] == [w] && [w][1..] == [];
    } else {
      assert (ws + [w])[1..] == ws[1..] + [w];
      SpacedAppend(ws[1..], w);
    }
  }

  lemma SpacedNext(ws: seq<string>, i: nat)
    requires i < |ws|
    ensures Spaced(ws[..i + 1]) == Spaced(ws[..i]) + ws[i] + " "
  {
    assert ws[..i + 1] == ws[..i] + [ws[i]];
    SpacedAppend(ws[..i], ws[i]);
  }

  /** The key patterns, each followed by a blank. */
  method PrintKeys(s: Selector) returns (res: string)
    requires SelectorShape(s)
    ensures res == Spaced(KeyWords(s))
  {
    hide PatternToken;
    if s.allKeys {
      res := "~* ";
      assert ["~*"][1..] == [];
    } else {
      res := "";
      var i := 0;
      while i < |s.patterns|
        invariant 0 <= i <= |s.patterns| && res == Spaced(PatternTokens(s.patterns)[..i])
      {
        SpacedNext(PatternTokens(s.patterns), i);
        res := res + PatternToken(s.patterns[i]) + " ";
        i := i + 1;
      }
      assert PatternTokens(s.patterns)[..i] == PatternTokens(s.patterns);
    }
  }

  method PrintChannels(s: Selector) returns (res: string)
    ensures res == Spaced(ChannelWords(s))
  {
    var ws := ChannelWords(s);
    assert ws[..1] == [ws[0]] && [ws[0]][1..] == [];
    if s.allChannels {
      res := "&* ";
      assert ws[..1] == ws;
    } else {
      res := "resetchannels ";
      var i := 0;
      while i < |s.channels|
        invariant 0 <= i <= |s.channels| && res == Spaced(ws[..i + 1])
      {
        SpacedNext(ws, i + 1);
        assert ws[i + 1] == "&" + s.channels[i];
        res := res + "&" + s.channels[i] + " ";
        i := i + 1;
      }
      assert ws[..i + 1] == ws;
    }
  }

  /** ACLDescribeSelector */
  method PrintSelector(s: Selector) returns (res: string)
    requires Printable(s)
    ensures res == DescribeSelector(s)
  {
    hide Spaced;
    var keys := PrintKeys(s);
    var channels := PrintChannels(s);
    var rules := if s.bits[BITS - 1] then "+@all" else "-@all";
    assert [rules] + s.log == CommandWords(s);
    assert ([rules] + s.log)[1..] == s.log;
    if s.log != [] {
      rules := rules + " " + LogText(s);
    }
    res := keys + channels + rules;
  }

  lemma {:induction false} OthersAppend(ss: seq<Selector>, s: Selector)
    requires Printable(s) && forall i :: 0 <= i < |ss| ==> Printable(ss[i])
    ensures DescribeOthers(ss + [s]) == DescribeOthers(ss) + (" (" + DescribeSelector(s) + ")")
  {
    hide DescribeSelector, Printable;
    if ss == [] {
      assert ss + [s] == [s] && [s][1..] == [];
    } else {
      assert (ss + [s])[1..] == ss[1..] + [s];
      OthersAppend(ss[1..], s);
    }
  }

  /** The table of user flags, in its order. */
  method PrintFlags(u: User) returns (res: string)
    ensures res == Spaced(FlagWords(u))
  {
    var names := ["on", "off", "nopass", "skip-sanitize-payload", "sanitize-payload"];
    var flags := [u.enabled, u.disabled, u.noPass, u.skipSanitize, u.sanitize];
    res := "";
    ghost var printed: seq<string> := [];
    for j := 0 to 5
      invariant res == Spaced(printed) && printed == SetNames(names[..j], flags[..j])
    {
      assert names[..j + 1][..j] == names[..j] && flags[..j + 1][..j] == flags[..j];
      if flags[j] {
        SpacedAppend(printed, names[j]);
        printed := printed + [names[j]];
        res := res + names[j] + " ";
      }
    }
    FlagTable(u, names, flags);
  }

  /** The names of the flags that are set. */
  ghost function SetNames(names: seq<string>, flags: seq<bool>): seq<string>
    requires |names| == |flags|
  {
    if names == [] then []
    else
      var n := |names| - 1;
      if flags[n] then SetNames(names[..n], flags[..n]) + [names[n]] else SetNames(names[..n], flags[..n])
  }

  lemma SetNext(names: seq<string>, flags: seq<bool>, n: nat)
    requires |names| == |flags| && n < |names|
    ensures SetNames(names[..n + 1], flags[..n + 1]) == SetNames(names[..n], flags[..n]) + Word(flags[n], names[n])
  {
    assert names[..n + 1][..n] == names[..n] && flags[..n + 1][..n] == flags[..n];
  }

  lemma FlagTable(u: User, names: seq<string>, flags: seq<bool>)
    requires names == ["on", "off", "nopass", "skip-sanitize-payload", "sanitize-payload"]
    requires flags == [u.enabled, u.disabled, u.noPass, u.skipSanitize, u.sanitize]
    ensures SetNames(names[..5], flags[..5]) == FlagWords(u)
  {
    assert SetNames(names[..0], flags[..0]) == [];
    hide SetNames;
    SetNext(names, flags, 0);
    SetNext(names, flags, 1);
    SetNext(names, flags, 2);
    SetNext(names, flags, 3);
    SetNext(names, flags, 4);
    Five(u.enabled, u.disabled, u.noPass, u.skipSanitize, u.sanitize);
  }

  function Word(on: bool, w: string): seq<string> {
    if on then [w] else []
  }

  lemma Five(a: bool, b: bool, c: bool, d: bool, e: bool)
    ensures [] + Word(a, "on") + Word(b, "off") + Word(c, "nopass") + Word(d, "skip-sanitize-payload") + Word(e, "sanitize-payload")
      == Word(a, "on") + Word(b, "off") + Word(c, "nopass") + Word(d, "skip-sanitize-payload") + Word(e, "sanitize-payload")
  {
    hide Word;
    assert [] + Word(a, "on") == Word(a, "on");
  }

  /** ACLDescribeUser */
  method PrintUser(u: User) returns (res: string)
    requires Printable(u.root) && forall i :: 0 <= i < |u.others| ==> Printable(u.others[i])
    ensures res == DescribeUser(u)
  {
    hide Spaced, DescribeSelector, Printable, FlagWords;
    res := PrintFlags(u);
    ghost var flags := res;
    var ws := PasswordWords(u.passwords);
    var i := 0;
    SpacedNone(ws);
    while i < |u.passwords|
      invariant 0 <= i <= |u.passwords| && res == flags + Spaced(ws[..i])
    {
      SpacedNext(ws, i);
      res := res + "#" + u.passwords[i] + " ";
      i := i + 1;
    }
    assert ws[..i] == ws;
    var root := PrintSelector(u.root);
    res := res + root;
    ghost var front := res;
    var j := 0;
    while j < |u.others|
      invariant 0 <= j <= |u.others| && res == front + DescribeOthers(u.others[..j])
    {
      var text := PrintSelector(u.others[j]);
      assert u.others[..j + 1] == u.others[..j] + [u.others[j]];
      OthersAppend(u.others[..j], u.others[j]);
      Associates(front, DescribeOthers(u.others[..j]), " (" + text + ")");
      res := res + (" (" + text + ")");
      j := j + 1;
    }
    assert u.others[..j] == u.others;
  }

  lemma SpacedNone(ws: seq<string>)
    ensures Spaced(ws[..0]) == ""
  {
  }

  // ---------------------------------------------------------------- the order

  /** A selector is printed as its keys, its channels, the base of its rules and the rules, each in the
      order in which they are kept. */
  lemma SelectorInOrder(s: Selector)
    requires Printable(s)
    ensures var ws, p, c := SelectorWords(s), if s.allKeys then 1 else |s.patterns|, if s.allChannels then 1 else 1 + |s.channels|;
      && |ws| == p + c + 1 + |s.log|
      && (s.allKeys ==> ws[0] == "~*")
      && (!s.allKeys ==> forall i :: 0 <= i < p ==> ws[i] == PermissionText(s.patterns[i].read, s.patterns[i].write) + s.patterns[i].pattern)
      && ws[p] == (if s.allChannels then "&*" else "resetchannels")
      && (!s.allChannels ==> forall i :: 0 <= i < |s.channels| ==> ws[p + 1 + i] == "&" + s.channels[i])
      && ws[p + c] == (if s.bits[BITS - 1] then "+@all" else "-@all")
      && ws[p + c + 1..] == s.log
  {
    hide *;
    WordsAre(s);
    var ws, a, b, c := SelectorWords(s), KeyWords(s), ChannelWords(s), CommandWords(s);
    KeysInOrder(s);
    ChannelsInOrder(s);
    Three(a, b, c);
    forall i | 0 <= i < |s.channels| && !s.allChannels ensures ws[|a| + 1 + i] == "&" + s.channels[i] {
      assert ws[|a| + (1 + i)] == b[1 + i];
    }
  }

  lemma WordsAre(s: Selector)
    requires Printable(s)
    ensures SelectorShape(s) && |s.bits| == BITS && SelectorWords(s) == KeyWords(s) + ChannelWords(s) + CommandWords(s)
    ensures var c := CommandWords(s); |c| == 1 + |s.log| && c[0] == (if s.bits[BITS - 1] then "+@all" else "-@all") && c[1..] == s.log
  {
    hide KeyWords, ChannelWords, SelectorShape;
  }

  /** Where the parts of a concatenation are. */
  lemma Three<T>(a: seq<T>, b: seq<T>, c: seq<T>)
    requires c != []
    ensures var ws := a + b + c;
      && |ws| == |a| + |b| + |c|
      && (forall i :: 0 <= i < |a| ==> ws[i] == a[i])
      && (forall i :: 0 <= i < |b| ==> ws[|a| + i] == b[i])
      && ws[|a| + |b|..] == c && ws[|a| + |b|] == c[0] && ws[|a| + |b| + 1..] == c[1..]
  {
    var ws := a + b + c;
    assert ws[|a| + |b|..] == c;
    assert ws[|a| + |b| + 1..] == ws[|a| + |b|..][1..];
  }

  lemma KeysInOrder(s: Selector)
    requires SelectorShape(s)
    ensures var ws := KeyWords(s);
      && |ws| == (if s.allKeys then 1 else |s.patterns|) && (s.allKeys ==> ws[0] == "~*")
      && (!s.allKeys ==> forall i :: 0 <= i < |ws| ==> ws[i] == PermissionText(s.patterns[i].read, s.patterns[i].write) + s.patterns[i].pattern)
  {
  }

  lemma ChannelsInOrder(s: Selector)
    ensures var ws := ChannelWords(s);
      && |ws| == (if s.allChannels then 1 else 1 + |s.channels|) && ws[0] == (if s.allChannels then "&*" else "resetchannels")
      && (!s.allChannels ==> forall i :: 0 <= i < |s.channels| ==> ws[1 + i] == "&" + s.channels[i])
  {
  }

  /** How permissions are written before a pattern. */
  function PermissionText(read: bool, write: bool): string {
    if !write then "%R~" else if !read then "%W~" else "~"
  }

  /** A user is printed as one of on and off, nopass if it is set, one of the sanitizing words, the
      passwords in order, and the root selector; the other selectors follow in parentheses. */
  lemma UserInOrder(sv: Server, u: User)
    requires GoodUser(sv, u)
    ensures Printable(u.root) && forall i :: 0 <= i < |u.others| ==> Printable(u.others[i])
    ensures DescribeUser(u) == Join(LineWords(u) + OtherWords(u.others))
    ensures var ws, k, n := LineWords(u), if u.noPass then 3 else 2, |u.passwords|;
      && |ws| == k + n + |SelectorWords(u.root)|
      && ws[0] == (if u.enabled then "on" else "off")
      && (u.noPass ==> ws[1] == "nopass")
      && ws[k - 1] == (if u.sanitize then "sanitize-payload" else "skip-sanitize-payload")
      && (forall i :: 0 <= i < n ==> ws[k + i] == "#" + u.passwords[i])
      && ws[k + n..] == SelectorWords(u.root)
  {
    hide SelectorWords, GoodSelector, Printable, DescribeUser, OtherWords, Join, IsHash, LineWords;
    forall i | 0 <= i < |u.others| ensures Printable(u.others[i]) {
      GoodIsPrintable(sv.table, u.others[i]);
    }
    GoodIsPrintable(sv.table, u.root);
    UserText(u);
    LineInOrder(u);
  }

  lemma FlagsInOrder(u: User)
    requires u.enabled == !u.disabled && u.sanitize == !u.skipSanitize
    ensures var ws, k := FlagWords(u), if u.noPass then 3 else 2;
      && |ws| == k && ws[0] == (if u.enabled then "on" else "off") && (u.noPass ==> ws[1] == "nopass")
      && ws[k - 1] == (if u.sanitize then "sanitize-payload" else "skip-sanitize-payload")
  {
  }

  lemma LineInOrder(u: User)
    requires u.enabled == !u.disabled && u.sanitize == !u.skipSanitize && Printable(u.root)
    ensures var ws, k, n := LineWords(u), if u.noPass then 3 else 2, |u.passwords|;
      && |ws| == k + n + |SelectorWords(u.root)|
      && ws[0] == (if u.enabled then "on" else "off")
      && (u.noPass ==> ws[1] == "nopass")
      && ws[k - 1] == (if u.sanitize then "sanitize-payload" else "skip-sanitize-payload")
      && (forall i :: 0 <= i < n ==> ws[k + i] == "#" + u.passwords[i])
      && ws[k + n..] == SelectorWords(u.root)
  {
    hide *;
    var a, b, c := FlagWords(u), PasswordWords(u.passwords), SelectorWords(u.root);
    assert LineWords(u) == a + b + c by { LineIs(u); }
    FlagsInOrder(u);
    Three(a, b, c);
  }

  lemma LineIs(u: User)
    requires Printable(u.root)
    ensures LineWords(u) == FlagWords(u) + PasswordWords(u.passwords) + SelectorWords(u.root)
  {
    hide FlagWords, SelectorWords, Printable;
  }
}
