/** Printing a selector and applying the printed words to a new one gives it back. */
module AclRoundTrip {
  import opened Text
  import opened AclRuleText
  import opened AclCommands
  import opened AclReplay
  import opened AclSelector
  import opened AclInvariant
  import opened AclDescribe
  import opened AclUser

  /** Equal in everything the description covers.  First-args are compared without letter
      case, and the ALLCOMMANDS flag is derived (see FlagMeansAllBits). */
  ghost predicate SameSelector(x: Selector, s: Selector) {
    && x.allKeys == s.allKeys && x.patterns == s.patterns
    && x.allChannels == s.allChannels && x.channels == s.channels
    && x.log == s.log && x.bits == s.bits && ArgCells(x.args) == ArgCells(s.args)
  }

  /** The pattern "*" with both permissions, which can be stored through "%RW~*". */
  predicate IsStar(p: KeyPattern) {
    p.read && p.write && p.pattern == "*"
  }

  predicate StarFree(s: Selector) {
    forall i :: 0 <= i < |s.patterns| ==> !IsStar(s.patterns[i])
  }

  // ---------------------------------------------------------------- words are understood

  /** The keyword tests see nothing but the keywords: by their first character. */
  lemma NotAKeyword(op: string)
    requires op != "" && (op[0] == '~' || op[0] == '%' || op[0] == '&')
    ensures op != "~*" && op != "&*" ==> KeywordOf(op) == OtherWord
  {
    assert Lower(op)[0] == op[0];
    assert Lower("~*") == "~*" && Lower("&*") == "&*";
    if |op| == 2 {
      assert op == [op[0]] + [op[1]] && Lower(op) == [op[0]] + [ToLower(op[1])];
      assert ToLower(op[1]) == '*' ==> op[1] == '*';
    }
  }

  lemma KeywordsOfWords()
    ensures KeywordOf("~*") == AllKeysWord && KeywordOf("&*") == AllChannelsWord
    ensures KeywordOf("resetchannels") == ResetChannelsWord
    ensures KeywordOf("+@all") == AllCommandsWord && KeywordOf("-@all") == NoCommandsWord
  {
    assert Lower("~*")[0] == '~' && Lower("&*")[0] == '&' && Lower("resetchannels")[0] == 'r';
    assert Lower("+@all")[0] == '+' && Lower("-@all")[0] == '-';
    assert Lower("allkeys")[0] == 'a' && Lower("allchannels")[0] == 'a' && Lower("allcommands")[0] == 'a';
    assert Lower("nocommands")[0] == 'n';
    assert |Lower("resetkeys")| == 9 && |Lower("resetchannels")| == 13;
  }

  lemma PatternUnderstood(t: CommandTable, x: Selector, p: KeyPattern)
    requires RuleTokens(x.log) && !x.allKeys && (p.read || p.write) && !HasSpaces(p.pattern) && !IsStar(p)
    requires forall k :: 0 <= k < |x.patterns| ==> x.patterns[k].pattern != p.pattern
    ensures SetSelector(t, x, PatternToken(p)) == Ok(x.(patterns := x.patterns + [p]))
  {
    var op := PatternToken(p);
    assert p.read && p.write ==> op[1..] == p.pattern;
    assert "~*"[1..] == "*" && op != "~*";
    hide KeywordOf, HasSpaces;
    NotAKeyword(op);
    AddPatternAt(x.patterns, p, |x.patterns|);
    if op[0] == '%' {
      assert op[2] == '~' && op[3..] == p.pattern;
      var letter := op[1];
      assert ParsePerms(op, 1, false, false) == ParsePerms(op, 2, letter == 'R', letter == 'W');
    } else {
      assert op[1..] == p.pattern;
    }
  }

  lemma ChannelUnderstood(t: CommandTable, x: Selector, c: string)
    requires RuleTokens(x.log) && !x.allChannels && !HasSpaces(c) && c != "*" && c !in x.channels
    ensures SetSelector(t, x, "&" + c) == Ok(x.(channels := x.channels + [c]))
  {
    var op := "&" + c;
    assert op[1..] == c;
    assert "&*"[1..] == "*" && op != "&*";
    hide KeywordOf, HasSpaces;
    NotAKeyword(op);
  }

  // ---------------------------------------------------------------- keys

  lemma {:induction false} RunAllStep(t: CommandTable, s: Selector, ops: seq<string>, n: nat)
    requires n < |ops|
    ensures RunAll(t, s, ops[..n + 1]) ==
      match RunAll(t, s, ops[..n])
      case Err(e) => Err(e)
      case Ok(x) => if RuleTokens(x.log) then SetSelector(t, x, ops[n]) else Err(EINVAL)
  {
    hide SetSelector, RuleTokens;
    assert ops[..n + 1][..n] == ops[..n];
  }

  lemma {:induction false} PatternsReread(t: CommandTable, base: Selector, ps: seq<KeyPattern>, n: nat)
    requires RuleTokens(base.log) && !base.allKeys && base.patterns == [] && n <= |ps|
    requires forall i :: 0 <= i < |ps| ==> (ps[i].read || ps[i].write) && !HasSpaces(ps[i].pattern)
    requires forall i, j :: 0 <= i < j < |ps| ==> ps[i].pattern != ps[j].pattern
    requires forall i :: 0 <= i < n ==> !IsStar(ps[i])
    ensures RunAll(t, base, PatternTokens(ps)[..n]) == Ok(base.(patterns := ps[..n]))
  {
    hide SetSelector, HasSpaces, IsStar, PatternToken;
    if n > 0 {
      PatternsReread(t, base, ps, n - 1);
      RunAllStep(t, base, PatternTokens(ps), n - 1);
      PatternUnderstood(t, base.(patterns := ps[..n - 1]), ps[n - 1]);
      assert ps[..n] == ps[..n - 1] + [ps[n - 1]];
    }
  }

  lemma KeysReread(t: CommandTable, base: Selector, s: Selector)
    requires RuleTokens(base.log) && !base.allKeys && base.patterns == [] && SelectorShape(s) && StarFree(s)
    ensures RunAll(t, base, KeyWords(s)) == Ok(base.(allKeys := s.allKeys, patterns := s.patterns))
  {
    hide HasSpaces, IsStar, KeywordOf;
    if s.allKeys {
      KeywordsOfWords();
      assert ["~*"][..0] == [];
    } else {
      PatternsReread(t, base, s.patterns, |s.patterns|);
      assert PatternTokens(s.patterns)[..|s.patterns|] == KeyWords(s);
      assert s.patterns[..|s.patterns|] == s.patterns;
    }
  }

  // ---------------------------------------------------------------- channels

  lemma {:induction false} ChannelsReread(t: CommandTable, base: Selector, cs: seq<string>, n: nat)
    requires RuleTokens(base.log) && !base.allChannels && base.channels == [] && n <= |cs|
    requires forall i :: 0 <= i < |cs| ==> !HasSpaces(cs[i]) && cs[i] != "*"
    requires forall i, j :: 0 <= i < j < |cs| ==> cs[i] != cs[j]
    ensures RunAll(t, base, ChannelTokens(cs)[..n]) == Ok(base.(channels := cs[..n]))
  {
    hide SetSelector, HasSpaces;
    if n > 0 {
      ChannelsReread(t, base, cs, n - 1);
      RunAllStep(t, base, ChannelTokens(cs), n - 1);
      ChannelUnderstood(t, base.(channels := cs[..n - 1]), cs[n - 1]);
      assert cs[..n] == cs[..n - 1] + [cs[n - 1]];
    }
  }

  lemma ChannelsWordsReread(t: CommandTable, base: Selector, s: Selector)
    requires RuleTokens(base.log) && SelectorShape(s)
    ensures RunAll(t, base, ChannelWords(s)) == Ok(base.(allChannels := s.allChannels, channels := s.channels))
  {
    hide HasSpaces, KeywordOf;
    KeywordsOfWords();
    if s.allChannels {
      assert ["&*"][..0] == [];
    } else {
      var cleared := base.(allChannels := false, channels := []);
      assert ["resetchannels"][..0] == [];
      assert RunAll(t, base, ["resetchannels"]) == Ok(cleared);
      RunAllConcat(t, base, ["resetchannels"], ChannelTokens(s.channels));
      ChannelsReread(t, cleared, s.channels, |s.channels|);
      assert ChannelTokens(s.channels)[..|s.channels|] == ChannelTokens(s.channels);
      assert s.channels[..|s.channels|] == s.channels;
    }
  }

  // ---------------------------------------------------------------- commands

  lemma CommandsReread(t: CommandTable, base: Selector, s: Selector)
    requires RuleTokens(base.log) && Valid(t, s)
    ensures RunAll(t, base, CommandWords(s)).Ok?
    ensures Rerun(t, base, s.bits[BITS - 1], s.log, RunAll(t, base, CommandWords(s)).value)
  {
    hide KeywordOf, Valid, Rerun, AllCommands;
    ValidLog(t, s);
    var all := s.bits[BITS - 1];
    var start := if all then "+@all" else "-@all";
    KeywordsOfWords();
    assert [start][..0] == [];
    assert RunAll(t, base, [start]) == Ok(AllCommands(base, all));
    RunAllConcat(t, base, [start], s.log);
    CompactOf(t, s);
    RerunPrefix(t, base, all, s.log, |s.log|);
    assert s.log[..|s.log|] == s.log;
  }

  lemma CompactOf(t: CommandTable, s: Selector)
    requires Valid(t, s)
    ensures Compact(s.log)
  {
  }

  // ---------------------------------------------------------------- the selector

  lemma SelectorReread(t: CommandTable, s: Selector, pubsubDefault: bool)
    requires GoodSelector(t, s) && StarFree(s)
    ensures RunAll(t, Fresh(pubsubDefault), SelectorWords(s)).Ok?
    ensures SameSelector(RunAll(t, Fresh(pubsubDefault), SelectorWords(s)).value, s)
  {
    hide SetSelector, KeyWords, ChannelWords, CommandWords, SelectorShape, StarFree, RunAll, Valid;
    ValidLog(t, s);
    var base := Fresh(pubsubDefault);
    var keyed := base.(allKeys := s.allKeys, patterns := s.patterns);
    var open := keyed.(allChannels := s.allChannels, channels := s.channels);
    KeysReread(t, base, s);
    RunAllConcat(t, base, KeyWords(s), ChannelWords(s));
    ChannelsWordsReread(t, keyed, s);
    RunAllConcat(t, base, KeyWords(s) + ChannelWords(s), CommandWords(s));
    CommandsReread(t, open, s);
    ReplayIsSame(t, s, RunAll(t, open, CommandWords(s)).value, open);
  }

  lemma ReplayIsSame(t: CommandTable, s: Selector, x: Selector, base: Selector)
    requires Valid(t, s) && Rerun(t, base, s.bits[BITS - 1], s.log, x)
    ensures x.bits == s.bits && ArgCells(x.args) == ArgCells(s.args) && x.log == s.log
    ensures x.allKeys == base.allKeys && x.allChannels == base.allChannels
    ensures x.patterns == base.patterns && x.channels == base.channels
  {
    assert PermsOf(x) == PermsOf(s);
  }

  // ---------------------------------------------------------------- the stored star

  /** ALLKEYS, once set, stays set until "resetkeys". */
  lemma {:induction false} AllKeysSticks(t: CommandTable, x: Selector, ops: seq<string>)
    requires x.allKeys && forall i :: 0 <= i < |ops| ==> KeywordOf(ops[i]) != ResetKeysWord
    ensures RunAll(t, x, ops).Ok? ==> RunAll(t, x, ops).value.allKeys
  {
    hide KeywordOf, Resolve, ParsePerms, HasSpaces, RuleTokens, Surviving, WithBits;
    if ops != [] {
      AllKeysSticks(t, x, ops[..|ops| - 1]);
    }
  }

  lemma WordsDoNotReset(t: CommandTable, s: Selector)
    requires GoodSelector(t, s)
    ensures forall i :: 0 <= i < |SelectorWords(s)| ==> KeywordOf(SelectorWords(s)[i]) != ResetKeysWord
  {
    hide KeywordOf, Valid, Logged, SelectorShape;
    ValidLog(t, s);
    KeywordsOfWords();
    forall i | 0 <= i < |SelectorWords(s)| ensures KeywordOf(SelectorWords(s)[i]) != ResetKeysWord {
      var w := SelectorWords(s)[i];
      var k, c := |KeyWords(s)|, |ChannelWords(s)|;
      if i >= k + c + 1 {
        assert w == s.log[i - k - c - 1];
        LoggedIsNoReset(t, w);
      } else if w != "~*" && w != "&*" && w != "resetchannels" && w != "+@all" && w != "-@all" {
        PatternWordStarts(s, i);
        NotAKeyword(w);
      }
    }
  }

  lemma PatternWordStarts(s: Selector, i: nat)
    requires Printable(s) && i < |KeyWords(s)| + |ChannelWords(s)|
    ensures var w := SelectorWords(s)[i];
      w == "resetchannels" || (w != "" && (w[0] == '~' || w[0] == '%' || w[0] == '&'))
  {
    hide HasSpaces;
  }

  lemma LoggedIsNoReset(t: CommandTable, w: string)
    requires Logged(t, w)
    ensures KeywordOf(w) != ResetKeysWord
  {
    hide Resolve;
    RuleKeyword(w);
  }

  /** A stored "*" with both permissions prints as "~*" and comes back as ALLKEYS, or is
      followed by a pattern that is then refused. */
  lemma StarIsLost(t: CommandTable, s: Selector, pubsubDefault: bool, k: nat)
    requires GoodSelector(t, s) && k < |s.patterns| && IsStar(s.patterns[k])
    requires forall i :: 0 <= i < k ==> !IsStar(s.patterns[i])
    ensures RunAll(t, Fresh(pubsubDefault), SelectorWords(s)).Ok? ==>
      RunAll(t, Fresh(pubsubDefault), SelectorWords(s)).value.allKeys
  {
    ValidLog(t, s);
    StarReached(t, s, pubsubDefault, k);
    WordsDoNotReset(t, s);
    hide *;
    var base, words := Fresh(pubsubDefault), SelectorWords(s);
    var starred := base.(allKeys := true, patterns := []);
    RunAllConcat(t, base, words[..k + 1], words[k + 1..]);
    SplitAt(words, k + 1);
    AllKeysSticks(t, starred, words[k + 1..]);
  }

  lemma SplitAt(words: seq<string>, i: nat)
    requires i <= |words|
    ensures words[..i] + words[i..] == words
    ensures forall j :: 0 <= j < |words[i..]| ==> words[i..][j] == words[i + j]
  {
  }

  /** Rereading reaches the star and then has ALLKEYS set. */
  lemma StarReached(t: CommandTable, s: Selector, pubsubDefault: bool, k: nat)
    requires GoodSelector(t, s) && k < |s.patterns| && IsStar(s.patterns[k])
    requires forall i :: 0 <= i < k ==> !IsStar(s.patterns[i])
    ensures k + 1 <= |SelectorWords(s)|
    ensures RunAll(t, Fresh(pubsubDefault), SelectorWords(s)[..k + 1]) == Ok(Fresh(pubsubDefault).(allKeys := true, patterns := []))
  {
    hide KeywordOf, HasSpaces, Valid;
    ValidLog(t, s);
    var base, words, tokens := Fresh(pubsubDefault), SelectorWords(s), PatternTokens(s.patterns);
    PatternsReread(t, base, s.patterns, k);
    RunAllStep(t, base, tokens, k);
    assert tokens[k] == "~*";
    KeywordsOfWords();
    assert words[..k + 1] == tokens[..k + 1];
  }

  /** The round trip of a selector, and exactly when it holds. */
  lemma SelectorRoundTrip(t: CommandTable, s: Selector, pubsubDefault: bool)
    requires GoodSelector(t, s)
    ensures var r := RunAll(t, Fresh(pubsubDefault), SelectorWords(s));
      (r.Ok? && SameSelector(r.value, s)) <==> StarFree(s)
  {
    hide SelectorWords, RunAll, Valid, IsStar, HasSpaces;
    if StarFree(s) {
      SelectorReread(t, s, pubsubDefault);
    } else {
      var k := FirstStar(s.patterns);
      StarIsLost(t, s, pubsubDefault, k);
      assert !s.allKeys;
    }
  }

  lemma {:induction false} FirstStar(ps: seq<KeyPattern>) returns (k: nat)
    requires exists i :: 0 <= i < |ps| && IsStar(ps[i])
    ensures k < |ps| && IsStar(ps[k]) && forall i :: 0 <= i < k ==> !IsStar(ps[i])
  {
    k := 0;
    while !IsStar(ps[k])
      invariant k < |ps| && forall i :: 0 <= i < k ==> !IsStar(ps[i])
      decreases |ps| - k
    {
      k := k + 1;
    }
  }
}
