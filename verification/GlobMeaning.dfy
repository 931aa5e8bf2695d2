/** What a glob pattern means, read element by element, and when the matcher agrees with it. */
module GlobMeaning {
  import opened Text
  import opened Glob

  // ---- patterns as lists of elements ------------------------------------------------------------------------------

  /** One character of a kind, or a stretch of any characters. */
  datatype Item = Any | Char(c: char) | OneOf(ranges: seq<(char, char)>, negated: bool) | Stretch

  predicate InRange(r: (char, char), c: char) {
    r.0 <= c <= r.1 || r.1 <= c <= r.0
  }

  predicate Takes(item: Item, c: char) {
    match item
    case Any => true
    case Char(d) => c == d
    case OneOf(ranges, negated) => (exists i :: 0 <= i < |ranges| && InRange(ranges[i], c)) != negated
    case Stretch => false
  }

  /** The ranges of a character class from `i` on, and where the pattern goes on. */
  function Ranges(p: string, i: nat): (r: (seq<(char, char)>, nat))
    requires i <= |p|
    ensures i <= r.1 <= |p|
    decreases |p| - i
  {
    if i == |p| then ([], i)
    else if p[i] == ']' then ([], i + 1)
    else
      var (range, next) :=
        if p[i] == '\\' && |p| - i >= 2 then ((p[i + 1], p[i + 1]), i + 2)
        else if |p| - i >= 3 && p[i + 1] == '-' then ((p[i], p[i + 2]), i + 3)
        else ((p[i], p[i]), i + 1);
      var rest := Ranges(p, next);
      ([range] + rest.0, rest.1)
  }

  /** The first element, and where the next one starts. */
  function First(p: string): (r: (Item, nat))
    requires p != []
    ensures 0 < r.1 <= |p|
  {
    if p[0] == '*' then (Stretch, 1)
    else if p[0] == '?' then (Any, 1)
    else if p[0] == '[' then
      var negated := |p| >= 2 && p[1] == '^';
      var r := Ranges(p, if negated then 2 else 1);
      (OneOf(r.0, negated), r.1)
    else if p[0] == '\\' && |p| >= 2 then (Char(p[1]), 2)
    else (Char(p[0]), 1)
  }

  function Parse(p: string): seq<Item> {
    if p == [] then [] else [First(p).0] + Parse(p[First(p).1..])
  }

  /** A stretch takes any number of characters, every other element takes one. */
  ghost predicate Denotes(items: seq<Item>, s: string) {
    if items == [] then s == []
    else if items[0].Stretch? then exists k :: 0 <= k <= |s| && Denotes(items[1..], s[k..])
    else s != [] && Takes(items[0], s[0]) && Denotes(items[1..], s[1..])
  }

  // ---- the matcher reads elements the same way ------------------------------------------------------------------------

  lemma {:induction false} ClassTakes(p: string, i: nat, c: char, found: bool)
    requires i <= |p|
    ensures var r := Ranges(p, i);
      Class(p, i, c, found) == (found || (exists k :: 0 <= k < |r.0| && InRange(r.0[k], c)), r.1)
    decreases |p| - i
  {
    if i < |p| && p[i] != ']' {
      var (range, next) :=
        if p[i] == '\\' && |p| - i >= 2 then ((p[i + 1], p[i + 1]), i + 2)
        else if |p| - i >= 3 && p[i + 1] == '-' then ((p[i], p[i + 2]), i + 3)
        else ((p[i], p[i]), i + 1);
      ClassTakes(p, next, c, found || InRange(range, c));
      AnyOf(range, Ranges(p, next).0, c);
    }
  }

  lemma AnyOf(range: (char, char), rest: seq<(char, char)>, c: char)
    ensures (exists k :: 0 <= k < |[range] + rest| && InRange(([range] + rest)[k], c))
      <==> InRange(range, c) || exists k :: 0 <= k < |rest| && InRange(rest[k], c)
  {
    var all := [range] + rest;
    assert all[0] == range;
    assert forall k :: 0 <= k < |rest| ==> all[k + 1] == rest[k];
    assert forall k :: 1 <= k < |all| ==> all[k] == rest[k - 1];
  }

  lemma HeadTakes(p: string, c: char)
    requires p != [] && p[0] != '*'
    ensures Head(p, c) == if Takes(First(p).0, c) then Some(First(p).1) else None
  {
    if p[0] == '[' {
      ClassTakes(p, if At(p, 1) == '^' then 2 else 1, c, false);
    }
  }

  // ---- stars ------------------------------------------------------------------------------------------------------------

  lemma ParseStar(p: string)
    requires p != [] && p[0] == '*'
    ensures Parse(p)[0].Stretch? && Parse(p)[1..] == Parse(p[1..])
  {
  }

  lemma {:induction false} ParseHead(p: string)
    requires p != [] && p[0] != '*'
    ensures Parse(p) != [] && !Parse(p)[0].Stretch? && Parse(p)[0] == First(p).0 && Parse(p)[1..] == Parse(p[First(p).1..])
  {
  }

  /** Only stars denote the empty string. */
  lemma {:induction false} DenotesEmpty(p: string)
    ensures Denotes(Parse(p), "") <==> SkipStars(p) == ""
  {
    if p != [] && p[0] == '*' {
      ParseStar(p);
      DenotesEmpty(p[1..]);
      assert ""[0..] == "";
    } else if p != [] {
      ParseHead(p);
    }
  }

  lemma DenotesStretch(items: seq<Item>, s: string)
    requires items != [] && items[0].Stretch?
    ensures Denotes(items, s) <==> exists k :: 0 <= k <= |s| && Denotes(items[1..], s[k..])
  {
  }

  lemma SkipOne(p: string)
    requires p != [] && p[0] == '*'
    ensures SkipStars(p) == SkipStars(p[1..]) && (|p| == 1 || p[1] != '*' ==> SkipStars(p) == p[1..])
  {
  }

  lemma Suffixes(s: string, k: nat, m: nat)
    requires k + m <= |s|
    ensures s[k..][m..] == s[k + m..]
  {
  }

  /** What stars in a row have taken, one star can take. */
  lemma {:induction false} StarsTake(p: string, s: string) returns (j: nat)
    requires p != [] && p[0] == '*' && Denotes(Parse(p), s)
    ensures j <= |s| && Denotes(Parse(SkipStars(p)), s[j..])
    decreases |p|
  {
    ParseStar(p);
    hide Parse, Denotes, SkipStars;
    SkipOne(p);
    DenotesStretch(Parse(p), s);
    j :| 0 <= j <= |s| && Denotes(Parse(p[1..]), s[j..]);
    if |p| > 1 && p[1] == '*' {
      var m := StarsTake(p[1..], s[j..]);
      Suffixes(s, j, m);
      j := j + m;
    }
  }

  /** And the other way round. */
  lemma {:induction false} StarsGive(p: string, s: string, k: nat)
    requires p != [] && p[0] == '*' && k <= |s| && Denotes(Parse(SkipStars(p)), s[k..])
    ensures Denotes(Parse(p), s)
    decreases |p|
  {
    ParseStar(p);
    hide Parse, Denotes, SkipStars;
    SkipOne(p);
    DenotesStretch(Parse(p), s);
    if |p| > 1 && p[1] == '*' {
      Suffixes(s, k, 0);
      StarsGive(p[1..], s[k..], 0);
    }
  }

  /** Stars in a row are one star. */
  lemma DenotesStars(p: string, s: string)
    requires p != [] && p[0] == '*'
    ensures Denotes(Parse(p), s) <==> exists k :: 0 <= k <= |s| && Denotes(Parse(SkipStars(p)), s[k..])
  {
    hide Parse, Denotes, SkipStars;
    if Denotes(Parse(p), s) {
      var j := StarsTake(p, s);
    }
    forall k | 0 <= k <= |s| && Denotes(Parse(SkipStars(p)), s[k..]) ensures Denotes(Parse(p), s) {
      StarsGive(p, s, k);
    }
  }

  // ---- the unlimited matcher ----------------------------------------------------------------------------------------

  /** On strings that are not empty, the matcher without limits finds what the pattern denotes. */
  lemma {:induction false} UnlimitedDenotes(p: string, s: string)
    requires s != []
    ensures Unlimited(p, s) <==> Denotes(Parse(p), s)
    decreases |p|, |s|, 1
  {
    if p == [] {
    } else if p[0] == '*' {
      hide Parse, Denotes;
      DenotesStars(p, s);
      if SkipStars(p) == [] {
        DenotesEmpty([]);
        assert s[|s|..] == "";
      } else {
        SomewhereDenotes(SkipStars(p), s);
      }
    } else {
      ParseHead(p);
      HeadTakes(p, s[0]);
      if Head(p, s[0]).Some? {
        ThenDenotes(p[Head(p, s[0]).value..], s[1..]);
      }
    }
  }

  lemma {:induction false} ThenDenotes(p: string, s: string)
    ensures UnlimitedThen(p, s) <==> Denotes(Parse(p), s)
    decreases |p|, |s|, 2
  {
    if s == [] {
      DenotesEmpty(p);
    } else {
      UnlimitedDenotes(p, s);
    }
  }

  lemma {:induction false} SomewhereDenotes(p: string, s: string)
    requires p != [] && p[0] != '*'
    ensures Somewhere(p, s) <==> exists k :: 0 <= k <= |s| && Denotes(Parse(p), s[k..])
    decreases |p|, |s|, 3
  {
    hide Parse, Denotes;
    if s == [] {
      DenotesEmpty(p);
      assert s[0..] == "";
    } else {
      UnlimitedDenotes(p, s);
      SomewhereDenotes(p, s[1..]);
      LaterOrNow(Parse(p), s);
    }
  }

  lemma LaterOrNow(items: seq<Item>, s: string)
    requires s != []
    ensures (exists k :: 0 <= k <= |s| && Denotes(items, s[k..]))
      <==> Denotes(items, s) || exists k :: 0 <= k <= |s[1..]| && Denotes(items, s[1..][k..])
  {
    hide Denotes;
    assert s[0..] == s;
    assert forall k :: 0 <= k <= |s| - 1 ==> s[1..][k..] == s[k + 1..];
    assert forall k :: 1 <= k <= |s| ==> s[k..] == s[1..][k - 1..];
  }

  // ---- the matcher ------------------------------------------------------------------------------------------------------

  /** A pattern of stars only, tried on the empty string. */
  predicate StarsOnNothing(p: string, s: string) {
    s == "" && p != "" && SkipStars(p) == ""
  }

  /** The matcher finds exactly what the pattern denotes, but for two cases in which it finds nothing:
      stars alone on the empty string, and patterns that need more than 1000 levels. */
  lemma MatcherIsExactIff(p: string, s: string)
    ensures Matches(p, s) <==> Denotes(Parse(p), s) && !StarsOnNothing(p, s) && Depth(p) <= 1000
  {
    TooDeep(p, s, 0);
    if Depth(p) <= 1000 {
      Agrees(p, s, 0);
    }
    if s == [] {
      DenotesEmpty(p);
    } else {
      UnlimitedDenotes(p, s);
    }
  }
}
