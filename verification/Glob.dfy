/** The glob matcher with its shortcut and its nesting limit. */
module Glob {
  import opened Text

  /** A pattern is followed by a NUL in memory. */
  function At(p: string, i: nat): char {
    if i < |p| then p[i] else '\0'
  }

  /** The rest of a character class from `i` on: whether it lists `c`, and where the pattern goes on. */
  function Class(p: string, i: nat, c: char, found: bool): (r: (bool, nat))
    requires i <= |p|
    ensures i <= r.1 <= |p|
    decreases |p| - i
  {
    if At(p, i) == '\\' && |p| - i >= 2 then Class(p, i + 2, c, found || p[i + 1] == c)
    else if At(p, i) == ']' then (found, if i < |p| then i + 1 else i)
    else if i == |p| then (found, i)
    else if |p| - i >= 3 && p[i + 1] == '-' then
      var lo, hi := if p[i] > p[i + 2] then p[i + 2] else p[i], if p[i] > p[i + 2] then p[i] else p[i + 2];
      Class(p, i + 3, c, found || lo <= c <= hi)
    else Class(p, i + 1, c, found || p[i] == c)
  }

  function SkipStars(p: string): (r: string)
    ensures |r| <= |p| && (r != [] ==> r[0] != '*')
    ensures p != [] && p[0] == '*' ==> |r| < |p|
  {
    if p != [] && p[0] == '*' then SkipStars(p[1..]) else p
  }

  /** How the first element of a pattern, not a star, takes a character: where the pattern goes on. */
  function Head(p: string, c: char): (r: Option<nat>)
    requires p != [] && p[0] != '*'
    ensures r.Some? ==> 0 < r.value <= |p|
  {
    if p[0] == '?' then Some(1)
    else if p[0] == '[' then
      var negated := At(p, 1) == '^';
      var listed := Class(p, if negated then 2 else 1, c, false);
      if listed.0 == negated then None else Some(listed.1)
    else if p[0] == '\\' && |p| >= 2 then (if p[1] == c then Some(2) else None)
    else if p[0] == c then Some(1)
    else None
  }

  /** Whether the pattern matches, and whether longer matches of an earlier star need not be tried. */
  function Match(p: string, s: string, nesting: nat): (bool, bool)
    decreases |p|, |s|, 1
  {
    if p == [] || s == [] then (p == [] && s == [], false)
    else if p[0] == '*' then
      var rest := SkipStars(p);
      if rest == [] then (true, false) else Star(rest, s, nesting)
    else
      match Head(p, s[0])
      case None => (false, false)
      case Some(next) => Then(p[next..], s[1..], nesting)
  }

  /** After one character of the string was consumed. */
  function Then(p: string, s: string, nesting: nat): (bool, bool)
    decreases |p|, |s|, 2
  {
    if s == [] then (SkipStars(p) == [], false) else Match(p, s, nesting)
  }

  /** The pattern behind a star, tried at every position of the string until the flag says to stop. */
  function Star(p: string, s: string, nesting: nat): (bool, bool)
    decreases |p|, |s|, 3
  {
    if s == [] then (false, true)
    else
      var r := if nesting + 1 > 1000 then (false, false) else Match(p, s, nesting + 1);
      if r.0 then (true, r.1) else if r.1 then (false, true) else Star(p, s[1..], nesting)
  }

  /** stringmatchlen, case-sensitive. */
  predicate Matches(p: string, s: string) {
    Match(p, s, 0).0
  }

  // ---- without the shortcut -----------------------------------------------------------------------------------------

  /** The same matcher without the shortcut and without the nesting limit. */
  predicate Unlimited(p: string, s: string)
    decreases |p|, |s|, 1
  {
    if p == [] || s == [] then p == [] && s == []
    else if p[0] == '*' then SkipStars(p) == [] || Somewhere(SkipStars(p), s)
    else Head(p, s[0]).Some? && UnlimitedThen(p[Head(p, s[0]).value..], s[1..])
  }

  predicate UnlimitedThen(p: string, s: string)
    decreases |p|, |s|, 2
  {
    if s == [] then SkipStars(p) == [] else Unlimited(p, s)
  }

  predicate Somewhere(p: string, s: string)
    decreases |p|, |s|, 3
  {
    s != [] && (Unlimited(p, s) || Somewhere(p, s[1..]))
  }

  /** No later part of the string matches either. */
  ghost predicate Nowhere(p: string, s: string) {
    forall i :: 0 <= i <= |s| ==> !Unlimited(p, s[i..])
  }

  /** Where a pattern goes on behind its first element, not a star. */
  ghost function Behind(p: string): (n: nat)
    requires p != [] && p[0] != '*'
    ensures 0 < n <= |p|
  {
    if p[0] == '[' then Class(p, if At(p, 1) == '^' then 2 else 1, '\0', false).1
    else if p[0] == '\\' && |p| >= 2 then 2
    else 1
  }

  /** How deep the matcher has to nest: a level for every run of stars but one at the end. */
  ghost function Depth(p: string): nat
    decreases |p|
  {
    if p == [] then 0
    else if p[0] == '*' then (if SkipStars(p) == [] then 0 else 1 + Depth(SkipStars(p)))
    else Depth(p[Behind(p)..])
  }

  lemma OnlyStarsAreFlat(p: string)
    requires SkipStars(p) == []
    ensures Depth(p) == 0
  {
  }

  lemma HeadGoesOn(p: string, c: char)
    requires p != [] && p[0] != '*' && Head(p, c).Some?
    ensures Head(p, c).value == Behind(p)
  {
    if p[0] == '[' {
      ClassIsUniform(p, if At(p, 1) == '^' then 2 else 1, c, false, '\0', false);
    }
  }

  /** Where a pattern goes on does not depend on the character taken. */
  lemma HeadIsUniform(p: string, c: char, d: char)
    requires p != [] && p[0] != '*' && Head(p, c).Some? && Head(p, d).Some?
    ensures Head(p, c) == Head(p, d)
  {
    if p[0] == '[' {
      ClassIsUniform(p, if At(p, 1) == '^' then 2 else 1, c, false, d, false);
    }
  }

  lemma {:induction false} ClassIsUniform(p: string, i: nat, c: char, found: bool, d: char, other: bool)
    requires i <= |p|
    ensures Class(p, i, c, found).1 == Class(p, i, d, other).1
    decreases |p| - i
  {
    if At(p, i) == '\\' && |p| - i >= 2 {
      ClassIsUniform(p, i + 2, c, found || p[i + 1] == c, d, other || p[i + 1] == d);
    } else if At(p, i) == ']' || i == |p| {
    } else if |p| - i >= 3 && p[i + 1] == '-' {
      var lo, hi := if p[i] > p[i + 2] then p[i + 2] else p[i], if p[i] > p[i + 2] then p[i] else p[i + 2];
      ClassIsUniform(p, i + 3, c, found || lo <= c <= hi, d, other || lo <= d <= hi);
    } else {
      ClassIsUniform(p, i + 1, c, found || p[i] == c, d, other || p[i] == d);
    }
  }

  /** A pattern of stars only matches whatever is left. */
  lemma OnlyStars(p: string, s: string)
    requires SkipStars(p) == [] && s != []
    ensures p != [] ==> Unlimited(p, s)
  {
  }

  lemma {:induction false} NowhereInTail(p: string, s: string, k: nat)
    requires Nowhere(p, s) && k <= |s|
    ensures Nowhere(p, s[k..]) && !Somewhere(p, s[k..])
    decreases |s| - k
  {
    forall i | 0 <= i <= |s[k..]|
      ensures !Unlimited(p, s[k..][i..])
    {
      assert s[k..][i..] == s[k + i..];
    }
    if k < |s| {
      NowhereInTail(p, s, k + 1);
      assert s[k..][1..] == s[k + 1..];
      assert s[k..][0..] == s[k..];
    }
  }

  // ---- the shortcut is safe -----------------------------------------------------------------------------------------

  /**
   * With at most 1000 levels to nest, the matcher agrees with the unlimited one; and where it gives
   * up for good, the pattern matches no later part of the string, so that no earlier star need go on.
   */
  lemma {:induction false} Agrees(p: string, s: string, nesting: nat)
    requires nesting + Depth(p) <= 1000
    ensures Match(p, s, nesting).0 == Unlimited(p, s)
    ensures Match(p, s, nesting) == (false, true) ==> Nowhere(p, s)
    decreases |p|, |s|, 1
  {
    if p == [] || s == [] {
    } else if p[0] == '*' {
      var rest := SkipStars(p);
      if rest != [] {
        AgreesStar(rest, s, nesting);
        if Nowhere(rest, s) {
          NowhereBehindStar(p, s);
        }
      }
    } else if Head(p, s[0]).Some? {
      var next := Head(p, s[0]).value;
      HeadGoesOn(p, s[0]);
      AgreesThen(p[next..], s[1..], nesting);
      if Match(p, s, nesting) == (false, true) {
        NowhereShifted(p, s, next);
      }
    }
  }

  lemma {:induction false} AgreesThen(p: string, s: string, nesting: nat)
    requires nesting + Depth(p) <= 1000
    ensures Then(p, s, nesting).0 == UnlimitedThen(p, s)
    ensures Then(p, s, nesting) == (false, true) ==> Nowhere(p, s) && SkipStars(p) != []
    decreases |p|, |s|, 2
  {
    if s != [] {
      Agrees(p, s, nesting);
      if SkipStars(p) == [] && p != [] {
        OnlyStars(p, s);
      }
    }
  }

  lemma {:induction false} AgreesStar(p: string, s: string, nesting: nat)
    requires p != [] && nesting + 1 + Depth(p) <= 1000
    ensures Star(p, s, nesting).0 == Somewhere(p, s)
    ensures !Star(p, s, nesting).0 ==> Nowhere(p, s)
    decreases |p|, |s|, 3
  {
    if s == [] {
      assert forall i :: 0 <= i <= |s| ==> s[i..] == [];
    } else {
      Agrees(p, s, nesting + 1);
      var r := Match(p, s, nesting + 1);
      if !r.0 && r.1 {
        NowhereInTail(p, s, 1);
      } else if !r.0 {
        AgreesStar(p, s[1..], nesting);
        if Nowhere(p, s[1..]) {
          NowhereCons(p, s);
        }
      }
    }
  }

  lemma NowhereCons(p: string, s: string)
    requires s != [] && !Unlimited(p, s) && Nowhere(p, s[1..])
    ensures Nowhere(p, s)
  {
    forall i | 0 <= i <= |s|
      ensures !Unlimited(p, s[i..])
    {
      if i == 0 {
        assert s[0..] == s;
      } else {
        assert s[i..] == s[1..][i - 1..];
      }
    }
  }

  lemma NowhereBehindStar(p: string, s: string)
    requires p != [] && p[0] == '*' && SkipStars(p) != [] && Nowhere(SkipStars(p), s)
    ensures Nowhere(p, s)
  {
    forall i | 0 <= i <= |s|
      ensures !Unlimited(p, s[i..])
    {
      NowhereInTail(SkipStars(p), s, i);
    }
  }

  /** If what follows the first element matches nowhere later, the pattern matches nowhere later. */
  lemma NowhereShifted(p: string, s: string, next: nat)
    requires p != [] && p[0] != '*' && s != [] && Head(p, s[0]) == Some(next)
    requires Nowhere(p[next..], s[1..]) && SkipStars(p[next..]) != []
    ensures Nowhere(p, s)
  {
    forall i | 0 <= i <= |s|
      ensures !Unlimited(p, s[i..])
    {
      var t := s[i..];
      if i < |s| && Head(p, t[0]).Some? {
        HeadIsUniform(p, s[0], t[0]);
        assert t[1..] == s[1..][i..];
      }
    }
  }

  /** A pattern that needs more levels than are left matches nothing. */
  lemma {:induction false} TooDeep(p: string, s: string, nesting: nat)
    requires nesting <= 1000
    ensures Match(p, s, nesting).0 ==> nesting + Depth(p) <= 1000
    decreases |p|, |s|, 1
  {
    if p == [] || s == [] {
    } else if p[0] == '*' {
      if SkipStars(p) != [] {
        TooDeepStar(SkipStars(p), s, nesting);
      }
    } else if Head(p, s[0]).Some? {
      var q := p[Head(p, s[0]).value..];
      HeadGoesOn(p, s[0]);
      assert Match(p, s, nesting) == Then(q, s[1..], nesting);
      if s[1..] != [] {
        TooDeep(q, s[1..], nesting);
      } else if SkipStars(q) == [] {
        OnlyStarsAreFlat(q);
      }
    }
  }

  lemma {:induction false} TooDeepStar(p: string, s: string, nesting: nat)
    requires nesting <= 1000
    ensures Star(p, s, nesting).0 ==> nesting + 1 + Depth(p) <= 1000
    decreases |p|, |s|, 3
  {
    if s != [] {
      if nesting < 1000 { TooDeep(p, s, nesting + 1); }
      TooDeepStar(p, s[1..], nesting);
    }
  }

  // ---- plain patterns -------------------------------------------------------------------------------------------------

  predicate Special(c: char) { c == '*' || c == '?' || c == '[' || c == '\\' }

  ghost predicate Plain(p: string) {
    forall i :: 0 <= i < |p| ==> !Special(p[i])
  }

  /** Characters that are not special match only themselves, up to the first special one. */
  lemma {:induction false} PlainPrefix(p: string, s: string, nesting: nat, n: nat)
    requires n <= |p| && Plain(p[..n]) && Match(p, s, nesting).0
    ensures n <= |s| && s[..n] == p[..n]
    decreases n
  {
    if n > 0 {
      assert !Special(p[..n][0]);
      assert p != [] && s != [] && s[0] == p[0];
      assert Then(p[1..], s[1..], nesting).0;
      if n > 1 {
        assert !Special(p[..n][1]);
        assert s[1..] != [];
        assert p[1..][..n - 1] == p[..n][1..];
        PlainPrefix(p[1..], s[1..], nesting, n - 1);
        assert s[..n] == [s[0]] + s[1..][..n - 1];
        assert p[..n] == [p[0]] + p[1..][..n - 1];
      }
    }
  }

  /** A pattern without special characters matches itself and nothing else. */
  lemma {:induction false} PlainMatchesOnlyItself(p: string, s: string, nesting: nat)
    requires Plain(p)
    ensures Match(p, s, nesting).0 <==> s == p
    decreases |p|
  {
    if p != [] && s != [] {
      assert !Special(p[0]);
      assert forall i :: 0 <= i < |p| - 1 ==> p[1..][i] == p[i + 1];
      PlainMatchesOnlyItself(p[1..], s[1..], nesting);
      assert p[1..] != [] ==> !Special(p[1..][0]);
      assert s == [s[0]] + s[1..] && p == [p[0]] + p[1..];
    }
  }
}
