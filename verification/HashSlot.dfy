/** Hash slots of keys, and the slot predicted for a glob pattern. */
module HashSlot {
  import opened Glob
  import opened Text

  const SLOTS := 16384

  /** The checksum, kept abstract. */
  type Crc = string -> nat

  // ---- the slot of a key -------------------------------------------------------------------------------------

  /** The first position from `i` on that holds `c`, or the end. */
  function FirstFrom(s: string, c: char, i: nat): (r: nat)
    requires i <= |s|
    ensures i <= r <= |s| && (r < |s| ==> s[r] == c) && forall k :: i <= k < r ==> s[k] != c
    decreases |s| - i
  {
    if i == |s| || s[i] == c then i else FirstFrom(s, c, i + 1)
  }

  /** A non-empty tag between the first brace and the next closing brace. */
  predicate HasTag(key: string) {
    var s := FirstFrom(key, '{', 0);
    s < |key| && var e := FirstFrom(key, '}', s + 1); s + 1 < e < |key|
  }

  /** The part of a key that is hashed: its tag, or all of it. */
  function Hashed(key: string): string {
    if HasTag(key) then
      var s := FirstFrom(key, '{', 0);
      key[s + 1..FirstFrom(key, '}', s + 1)]
    else key
  }

  function Slot(crc: Crc, hashed: string): nat {
    crc(hashed) % SLOTS
  }

  /** keyHashSlot. */
  method KeyHashSlot(crc: Crc, key: string) returns (slot: nat)
    ensures slot == Slot(crc, Hashed(key)) == crc(Hashed(key)) % 0x4000 < 0x4000
  {
    var s := 0;
    while s < |key|
      invariant s <= |key| && FirstFrom(key, '{', 0) == FirstFrom(key, '{', s)
    {
      if key[s] == '{' {
        break;
      }
      s := s + 1;
    }
    if s == |key| {
      return crc(key) % SLOTS;
    }
    var e := s + 1;
    while e < |key|
      invariant s + 1 <= e <= |key| && FirstFrom(key, '}', s + 1) == FirstFrom(key, '}', e)
    {
      if key[e] == '}' {
        break;
      }
      e := e + 1;
    }
    if e == |key| || e == s + 1 {
      return crc(key) % SLOTS;
    }
    return crc(key[s + 1..e]) % SLOTS;
  }

  // ---- the slot of a pattern ----------------------------------------------------------------------------------------

  lemma FirstIs(s: string, c: char, i: nat, r: nat)
    requires i <= r < |s| && s[r] == c && forall k :: i <= k < r ==> s[k] != c
    ensures FirstFrom(s, c, i) == r
  {
  }

  /** A closed tag in a prefix decides what is hashed. */
  lemma TagIsStable(q: string, key: string)
    requires HasTag(q) && q <= key
    ensures HasTag(key) && Hashed(key) == Hashed(q)
  {
    var s := FirstFrom(q, '{', 0);
    var e := FirstFrom(q, '}', s + 1);
    FirstIs(key, '{', 0, s);
    FirstIs(key, '}', s + 1, e);
  }

  /** No slot can be told: a special character comes before a tag is closed. */
  ghost predicate Undetermined(p: string) {
    exists i :: 0 <= i < |p| && Special(p[i]) && !HasTag(p[..i])
  }

  /** The first opening brace is closed at once, before position `i`. */
  ghost predicate EmptyTag(p: string, i: nat) {
    var o := FirstFrom(p, '{', 0);
    o + 1 < i <= |p| && p[o + 1] == '}'
  }

  /** What the scan knows after `i` plain characters: no brace yet, an open tag at `s`, or an empty tag (-2). */
  ghost predicate Scanned(p: string, i: nat, s: int) {
    && -2 <= s < i <= |p| && Plain(p[..i])
    && (s == -1 ==> forall k :: 0 <= k < i ==> p[k] != '{')
    && (s >= 0 ==> p[s] == '{' && (forall k :: 0 <= k < s ==> p[k] != '{') && forall k :: s < k < i ==> p[k] != '}')
    && (s == -2 ==> EmptyTag(p, i))
  }

  lemma ScanNext(p: string, i: nat, s: int)
    requires Scanned(p, i, s) && i < |p| && !Special(p[i]) && !(s >= 0 && p[i] == '}' && i > s + 1)
    ensures Scanned(p, i + 1, if s == -1 && p[i] == '{' then i else if s >= 0 && p[i] == '}' then -2 else s)
  {
    hide Special;
    assert p[..i + 1] == p[..i] + [p[i]];
    if s >= 0 && p[i] == '}' {
      FirstIs(p, '{', 0, s);
    }
  }

  /** A scanned prefix holds no closed tag. */
  lemma NoTagYet(p: string, i: nat, s: int)
    requires Scanned(p, i, s)
    ensures !HasTag(p[..i])
  {
    var q := p[..i];
    if s >= 0 {
      FirstIs(q, '{', 0, s);
    } else if s == -2 {
      var o := FirstFrom(p, '{', 0);
      FirstIs(q, '{', 0, o);
      FirstIs(q, '}', o + 1, o + 1);
    }
  }

  lemma NothingToTell(p: string, i: nat, s: int)
    requires Scanned(p, i, s) && i < |p| && Special(p[i])
    ensures Undetermined(p)
  {
    NoTagYet(p, i, s);
  }

  /** patternHashSlot; None stands for -1. Every key the pattern matches has the slot that is returned. */
  method PatternHashSlot(crc: Crc, p: string) returns (slot: Option<nat>)
    ensures slot.None? <==> Undetermined(p)
    ensures slot.Some? ==> slot.value == crc(Hashed(p)) % 0x4000
    ensures slot.Some? ==> forall key :: Matches(p, key) ==> Slot(crc, Hashed(key)) == slot.value
  {
    hide Scanned, Undetermined, Hashed, Matches;
    var s := -1;
    assert Scanned(p, 0, -1) by { ScanStart(p); }
    for i := 0 to |p|
      invariant -2 <= s < i
      invariant Scanned(p, i, s)
    {
      if p[i] == '*' || p[i] == '?' || p[i] == '[' {
        NothingToTell(p, i, s);
        return None;
      } else if p[i] == '\\' {
        NothingToTell(p, i, s);
        return None;
      } else if s == -1 && p[i] == '{' {
        ScanNext(p, i, s);
        s := i;
      } else if s >= 0 && p[i] == '}' && i == s + 1 {
        ScanNext(p, i, s);
        s := -2;
      } else if s >= 0 && p[i] == '}' {
        slot := Some(crc(p[s + 1..i]) % SLOTS);
        TagDecides(crc, p, s, i);
        return;
      } else {
        ScanNext(p, i, s);
      }
    }
    slot := Some(crc(p) % SLOTS);
    NoTagYet(p, |p|, s);
    WholePattern(crc, p, s);
  }

  lemma ScanStart(p: string)
    ensures Scanned(p, 0, -1)
  {
  }

  lemma TagDecides(crc: Crc, p: string, s: nat, i: nat)
    requires Scanned(p, i, s) && s + 1 < i < |p| && p[i] == '}'
    ensures !Undetermined(p) && Hashed(p) == p[s + 1..i]
    ensures forall key :: Matches(p, key) ==> Slot(crc, Hashed(key)) == crc(p[s + 1..i]) % SLOTS
  {
    hide Hashed, HasTag, Match, Slot;
    var q := p[..i + 1];
    TagOf(p, s, i);
    TagIsStable(q, p);
    forall key | Matches(p, key)
      ensures Slot(crc, Hashed(key)) == crc(p[s + 1..i]) % SLOTS
    {
      PlainPrefix(p, key, 0, i + 1);
      TagIsStable(q, key);
      SlotOf(crc, Hashed(key));
    }
    forall j | i < j < |p|
      ensures HasTag(p[..j])
    {
      TagIsStable(q, p[..j]);
    }
    assert forall j :: 0 <= j < |q| ==> q[j] == p[j];
  }

  lemma SlotOf(crc: Crc, hashed: string)
    ensures Slot(crc, hashed) == crc(hashed) % SLOTS
  {
  }

  /** The tag that the scan has found. */
  lemma TagOf(p: string, s: nat, i: nat)
    requires Scanned(p, i, s) && s + 1 < i < |p| && p[i] == '}'
    ensures var q := p[..i + 1]; HasTag(q) && Hashed(q) == p[s + 1..i] && Plain(q)
  {
    var q := p[..i + 1];
    FirstIs(q, '{', 0, s);
    FirstIs(q, '}', s + 1, i);
    assert q == p[..i] + ['}'];
  }

  lemma WholePattern(crc: Crc, p: string, s: int)
    requires Scanned(p, |p|, s) && !HasTag(p[..|p|])
    ensures !Undetermined(p) && Hashed(p) == p
    ensures forall key :: Matches(p, key) ==> Slot(crc, Hashed(key)) == crc(p) % SLOTS
  {
    assert p[..|p|] == p;
    forall key | Matches(p, key)
      ensures Slot(crc, Hashed(key)) == crc(p) % SLOTS
    {
      PlainMatchesOnlyItself(p, key, 0);
    }
  }
}
