/** Blocking, unblocking and signalling as state transitions, and their invariant over every run. */
module BlockedState {
  import opened Blocking
  import opened Text

  datatype ObjType = StringObj | ListObj | SetObj | ZsetObj | HashObj | StreamObj

  function BlockedType(t: ObjType): Option<Kind> {
    match t
    case ListObj => Some(ListKind)
    case ZsetObj => Some(ZsetKind)
    case StreamObj => Some(StreamKind)
    case _ => None
  }

  /**
   * `kinds` holds the blocked clients, `flags` those that also wake up when a key goes away. `ready` is
   * the table of signalled keys, `queue` the list of signalled keys and `current` the part of an
   * earlier list that is being worked off.
   */
  datatype State = State(index: Index, kinds: map<Client, Kind>, flags: set<Client>, count: map<Kind, int>, total: int,
                         ready: set<Key>, queue: seq<Key>, current: seq<Key>)

  ghost function OfKind(kinds: map<Client, Kind>, kind: Kind): set<Client> {
    set c | c in kinds && kinds[c] == kind
  }

  ghost predicate Counted(s: State) {
    && s.total == |s.kinds|
    && forall kind :: kind in s.count && s.count[kind] == |OfKind(s.kinds, kind)|
  }

  ghost predicate BlockedOnKeys(s: State) {
    && s.flags <= s.kinds.Keys
    && forall c :: c in s.kinds <==> s.index.Table(c) != map[]
  }

  ghost predicate DistinctKeys(q: seq<Key>) {
    forall i, j :: 0 <= i < j < |q| ==> q[i] != q[j]
  }

  /** Every signalled key has exactly one unprocessed entry. */
  ghost predicate QueuedOnce(s: State) {
    DistinctKeys(s.current + s.queue) && forall k :: k in s.ready <==> k in s.current + s.queue
  }

  ghost predicate Inv(s: State) {
    Consistent(s.index, s.flags) && Counted(s) && BlockedOnKeys(s) && QueuedOnce(s)
  }

  function Initial(): State {
    State(Index(map[], map[], map[], 0), map[], {}, map[ListKind := 0, ZsetKind := 0, StreamKind := 0], 0, {}, [], [])
  }

  lemma InitialInv()
    ensures Inv(Initial())
  {
    forall kind
      ensures OfKind(map[], kind) == {}
    {
    }
    var s := Initial();
    assert Consistent(s.index, s.flags);
    assert s.current + s.queue == [];
    forall kind: Kind
      ensures kind in s.count && s.count[kind] == 0
    {
      match kind {
        case ListKind =>
        case ZsetKind =>
        case StreamKind =>
      }
    }
  }

  // ---- transitions -----------------------------------------------------------------------------------------

  ghost function Block(s: State, c: Client, kind: Kind, keys: seq<Key>, flag: bool): State
    requires kind in s.count
  {
    s.(index := AddKeys(s.index, c, keys, flag), kinds := s.kinds[c := kind],
       flags := if flag then s.flags + {c} else s.flags - {c}, count := s.count[kind := s.count[kind] + 1], total := s.total + 1)
  }

  ghost function Unblock(s: State, c: Client): State
    requires c in s.kinds && s.kinds[c] in s.count
  {
    s.(index := Release(s.index, c, s.index.Table(c).Keys, c in s.flags), kinds := s.kinds - {c}, flags := s.flags - {c},
       count := s.count[s.kinds[c] := s.count[s.kinds[c]] - 1], total := s.total - 1)
  }

  /** A key was touched, or deleted; its object has (or had) the given type. */
  ghost function Signal(s: State, k: Key, t: ObjType, deleted: bool): State {
    var kind := BlockedType(t);
    if kind.None? || kind.value !in s.count || s.count[kind.value] == 0 then s
    else if k !in (if deleted then s.index.nokey.Keys else s.index.fifo.Keys) then s
    else if k in s.ready then s
    else s.(ready := s.ready + {k}, queue := s.queue + [k])
  }

  // ---- every transition keeps the invariant -------------------------------------------------------------------

  lemma OfKindAdds(kinds: map<Client, Kind>, c: Client, kind: Kind, other: Kind)
    requires c !in kinds
    ensures |OfKind(kinds[c := kind], other)| == |OfKind(kinds, other)| + if other == kind then 1 else 0
  {
    var a, b := OfKind(kinds, other), OfKind(kinds[c := kind], other);
    if other == kind {
      assert b == a + {c};
      assert c !in a;
    } else {
      assert b == a;
    }
  }

  lemma OfKindDrops(kinds: map<Client, Kind>, c: Client, other: Kind)
    requires c in kinds
    ensures |OfKind(kinds - {c}, other)| == |OfKind(kinds, other)| - if other == kinds[c] then 1 else 0
  {
    if other == kinds[c] {
      assert OfKind(kinds - {c}, other) == OfKind(kinds, other) - {c};
    } else {
      assert OfKind(kinds - {c}, other) == OfKind(kinds, other);
    }
  }

  lemma FlagsMatterForWaiters(x: Index, a: set<Client>, b: set<Client>)
    requires Consistent(x, a) && forall c :: c in x.tables && x.tables[c] != map[] ==> (c in a <==> c in b)
    ensures Consistent(x, b)
  {
    hide Flagged, DistinctNodes;
    forall k | k in x.fifo
      ensures Flagged(x.fifo[k], a) == Flagged(x.fifo[k], b)
    {
      forall n | n in x.fifo[k]
        ensures n.client in a <==> n.client in b
      {
        assert k in x.tables[n.client];
      }
      FlaggedBy(x.fifo[k], a, b);
    }
  }

  lemma {:induction false} AddKeysTable(x: Index, c: Client, keys: seq<Key>, flag: bool, d: Client)
    ensures AddKeys(x, c, keys, flag).Table(d).Keys == if d == c then x.Table(d).Keys + (set k | k in keys) else x.Table(d).Keys
  {
    if keys != [] {
      var rest := keys[..|keys| - 1];
      AddKeysTable(x, c, rest, flag, d);
      assert (set k | k in keys) == (set k | k in rest) + {keys[|keys| - 1]};
    }
  }

  lemma BlockKeepsInv(s: State, c: Client, kind: Kind, keys: seq<Key>, flag: bool)
    requires Inv(s) && c !in s.kinds && keys != []
    ensures Inv(Block(s, c, kind, keys, flag))
  {
    assert kind in s.count;
    hide *;
    var t := Block(s, c, kind, keys, flag);
    InvParts(s);
    BlockIndex(s, c, kind, keys, flag);
    BlockCounts(s, c, kind, keys, flag);
    BlockTables(s, c, kind, keys, flag);
    BlockQueue(s, c, kind, keys, flag);
    InvParts(t);
  }

  lemma InvParts(s: State)
    ensures Inv(s) <==> Consistent(s.index, s.flags) && Counted(s) && BlockedOnKeys(s) && QueuedOnce(s)
  {
  }

  lemma BlockIndex(s: State, c: Client, kind: Kind, keys: seq<Key>, flag: bool)
    requires Consistent(s.index, s.flags) && BlockedOnKeys(s) && kind in s.count && c !in s.kinds
    ensures Consistent(Block(s, c, kind, keys, flag).index, Block(s, c, kind, keys, flag).flags)
  {
    hide Consistent;
    var t := Block(s, c, kind, keys, flag);
    FlagsMatterForWaiters(s.index, s.flags, t.flags);
    AddKeysKeeps(s.index, c, keys, t.flags);
  }

  lemma BlockCounts(s: State, c: Client, kind: Kind, keys: seq<Key>, flag: bool)
    requires Counted(s) && c !in s.kinds
    ensures Counted(Block(s, c, kind, keys, flag))
  {
    hide OfKind, AddKeys;
    forall other
      ensures |OfKind(s.kinds[c := kind], other)| == |OfKind(s.kinds, other)| + if other == kind then 1 else 0
    {
      OfKindAdds(s.kinds, c, kind, other);
    }
  }

  lemma BlockTables(s: State, c: Client, kind: Kind, keys: seq<Key>, flag: bool)
    requires BlockedOnKeys(s) && kind in s.count && c !in s.kinds && keys != []
    ensures BlockedOnKeys(Block(s, c, kind, keys, flag))
  {
    hide AddKeys;
    var t := Block(s, c, kind, keys, flag);
    forall d
      ensures d in t.kinds <==> t.index.Table(d) != map[]
    {
      AddKeysTable(s.index, c, keys, flag, d);
      assert keys[0] in (set k | k in keys);
      assert d == c ==> keys[0] in t.index.Table(d);
      assert d != c && s.index.Table(d) == map[] ==> t.index.Table(d).Keys == {};
      assert d != c && s.index.Table(d) != map[] ==> exists k :: k in s.index.Table(d).Keys;
    }
  }

  lemma BlockQueue(s: State, c: Client, kind: Kind, keys: seq<Key>, flag: bool)
    requires QueuedOnce(s) && kind in s.count
    ensures QueuedOnce(Block(s, c, kind, keys, flag))
  {
  }

  lemma QueueUnchanged(s: State, t: State)
    requires QueuedOnce(s) && t.ready == s.ready && t.queue == s.queue && t.current == s.current
    ensures QueuedOnce(t)
  {
  }

  lemma UnblockKeepsInv(s: State, c: Client)
    requires Inv(s) && c in s.kinds
    ensures Inv(Unblock(s, c))
  {
    hide Consistent, QueuedOnce, OfKind;
    var t := Unblock(s, c);
    ReleaseKeeps(s.index, c, s.index.Table(c).Keys, s.flags);
    assert t.index.Table(c) == map[];
    FlagsMatterForWaiters(t.index, s.flags, t.flags);
    forall other
      ensures |OfKind(t.kinds, other)| == |OfKind(s.kinds, other)| - if other == s.kinds[c] then 1 else 0
    {
      OfKindDrops(s.kinds, c, other);
    }
    assert |t.kinds| == |s.kinds| - 1 by {
      assert t.kinds.Keys == s.kinds.Keys - {c};
    }
    forall d
      ensures d in t.kinds <==> t.index.Table(d) != map[]
    {
    }
    QueueUnchanged(s, t);
  }

  lemma SignalKeepsInv(s: State, k: Key, t: ObjType, deleted: bool)
    requires Inv(s)
    ensures Inv(Signal(s, k, t, deleted))
  {
    hide Consistent, OfKind;
    var u := Signal(s, k, t, deleted);
    assert u.current + u.queue == (s.current + s.queue) + if k in u.ready && k !in s.ready then [k] else [];
  }

  // ---- no wakeup is lost -----------------------------------------------------------------------------------------

  /** A client that waits on `k` for objects of this type, or for its deletion. */
  ghost predicate Awaits(s: State, c: Client, k: Key, t: ObjType, deleted: bool) {
    c in s.kinds && k in s.index.Table(c) && Some(s.kinds[c]) == BlockedType(t) && (deleted ==> c in s.flags)
  }

  lemma {:induction false} FlaggedSome(f: seq<Node>, flags: set<Client>, n: Node)
    requires n in f && n.client in flags
    ensures Flagged(f, flags) > 0
  {
    if f[|f| - 1] != n {
      FlaggedSome(f[..|f| - 1], flags, n);
    }
  }

  /** The quick returns never drop a key that a matching client waits on. */
  lemma SignalReachesWaiters(s: State, c: Client, k: Key, t: ObjType, deleted: bool)
    requires Inv(s) && Awaits(s, c, k, t, deleted)
    ensures k in Signal(s, k, t, deleted).ready
    ensures k in Signal(s, k, t, deleted).current + Signal(s, k, t, deleted).queue
  {
    hide Flagged, DistinctNodes;
    var kind := s.kinds[c];
    assert c in OfKind(s.kinds, kind);
    assert Node(s.index.Table(c)[k], c) in s.index.fifo[k];
    if deleted {
      FlaggedSome(s.index.fifo[k], s.flags, Node(s.index.Table(c)[k], c));
    }
    SignalKeepsInv(s, k, t, deleted);
  }

  /**
   * A client that wants to know about deletions is reached by the deletion of an object of another type
   * exactly when some client is blocked on that type, or the key is signalled already.
   */
  lemma DeletionReachesOtherKindsIff(s: State, c: Client, k: Key, t: ObjType)
    requires Inv(s) && c in s.flags && k in s.index.Table(c) && BlockedType(t).Some?
    ensures k in Signal(s, k, t, true).ready <==> k in s.ready || exists d :: d in s.kinds && Some(s.kinds[d]) == BlockedType(t)
  {
    hide Flagged, DistinctNodes;
    FlaggedSome(s.index.fifo[k], s.flags, Node(s.index.Table(c)[k], c));
    var kind := BlockedType(t).value;
    assert s.count[kind] == |OfKind(s.kinds, kind)|;
    if s.count[kind] != 0 {
      var d :| d in OfKind(s.kinds, kind);
      assert d in s.kinds && Some(s.kinds[d]) == BlockedType(t);
    } else {
      forall d | d in s.kinds
        ensures s.kinds[d] != kind
      {
        assert d !in OfKind(s.kinds, kind);
      }
    }
  }

  /** Whatever is signalled stays signalled, and nobody stops waiting because of a signal. */
  lemma SignalsOnlyAdd(s: State, k: Key, t: ObjType, deleted: bool)
    ensures var u := Signal(s, k, t, deleted);
      && s.ready <= u.ready <= s.ready + {k} && s.queue <= u.queue && u.current == s.current
      && u.index == s.index && u.kinds == s.kinds && u.flags == s.flags
  {
  }
}
