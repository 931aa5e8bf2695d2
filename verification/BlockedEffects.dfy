/** What blocking, unblocking, signalling and serving do to the waiters, said without their definitions. */
module BlockedEffects {
  import opened Blocking
  import opened BlockedState
  import opened BlockedServer
  import opened Serving
  import opened Text

  // ---- types --------------------------------------------------------------------------------------------------------

  /** A client of this kind waits for objects of this type. */
  predicate TypeFits(kind: Kind, t: ObjType) {
    (kind.ListKind? && t.ListObj?) || (kind.ZsetKind? && t.ZsetObj?) || (kind.StreamKind? && t.StreamObj?)
  }

  /** getBlockedTypeByType */
  lemma BlockedTypeIs(t: ObjType, kind: Kind)
    ensures BlockedType(t) == Some(kind) <==> TypeFits(kind, t)
  {
  }

  // ---- lists --------------------------------------------------------------------------------------------------------

  /** A list of waiters without those of one client. */
  ghost function OthersThan(f: seq<Node>, c: Client): seq<Node> {
    if f == [] then []
    else OthersThan(f[..|f| - 1], c) + if f[|f| - 1].client == c then [] else [f[|f| - 1]]
  }

  lemma {:induction false} OthersNone(f: seq<Node>, c: Client)
    requires forall n :: n in f ==> n.client != c
    ensures OthersThan(f, c) == f
  {
    if f != [] {
      OthersNone(f[..|f| - 1], c);
      assert f[|f| - 1] in f;
    }
  }

  lemma {:induction false} OthersConcat(a: seq<Node>, b: seq<Node>, c: Client)
    ensures OthersThan(a + b, c) == OthersThan(a, c) + OthersThan(b, c)
  {
    if b == [] {
      assert a + b == a;
    } else {
      var n := |b| - 1;
      assert (a + b)[..|a + b| - 1] == a + b[..n] && (a + b)[|a + b| - 1] == b[n];
      OthersConcat(a, b[..n], c);
    }
  }

  lemma OthersAt(f: seq<Node>, at: nat, c: Client)
    requires at < |f| && f[at].client == c && forall j :: 0 <= j < |f| && j != at ==> f[j].client != c
    ensures OthersThan(f, c) == f[..at] + f[at + 1..]
  {
    hide OthersThan;
    var a, b := f[..at], f[at + 1..];
    assert f == a + [f[at]] + b;
    OthersConcat(a + [f[at]], b, c);
    OthersConcat(a, [f[at]], c);
    OthersOfOne(f[at]);
    assert forall n :: n in a ==> n.client != c;
    assert forall n :: n in b ==> n.client != c;
    OthersNone(a, c);
    OthersNone(b, c);
  }

  lemma OthersOfOne(n: Node)
    ensures OthersThan([n], n.client) == []
  {
    assert [n][..0] == [];
  }

  lemma {:induction false} OthersAre(f: seq<Node>, c: Client, n: Node)
    ensures n in OthersThan(f, c) <==> n in f && n.client != c
  {
    if f != [] {
      OthersAre(f[..|f| - 1], c, n);
      assert f == f[..|f| - 1] + [f[|f| - 1]];
    }
  }

  // ---- unblocking -----------------------------------------------------------------------------------------------------

  lemma OwnNode(s: State, c: Client, k: Key) returns (at: nat)
    requires Inv(s) && k in s.index.Table(c)
    ensures var f := Waiters(s.index, k);
      && at < |f| && f[at] == Node(s.index.Table(c)[k], c) && (forall j :: 0 <= j < |f| && j != at ==> f[j].client != c)
      && c in s.kinds
  {
    hide QueuedOnce, Counted, Flagged, OfKind, DistinctNodes, Waiters;
    var f := Waiters(s.index, k);
    HasNode(s, c, k);
    at :| 0 <= at < |f| && f[at] == Node(s.index.Table(c)[k], c);
    forall j | 0 <= j < |f| && j != at ensures f[j].client != c {
      if j < at { WaitersDiffer(s, k, j, at); } else { WaitersDiffer(s, k, at, j); }
    }
  }

  lemma HasNode(s: State, c: Client, k: Key)
    requires Inv(s) && k in s.index.Table(c)
    ensures Node(s.index.Table(c)[k], c) in Waiters(s.index, k) && c in s.kinds
  {
    hide QueuedOnce, Counted, Flagged, OfKind, DistinctNodes;
  }

  lemma NoNode(s: State, c: Client, k: Key)
    requires Inv(s) && k !in s.index.Table(c)
    ensures forall n :: n in Waiters(s.index, k) ==> n.client != c
  {
    hide Inv, Waiters;
    forall n | n in Waiters(s.index, k) ensures n.client != c {
      WaiterIsBlocked(s, k, n);
    }
  }

  /** The client is gone from every list, the others keep their places; nothing is signalled. */
  ghost predicate LeftAll(s: State, t: State, c: Client) {
    && t.kinds == s.kinds - {c} && t.flags == s.flags - {c}
    && (forall k :: Waiters(t.index, k) == OthersThan(Waiters(s.index, k), c))
    && (forall d :: t.index.Table(d) == if d == c then map[] else s.index.Table(d))
    && t.index.next == s.index.next && t.ready == s.ready && t.queue == s.queue && t.current == s.current
  }

  /** unblockClient for a client blocked on keys. */
  lemma UnblockDoes(s: State, c: Client)
    requires Inv(s) && c in s.kinds
    ensures s.kinds[c] in s.count && LeftAll(s, Unblock(s, c), c)
  {
    hide Inv, Unblock, OthersThan, Waiters;
    KindCounted(s, s.kinds[c]);
    UnblockFields(s, c);
    forall k ensures Waiters(Unblock(s, c).index, k) == OthersThan(Waiters(s.index, k), c) {
      UnblockedKey(s, c, k);
    }
  }

  lemma UnblockFields(s: State, c: Client)
    requires c in s.kinds && s.kinds[c] in s.count
    ensures var t := Unblock(s, c);
      && t.kinds == s.kinds - {c} && t.flags == s.flags - {c}
      && (forall d :: t.index.Table(d) == if d == c then map[] else s.index.Table(d))
      && t.index.next == s.index.next && t.ready == s.ready && t.queue == s.queue && t.current == s.current
  {
    hide ReleasedLists, ReleasedWakeups;
    assert s.index.Table(c) - s.index.Table(c).Keys == map[];
  }

  lemma UnblockedKey(s: State, c: Client, k: Key)
    requires Inv(s) && c in s.kinds && s.kinds[c] in s.count
    ensures Waiters(Unblock(s, c).index, k) == OthersThan(Waiters(s.index, k), c)
  {
    hide Inv, OthersThan;
    if k in s.index.Table(c) {
      var at := OwnNode(s, c, k);
      UnblockedList(s, c, k, at);
      OthersAt(Waiters(s.index, k), at, c);
    } else {
      NoNode(s, c, k);
      OthersNone(Waiters(s.index, k), c);
    }
  }

  // ---- blocking -------------------------------------------------------------------------------------------------------

  /** The client has joined the lists of these keys, at the end, and no other. */
  ghost predicate Joined(x: Index, y: Index, c: Client, keys: seq<Key>) {
    && y.Table(c).Keys == (set k | k in keys) && (forall d :: d != c ==> y.Table(d) == x.Table(d))
    && (forall k :: k in y.Table(c) ==> x.next <= y.Table(c)[k] < y.next)
    && (forall k :: Waiters(y, k) == Waiters(x, k) + NewNode(y, c, k))
    && x.next <= y.next
  }

  /** The node of the client in the list of a key, if it waits on it. */
  ghost function NewNode(y: Index, c: Client, k: Key): seq<Node> {
    if k in y.Table(c) then [Node(y.Table(c)[k], c)] else []
  }

  lemma {:induction false} AddKeysDo(x: Index, c: Client, keys: seq<Key>, flag: bool)
    requires x.Table(c) == map[]
    ensures Joined(x, AddKeys(x, c, keys, flag), c, keys)
  {
    if keys == [] {
      assert (set k | k in keys) == {};
    } else {
      var n := |keys| - 1;
      AddKeysDo(x, c, keys[..n], flag);
      assert (set k | k in keys) == (set k | k in keys[..n]) + {keys[n]};
      AddOne(x, AddKeys(x, c, keys[..n], flag), c, keys[..n], keys[n], flag);
      assert keys == keys[..n] + [keys[n]];
    }
  }

  lemma AddOne(x: Index, y: Index, c: Client, keys: seq<Key>, k: Key, flag: bool)
    requires Joined(x, y, c, keys)
    ensures Joined(x, AddKey(y, c, k, flag), c, keys + [k])
  {
    var z := AddKey(y, c, k, flag);
    assert (set j | j in keys + [k]) == (set j | j in keys) + {k};
    AddedTables(y, c, k, flag);
    hide AddKey, Waiters;
    forall j ensures Waiters(z, j) == Waiters(x, j) + NewNode(z, c, j) {
      AddedWaiters(x, y, c, k, flag, j);
    }
  }

  lemma AddedTables(y: Index, c: Client, k: Key, flag: bool)
    ensures var z := AddKey(y, c, k, flag);
      && (forall d :: d != c ==> z.Table(d) == y.Table(d))
      && z.Table(c) == (if k in y.Table(c) then y.Table(c) else y.Table(c)[k := y.next])
      && z.next == if k in y.Table(c) then y.next else y.next + 1
  {
  }

  lemma AddedWaiters(x: Index, y: Index, c: Client, k: Key, flag: bool, j: Key)
    requires Waiters(y, j) == Waiters(x, j) + NewNode(y, c, j)
    ensures Waiters(AddKey(y, c, k, flag), j) == Waiters(x, j) + NewNode(AddKey(y, c, k, flag), c, j)
  {
    if j == k && k !in y.Table(c) {
      assert Waiters(y, k) == Waiters(x, k) + [] == Waiters(x, k);
    }
  }

  /** blockForKeys: the client stands at the end of the list of each key once, whatever keys are repeated. */
  lemma BlockDoes(s: State, c: Client, kind: Kind, keys: seq<Key>, flag: bool)
    requires Inv(s) && c !in s.kinds
    ensures kind in s.count
    ensures var t := Block(s, c, kind, keys, flag);
      && t.kinds == s.kinds[c := kind] && t.flags == (if flag then s.flags + {c} else s.flags - {c})
      && Joined(s.index, t.index, c, keys)
      && t.ready == s.ready && t.queue == s.queue && t.current == s.current
  {
    KindCounted(s, kind);
    assert s.index.Table(c) == map[];
    AddKeysDo(s.index, c, keys, flag);
    hide Inv, Joined, AddKeys;
  }

  // ---- signalling -----------------------------------------------------------------------------------------------------

  /** Some client that is not away is blocked for objects of this type, and one that is not away waits
      on the key; when the key was deleted, one that wants to know. */
  ghost predicate Wanted(s: State, away: set<Client>, k: Key, t: ObjType, deleted: bool) {
    && (exists d :: d in s.kinds && d !in away && TypeFits(s.kinds[d], t))
    && (exists n :: n in Waiters(s.index, k) && n.client !in away && (deleted ==> n.client in s.flags))
  }

  lemma {:induction false} FlaggedNode(f: seq<Node>, flags: set<Client>) returns (n: Node)
    requires Flagged(f, flags) > 0
    ensures n in f && n.client in flags
  {
    n := f[|f| - 1];
    if n.client !in flags {
      n := FlaggedNode(f[..|f| - 1], flags);
    }
  }

  lemma CountedIff(s: State, t: ObjType)
    requires Inv(s)
    ensures (exists d :: d in s.kinds && d !in {} && TypeFits(s.kinds[d], t)) <==>
      var kind := BlockedType(t); kind.Some? && kind.value in s.count && s.count[kind.value] != 0
  {
    hide Consistent, QueuedOnce, BlockedOnKeys;
    var kind := BlockedType(t);
    if d :| d in s.kinds && TypeFits(s.kinds[d], t) {
      BlockedTypeIs(t, s.kinds[d]);
      assert d in OfKind(s.kinds, kind.value);
    }
    if kind.Some? && s.count[kind.value] != 0 {
      var d :| d in OfKind(s.kinds, kind.value);
      BlockedTypeIs(t, s.kinds[d]);
      assert d in s.kinds && TypeFits(s.kinds[d], t);
    }
  }

  lemma WaitedIff(s: State, k: Key, deleted: bool)
    requires Inv(s)
    ensures (exists n :: n in Waiters(s.index, k) && n.client !in {} && (deleted ==> n.client in s.flags)) <==>
      k in (if deleted then s.index.nokey.Keys else s.index.fifo.Keys)
  {
    hide QueuedOnce, Counted, BlockedOnKeys, Flagged, DistinctNodes;
    var f := Waiters(s.index, k);
    if deleted {
      if n :| n in f && n.client in s.flags {
        FlaggedSome(f, s.flags, n);
      }
      if k in s.index.nokey {
        var n := FlaggedNode(f, s.flags);
        assert n in f && n.client in s.flags;
      }
    } else if k in s.index.fifo {
      assert f[0] in f;
    }
  }

  /** signalKeyAsReadyLogic: the key is queued, once, if and only if it is wanted. */
  lemma SignalDoes(s: State, k: Key, t: ObjType, deleted: bool)
    requires Inv(s)
    ensures Signal(s, k, t, deleted) ==
      if Wanted(s, {}, k, t, deleted) && k !in s.ready then s.(ready := s.ready + {k}, queue := s.queue + [k]) else s
  {
    hide Inv, BlockedType, TypeFits, Waiters;
    CountedIff(s, t);
    WaitedIff(s, k, deleted);
  }

  /** One of the signals is for this key, and it is wanted. */
  ghost predicate SignalWanted(s: State, away: set<Client>, es: seq<Signalled>, k: Key) {
    exists i :: 0 <= i < |es| && es[i].key == k && Wanted(s, away, k, es[i].t, es[i].deleted)
  }

  /** A list of signals: every wanted key is queued, in order. */
  lemma {:induction false} SignalsDo(s: State, es: seq<Signalled>)
    requires Inv(s)
    ensures var t := Signals(s, es);
      && t == s.(ready := t.ready, queue := t.queue) && s.queue <= t.queue
      && forall k :: k in t.ready <==> k in s.ready || SignalWanted(s, {}, es, k)
  {
    hide Inv, TypeFits, Waiters, SignalWanted;
    if es == [] {
      forall k ensures !SignalWanted(s, {}, es, k) { NoSignal(s, k); }
    } else {
      var n, e := |es| - 1, es[|es| - 1];
      var u := Signals(s, es[..n]);
      SignalsDo(s, es[..n]);
      SignalsKeepInv(s, es[..n]);
      SignalDoes(u, e.key, e.t, e.deleted);
      assert Wanted(u, {}, e.key, e.t, e.deleted) <==> Wanted(s, {}, e.key, e.t, e.deleted);
      forall k ensures k in Signals(s, es).ready <==> k in s.ready || SignalWanted(s, {}, es, k) {
        SignalledNow(s, es, k);
      }
    }
  }

  lemma NoSignal(s: State, k: Key)
    ensures !SignalWanted(s, {}, [], k)
  {
  }

  lemma SignalledNow(s: State, es: seq<Signalled>, k: Key)
    requires es != []
    ensures var n, e := |es| - 1, es[|es| - 1];
      SignalWanted(s, {}, es, k) <==> SignalWanted(s, {}, es[..n], k) || (e.key == k && Wanted(s, {}, k, e.t, e.deleted))
  {
    hide Wanted;
    var front := es[..|es| - 1];
    assert forall i :: 0 <= i < |front| ==> front[i] == es[i];
  }

  // ---- serving --------------------------------------------------------------------------------------------------------

  /** The keys a client blocks on again. */
  function AgainKeys(out: Outcome): seq<Key> {
    if out.again.Some? then [out.again.value.first] + out.again.value.more else []
  }

  /**
   * The client has left all its keys and its command has run again, as `out` says: the signals of the
   * command reach those still waiting, and if it blocks, the client stands at the end of its new lists.
   */
  ghost predicate RanAgain(s: State, c: Client, out: Outcome, t: State) {
    && t.kinds == (if out.again.Some? then (s.kinds - {c})[c := out.again.value.kind] else s.kinds - {c})
    && t.flags == (if out.again.Some? && out.again.value.flag then s.flags + {c} else s.flags - {c})
    && (forall d :: d != c ==> t.index.Table(d) == s.index.Table(d))
    && t.index.Table(c).Keys == (set k | k in AgainKeys(out))
    && (forall k :: k in t.index.Table(c) ==> s.index.next <= t.index.Table(c)[k] < t.index.next)
    && (forall k :: Waiters(t.index, k) == OthersThan(Waiters(s.index, k), c) + NewNode(t.index, c, k))
    && s.index.next <= t.index.next && t.current == s.current && s.queue <= t.queue
    && (forall k :: k in t.ready <==> k in s.ready || SignalWanted(s, {c}, out.signals, k))
  }

  lemma WantedByOthers(s: State, u: State, c: Client, k: Key, t: ObjType, deleted: bool)
    requires LeftAll(s, u, c)
    ensures Wanted(u, {}, k, t, deleted) <==> Wanted(s, {c}, k, t, deleted)
  {
    hide TypeFits, OthersThan, Waiters;
    var f, g := Waiters(s.index, k), Waiters(u.index, k);
    forall n ensures n in g <==> n in f && n.client != c {
      OthersAre(f, c, n);
    }
    if d :| d in s.kinds && d != c && TypeFits(s.kinds[d], t) {
      assert d in u.kinds && d !in {} && TypeFits(u.kinds[d], t);
    }
    if d :| d in u.kinds && TypeFits(u.kinds[d], t) {
      assert d in s.kinds && d !in {c} && TypeFits(s.kinds[d], t);
    }
  }

  lemma SignalsByOthers(s: State, u: State, c: Client, es: seq<Signalled>, k: Key)
    requires LeftAll(s, u, c)
    ensures SignalWanted(u, {}, es, k) <==> SignalWanted(s, {c}, es, k)
  {
    hide LeftAll, Wanted;
    forall i | 0 <= i < |es| ensures Wanted(u, {}, k, es[i].t, es[i].deleted) <==> Wanted(s, {c}, k, es[i].t, es[i].deleted) {
      WantedByOthers(s, u, c, k, es[i].t, es[i].deleted);
    }
  }

  /** Unblocked, signals given: what the command has done so far. */
  lemma ServedSoFar(s: State, c: Client, out: Outcome)
    requires Inv(s) && c in s.kinds
    ensures s.kinds[c] in s.count
    ensures var v := Signals(Unblock(s, c), out.signals);
      && Inv(v) && LeftAll(s, v.(ready := s.ready, queue := s.queue), c) && s.queue <= v.queue
      && forall k :: k in v.ready <==> k in s.ready || SignalWanted(s, {c}, out.signals, k)
  {
    hide *;
    UnblockDoes(s, c);
    UnblockKeepsInv(s, c);
    var u := Unblock(s, c);
    SignalsDo(u, out.signals);
    SignalsKeepInv(u, out.signals);
    LeftParts(s, u, c, Signals(u, out.signals));
    forall k ensures SignalWanted(u, {}, out.signals, k) <==> SignalWanted(s, {c}, out.signals, k) {
      SignalsByOthers(s, u, c, out.signals, k);
    }
  }

  lemma LeftParts(s: State, u: State, c: Client, v: State)
    requires LeftAll(s, u, c) && v == u.(ready := v.ready, queue := v.queue)
    ensures LeftAll(s, v.(ready := s.ready, queue := s.queue), c) && u.ready == s.ready && u.queue == s.queue
  {
    hide OthersThan;
  }

  /** unblockClientOnKey. */
  lemma ServeDoes(s: State, c: Client, out: Outcome)
    requires Inv(s) && c in s.kinds
    ensures RanAgain(s, c, out, Serve(s, c, out))
  {
    hide *;
    ServedSoFar(s, c, out);
    ServeIs(s, c, out);
    var v := Signals(Unblock(s, c), out.signals);
    LeftIsFree(s, v.(ready := s.ready, queue := s.queue), c);
    AgainIs(out);
    if out.again.Some? {
      var w := out.again.value;
      BlockDoes(v, c, w.kind, AgainKeys(out), w.flag);
      AgainJoins(s, c, out, v, Serve(s, c, out));
    } else {
      AgainNot(s, c, out, v);
    }
  }

  lemma ServeIs(s: State, c: Client, out: Outcome)
    requires Inv(s) && c in s.kinds && s.kinds[c] in s.count && Inv(Signals(Unblock(s, c), out.signals))
    ensures out.again.None? ==> Serve(s, c, out) == Signals(Unblock(s, c), out.signals)
    ensures out.again.Some? ==> var w := out.again.value;
      w.kind in Signals(Unblock(s, c), out.signals).count
      && Serve(s, c, out) == Block(Signals(Unblock(s, c), out.signals), c, w.kind, AgainKeys(out), w.flag)
  {
    hide Inv, Signals, Unblock, Block;
    if out.again.Some? { KindCounted(Signals(Unblock(s, c), out.signals), out.again.value.kind); }
  }

  lemma AgainIs(out: Outcome)
    ensures out.again.None? ==> AgainKeys(out) == []
  {
  }

  lemma LeftIsFree(s: State, v: State, c: Client)
    requires LeftAll(s, v, c)
    ensures c !in v.kinds && v.index.Table(c) == map[]
  {
    hide OthersThan, Waiters;
  }

  lemma AgainNot(s: State, c: Client, out: Outcome, v: State)
    requires LeftAll(s, v.(ready := s.ready, queue := s.queue), c) && s.queue <= v.queue && out.again.None? && AgainKeys(out) == []
    requires forall k :: k in v.ready <==> k in s.ready || SignalWanted(s, {c}, out.signals, k)
    ensures RanAgain(s, c, out, v)
  {
    hide OthersThan, Waiters, SignalWanted;
    assert (set k | k in AgainKeys(out)) == {};
    assert v.index.Table(c) == map[];
  }

  lemma AgainJoins(s: State, c: Client, out: Outcome, v: State, t: State)
    requires LeftAll(s, v.(ready := s.ready, queue := s.queue), c) && s.queue <= v.queue && out.again.Some?
    requires forall k :: k in v.ready <==> k in s.ready || SignalWanted(s, {c}, out.signals, k)
    requires var w := out.again.value;
      && t.kinds == v.kinds[c := w.kind] && t.flags == (if w.flag then v.flags + {c} else v.flags - {c})
      && Joined(v.index, t.index, c, AgainKeys(out)) && t.ready == v.ready && t.queue == v.queue && t.current == v.current
    ensures RanAgain(s, c, out, t)
  {
    hide OthersThan, Waiters, SignalWanted, NewNode, AgainKeys;
  }
}
