/** Serving the clients of ready keys: what one pass does, and the loops with the list iterator. */
module Serving {
  import opened Blocking
  import opened BlockedState
  import opened BlockedServer
  import opened Text
  import opened Seqs

  /** A blocking command that blocks once more, on at least one key. */
  datatype Wait = Wait(kind: Kind, first: Key, more: seq<Key>, flag: bool)

  datatype Signalled = Signalled(key: Key, t: ObjType, deleted: bool)

  /** What running a served client's command does: keys it signals, the keyspace it leaves, whether it blocks again. */
  datatype Outcome = Outcome(signals: seq<Signalled>, keyspace: map<Key, ObjType>, again: Option<Wait>)

  /** Any sequence of outcomes: the n-th served command behaves like `oracle(n)`. */
  type Oracle = nat -> Outcome

  /** Where a pass has got to. */
  datatype Progress = Progress(s: State, keyspace: map<Key, ObjType>, clock: nat)

  // ---- serving one client --------------------------------------------------------------------------------------

  ghost function Signals(s: State, es: seq<Signalled>): State {
    if es == [] then s else var e := es[|es| - 1]; Signal(Signals(s, es[..|es| - 1]), e.key, e.t, e.deleted)
  }

  ghost function Again(s: State, c: Client, again: Option<Wait>): State
    requires again.Some? ==> again.value.kind in s.count
  {
    if again.None? then s else Block(s, c, again.value.kind, [again.value.first] + again.value.more, again.value.flag)
  }

  ghost function Serve(s: State, c: Client, out: Outcome): State
    requires Inv(s) && c in s.kinds
  {
    UnblockKeepsInv(s, c);
    SignalsKeepInv(Unblock(s, c), out.signals);
    Again(Signals(Unblock(s, c), out.signals), c, out.again)
  }

  lemma {:induction false} SignalsKeepInv(s: State, es: seq<Signalled>)
    requires Inv(s)
    ensures Inv(Signals(s, es))
    ensures Signals(s, es).index == s.index && Signals(s, es).kinds == s.kinds && Signals(s, es).count == s.count
    ensures Signals(s, es).current == s.current
  {
    if es != [] {
      hide Inv;
      SignalsKeepInv(s, es[..|es| - 1]);
      var e := es[|es| - 1];
      SignalKeepsInv(Signals(s, es[..|es| - 1]), e.key, e.t, e.deleted);
      SignalsOnlyAdd(Signals(s, es[..|es| - 1]), e.key, e.t, e.deleted);
    }
  }

  lemma ServeKeepsInv(s: State, c: Client, out: Outcome)
    requires Inv(s) && c in s.kinds
    ensures Inv(Serve(s, c, out)) && Serve(s, c, out).current == s.current
  {
    hide Inv, Signals;
    KindCounted(s, s.kinds[c]);
    UnblockKeepsInv(s, c);
    var u := Unblock(s, c);
    SignalsKeepInv(u, out.signals);
    if out.again.Some? {
      var w := out.again.value;
      BlockKeepsInv(Signals(u, out.signals), c, w.kind, [w.first] + w.more, w.flag);
    }
  }

  // ---- what serving does to a list -----------------------------------------------------------------------------

  lemma {:induction false} UnlinkAt(f: seq<Node>, at: nat)
    requires DistinctNodes(f) && at < |f|
    ensures Unlink(f, f[at].id) == f[..at] + f[at + 1..]
  {
    var last := |f| - 1;
    if at == last {
      assert f[at + 1..] == [];
    } else {
      assert f[last].id != f[at].id;
      UnlinkAt(f[..last], at);
      assert f[..at] + f[at + 1..] == (f[..last][..at] + f[..last][at + 1..]) + [f[last]];
    }
  }

  /** The nodes blocking again adds to the list of `key`. */
  ghost function Added(x: Index, c: Client, keys: seq<Key>, flag: bool, key: Key): seq<Node> {
    if keys == [] then []
    else
      var y, k := AddKeys(x, c, keys[..|keys| - 1], flag), keys[|keys| - 1];
      Added(x, c, keys[..|keys| - 1], flag, key) + if k == key && k !in y.Table(c) then [Node(y.next, c)] else []
  }

  lemma {:induction false} AddKeysAppends(x: Index, c: Client, keys: seq<Key>, flag: bool, key: Key)
    ensures Waiters(AddKeys(x, c, keys, flag), key) == Waiters(x, key) + Added(x, c, keys, flag, key)
  {
    if keys != [] {
      AddKeysAppends(x, c, keys[..|keys| - 1], flag, key);
    }
  }

  /** The served client's node leaves the list; its new node, if any, goes to the end. */
  lemma ServedList(s: State, c: Client, out: Outcome, key: Key, at: nat) returns (new_: seq<Node>)
    requires Inv(s) && c in s.kinds && at < |Waiters(s.index, key)| && Waiters(s.index, key)[at].client == c
    ensures Waiters(Serve(s, c, out).index, key) == Waiters(s.index, key)[..at] + Waiters(s.index, key)[at + 1..] + new_
  {
    hide AddKeys, Added, Signals, Inv;
    KindCounted(s, s.kinds[c]);
    UnblockKeepsInv(s, c);
    var u := Unblock(s, c);
    SignalsKeepInv(u, out.signals);
    UnblockedList(s, c, key, at);
    if out.again.None? {
      new_ := [];
    } else {
      var w := out.again.value;
      new_ := Added(u.index, c, [w.first] + w.more, w.flag, key);
      AddKeysAppends(u.index, c, [w.first] + w.more, w.flag, key);
    }
  }

  lemma UnblockedList(s: State, c: Client, key: Key, at: nat)
    requires Inv(s) && c in s.kinds && at < |Waiters(s.index, key)| && Waiters(s.index, key)[at].client == c
    ensures Waiters(Unblock(s, c).index, key) == Waiters(s.index, key)[..at] + Waiters(s.index, key)[at + 1..]
  {
    hide QueuedOnce, Counted, Flagged, Unlink, OfKind;
    var f := s.index.fifo[key];
    assert f[at] in f;
    UnlinkAt(f, at);
  }

  // ---- one pass over a key ----------------------------------------------------------------------------------------

  /** Whether a waiter is woken: the key now holds its type, or it wants to know that it does not. */
  predicate Wakes(kinds: map<Client, Kind>, flags: set<Client>, keyspace: map<Key, ObjType>, key: Key, c: Client)
    requires c in kinds
  {
    (key in keyspace && Some(kinds[c]) == BlockedType(keyspace[key])) || c in flags
  }

  /** The nodes are waiters of the key, in list order and without repetition. */
  ghost predicate AllWaiting(s: State, key: Key, nodes: seq<Node>) {
    DistinctNodes(nodes) && forall n :: n in nodes ==> n in Waiters(s.index, key)
  }

  ghost function Visit(p: Progress, key: Key, n: Node, oracle: Oracle): Progress
    requires Inv(p.s) && n in Waiters(p.s.index, key)
  {
    WaiterIsBlocked(p.s, key, n);
    if Wakes(p.s.kinds, p.s.flags, p.keyspace, key, n.client)
    then Progress(Serve(p.s, n.client, oracle(p.clock)), oracle(p.clock).keyspace, p.clock + 1)
    else p
  }

  /** A pass: the given waiters one after the other, each visited once. */
  ghost function Pass(p: Progress, key: Key, nodes: seq<Node>, oracle: Oracle): Progress
    requires Inv(p.s) && AllWaiting(p.s, key, nodes)
    decreases |nodes|
  {
    if nodes == [] then p
    else
      VisitKeeps(p, key, nodes[0], oracle);
      OthersStay(p, key, nodes, oracle);
      Pass(Visit(p, key, nodes[0], oracle), key, nodes[1..], oracle)
  }

  lemma WaiterIsBlocked(s: State, key: Key, n: Node)
    requires Inv(s) && n in Waiters(s.index, key)
    ensures n.client in s.kinds && key in s.index.Table(n.client) && s.index.Table(n.client)[key] == n.id
  {
    hide QueuedOnce, Counted, Flagged, OfKind, DistinctNodes;
  }

  lemma VisitKeeps(p: Progress, key: Key, n: Node, oracle: Oracle)
    requires Inv(p.s) && n in Waiters(p.s.index, key)
    ensures Inv(Visit(p, key, n, oracle).s) && Visit(p, key, n, oracle).s.current == p.s.current
  {
    hide Inv, Serve;
    WaiterIsBlocked(p.s, key, n);
    ServeKeepsInv(p.s, n.client, oracle(p.clock));
  }

  /** The list after a visit: the node keeps its place, or leaves it and nodes are added at the end. */
  lemma VisitedList(p: Progress, key: Key, at: nat, oracle: Oracle) returns (new_: seq<Node>)
    requires Inv(p.s) && at < |Waiters(p.s.index, key)|
    ensures var f, n := Waiters(p.s.index, key), Waiters(p.s.index, key)[at];
      var g := Waiters(Visit(p, key, n, oracle).s.index, key);
      g == (if Wakes(p.s.kinds, p.s.flags, p.keyspace, key, (WaiterIsBlocked(p.s, key, n); n.client)) then f[..at] else f[..at + 1]) + f[at + 1..] + new_
  {
    hide Inv, Serve, Waiters;
    var n := Waiters(p.s.index, key)[at];
    WaiterIsBlocked(p.s, key, n);
    if Wakes(p.s.kinds, p.s.flags, p.keyspace, key, n.client) {
      new_ := ServedList(p.s, n.client, oracle(p.clock), key, at);
    } else {
      new_ := [];
      Whole(Waiters(p.s.index, key), at + 1);
    }
  }

  lemma Whole(f: seq<Node>, i: nat)
    requires i <= |f|
    ensures f == f[..i] + f[i..] + []
  {
  }

  lemma OthersStay(p: Progress, key: Key, nodes: seq<Node>, oracle: Oracle)
    requires Inv(p.s) && AllWaiting(p.s, key, nodes) && nodes != []
    ensures AllWaiting(Visit(p, key, nodes[0], oracle).s, key, nodes[1..])
  {
    hide Inv, Visit, Waiters;
    var f := Waiters(p.s.index, key);
    assert nodes[0] in nodes;
    var at :| 0 <= at < |f| && f[at] == nodes[0];
    var new_ := VisitedList(p, key, at, oracle);
    var g := Waiters(Visit(p, key, nodes[0], oracle).s.index, key);
    forall n | n in nodes[1..]
      ensures n in g
    {
      var i :| 1 <= i < |nodes| && nodes[i] == n;
      assert n in nodes && n.id != nodes[0].id;
      var j :| 0 <= j < |f| && f[j] == n;
      assert j != at;
      if j < at {
        assert f[..at][j] == n;
        assert f[..at + 1][j] == n;
      } else {
        assert f[at + 1..][j - at - 1] == n;
      }
    }
  }

  // ---- the loops of the source ------------------------------------------------------------------------------------

  /** unblockClientOnKey: the client leaves all its keys and its command runs again. */
  method UnblockClientOnKey(srv: Server, c: Client, key: Key, out: Outcome)
    requires Inv(srv.St()) && key in srv.Table(c) && c in srv.kinds
    modifies srv
    ensures srv.St() == Serve(old(srv.St()), c, out) && Inv(srv.St())
  {
    hide Inv, Block, Signal, Unblock;
    ghost var s := srv.St();
    ServeKeepsInv(s, c, out);
    KindCounted(s, s.kinds[c]);
    srv.LeaveAllKeys(c, key);
    ghost var u := srv.St();
    for i := 0 to |out.signals|
      invariant Inv(srv.St()) && srv.St() == Signals(u, out.signals[..i])
    {
      srv.SignalKeyAsReady(out.signals[i].key, out.signals[i].t, out.signals[i].deleted);
      assert out.signals[..i + 1][..i] == out.signals[..i];
    }
    assert out.signals[..|out.signals|] == out.signals;
    SignalsKeepInv(u, out.signals);
    if out.again.Some? {
      NotBlocked(s, c);
      srv.BlockForKeys(c, out.again.value.kind, [out.again.value.first] + out.again.value.more, out.again.value.flag);
    }
  }

  lemma NotBlocked(s: State, c: Client)
    requires c in s.kinds && s.kinds[c] in s.count
    ensures c !in Unblock(s, c).kinds
  {
  }

  /** The position of the node an iterator points to. */
  function Find(f: seq<Node>, id: nat): (i: nat)
    requires exists n :: n in f && n.id == id
    ensures i < |f| && f[i].id == id
  {
    if f[0].id == id then 0 else
      assert exists n :: n in f[1..] && n.id == id by {
        var n :| n in f && n.id == id;
        var j :| 0 <= j < |f| && f[j] == n;
        assert f[1..][j - 1] == n;
      }
      1 + Find(f[1..], id)
  }

  lemma FindUnique(f: seq<Node>, at: nat)
    requires DistinctNodes(f) && at < |f|
    ensures f[at] in f && Find(f, f[at].id) == at
  {
    assert f[at] in f;
  }

  /**
   * The invariant of the loop: what is left of the initial waiters stands together in the list, behind
   * those that were visited and stayed and before those that joined; the iterator points to the first of
   * them, and never to a node that has left the list.
   */
  ghost predicate Iterating(f: seq<Node>, kept: seq<Node>, rest: seq<Node>, joined: seq<Node>, next: Option<nat>) {
    && f == kept + rest + joined
    && (rest != [] ==> next == Some(rest[0].id))
    && (next.Some? ==> exists n :: n in f && n.id == next.value)
  }

  lemma IteratorStep(f: seq<Node>, kept: seq<Node>, rest: seq<Node>, joined: seq<Node>, next: Option<nat>, stays: bool, new_: seq<Node>)
    requires Iterating(f, kept, rest, joined, next) && rest != [] && DistinctNodes(f)
    ensures next.Some? && |kept| < |f| && f[|kept|] == rest[0] && Find(f, next.value) == |kept|
    ensures var at := |kept|;
      Iterating((if stays then f[..at + 1] else f[..at]) + f[at + 1..] + new_, if stays then kept + [rest[0]] else kept,
        rest[1..], joined + new_, if at + 1 < |f| then Some(f[at + 1].id) else None)
  {
    var at := |kept|;
    Cut(kept, rest, joined);
    FindUnique(f, at);
    var keep := if stays then kept + [rest[0]] else kept;
    Regroup(keep, rest[1..], joined, new_);
    var g := keep + rest[1..] + (joined + new_);
    assert g == (if stays then f[..at + 1] else f[..at]) + f[at + 1..] + new_;
    if at + 1 < |f| {
      First(keep, f[at + 1..], new_);
    }
    assert rest[1..] != [] ==> f[at + 1] == rest[1];
  }

  lemma Cut(kept: seq<Node>, rest: seq<Node>, joined: seq<Node>)
    requires rest != []
    ensures var f, at := kept + rest + joined, |kept|;
      f[at] == rest[0] && f[..at] == kept && f[..at + 1] == kept + [rest[0]] && f[at + 1..] == rest[1..] + joined
  {
  }

  lemma First(a: seq<Node>, b: seq<Node>, c: seq<Node>)
    requires b != []
    ensures b[0] in a + b + c
  {
    assert (a + b + c)[|a|] == b[0];
  }

  lemma IteratorStart(initial: seq<Node>)
    requires initial != []
    ensures Iterating(initial, [], initial, [], Some(initial[0].id))
  {
    assert initial[0] in initial;
  }

  lemma IteratorPoints(f: seq<Node>, kept: seq<Node>, rest: seq<Node>, joined: seq<Node>, next: Option<nat>)
    requires Iterating(f, kept, rest, joined, next)
    ensures next.None? ==> rest == []
    ensures next.Some? ==> f != [] && exists n :: n in f && n.id == next.value
  {
  }

  /** One turn of the loop as the iterator sees it. */
  lemma VisitedShape(p: Progress, key: Key, kept: seq<Node>, rest: seq<Node>, joined: seq<Node>, next: Option<nat>, oracle: Oracle)
    returns (new_: seq<Node>, stays: bool)
    requires Inv(p.s) && Iterating(Waiters(p.s.index, key), kept, rest, joined, next) && rest != [] && AllWaiting(p.s, key, rest)
    ensures var f, at := Waiters(p.s.index, key), |kept|;
      && next.Some? && at < |f| && f[at] == rest[0] && f[at] in f && Find(f, next.value) == at
      && Iterating(Waiters(Visit(p, key, rest[0], oracle).s.index, key), if stays then kept + [rest[0]] else kept,
           rest[1..], joined + new_, if at + 1 < |f| then Some(f[at + 1].id) else None)
    ensures Inv(Visit(p, key, rest[0], oracle).s) && AllWaiting(Visit(p, key, rest[0], oracle).s, key, rest[1..])
    ensures Pass(p, key, rest, oracle) == Pass(Visit(p, key, rest[0], oracle), key, rest[1..], oracle)
  {
    hide Inv, Visit, DistinctNodes, Waiters, Find, Iterating, AllWaiting;
    var f := Waiters(p.s.index, key);
    ListOf(p.s, key);
    IteratorStep(f, kept, rest, joined, next, true, []);
    new_ := VisitedList(p, key, |kept|, oracle);
    WaiterIsBlocked(p.s, key, rest[0]);
    stays := !Wakes(p.s.kinds, p.s.flags, p.keyspace, key, rest[0].client);
    IteratorStep(f, kept, rest, joined, next, stays, new_);
    VisitKeeps(p, key, rest[0], oracle);
    OthersStay(p, key, rest, oracle);
  }

  /** A non-empty list of waiters is in the dictionary, and its nodes differ. */
  lemma ListOf(s: State, key: Key)
    requires Inv(s)
    ensures DistinctNodes(Waiters(s.index, key))
    ensures key in s.index.fifo <==> Waiters(s.index, key) != []
    ensures key in s.index.fifo ==> Waiters(s.index, key) == s.index.fifo[key]
    ensures AllWaiting(s, key, Waiters(s.index, key))
  {
    hide Flagged, OfKind, QueuedOnce, Counted;
  }

  /** One turn of the loop: the receiver is looked at, and woken if it matches. */
  method VisitClient(srv: Server, key: Key, n: Node, keyspace0: map<Key, ObjType>, clock0: nat, oracle: Oracle)
    returns (keyspace: map<Key, ObjType>, clock: nat)
    requires Inv(srv.St()) && n in Waiters(srv.Indexes(), key)
    modifies srv
    ensures Inv(srv.St()) && srv.current == old(srv.current)
    ensures Progress(srv.St(), keyspace, clock) == Visit(Progress(old(srv.St()), keyspace0, clock0), key, n, oracle)
  {
    hide Inv, Serve, Waiters;
    keyspace, clock := keyspace0, clock0;
    WaiterIsBlocked(srv.St(), key, n);
    VisitKeeps(Progress(srv.St(), keyspace0, clock0), key, n, oracle);
    if Wakes(srv.kinds, srv.flags, keyspace, key, n.client) {
      UnblockClientOnKey(srv, n.client, key, oracle(clock));
      keyspace, clock := oracle(clock).keyspace, clock + 1;
    }
  }

  /** listNext and the body of the loop: the receiver is visited after the iterator has moved on. */
  method Turn(srv: Server, key: Key, keyspace0: map<Key, ObjType>, clock0: nat, oracle: Oracle, next0: nat,
      ghost kept0: seq<Node>, ghost rest: seq<Node>, ghost joined0: seq<Node>)
    returns (keyspace: map<Key, ObjType>, clock: nat, next: Option<nat>, ghost kept: seq<Node>, ghost joined: seq<Node>)
    requires Inv(srv.St()) && rest != [] && Iterating(Waiters(srv.Indexes(), key), kept0, rest, joined0, Some(next0))
    requires AllWaiting(srv.St(), key, rest)
    modifies srv
    ensures Inv(srv.St()) && srv.current == old(srv.current)
    ensures Iterating(Waiters(srv.Indexes(), key), kept, rest[1..], joined, next)
    ensures AllWaiting(srv.St(), key, rest[1..])
    ensures Pass(Progress(old(srv.St()), keyspace0, clock0), key, rest, oracle) == Pass(Progress(srv.St(), keyspace, clock), key, rest[1..], oracle)
  {
    hide Inv, Visit, DistinctNodes, Waiters, Find, Iterating, AllWaiting, Pass;
    ListOf(srv.St(), key);
    ghost var p := Progress(srv.St(), keyspace0, clock0);
    ghost var new_, stays := VisitedShape(p, key, kept0, rest, joined0, Some(next0), oracle);
    var clients := srv.fifo[key];
    var at := Find(clients, next0);
    next := if at + 1 < |clients| then Some(clients[at + 1].id) else None;
    keyspace, clock := VisitClient(srv, key, clients[at], keyspace0, clock0, oracle);
    kept, joined := if stays then kept0 + [rest[0]] else kept0, joined0 + new_;
  }

  /** Serves the initial waiters of a key in arrival order, each at most once, whatever their commands do. */
  method HandleClientsBlockedOnKey(srv: Server, key: Key, keyspace0: map<Key, ObjType>, clock0: nat, oracle: Oracle)
    returns (keyspace: map<Key, ObjType>, clock: nat)
    requires Inv(srv.St())
    modifies srv
    ensures Inv(srv.St()) && srv.current == old(srv.current)
    ensures AllWaiting(old(srv.St()), key, Waiters(old(srv.Indexes()), key))
    ensures Progress(srv.St(), keyspace, clock)
         == Pass(Progress(old(srv.St()), keyspace0, clock0), key, Waiters(old(srv.Indexes()), key), oracle)
  {
    hide Inv, Visit, Waiters, Iterating, AllWaiting, Pass;
    keyspace, clock := keyspace0, clock0;
    ghost var start := Progress(srv.St(), keyspace0, clock0);
    ghost var rest := Waiters(srv.Indexes(), key);
    ListOf(srv.St(), key);
    if key in srv.fifo {
      var count := |srv.fifo[key]|;
      var next := Some(srv.fifo[key][0].id);
      ghost var kept, joined: seq<Node> := [], [];
      IteratorStart(rest);
      while true
        invariant Inv(srv.St()) && srv.current == old(srv.current)
        invariant count == |rest| && AllWaiting(srv.St(), key, rest)
        invariant Iterating(Waiters(srv.Indexes(), key), kept, rest, joined, next)
        invariant Pass(start, key, Waiters(start.s.index, key), oracle) == Pass(Progress(srv.St(), keyspace, clock), key, rest, oracle)
        decreases count
      {
        IteratorPoints(Waiters(srv.Indexes(), key), kept, rest, joined, next);
        if next.None? || count == 0 {
          break;
        }
        count := count - 1;
        keyspace, clock, next, kept, joined := Turn(srv, key, keyspace, clock, oracle, next.value, kept, rest, joined);
        rest := rest[1..];
      }
      PassNothing(Progress(srv.St(), keyspace, clock), key, oracle);
    } else {
      PassNothing(start, key, oracle);
    }
  }

  lemma PassNothing(p: Progress, key: Key, oracle: Oracle)
    requires Inv(p.s)
    ensures AllWaiting(p.s, key, []) && Pass(p, key, [], oracle) == p
  {
  }

  // ---- all ready keys ----------------------------------------------------------------------------------------------

  /** The next key of the list being worked off leaves it, and may be signalled again from now on. */
  ghost function Pop(s: State): State
    requires s.current != []
  {
    s.(ready := s.ready - {s.current[0]}, current := s.current[1..])
  }

  lemma PopKeepsInv(s: State)
    requires Inv(s) && s.current != []
    ensures Inv(Pop(s))
  {
    hide Consistent, OfKind, DistinctKeys;
    var t := Pop(s);
    assert t.current + t.queue == (s.current + s.queue)[1..];
    TailOfDistinct(s.current + s.queue);
  }

  lemma TailOfDistinct(q: seq<Key>)
    requires DistinctKeys(q) && q != []
    ensures DistinctKeys(q[1..]) && forall k :: k in q[1..] <==> k in q && k != q[0]
  {
    forall k
      ensures k in q[1..] <==> k in q && k != q[0]
    {
      if k in q && k != q[0] {
        var i :| 0 <= i < |q| && q[i] == k;
        assert q[1..][i - 1] == k;
      }
    }
  }

  /** The list of ready keys becomes the one to work off; signals go to a fresh list. */
  ghost function TakeList(s: State): State {
    s.(current := s.queue, queue := [])
  }

  lemma TakeListKeepsInv(s: State)
    requires Inv(s) && s.current == []
    ensures Inv(TakeList(s))
  {
    hide Consistent, OfKind;
    assert s.current + s.queue == s.queue == TakeList(s).current + TakeList(s).queue;
  }

  /** Every key of the list in turn: one pass over the clients that wait on it by then. */
  ghost function WorkOff(p: Progress, oracle: Oracle): Progress
    requires Inv(p.s)
    decreases |p.s.current|
  {
    if p.s.current == [] then p
    else
      PopKeepsInv(p.s);
      var q := p.(s := Pop(p.s));
      var key := p.s.current[0];
      ListOf(q.s, key);
      PassKeeps(q, key, Waiters(q.s.index, key), oracle);
      WorkOff(Pass(q, key, Waiters(q.s.index, key), oracle), oracle)
  }

  lemma {:induction false} PassKeeps(p: Progress, key: Key, nodes: seq<Node>, oracle: Oracle)
    requires Inv(p.s) && AllWaiting(p.s, key, nodes)
    ensures Inv(Pass(p, key, nodes, oracle).s) && Pass(p, key, nodes, oracle).s.current == p.s.current
    decreases |nodes|
  {
    hide Inv, Visit, Waiters;
    if nodes != [] {
      VisitKeeps(p, key, nodes[0], oracle);
      OthersStay(p, key, nodes, oracle);
      PassKeeps(Visit(p, key, nodes[0], oracle), key, nodes[1..], oracle);
    }
  }

  lemma {:induction false} WorkOffEmpties(p: Progress, oracle: Oracle)
    requires Inv(p.s)
    ensures Inv(WorkOff(p, oracle).s) && WorkOff(p, oracle).s.current == []
    decreases |p.s.current|
  {
    hide Inv, Pass, Waiters;
    if p.s.current != [] {
      PopKeepsInv(p.s);
      var q := p.(s := Pop(p.s));
      var key := p.s.current[0];
      ListOf(q.s, key);
      PassKeeps(q, key, Waiters(q.s.index, key), oracle);
      WorkOffEmpties(Pass(q, key, Waiters(q.s.index, key), oracle), oracle);
    }
  }

  method HandleList(srv: Server, keyspace0: map<Key, ObjType>, clock0: nat, oracle: Oracle)
    returns (keyspace: map<Key, ObjType>, clock: nat)
    requires Inv(srv.St())
    modifies srv
    ensures Inv(srv.St()) && srv.current == []
    ensures Progress(srv.St(), keyspace, clock) == WorkOff(Progress(old(srv.St()), keyspace0, clock0), oracle)
  {
    hide Inv, Pass, Waiters, AllWaiting;
    keyspace, clock := keyspace0, clock0;
    ghost var start := Progress(srv.St(), keyspace0, clock0);
    while srv.current != []
      invariant Inv(srv.St())
      invariant WorkOff(start, oracle) == WorkOff(Progress(srv.St(), keyspace, clock), oracle)
      decreases |srv.current|
    {
      PopKeepsInv(srv.St());
      var key := srv.current[0];
      srv.ready := srv.ready - {key};
      srv.current := srv.current[1..];
      ListOf(srv.St(), key);
      PassKeeps(Progress(srv.St(), keyspace, clock), key, Waiters(srv.Indexes(), key), oracle);
      keyspace, clock := HandleClientsBlockedOnKey(srv, key, keyspace, clock, oracle);
    }
  }

  /** Up to `n` lists of ready keys, one after the other. */
  ghost function Rounds(p: Progress, oracle: Oracle, n: nat): Progress
    requires Inv(p.s) && p.s.current == []
    decreases n
  {
    if n == 0 || p.s.queue == [] then p
    else
      TakeListKeepsInv(p.s);
      WorkOffEmpties(p.(s := TakeList(p.s)), oracle);
      Rounds(WorkOff(p.(s := TakeList(p.s)), oracle), oracle, n - 1)
  }

  /** One list more: as long as keys are ready, the next list is taken and worked off. */
  lemma {:induction false} RoundsGoOn(p: Progress, oracle: Oracle, n: nat)
    requires Inv(p.s) && p.s.current == []
    ensures var q := Rounds(p, oracle, n);
      && Inv(q.s) && q.s.current == [] && Inv(TakeList(q.s))
      && Rounds(p, oracle, n + 1) == if q.s.queue == [] then q else WorkOff(q.(s := TakeList(q.s)), oracle)
    decreases n
  {
    hide Inv, WorkOff;
    TakeListKeepsInv(p.s);
    if p.s.queue != [] {
      WorkOffEmpties(p.(s := TakeList(p.s)), oracle);
      if n > 0 {
        RoundsGoOn(WorkOff(p.(s := TakeList(p.s)), oracle), oracle, n - 1);
      }
    }
  }

  /**
   * List after list until no key is ready, for at most `rounds` lists: commands that keep signalling keys
   * can keep this going for ever.
   */
  method HandleClientsBlockedOnKeys(srv: Server, keyspace0: map<Key, ObjType>, clock0: nat, oracle: Oracle, rounds: nat)
    returns (keyspace: map<Key, ObjType>, clock: nat, done: bool)
    requires Inv(srv.St()) && srv.current == []
    modifies srv
    ensures Inv(srv.St()) && srv.current == []
    ensures done <==> srv.queue == []
    ensures done ==> srv.ready == {}
    ensures Progress(srv.St(), keyspace, clock) == Rounds(Progress(old(srv.St()), keyspace0, clock0), oracle, rounds)
  {
    hide Inv, WorkOff;
    keyspace, clock := keyspace0, clock0;
    var left := rounds;
    ghost var start := Progress(srv.St(), keyspace0, clock0);
    while srv.queue != [] && left > 0
      invariant Inv(srv.St()) && srv.current == []
      invariant Rounds(start, oracle, rounds) == Rounds(Progress(srv.St(), keyspace, clock), oracle, left)
      decreases left
    {
      TakeListKeepsInv(srv.St());
      srv.current := srv.queue;
      srv.queue := [];
      keyspace, clock := HandleList(srv, keyspace, clock, oracle);
      left := left - 1;
    }
    done := srv.queue == [];
    NothingReady(srv.St());
  }

  lemma NothingReady(s: State)
    requires Inv(s) && s.current == []
    ensures s.queue == [] ==> s.ready == {}
  {
    hide Consistent, OfKind;
    assert s.queue == [] ==> s.current + s.queue == [];
  }

  /** The waiters a pass visits are different clients. */
  lemma WaitersDiffer(s: State, key: Key, i: nat, j: nat)
    requires Inv(s) && i < j < |Waiters(s.index, key)|
    ensures Waiters(s.index, key)[i].client != Waiters(s.index, key)[j].client
  {
    hide Inv, Waiters;
    var f := Waiters(s.index, key);
    ListOf(s, key);
    assert f[i] in f && f[j] in f;
    WaiterIsBlocked(s, key, f[i]);
    WaiterIsBlocked(s, key, f[j]);
  }

  // ---- every run ------------------------------------------------------------------------------------------------------

  datatype Action =
    | BlockOn(client: Client, wait: Wait)
    | Leave(client: Client)
    | Touch(signal: Signalled)
    | HandleReady(keyspace: map<Key, ObjType>, clock: nat, oracle: Oracle)

  /** One step of the server; a step that is not possible changes nothing. */
  ghost function Act(s: State, a: Action): State
    requires Inv(s)
  {
    match a
    case BlockOn(c, w) =>
      if c in s.kinds then s else (KindCounted(s, w.kind); Block(s, c, w.kind, [w.first] + w.more, w.flag))
    case Leave(c) => if c in s.kinds then (KindCounted(s, s.kinds[c]); Unblock(s, c)) else s
    case Touch(e) => Signal(s, e.key, e.t, e.deleted)
    case HandleReady(keyspace, clock, oracle) =>
      if s.current != [] then s
      else
        TakeListKeepsInv(s);
        WorkOff(Progress(TakeList(s), keyspace, clock), oracle).s
  }

  lemma ActKeepsInv(s: State, a: Action)
    requires Inv(s)
    ensures Inv(Act(s, a))
  {
    hide Inv, WorkOff;
    match a {
      case BlockOn(c, w) =>
        if c !in s.kinds {
          KindCounted(s, w.kind);
          BlockKeepsInv(s, c, w.kind, [w.first] + w.more, w.flag);
        }
      case Leave(c) =>
        if c in s.kinds {
          KindCounted(s, s.kinds[c]);
          UnblockKeepsInv(s, c);
        }
      case Touch(e) =>
        SignalKeepsInv(s, e.key, e.t, e.deleted);
      case HandleReady(keyspace, clock, oracle) =>
        if s.current == [] {
          TakeListKeepsInv(s);
          WorkOffEmpties(Progress(TakeList(s), keyspace, clock), oracle);
        }
    }
  }

  /** The state after a run, with the proof that it satisfies the invariant. */
  ghost function RunOf(acts: seq<Action>): (s: State)
    ensures Inv(s)
  {
    if acts == [] then (InitialInv(); Initial())
    else (ActKeepsInv(RunOf(acts[..|acts| - 1]), acts[|acts| - 1]); Act(RunOf(acts[..|acts| - 1]), acts[|acts| - 1]))
  }

  /** In every reachable state the three indexes, the counters and the queue of ready keys agree. */
  lemma EveryRunIsConsistent(acts: seq<Action>, c: Client, k: Key)
    ensures var s := RunOf(acts);
      && Occurrences(Waiters(s.index, k), c) == (if k in s.index.Table(c) then 1 else 0)
      && (k in s.index.fifo ==> s.index.fifo[k] != [])
      && (if k in s.index.nokey then s.index.nokey[k] else 0) == Flagged(Waiters(s.index, k), s.flags)
      && (k in s.index.nokey ==> s.index.nokey[k] > 0)
      && s.total == |s.kinds| && (forall kind :: kind in s.count && s.count[kind] == |OfKind(s.kinds, kind)|)
      && (c in s.kinds <==> s.index.Table(c) != map[])
      && (k in s.ready <==> k in s.current + s.queue) && DistinctKeys(s.current + s.queue)
  {
    hide RunOf, Occurrences, OfKind, DistinctNodes, DistinctKeys;
    var s := RunOf(acts);
    ListedExactlyOnce(s.index, s.flags, c, k);
    NoNodes(s.flags);
  }
}
