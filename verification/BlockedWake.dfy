/** No wakeup is lost: which clients are served when the ready keys are worked off, and which keep waiting. */
module Waking {
  import opened Blocking
  import opened BlockedState
  import opened BlockedServer
  import opened Serving
  import opened BlockedEffects
  import opened Text

  // ---- looking at clients, one after the other ------------------------------------------------------------------------

  /** The server comes to a waiter of a key. */
  datatype Look = Look(before: Progress, key: Key, node: Node, after: Progress)

  /** The key holds an object of the type that the client waits for, or the client wants to know about anything. */
  ghost predicate Fits(p: Progress, key: Key, c: Client) {
    c in p.s.flags || (c in p.s.kinds && key in p.keyspace && TypeFits(p.s.kinds[c], p.keyspace[key]))
  }

  /** A client that fits leaves all its keys and its command runs, once; for any other nothing changes. */
  ghost predicate Looked(l: Look, oracle: Oracle) {
    && l.node in Waiters(l.before.s.index, l.key)
    && if Fits(l.before, l.key, l.node.client) then
         && l.after.clock == l.before.clock + 1 && l.after.keyspace == oracle(l.before.clock).keyspace
         && RanAgain(l.before.s, l.node.client, oracle(l.before.clock), l.after.s)
       else l.after == l.before
  }

  /** One look at each of the given waiters, in order, from p to q. */
  ghost predicate Looks(ls: seq<Look>, p: Progress, key: Key, nodes: seq<Node>, q: Progress, oracle: Oracle)
    decreases |ls|
  {
    if ls == [] then nodes == [] && q == p
    else
      && nodes != [] && ls[0].before == p && ls[0].key == key && ls[0].node == nodes[0] && Looked(ls[0], oracle)
      && Looks(ls[1..], ls[0].after, key, nodes[1..], q, oracle)
  }

  /** A ready key is taken from the list, and its waiters are looked at. */
  datatype Turn = Turn(key: Key, start: Progress, looks: seq<Look>, end: Progress)

  /** All ready keys of the list, in order: at each, those who wait on it by then. */
  ghost predicate Worked(ts: seq<Turn>, p: Progress, q: Progress, oracle: Oracle)
    decreases |ts|
  {
    if ts == [] then p.s.current == [] && q == p
    else
      && p.s.current != [] && ts[0].key == p.s.current[0]
      && ts[0].start == p.(s := p.s.(ready := p.s.ready - {p.s.current[0]}, current := p.s.current[1..]))
      && Looks(ts[0].looks, ts[0].start, ts[0].key, Waiters(ts[0].start.s.index, ts[0].key), ts[0].end, oracle)
      && Worked(ts[1..], ts[0].end, q, oracle)
  }

  // ---- the loops of the server do that --------------------------------------------------------------------------------

  lemma VisitLooks(p: Progress, key: Key, n: Node, oracle: Oracle)
    requires Inv(p.s) && n in Waiters(p.s.index, key)
    ensures Looked(Look(p, key, n, Visit(p, key, n, oracle)), oracle)
  {
    hide Inv, Serve, RanAgain, TypeFits, BlockedType;
    WaiterIsBlocked(p.s, key, n);
    ServeDoes(p.s, n.client, oracle(p.clock));
    if key in p.keyspace {
      BlockedTypeIs(p.keyspace[key], p.s.kinds[n.client]);
    }
  }

  /** handleClientsBlockedOnKey */
  lemma {:induction false} PassLooks(p: Progress, key: Key, nodes: seq<Node>, oracle: Oracle) returns (ls: seq<Look>)
    requires Inv(p.s) && AllWaiting(p.s, key, nodes)
    ensures Looks(ls, p, key, nodes, Pass(p, key, nodes, oracle), oracle)
    decreases |nodes|
  {
    hide Inv, Visit, Looked, Waiters;
    if nodes == [] {
      ls := [];
    } else {
      assert nodes[0] in nodes;
      VisitKeeps(p, key, nodes[0], oracle);
      OthersStay(p, key, nodes, oracle);
      VisitLooks(p, key, nodes[0], oracle);
      var first := Look(p, key, nodes[0], Visit(p, key, nodes[0], oracle));
      var rest := PassLooks(first.after, key, nodes[1..], oracle);
      ls := [first] + rest;
      assert ls[1..] == rest;
    }
  }

  /** handleClientsBlockedOnKeys, for one list of ready keys. */
  lemma {:induction false} WorkOffTurns(p: Progress, oracle: Oracle) returns (ts: seq<Turn>)
    requires Inv(p.s)
    ensures Worked(ts, p, WorkOff(p, oracle), oracle)
    decreases |p.s.current|
  {
    hide Inv, Pass, Waiters, Looks;
    if p.s.current == [] {
      ts := [];
    } else {
      PopKeepsInv(p.s);
      var q, key := p.(s := Pop(p.s)), p.s.current[0];
      ListOf(q.s, key);
      PassKeeps(q, key, Waiters(q.s.index, key), oracle);
      var looks := PassLooks(q, key, Waiters(q.s.index, key), oracle);
      var first := Turn(key, q, looks, Pass(q, key, Waiters(q.s.index, key), oracle));
      var rest := WorkOffTurns(first.end, oracle);
      ts := [first] + rest;
      assert ts[1..] == rest;
    }
  }

  // ---- waiting on, and gone -------------------------------------------------------------------------------------------

  ghost predicate Before(f: seq<Node>, m: Node, n: Node) {
    exists i, j :: 0 <= i < j < |f| && f[i] == m && f[j] == n
  }

  ghost function OwnNode(s: State, c: Client, k: Key): Node
    requires k in s.index.Table(c)
  {
    Node(s.index.Table(c)[k], c)
  }

  /** The client waits as it did in s0, with the same nodes, and nobody has got ahead of it in any list. */
  ghost predicate WaitsOn(s0: State, s: State, c: Client) {
    && s.index.Table(c) == s0.index.Table(c) && (c in s.kinds <==> c in s0.kinds) && (c in s0.kinds && c in s.kinds ==> s.kinds[c] == s0.kinds[c])
    && (c in s.flags <==> c in s0.flags)
    && (forall k :: k in s0.index.Table(c) ==> OwnNode(s0, c, k) in Waiters(s.index, k) && OwnNode(s0, c, k).id < s.index.next)
    && (forall k, m :: k in s0.index.Table(c) && Before(Waiters(s.index, k), m, OwnNode(s0, c, k)) ==>
          Before(Waiters(s0.index, k), m, OwnNode(s0, c, k)))
  }

  /** The nodes of that wait are in no list any more. */
  ghost predicate Gone(s0: State, s: State, c: Client) {
    forall k :: k in s0.index.Table(c) ==> OwnNode(s0, c, k) !in Waiters(s.index, k) && OwnNode(s0, c, k).id < s.index.next
  }

  lemma WaitsAtFirst(s: State, c: Client)
    requires Inv(s)
    ensures WaitsOn(s, s, c)
  {
    hide QueuedOnce, Counted, Flagged, OfKind, DistinctNodes, Waiters;
    forall k | k in s.index.Table(c) ensures OwnNode(s, c, k) in Waiters(s.index, k) && OwnNode(s, c, k).id < s.index.next {
      HasNode(s, c, k);
      NodeIsOld(s, k, OwnNode(s, c, k));
    }
  }

  lemma NodeIsOld(s: State, k: Key, n: Node)
    requires Inv(s) && n in Waiters(s.index, k)
    ensures n.id < s.index.next
  {
    hide QueuedOnce, Counted, Flagged, OfKind, DistinctNodes;
  }

  // ---- what a look does to a client -----------------------------------------------------------------------------------

  /** The list of a key after another client has been served. */
  lemma ServedOther(s: State, t: State, d: Client, out: Outcome, k: Key, n: Node)
    requires RanAgain(s, d, out, t)
    ensures n in Waiters(t.index, k) <==> (n in Waiters(s.index, k) && n.client != d) || n in NewNode(t.index, d, k)
  {
    hide OthersThan, Waiters, NewNode, SignalWanted;
    OthersAre(Waiters(s.index, k), d, n);
  }

  lemma NewIsNew(s: State, t: State, d: Client, out: Outcome, k: Key, n: Node)
    requires RanAgain(s, d, out, t) && n in NewNode(t.index, d, k)
    ensures n.client == d && s.index.next <= n.id && s.index.next <= t.index.next
  {
    hide OthersThan, Waiters, SignalWanted;
  }

  lemma {:induction false} BeforeInOthers(f: seq<Node>, d: Client, m: Node, n: Node)
    requires Before(OthersThan(f, d), m, n)
    ensures Before(f, m, n)
  {
    var g := OthersThan(f, d);
    var i, j :| 0 <= i < j < |g| && g[i] == m && g[j] == n;
    var last, front := f[|f| - 1], f[..|f| - 1];
    var h := OthersThan(front, d);
    if j < |h| {
      assert h[i] == m && h[j] == n;
      BeforeInOthers(front, d, m, n);
      var a, b :| 0 <= a < b < |front| && front[a] == m && front[b] == n;
      assert f[a] == m && f[b] == n;
    } else {
      assert n == last && h[i] == m;
      OthersAre(front, d, m);
      var a :| 0 <= a < |front| && front[a] == m;
      assert f[a] == m && f[|f| - 1] == n;
    }
  }

  lemma BeforeInServed(s: State, t: State, d: Client, out: Outcome, k: Key, m: Node, n: Node)
    requires RanAgain(s, d, out, t) && n.client != d && Before(Waiters(t.index, k), m, n)
    ensures Before(Waiters(s.index, k), m, n)
  {
    var f, a, b := Waiters(t.index, k), OthersThan(Waiters(s.index, k), d), NewNode(t.index, d, k);
    assert f == a + b;
    assert forall x :: x in b ==> x.client == d;
    hide RanAgain, OthersThan, Waiters, NewNode;
    var i, j :| 0 <= i < j < |f| && f[i] == m && f[j] == n;
    assert forall x :: |a| <= x < |f| ==> f[x] == b[x - |a|] && b[x - |a|] in b;
    assert a[i] == m && a[j] == n;
    BeforeInOthers(Waiters(s.index, k), d, m, n);
  }

  /** Another client is served: this one waits on. */
  lemma OtherServed(s0: State, s: State, t: State, c: Client, d: Client, out: Outcome)
    requires WaitsOn(s0, s, c) && RanAgain(s, d, out, t) && c != d
    ensures WaitsOn(s0, t, c)
  {
    RanFields(s, d, out, t, c);
    hide RanAgain, Waiters, NewNode, Before;
    forall k | k in s0.index.Table(c) ensures OwnNode(s0, c, k) in Waiters(t.index, k) && OwnNode(s0, c, k).id < t.index.next {
      ServedOther(s, t, d, out, k, OwnNode(s0, c, k));
    }
    forall k, m | k in s0.index.Table(c) && Before(Waiters(t.index, k), m, OwnNode(s0, c, k))
      ensures Before(Waiters(s0.index, k), m, OwnNode(s0, c, k))
    {
      BeforeInServed(s, t, d, out, k, m, OwnNode(s0, c, k));
    }
  }

  lemma RanFields(s: State, d: Client, out: Outcome, t: State, c: Client)
    requires RanAgain(s, d, out, t) && c != d
    ensures t.index.Table(c) == s.index.Table(c) && (c in t.kinds <==> c in s.kinds) && (c in s.kinds ==> t.kinds[c] == s.kinds[c])
    ensures (c in t.flags <==> c in s.flags) && s.index.next <= t.index.next && t.current == s.current
  {
    hide OthersThan, Waiters, NewNode, SignalWanted;
  }

  /** It is served itself: the nodes of its wait are gone. */
  lemma OwnServed(s0: State, s: State, t: State, c: Client, out: Outcome)
    requires WaitsOn(s0, s, c) && RanAgain(s, c, out, t)
    ensures Gone(s0, t, c)
  {
    hide RanAgain, Waiters, NewNode, Before;
    NextGrows(s, c, out, t);
    forall k | k in s0.index.Table(c) ensures OwnNode(s0, c, k) !in Waiters(t.index, k) && OwnNode(s0, c, k).id < t.index.next {
      ServedOther(s, t, c, out, k, OwnNode(s0, c, k));
      if OwnNode(s0, c, k) in NewNode(t.index, c, k) { NewIsNew(s, t, c, out, k, OwnNode(s0, c, k)); }
    }
  }

  lemma NextGrows(s: State, c: Client, out: Outcome, t: State)
    requires RanAgain(s, c, out, t)
    ensures s.index.next <= t.index.next && t.current == s.current
  {
    hide OthersThan, Waiters, NewNode, SignalWanted;
  }

  lemma GoneStays(s0: State, s: State, t: State, c: Client, d: Client, out: Outcome)
    requires Gone(s0, s, c) && RanAgain(s, d, out, t)
    ensures Gone(s0, t, c)
  {
    hide RanAgain, Waiters, NewNode;
    NextGrows(s, d, out, t);
    forall k | k in s0.index.Table(c) ensures OwnNode(s0, c, k) !in Waiters(t.index, k) && OwnNode(s0, c, k).id < t.index.next {
      ServedOther(s, t, d, out, k, OwnNode(s0, c, k));
      if OwnNode(s0, c, k) in NewNode(t.index, d, k) { NewIsNew(s, t, d, out, k, OwnNode(s0, c, k)); }
    }
  }

  /** A look serves a waiting client if it is the one looked at and fits; otherwise it waits on. */
  lemma OneLook(s0: State, l: Look, oracle: Oracle, c: Client)
    requires Looked(l, oracle)
    ensures l.after.s.current == l.before.s.current
    ensures WaitsOn(s0, l.before.s, c) ==>
      if l.node.client == c && Fits(l.before, l.key, c) then Gone(s0, l.after.s, c) else WaitsOn(s0, l.after.s, c)
    ensures Gone(s0, l.before.s, c) ==> Gone(s0, l.after.s, c)
  {
    hide Fits, RanAgain, WaitsOn, Gone, Waiters;
    var d := l.node.client;
    if Fits(l.before, l.key, d) {
      var out := oracle(l.before.clock);
      NextGrows(l.before.s, d, out, l.after.s);
      if WaitsOn(s0, l.before.s, c) {
        if c == d { OwnServed(s0, l.before.s, l.after.s, c, out); } else { OtherServed(s0, l.before.s, l.after.s, c, d, out); }
      }
      if Gone(s0, l.before.s, c) { GoneStays(s0, l.before.s, l.after.s, c, d, out); }
    }
  }

  // ---- a pass ---------------------------------------------------------------------------------------------------------

  /** Whenever the server comes to this client, it fits. */
  ghost predicate FitsThere(ls: seq<Look>, c: Client) {
    forall i :: 0 <= i < |ls| && ls[i].node.client == c ==> Fits(ls[i].before, ls[i].key, c)
  }

  ghost predicate FitsNowhere(ls: seq<Look>, c: Client) {
    forall i :: 0 <= i < |ls| && ls[i].node.client == c ==> !Fits(ls[i].before, ls[i].key, c)
  }

  lemma {:induction false} LooksKeep(s0: State, ls: seq<Look>, p: Progress, key: Key, nodes: seq<Node>, q: Progress, oracle: Oracle, c: Client)
    requires Looks(ls, p, key, nodes, q, oracle)
    ensures q.s.current == p.s.current
    ensures Gone(s0, p.s, c) ==> Gone(s0, q.s, c)
    ensures WaitsOn(s0, p.s, c) ==> Gone(s0, q.s, c) || WaitsOn(s0, q.s, c)
    ensures WaitsOn(s0, p.s, c) && FitsNowhere(ls, c) ==> WaitsOn(s0, q.s, c)
    ensures WaitsOn(s0, p.s, c) && FitsThere(ls, c) && (exists n :: n in nodes && n.client == c) ==> Gone(s0, q.s, c)
    decreases |ls|
  {
    hide Fits, Looked, WaitsOn, Gone;
    if ls != [] {
      OneLook(s0, ls[0], oracle, c);
      LooksKeep(s0, ls[1..], ls[0].after, key, nodes[1..], q, oracle, c);
      assert forall i :: 1 <= i < |ls| ==> ls[1..][i - 1] == ls[i];
      if n :| n in nodes && n.client == c {
        if ls[0].node.client != c { LaterNode(nodes, n); }
      }
    }
  }

  lemma LaterNode(nodes: seq<Node>, n: Node)
    requires n in nodes && nodes[0].client != n.client
    ensures n in nodes[1..]
  {
  }

  // ---- all ready keys -------------------------------------------------------------------------------------------------

  /** When the server comes to this client for this key, it fits. */
  ghost predicate FitsWhenReached(ts: seq<Turn>, k: Key, c: Client) {
    forall i :: 0 <= i < |ts| && ts[i].key == k ==> FitsThere(ts[i].looks, c)
  }

  ghost predicate NeverFits(ts: seq<Turn>, c: Client) {
    forall i :: 0 <= i < |ts| ==> FitsNowhere(ts[i].looks, c)
  }

  lemma StartKeeps(s0: State, p: Progress, start: Progress, c: Client)
    requires start == p.(s := p.s.(ready := start.s.ready, current := start.s.current))
    ensures WaitsOn(s0, p.s, c) <==> WaitsOn(s0, start.s, c)
    ensures Gone(s0, p.s, c) <==> Gone(s0, start.s, c)
  {
    hide Before;
  }

  lemma {:induction false} WorkedKeeps(s0: State, ts: seq<Turn>, p: Progress, q: Progress, oracle: Oracle, c: Client)
    requires Worked(ts, p, q, oracle)
    ensures Gone(s0, p.s, c) ==> Gone(s0, q.s, c)
    ensures WaitsOn(s0, p.s, c) && NeverFits(ts, c) ==> WaitsOn(s0, q.s, c)
    decreases |ts|
  {
    hide Looks, WaitsOn, Gone, FitsNowhere;
    if ts != [] {
      var t := ts[0];
      StartKeeps(s0, p, t.start, c);
      LooksKeep(s0, t.looks, t.start, t.key, Waiters(t.start.s.index, t.key), t.end, oracle, c);
      WorkedKeeps(s0, ts[1..], t.end, q, oracle, c);
      assert forall i :: 1 <= i < |ts| ==> ts[1..][i - 1] == ts[i];
    }
  }

  /** A client that waits on a ready key and fits when it is reached there is served, there or before. */
  lemma {:induction false} ReadyIsServed(s0: State, ts: seq<Turn>, p: Progress, q: Progress, oracle: Oracle, c: Client, k: Key)
    requires Worked(ts, p, q, oracle) && WaitsOn(s0, p.s, c) && k in s0.index.Table(c) && k in p.s.current
    requires FitsWhenReached(ts, k, c)
    ensures Gone(s0, q.s, c)
    decreases |ts|
  {
    hide Looks, WaitsOn, Gone, FitsThere;
    var t := ts[0];
    StartKeeps(s0, p, t.start, c);
    LooksKeep(s0, t.looks, t.start, t.key, Waiters(t.start.s.index, t.key), t.end, oracle, c);
    if t.key == k {
      StandsThere(s0, t.start.s, c, k);
    }
    if Gone(s0, t.end.s, c) {
      WorkedKeeps(s0, ts[1..], t.end, q, oracle, c);
    } else {
      assert k in p.s.current[1..] by { LaterKey(p.s.current, k); }
      assert forall i :: 1 <= i < |ts| ==> ts[1..][i - 1] == ts[i];
      ReadyIsServed(s0, ts[1..], t.end, q, oracle, c, k);
    }
  }

  lemma LaterKey(q: seq<Key>, k: Key)
    requires k in q && q[0] != k
    ensures k in q[1..]
  {
  }

  lemma StandsThere(s0: State, s: State, c: Client, k: Key)
    requires WaitsOn(s0, s, c) && k in s0.index.Table(c)
    ensures exists n :: n in Waiters(s.index, k) && n.client == c
  {
    hide Before, Waiters;
    assert OwnNode(s0, c, k) in Waiters(s.index, k);
  }

  /** The server comes to the client. */
  ghost predicate LookedAt(ls: seq<Look>, c: Client) {
    exists i :: 0 <= i < |ls| && ls[i].node.client == c
  }

  ghost predicate Visited(ts: seq<Turn>, c: Client) {
    exists i :: 0 <= i < |ts| && LookedAt(ts[i].looks, c)
  }

  lemma {:induction false} AllLookedAt(ls: seq<Look>, p: Progress, key: Key, nodes: seq<Node>, q: Progress, oracle: Oracle, c: Client)
    requires Looks(ls, p, key, nodes, q, oracle)
    ensures LookedAt(ls, c) <==> exists n :: n in nodes && n.client == c
    decreases |ls|
  {
    hide Looked;
    if ls != [] {
      AllLookedAt(ls[1..], ls[0].after, key, nodes[1..], q, oracle, c);
      assert forall i :: 1 <= i < |ls| ==> ls[1..][i - 1] == ls[i];
      assert nodes == [nodes[0]] + nodes[1..];
    }
  }

  /** Whatever the served commands do, the server comes to a client that waits on a ready key. */
  lemma {:induction false} ReadyIsVisited(s0: State, ts: seq<Turn>, p: Progress, q: Progress, oracle: Oracle, c: Client, k: Key)
    requires Worked(ts, p, q, oracle) && WaitsOn(s0, p.s, c) && k in s0.index.Table(c) && k in p.s.current
    ensures Visited(ts, c)
    decreases |ts|
  {
    hide Looks, WaitsOn, Gone, Fits;
    var t := ts[0];
    StartKeeps(s0, p, t.start, c);
    AllLookedAt(t.looks, t.start, t.key, Waiters(t.start.s.index, t.key), t.end, oracle, c);
    if !LookedAt(t.looks, c) {
      if t.key == k {
        StandsThere(s0, t.start.s, c, k);
        assert false;
      }
      LooksKeep(s0, t.looks, t.start, t.key, Waiters(t.start.s.index, t.key), t.end, oracle, c);
      assert k in p.s.current[1..] by { LaterKey(p.s.current, k); }
      ReadyIsVisited(s0, ts[1..], t.end, q, oracle, c, k);
      var i :| 0 <= i < |ts[1..]| && LookedAt(ts[1..][i].looks, c);
      assert ts[i + 1] == ts[1..][i];
    }
  }

  /** From the signal to the visit. */
  lemma SignalledWaiterIsVisited(s: State, c: Client, k: Key, t: ObjType, deleted: bool,
                                 keyspace: map<Key, ObjType>, clock: nat, oracle: Oracle, ts: seq<Turn>)
    requires Inv(s) && s.current == [] && k in s.index.Table(c) && Wanted(s, {}, k, t, deleted)
    requires Inv(TakeList(Signal(s, k, t, deleted)))
    requires var p := Progress(TakeList(Signal(s, k, t, deleted)), keyspace, clock); Worked(ts, p, WorkOff(p, oracle), oracle)
    ensures Visited(ts, c)
  {
    hide *;
    var p := Progress(TakeList(Signal(s, k, t, deleted)), keyspace, clock);
    QueuedNow(s, k, t, deleted, keyspace, clock);
    WaitsAtFirst(s, c);
    TakenAlike(s, k, t, deleted, keyspace, clock, c);
    ReadyIsVisited(s, ts, p, WorkOff(p, oracle), oracle, c, k);
  }

  /** From the signal on: a client that waits on a key which is signalled and wanted is served when the
      ready keys are worked off, if the key holds its type when it is reached, or it wants to know anyway. */
  lemma SignalledWaiterIsServed(s: State, c: Client, k: Key, t: ObjType, deleted: bool,
                                keyspace: map<Key, ObjType>, clock: nat, oracle: Oracle, ts: seq<Turn>)
    requires Inv(s) && s.current == [] && k in s.index.Table(c) && Wanted(s, {}, k, t, deleted)
    requires Inv(TakeList(Signal(s, k, t, deleted)))
    requires var p := Progress(TakeList(Signal(s, k, t, deleted)), keyspace, clock);
      Worked(ts, p, WorkOff(p, oracle), oracle) && FitsWhenReached(ts, k, c)
    ensures var p := Progress(TakeList(Signal(s, k, t, deleted)), keyspace, clock);
      Gone(s, WorkOff(p, oracle).s, c)
  {
    hide *;
    var p := Progress(TakeList(Signal(s, k, t, deleted)), keyspace, clock);
    QueuedNow(s, k, t, deleted, keyspace, clock);
    WaitsAtFirst(s, c);
    TakenAlike(s, k, t, deleted, keyspace, clock, c);
    ReadyIsServed(s, ts, p, WorkOff(p, oracle), oracle, c, k);
  }

  lemma QueuedNow(s: State, k: Key, t: ObjType, deleted: bool, keyspace: map<Key, ObjType>, clock: nat)
    requires Inv(s) && s.current == [] && Wanted(s, {}, k, t, deleted)
    ensures k in TakeList(Signal(s, k, t, deleted)).current
  {
    SignalDoes(s, k, t, deleted);
    ReadyIsQueued(s, k);
    hide Wanted, Signal, Inv;
  }

  lemma ReadyIsQueued(s: State, k: Key)
    requires Inv(s) && s.current == []
    ensures k in s.ready <==> k in s.queue
  {
    hide Consistent, Counted, BlockedOnKeys, DistinctKeys;
    assert s.current + s.queue == s.queue;
  }

  lemma TakenAlike(s: State, k: Key, t: ObjType, deleted: bool, keyspace: map<Key, ObjType>, clock: nat, c: Client)
    requires WaitsOn(s, s, c)
    ensures WaitsOn(s, TakeList(Signal(s, k, t, deleted)), c)
  {
    SignalsOnlyAdd(s, k, t, deleted);
    hide Signal, Before, Waiters;
  }

  /** When the type of the key never changes meanwhile, no more is needed. */
  lemma SteadyKeyIsServed(s: State, c: Client, k: Key, t: ObjType, keyspace: map<Key, ObjType>, clock: nat, oracle: Oracle)
    requires Inv(s) && s.current == [] && k in s.index.Table(c) && c in s.kinds && TypeFits(s.kinds[c], t)
    requires k in keyspace && keyspace[k] == t && forall n :: k in oracle(n).keyspace && oracle(n).keyspace[k] == t
    ensures Inv(TakeList(Signal(s, k, t, false)))
    ensures Gone(s, WorkOff(Progress(TakeList(Signal(s, k, t, false)), keyspace, clock), oracle).s, c)
  {
    hide *;
    TakenKeeps(s, k, t, false);
    var p := Progress(TakeList(Signal(s, k, t, false)), keyspace, clock);
    var ts := WorkOffTurns(p, oracle);
    WaitsAtFirst(s, c);
    TakenAlike(s, k, t, false, keyspace, clock, c);
    StandsThere(s, s, c, k);
    WantedBy(s, c, k, t);
    QueuedNow(s, k, t, false, keyspace, clock);
    SteadyServed(s, ts, p, WorkOff(p, oracle), oracle, c, k, t);
  }

  lemma TakenKeeps(s: State, k: Key, t: ObjType, deleted: bool)
    requires Inv(s) && s.current == []
    ensures Inv(TakeList(Signal(s, k, t, deleted)))
  {
    hide Inv, TakeList, Signal;
    SignalKeepsInv(s, k, t, deleted);
    SignalsOnlyAdd(s, k, t, deleted);
    TakeListKeepsInv(Signal(s, k, t, deleted));
  }

  lemma WantedBy(s: State, c: Client, k: Key, t: ObjType)
    requires c in s.kinds && TypeFits(s.kinds[c], t) && exists n :: n in Waiters(s.index, k) && n.client == c
    ensures Wanted(s, {}, k, t, false)
  {
    hide TypeFits, Waiters;
    var n :| n in Waiters(s.index, k) && n.client == c;
    assert n.client !in {} && c !in {};
  }

  lemma {:induction false} SteadyLooks(s0: State, ls: seq<Look>, p: Progress, key: Key, nodes: seq<Node>, q: Progress,
                                      oracle: Oracle, c: Client, k: Key, t: ObjType)
    requires Looks(ls, p, key, nodes, q, oracle) && WaitsOn(s0, p.s, c) && c in s0.kinds && TypeFits(s0.kinds[c], t)
    requires k in p.keyspace && p.keyspace[k] == t && forall n :: k in oracle(n).keyspace && oracle(n).keyspace[k] == t
    ensures k in q.keyspace && q.keyspace[k] == t
    ensures key == k && (exists n :: n in nodes && n.client == c) ==> Gone(s0, q.s, c)
    ensures Gone(s0, q.s, c) || WaitsOn(s0, q.s, c)
    decreases |ls|
  {
    hide WaitsOn, Gone, RanAgain, Waiters, TypeFits;
    if ls != [] {
      var l := ls[0];
      OneLook(s0, l, oracle, c);
      assert k in l.after.keyspace && l.after.keyspace[k] == t;
      if l.node.client == c && key == k { FitsNow(s0, l.before, k, c, t); }
      if Gone(s0, l.after.s, c) {
        LooksKeep(s0, ls[1..], l.after, key, nodes[1..], q, oracle, c);
        SteadySpace(ls[1..], l.after, key, nodes[1..], q, oracle, k, t);
      } else {
        SteadyLooks(s0, ls[1..], l.after, key, nodes[1..], q, oracle, c, k, t);
        if n :| n in nodes && n.client == c {
          if l.node.client != c { LaterNode(nodes, n); }
        }
      }
    }
  }

  lemma FitsNow(s0: State, p: Progress, k: Key, c: Client, t: ObjType)
    requires WaitsOn(s0, p.s, c) && c in s0.kinds && TypeFits(s0.kinds[c], t) && k in p.keyspace && p.keyspace[k] == t
    ensures Fits(p, k, c)
  {
    hide TypeFits, Waiters, Before;
  }

  lemma {:induction false} SteadySpace(ls: seq<Look>, p: Progress, key: Key, nodes: seq<Node>, q: Progress, oracle: Oracle, k: Key, t: ObjType)
    requires Looks(ls, p, key, nodes, q, oracle)
    requires k in p.keyspace && p.keyspace[k] == t && forall n :: k in oracle(n).keyspace && oracle(n).keyspace[k] == t
    ensures k in q.keyspace && q.keyspace[k] == t
    decreases |ls|
  {
    hide RanAgain, Waiters, Fits;
    if ls != [] {
      SteadySpace(ls[1..], ls[0].after, key, nodes[1..], q, oracle, k, t);
    }
  }

  lemma {:induction false} SteadyServed(s0: State, ts: seq<Turn>, p: Progress, q: Progress, oracle: Oracle, c: Client, k: Key, t: ObjType)
    requires Worked(ts, p, q, oracle) && WaitsOn(s0, p.s, c) && k in s0.index.Table(c) && k in p.s.current
    requires c in s0.kinds && TypeFits(s0.kinds[c], t)
    requires k in p.keyspace && p.keyspace[k] == t && forall n :: k in oracle(n).keyspace && oracle(n).keyspace[k] == t
    ensures Gone(s0, q.s, c)
    decreases |ts|
  {
    hide Looks, WaitsOn, Gone, TypeFits;
    var u := ts[0];
    StartKeeps(s0, p, u.start, c);
    LooksKeep(s0, u.looks, u.start, u.key, Waiters(u.start.s.index, u.key), u.end, oracle, c);
    SteadyLooks(s0, u.looks, u.start, u.key, Waiters(u.start.s.index, u.key), u.end, oracle, c, k, t);
    if u.key == k {
      StandsThere(s0, u.start.s, c, k);
    }
    if Gone(s0, u.end.s, c) {
      WorkedKeeps(s0, ts[1..], u.end, q, oracle, c);
    } else {
      assert k in p.s.current[1..] by { LaterKey(p.s.current, k); }
      SteadyServed(s0, ts[1..], u.end, q, oracle, c, k, t);
    }
  }
}
