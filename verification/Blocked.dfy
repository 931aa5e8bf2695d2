/** Clients blocked on keys: the three indexes and what every operation keeps true of them. */
module Blocking {

  type Client = nat

  /** A key in a database. */
  type Key = (nat, string)

  datatype Kind = ListKind | ZsetKind | StreamKind

  /** A list node: the address stored in the client's own table, and the client. */
  datatype Node = Node(id: nat, client: Client)

  /**
   * The indexes: the keys each client waits on, with the node that holds it; the waiters of each key in
   * arrival order; and, per key, how many waiters also want to be woken when the key goes away.
   */
  datatype Index = Index(tables: map<Client, map<Key, nat>>, fifo: map<Key, seq<Node>>, nokey: map<Key, nat>, next: nat) {
    function Table(c: Client): map<Key, nat> {
      if c in tables then tables[c] else map[]
    }
  }

  // ---- what is kept true ---------------------------------------------------------------------------------

  ghost function Flagged(f: seq<Node>, flags: set<Client>): nat {
    if f == [] then 0 else Flagged(f[..|f| - 1], flags) + if f[|f| - 1].client in flags then 1 else 0
  }

  ghost predicate DistinctNodes(f: seq<Node>) {
    forall i, j :: 0 <= i < j < |f| ==> f[i].id != f[j].id
  }

  ghost predicate TablesPointToNodes(x: Index) {
    forall c, k :: c in x.tables && k in x.tables[c] ==> k in x.fifo && Node(x.tables[c][k], c) in x.fifo[k]
  }

  ghost predicate NodesAreInTables(x: Index) {
    forall k, n :: k in x.fifo && n in x.fifo[k] ==>
      n.client in x.tables && k in x.tables[n.client] && x.tables[n.client][k] == n.id < x.next
  }

  ghost predicate FifosAreLists(x: Index) {
    forall k :: k in x.fifo ==> x.fifo[k] != [] && DistinctNodes(x.fifo[k])
  }

  ghost predicate WakeupsCounted(x: Index, flags: set<Client>) {
    && (forall k :: k in x.nokey ==> k in x.fifo && x.nokey[k] > 0)
    && (forall k :: k in x.fifo ==> Flagged(x.fifo[k], flags) == if k in x.nokey then x.nokey[k] else 0)
  }

  ghost predicate Consistent(x: Index, flags: set<Client>) {
    TablesPointToNodes(x) && NodesAreInTables(x) && FifosAreLists(x) && WakeupsCounted(x, flags)
  }

  // ---- operations on the indexes ---------------------------------------------------------------------------

  /** One round of the loop of blockForKeys. */
  function AddKey(x: Index, c: Client, k: Key, flag: bool): Index {
    if k in x.Table(c) then x
    else Index(x.tables[c := x.Table(c)[k := x.next]],
      x.fifo[k := (if k in x.fifo then x.fifo[k] else []) + [Node(x.next, c)]],
      if !flag then x.nokey else x.nokey[k := if k in x.nokey then x.nokey[k] + 1 else 1],
      x.next + 1)
  }

  ghost function AddKeys(x: Index, c: Client, keys: seq<Key>, flag: bool): Index {
    if keys == [] then x else AddKey(AddKeys(x, c, keys[..|keys| - 1], flag), c, keys[|keys| - 1], flag)
  }

  /** A list without the node of the given address. */
  function Unlink(f: seq<Node>, id: nat): seq<Node> {
    if f == [] then [] else if f[|f| - 1].id == id then f[..|f| - 1] else Unlink(f[..|f| - 1], id) + [f[|f| - 1]]
  }

  /** The lists after the nodes in `table` of the keys `ks` were unlinked; empty ones are dropped. */
  ghost function ReleasedLists(fifo: map<Key, seq<Node>>, table: map<Key, nat>, ks: set<Key>): map<Key, seq<Node>>
    requires ks <= table.Keys
  {
    map k | k in fifo && !(k in ks && |fifo[k]| <= 1) :: if k in ks then Unlink(fifo[k], table[k]) else fifo[k]
  }

  ghost function ReleasedWakeups(nokey: map<Key, nat>, fifo: map<Key, seq<Node>>, ks: set<Key>, flag: bool): map<Key, nat> {
    map k | k in nokey && !(k in ks && ((k in fifo && |fifo[k]| <= 1) || (flag && nokey[k] <= 1))) ::
      if k in ks && flag then nokey[k] - 1 else nokey[k]
  }

  /** Client `c` taken out of the lists of the keys `ks`, all of them keys it waits on. */
  ghost function Release(x: Index, c: Client, ks: set<Key>, flag: bool): Index
    requires ks <= x.Table(c).Keys
  {
    Index(x.tables[c := x.Table(c) - ks], ReleasedLists(x.fifo, x.Table(c), ks), ReleasedWakeups(x.nokey, x.fifo, ks, flag), x.next)
  }

  // ---- proofs ---------------------------------------------------------------------------------------------------

  lemma {:induction false} FlaggedBy(f: seq<Node>, a: set<Client>, b: set<Client>)
    requires forall n :: n in f ==> (n.client in a <==> n.client in b)
    ensures Flagged(f, a) == Flagged(f, b)
  {
    if f != [] {
      FlaggedBy(f[..|f| - 1], a, b);
      assert f[|f| - 1] in f;
    }
  }

  lemma {:induction false} UnlinkDrops(f: seq<Node>, n: Node, flags: set<Client>)
    requires DistinctNodes(f) && n in f
    ensures |Unlink(f, n.id)| == |f| - 1 && DistinctNodes(Unlink(f, n.id))
    ensures forall m :: m in Unlink(f, n.id) <==> m in f && m != n
    ensures Flagged(Unlink(f, n.id), flags) == Flagged(f, flags) - if n.client in flags then 1 else 0
  {
    var last := f[|f| - 1];
    var rest := f[..|f| - 1];
    assert f == rest + [last];
    LastNode(rest, last, n);
    if last.id != n.id {
      UnlinkDrops(rest, n, flags);
      var r := Unlink(rest, n.id);
      DistinctSnoc(r, last);
      FlaggedSnoc(r, last, flags);
    }
  }

  lemma LastNode(rest: seq<Node>, last: Node, n: Node)
    requires DistinctNodes(rest + [last]) && n in rest + [last]
    ensures DistinctNodes(rest) && (last.id == n.id ==> n == last) && (last.id != n.id ==> n in rest)
    ensures forall m :: m in rest ==> m.id != last.id && m != last
  {
    var f := rest + [last];
    assert f[|rest|] == last;
    forall i | 0 <= i < |rest|
      ensures rest[i].id != last.id
    {
      assert f[i] == rest[i];
    }
    assert forall i :: 0 <= i < |rest| ==> f[i] == rest[i];
  }

  lemma DistinctSnoc(r: seq<Node>, last: Node)
    requires DistinctNodes(r) && forall m :: m in r ==> m.id != last.id
    ensures DistinctNodes(r + [last])
  {
    forall i, j | 0 <= i < j < |r + [last]|
      ensures (r + [last])[i].id != (r + [last])[j].id
    {
      if j == |r| {
        assert r[i] in r;
      }
    }
  }

  lemma FlaggedSnoc(r: seq<Node>, last: Node, flags: set<Client>)
    ensures Flagged(r + [last], flags) == Flagged(r, flags) + if last.client in flags then 1 else 0
  {
    assert (r + [last])[..|r|] == r;
  }

  lemma Appended(f: seq<Node>, n: Node, flags: set<Client>)
    requires DistinctNodes(f) && forall m :: m in f ==> m.id < n.id
    ensures DistinctNodes(f + [n]) && Flagged(f + [n], flags) == Flagged(f, flags) + if n.client in flags then 1 else 0
  {
    DistinctSnoc(f, n);
    FlaggedSnoc(f, n, flags);
  }

  lemma AddKeyKeeps(x: Index, c: Client, k: Key, flags: set<Client>)
    requires Consistent(x, flags)
    ensures Consistent(AddKey(x, c, k, c in flags), flags)
  {
    if k !in x.Table(c) {
      hide *;
      ConsistentParts(x, flags);
      AddKeyTables(x, c, k, c in flags);
      AddKeyNodes(x, c, k, c in flags);
      AddKeyLists(x, c, k, c in flags);
      AddKeyWakeups(x, c, k, flags);
      ConsistentParts(AddKey(x, c, k, c in flags), flags);
    }
  }

  lemma ConsistentParts(x: Index, flags: set<Client>)
    ensures Consistent(x, flags) <==> TablesPointToNodes(x) && NodesAreInTables(x) && FifosAreLists(x) && WakeupsCounted(x, flags)
  {
  }

  /** The list of a key, empty where the key has none. */
  ghost function Waiters(x: Index, k: Key): seq<Node> {
    if k in x.fifo then x.fifo[k] else []
  }

  lemma AddKeyTables(x: Index, c: Client, k: Key, flag: bool)
    requires TablesPointToNodes(x) && k !in x.Table(c)
    ensures TablesPointToNodes(AddKey(x, c, k, flag))
  {
  }

  lemma AddKeyNodes(x: Index, c: Client, k: Key, flag: bool)
    requires NodesAreInTables(x) && k !in x.Table(c)
    ensures NodesAreInTables(AddKey(x, c, k, flag))
  {
    var y := AddKey(x, c, k, flag);
    forall j, n | j in y.fifo && n in y.fifo[j]
      ensures n.client in y.tables && j in y.tables[n.client] && y.tables[n.client][j] == n.id < y.next
    {
      assert n in Waiters(x, j) || n == Node(x.next, c);
    }
  }

  lemma AddKeyLists(x: Index, c: Client, k: Key, flag: bool)
    requires FifosAreLists(x) && NodesAreInTables(x) && k !in x.Table(c)
    ensures FifosAreLists(AddKey(x, c, k, flag))
  {
    hide DistinctNodes;
    NoNodes({});
    Appended(Waiters(x, k), Node(x.next, c), {});
  }

  lemma AddKeyWakeups(x: Index, c: Client, k: Key, flags: set<Client>)
    requires WakeupsCounted(x, flags) && FifosAreLists(x) && NodesAreInTables(x) && k !in x.Table(c)
    ensures WakeupsCounted(AddKey(x, c, k, c in flags), flags)
  {
    hide DistinctNodes, Flagged;
    NoNodes(flags);
    Appended(Waiters(x, k), Node(x.next, c), flags);
  }

  lemma NoNodes(flags: set<Client>)
    ensures DistinctNodes([]) && Flagged([], flags) == 0
  {
  }

  lemma {:induction false} AddKeysKeeps(x: Index, c: Client, keys: seq<Key>, flags: set<Client>)
    requires Consistent(x, flags)
    ensures Consistent(AddKeys(x, c, keys, c in flags), flags)
  {
    hide Consistent;
    if keys != [] {
      AddKeysKeeps(x, c, keys[..|keys| - 1], flags);
      AddKeyKeeps(AddKeys(x, c, keys[..|keys| - 1], c in flags), c, keys[|keys| - 1], flags);
    }
  }

  /** What unlinking does to each list concerned. */
  lemma Unlinked(x: Index, c: Client, k: Key, flags: set<Client>)
    requires Consistent(x, flags) && k in x.Table(c)
    ensures k in x.fifo && Node(x.Table(c)[k], c) in x.fifo[k]
    ensures var f := Unlink(x.fifo[k], x.Table(c)[k]);
      && |f| == |x.fifo[k]| - 1 && DistinctNodes(f)
      && (forall m :: m in f <==> m in x.fifo[k] && m != Node(x.Table(c)[k], c))
      && Flagged(f, flags) == Flagged(x.fifo[k], flags) - if c in flags then 1 else 0
  {
    UnlinkDrops(x.fifo[k], Node(x.Table(c)[k], c), flags);
  }

  lemma ReleaseKeeps(x: Index, c: Client, ks: set<Key>, flags: set<Client>)
    requires Consistent(x, flags) && ks <= x.Table(c).Keys
    ensures Consistent(Release(x, c, ks, c in flags), flags)
  {
    hide *;
    ReleaseTables(x, c, ks, flags);
    ReleaseNodes(x, c, ks, flags);
    ReleaseLists(x, c, ks, flags);
    ReleaseWakeups(x, c, ks, flags);
    ConsistentParts(Release(x, c, ks, c in flags), flags);
  }

  lemma ReleaseTables(x: Index, c: Client, ks: set<Key>, flags: set<Client>)
    requires Consistent(x, flags) && ks <= x.Table(c).Keys
    ensures TablesPointToNodes(Release(x, c, ks, c in flags))
  {
    hide DistinctNodes, Flagged, Unlink;
    var y := Release(x, c, ks, c in flags);
    forall d, k | d in y.tables && k in y.tables[d]
      ensures k in y.fifo && Node(y.tables[d][k], d) in y.fifo[k]
    {
      assert k in x.Table(d) && k in x.fifo && Node(x.tables[d][k], d) in x.fifo[k];
      if k in ks {
        Unlinked(x, c, k, flags);
        assert d != c;
        TwoNodes(x.fifo[k], Node(x.tables[d][k], d), Node(x.Table(c)[k], c));
      }
    }
  }

  lemma TwoNodes(f: seq<Node>, a: Node, b: Node)
    requires a in f && b in f && a != b
    ensures |f| >= 2
  {
  }

  lemma ReleaseNodes(x: Index, c: Client, ks: set<Key>, flags: set<Client>)
    requires Consistent(x, flags) && ks <= x.Table(c).Keys
    ensures NodesAreInTables(Release(x, c, ks, c in flags))
  {
    hide DistinctNodes, Flagged, Unlink;
    var y := Release(x, c, ks, c in flags);
    forall k, n | k in y.fifo && n in y.fifo[k]
      ensures n.client in y.tables && k in y.tables[n.client] && y.tables[n.client][k] == n.id < y.next
    {
      if k in ks {
        Unlinked(x, c, k, flags);
      }
    }
  }

  lemma ReleaseLists(x: Index, c: Client, ks: set<Key>, flags: set<Client>)
    requires Consistent(x, flags) && ks <= x.Table(c).Keys
    ensures FifosAreLists(Release(x, c, ks, c in flags))
  {
    hide DistinctNodes, Flagged, Unlink;
    var y := Release(x, c, ks, c in flags);
    forall k | k in y.fifo
      ensures y.fifo[k] != [] && DistinctNodes(y.fifo[k])
    {
      if k in ks {
        Unlinked(x, c, k, flags);
      }
    }
  }

  lemma ReleaseWakeups(x: Index, c: Client, ks: set<Key>, flags: set<Client>)
    requires Consistent(x, flags) && ks <= x.Table(c).Keys
    ensures WakeupsCounted(Release(x, c, ks, c in flags), flags)
  {
    hide DistinctNodes, Flagged, Unlink;
    var y := Release(x, c, ks, c in flags);
    forall k | k in ks
      ensures Flagged(Unlink(x.fifo[k], x.Table(c)[k]), flags) == Flagged(x.fifo[k], flags) - if c in flags then 1 else 0
      ensures k in x.fifo
    {
      Unlinked(x, c, k, flags);
    }
  }

  // ---- consequences -------------------------------------------------------------------------------------------------

  ghost function Occurrences(f: seq<Node>, c: Client): nat {
    if f == [] then 0 else Occurrences(f[..|f| - 1], c) + if f[|f| - 1].client == c then 1 else 0
  }

  lemma {:induction false} OccursOnce(f: seq<Node>, c: Client, id: nat)
    requires DistinctNodes(f) && forall n :: n in f && n.client == c ==> n.id == id
    ensures Occurrences(f, c) == if Node(id, c) in f then 1 else 0
  {
    if f != [] {
      var last, rest := f[|f| - 1], f[..|f| - 1];
      assert f == rest + [last];
      OccursOnce(rest, c, id);
    }
  }

  /** A client stands in the list of a key exactly once if the key is in its own table, and otherwise not at all. */
  lemma ListedExactlyOnce(x: Index, flags: set<Client>, c: Client, k: Key)
    requires Consistent(x, flags)
    ensures Occurrences(Waiters(x, k), c) == if k in x.Table(c) then 1 else 0
  {
    hide DistinctNodes, Flagged, Occurrences;
    NoNodes(flags);
    OccursOnce(Waiters(x, k), c, if k in x.Table(c) then x.Table(c)[k] else 0);
  }

  lemma ListsTwice(fifo: map<Key, seq<Node>>, t: map<Key, nat>, u: map<Key, nat>, a: set<Key>, b: set<Key>)
    requires a + b <= t.Keys && b <= u.Keys && a !! b && forall k :: k in b ==> t[k] == u[k]
    ensures ReleasedLists(ReleasedLists(fifo, t, a), u, b) == ReleasedLists(fifo, t, a + b)
  {
    hide Unlink;
  }

  lemma WakeupsTwice(nokey: map<Key, nat>, fifo: map<Key, seq<Node>>, t: map<Key, nat>, a: set<Key>, b: set<Key>, flag: bool)
    requires a <= t.Keys && a !! b
    ensures ReleasedWakeups(ReleasedWakeups(nokey, fifo, a, flag), ReleasedLists(fifo, t, a), b, flag) == ReleasedWakeups(nokey, fifo, a + b, flag)
  {
    hide Unlink;
  }

  /** Releasing keys in two steps is releasing them together, also while the client's table still lists them all. */
  lemma ReleaseTwice(x: Index, c: Client, a: set<Key>, b: set<Key>, flag: bool)
    requires a + b <= x.Table(c).Keys && a !! b
    ensures Release(Release(x, c, a, flag), c, b, flag) == Release(x, c, a + b, flag)
    ensures Release(Release(x, c, a, flag).(tables := x.tables), c, b, flag).(tables := map[]) == Release(x, c, a + b, flag).(tables := map[])
  {
    hide ReleasedLists, ReleasedWakeups;
    var t := x.Table(c);
    ListsTwice(x.fifo, t, t, a, b);
    ListsTwice(x.fifo, t, t - a, a, b);
    WakeupsTwice(x.nokey, x.fifo, t, a, b, flag);
    assert (t - a) - b == t - (a + b);
  }

  lemma ReleaseNothing(x: Index, c: Client, flag: bool)
    ensures Release(x, c, {}, flag).fifo == x.fifo && Release(x, c, {}, flag).nokey == x.nokey && Release(x, c, {}, flag).next == x.next
  {
  }
}
