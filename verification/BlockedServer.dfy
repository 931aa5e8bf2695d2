/** The server's own structures, updated in place by blocking, unblocking, signalling and serving. */
module BlockedServer {
  import opened Blocking
  import opened BlockedState
  import opened Text

  class Server {
    var tables: map<Client, map<Key, nat>>
    var fifo: map<Key, seq<Node>>
    var nokey: map<Key, nat>
    var nextNode: nat
    var kinds: map<Client, Kind>
    var flags: set<Client>
    var count: map<Kind, int>
    var total: int
    var ready: set<Key>
    var queue: seq<Key>
    var current: seq<Key>

    ghost function Indexes(): Index
      reads this
    {
      Index(tables, fifo, nokey, nextNode)
    }

    ghost function St(): State
      reads this
    {
      State(Indexes(), kinds, flags, count, total, ready, queue, current)
    }

    constructor ()
      ensures St() == Initial() && Inv(St())
    {
      tables, fifo, nokey, nextNode := map[], map[], map[], 0;
      kinds, flags := map[], {};
      count, total := map[ListKind := 0, ZsetKind := 0, StreamKind := 0], 0;
      ready, queue, current := {}, [], [];
      new;
      InitialInv();
    }

    function Table(c: Client): (t: map<Key, nat>)
      reads this
      ensures t == Indexes().Table(c)
    {
      if c in tables then tables[c] else map[]
    }

    // ---- blocking ----------------------------------------------------------------------------------------

    method BlockForKeys(c: Client, kind: Kind, keys: seq<Key>, unblockOnNokey: bool)
      requires Inv(St()) && c !in kinds && keys != []
      modifies this
      ensures St() == Block(old(St()), c, kind, keys, unblockOnNokey) && Inv(St())
    {
      hide Inv, Block, AddKeys;
      ghost var s := St();
      KindCounted(s, kind);
      AddKeysToIndexes(c, keys, unblockOnNokey);
      flags := if unblockOnNokey then flags + {c} else flags - {c};
      BlockClient(c, kind);
      BlockIs(s, c, kind, keys, unblockOnNokey);
      BlockKeepsInv(s, c, kind, keys, unblockOnNokey);
    }

    method AddKeysToIndexes(c: Client, keys: seq<Key>, unblockOnNokey: bool)
      modifies this`tables, this`fifo, this`nokey, this`nextNode
      ensures Indexes() == AddKeys(old(Indexes()), c, keys, unblockOnNokey)
    {
      hide AddKey;
      for j := 0 to |keys|
        invariant Indexes() == AddKeys(old(Indexes()), c, keys[..j], unblockOnNokey)
      {
        AddKeyToIndexes(c, keys[j], unblockOnNokey);
        assert keys[..j + 1][..j] == keys[..j];
      }
      assert keys[..|keys|] == keys;
    }

    /** The body of the loop over the keys. */
    method AddKeyToIndexes(c: Client, k: Key, unblockOnNokey: bool)
      modifies this`tables, this`fifo, this`nokey, this`nextNode
      ensures Indexes() == AddKey(old(Indexes()), c, k, unblockOnNokey)
    {
      if k in Table(c) {
        return;
      }
      var l := if k in fifo then fifo[k] else [];
      l := l + [Node(nextNode, c)];
      fifo := fifo[k := l];
      tables := tables[c := Table(c)[k := nextNode]];
      nextNode := nextNode + 1;
      if unblockOnNokey {
        if k !in nokey {
          nokey := nokey[k := 1];
        } else {
          nokey := nokey[k := nokey[k] + 1];
        }
      }
    }

    method BlockClient(c: Client, kind: Kind)
      requires kind in count
      modifies this`kinds, this`count, this`total
      ensures kinds == old(kinds)[c := kind] && total == old(total) + 1 && count == old(count)[kind := old(count)[kind] + 1]
    {
      kinds := kinds[c := kind];
      total := total + 1;
      count := count[kind := count[kind] + 1];
    }

    // ---- unblocking --------------------------------------------------------------------------------------

    /** Takes the client out of the list of one key; its own table keeps the key unless `removeKey`. */
    method ReleaseBlockedEntry(c: Client, k: Key, removeKey: bool)
      requires k in Table(c) && k in fifo && fifo[k] != [] && |Unlink(fifo[k], Table(c)[k])| == |fifo[k]| - 1
      requires c in flags && |fifo[k]| > 1 ==> k in nokey && nokey[k] > 0
      modifies this`tables, this`fifo, this`nokey
      ensures Indexes().(tables := map[]) == Release(old(Indexes()), c, {k}, c in flags).(tables := map[])
      ensures tables == if removeKey then Release(old(Indexes()), c, {k}, c in flags).tables else old(tables)
    {
      hide Unlink, Release;
      ReleaseIs(Indexes(), c, k, c in flags);
      var l := Unlink(fifo[k], Table(c)[k]);
      if l == [] {
        fifo := fifo - {k};
        nokey := nokey - {k};
      } else {
        fifo := fifo[k := l];
        if c in flags {
          if nokey[k] - 1 == 0 {
            nokey := nokey - {k};
          } else {
            nokey := nokey[k := nokey[k] - 1];
          }
        }
      }
      if removeKey {
        tables := tables[c := Table(c) - {k}];
      }
    }

    method UnblockClientWaitingData(c: Client)
      requires Consistent(Indexes(), flags) && c in tables
      modifies this`tables, this`fifo, this`nokey
      ensures Indexes() == Release(old(Indexes()), c, old(Table(c)).Keys, c in flags)
    {
      hide Consistent, Release;
      ghost var x := Indexes();
      ReleaseAllEntries(c);
      ReleaseClears(x, c, c in flags);
      tables := tables[c := map[]];
    }

    /** The loop over the client's table, in any order. */
    method ReleaseAllEntries(c: Client)
      requires Consistent(Indexes(), flags) && c in tables
      modifies this`tables, this`fifo, this`nokey
      ensures Indexes() == Release(old(Indexes()), c, old(Table(c)).Keys, c in flags).(tables := old(tables))
    {
      hide Consistent, Release, Unlink;
      ghost var x := Indexes();
      var left := Table(c).Keys;
      ReleaseNothing(x, c, c in flags);
      assert x.Table(c).Keys - left == {};
      while left != {}
        invariant left <= x.Table(c).Keys && tables == x.tables
        invariant Indexes() == Release(x, c, x.Table(c).Keys - left, c in flags).(tables := x.tables)
        decreases left
      {
        var k :| k in left;
        ghost var done := x.Table(c).Keys - left;
        Releasable(x, c, flags, done, k);
        ReleaseTwice(x, c, done, {k}, c in flags);
        ReleaseBlockedEntry(c, k, false);
        left := left - {k};
        assert x.Table(c).Keys - left == done + {k};
      }
      assert x.Table(c).Keys - {} == x.Table(c).Keys;
    }

    method UnblockClient(c: Client)
      requires Consistent(Indexes(), flags) && c in tables && c in kinds && kinds[c] in count
      modifies this
      ensures St() == Unblock(old(St()), c)
    {
      hide Consistent, Release;
      UnblockClientWaitingData(c);
      total := total - 1;
      count := count[kinds[c] := count[kinds[c]] - 1];
      kinds := kinds - {c};
      flags := flags - {c};
    }

    /** Timeouts and errors: the whole client is unblocked. */
    method UnblockOnTimeoutOrError(c: Client)
      requires Inv(St()) && c in kinds
      modifies this
      ensures St() == Unblock(old(St()), c) && Inv(St())
    {
      hide Consistent, Unblock, OfKind;
      UnblockKeepsInv(St(), c);
      UnblockClient(c);
    }

    /** The part of unblockClientOnKey before the command is processed again. */
    method LeaveAllKeys(c: Client, k: Key)
      requires Inv(St()) && k in Table(c)
      modifies this
      ensures St() == Unblock(old(St()), c) && Inv(St())
    {
      hide Consistent, Release, Unlink, OfKind;
      ghost var s := St();
      UnblockKeepsInv(s, c);
      ReleaseNothing(s.index, c, c in flags);
      Releasable(s.index, c, flags, {}, k);
      ReleaseKeeps(s.index, c, {k}, flags);
      ReleaseBlockedEntry(c, k, true);
      assert Indexes() == Release(s.index, c, {k}, c in s.flags);
      RestOfTable(s.index, c, k, c in flags);
      UnblockClient(c);
    }

    // ---- signalling -------------------------------------------------------------------------------------------

    method SignalKeyAsReady(k: Key, t: ObjType, deleted: bool)
      requires Inv(St())
      modifies this`ready, this`queue
      ensures St() == Signal(old(St()), k, t, deleted) && Inv(St())
    {
      hide Consistent, OfKind;
      SignalKeepsInv(St(), k, t, deleted);
      var kind := BlockedType(t);
      if kind.None? {
        return;
      }
      if count[kind.value] == 0 {
        return;
      }
      if deleted {
        if k !in nokey {
          return;
        }
      } else {
        if k !in fifo {
          return;
        }
      }
      if k in ready {
        return;
      }
      ready := ready + {k};
      queue := queue + [k];
    }
  }

  /** An entry that has not been released yet can be. */
  lemma Releasable(x: Index, c: Client, flags: set<Client>, done: set<Key>, k: Key)
    requires Consistent(x, flags) && done <= x.Table(c).Keys && k in x.Table(c) && k !in done
    ensures var y := Release(x, c, done, c in flags);
      && k in y.fifo && y.fifo[k] != [] && |Unlink(y.fifo[k], x.Table(c)[k])| == |y.fifo[k]| - 1
      && (c in flags ==> k in y.nokey && y.nokey[k] > 0)
  {
    hide Flagged, DistinctNodes, Unlink;
    Unlinked(x, c, k, flags);
    if c in flags {
      FlaggedSome(x.fifo[k], flags, Node(x.Table(c)[k], c));
    }
  }

  lemma ReleaseClears(x: Index, c: Client, flag: bool)
    ensures Release(x, c, x.Table(c).Keys, flag).tables == x.tables[c := map[]]
  {
  }

  lemma RestOfTable(x: Index, c: Client, k: Key, flag: bool)
    requires k in x.Table(c)
    ensures var y := Release(x, c, {k}, flag);
      && c in y.tables && y.Table(c).Keys == x.Table(c).Keys - {k}
      && Release(y, c, y.Table(c).Keys, flag) == Release(x, c, x.Table(c).Keys, flag)
  {
    hide Unlink;
    ReleaseTwice(x, c, {k}, x.Table(c).Keys - {k}, flag);
    assert {k} + (x.Table(c).Keys - {k}) == x.Table(c).Keys;
  }

  lemma BlockIs(s: State, c: Client, kind: Kind, keys: seq<Key>, flag: bool)
    requires kind in s.count
    ensures Block(s, c, kind, keys, flag) == State(AddKeys(s.index, c, keys, flag), s.kinds[c := kind],
      if flag then s.flags + {c} else s.flags - {c}, s.count[kind := s.count[kind] + 1], s.total + 1, s.ready, s.queue, s.current)
  {
  }

  /** Releasing a single key, spelled out. */
  lemma ReleaseIs(x: Index, c: Client, k: Key, flag: bool)
    requires k in x.Table(c) && k in x.fifo && x.fifo[k] != []
    ensures Release(x, c, {k}, flag).tables == x.tables[c := x.Table(c) - {k}]
    ensures Release(x, c, {k}, flag).fifo
         == if |x.fifo[k]| <= 1 then x.fifo - {k} else x.fifo[k := Unlink(x.fifo[k], x.Table(c)[k])]
    ensures Release(x, c, {k}, flag).nokey
         == if |x.fifo[k]| <= 1 || (flag && k in x.nokey && x.nokey[k] <= 1) then x.nokey - {k}
            else if flag && k in x.nokey then x.nokey[k := x.nokey[k] - 1] else x.nokey
    ensures Release(x, c, {k}, flag).next == x.next
  {
    hide Unlink;
  }

  lemma KindCounted(s: State, kind: Kind)
    requires Inv(s)
    ensures kind in s.count
  {
  }
}
