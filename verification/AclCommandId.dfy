/** Command ids: how commands get their bits, and when all of them fit the bitmap. */
module AclCommandId {
  import opened Text
  import opened AclCommands

  /** The id given to the n-th new name: the reserved last bit is skipped. */
  function NthId(n: nat): nat {
    if n < BITS - 1 then n else n + 1
  }

  class CommandIds {
    var ids: map<string, nat>
    var next: nat

    /** The names got the ids NthId(0), NthId(1), ... in some order, each of them once. */
    ghost predicate Valid()
      reads this
    {
      && next == NthId(|ids|)
      && (forall n :: n in ids ==> ids[n] < next && ids[n] != BITS - 1)
      && (forall n, m :: n in ids && m in ids && ids[n] == ids[m] ==> n == m)
      && (forall k :: 0 <= k < |ids| ==> exists n :: n in ids && ids[n] == NthId(k))
    }

    constructor ()
      ensures Valid() && ids == map[]
    {
      ids, next := map[], 0;
    }

    /** ACLGetCommandID: letter case is ignored and a known name keeps its id. */
    method GetCommandID(name: string) returns (id: nat)
      requires Valid()
      modifies this
      ensures Valid()
      ensures Lower(name) in ids && ids[Lower(name)] == id != BITS - 1
      ensures if Lower(name) in old(ids) then ids == old(ids) else ids == old(ids)[Lower(name) := NthId(|old(ids)|)]
    {
      var lower := Lower(name);
      if lower in ids {
        return ids[lower];
      }
      ghost var was := ids;
      ids := ids[lower := next];
      id := next;
      next := next + 1;
      if next == BITS - 1 {
        next := next + 1;
      }
      assert |ids| == |was| + 1 by {
        assert ids.Keys == was.Keys + {lower};
      }
      forall k | 0 <= k < |ids|
        ensures exists n :: n in ids && ids[n] == NthId(k)
      {
        if k < |was| {
          var n :| n in was && was[n] == NthId(k);
          assert n in ids && ids[n] == NthId(k);
        } else {
          assert ids[lower] == NthId(k);
        }
      }
    }
  }

  /** Every command has its bit below the reserved one exactly as long as there are at most BITS - 1 names. */
  lemma IdsFitIff(c: CommandIds)
    requires c.Valid()
    ensures (forall n :: n in c.ids ==> c.ids[n] < BITS - 1) <==> |c.ids| <= BITS - 1
  {
    if |c.ids| > BITS - 1 {
      var n :| n in c.ids && c.ids[n] == NthId(BITS - 1);
      assert c.ids[n] >= BITS;
    }
  }
}
