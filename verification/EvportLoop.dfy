/** The event loop and its event-port state, updated in place. */
module EvportLoop {
  import opened Evport

  // ---- the two parallel arrays as a table ------------------------------------------------------------------------

  /** Descriptors that were deleted since the poll are marked -1. */
  ghost predicate Distinct(fds: seq<int>) {
    && (forall i :: 0 <= i < |fds| ==> fds[i] >= -1)
    && (forall i, j :: 0 <= i < j < |fds| && fds[i] != -1 ==> fds[i] != fds[j])
  }

  ghost function Table(fds: seq<int>, masks: seq<Mask>): map<nat, Mask>
    requires |fds| == |masks| && Distinct(fds)
  {
    if fds == [] then map[]
    else
      var n := |fds| - 1;
      var rest := Table(fds[..n], masks[..n]);
      if fds[n] == -1 then rest else rest[fds[n] as nat := masks[n]]
  }

  lemma {:induction false} TableHas(fds: seq<int>, masks: seq<Mask>, fd: nat)
    requires |fds| == |masks| && Distinct(fds)
    ensures fd in Table(fds, masks) <==> fd in fds
  {
    if fds != [] {
      var n := |fds| - 1;
      TableHas(fds[..n], masks[..n], fd);
      assert fds == fds[..n] + [fds[n]];
    }
  }

  lemma {:induction false} TableAt(fds: seq<int>, masks: seq<Mask>, i: nat)
    requires |fds| == |masks| && Distinct(fds) && i < |fds| && fds[i] != -1
    ensures fds[i] in Table(fds, masks) && Table(fds, masks)[fds[i] as nat] == masks[i]
  {
    var n := |fds| - 1;
    if i < n {
      TableAt(fds[..n], masks[..n], i);
    }
  }

  lemma {:induction false} TableUpdated(fds: seq<int>, masks: seq<Mask>, i: nat, m: Mask)
    requires |fds| == |masks| && Distinct(fds) && i < |fds| && fds[i] != -1
    ensures Table(fds, masks[i := m]) == Table(fds, masks)[fds[i] as nat := m]
  {
    var n := |fds| - 1;
    if i < n {
      TableUpdated(fds[..n], masks[..n], i, m);
      assert masks[i := m][..n] == masks[..n][i := m];
    } else {
      assert masks[i := m][..n] == masks[..n];
    }
  }

  lemma {:induction false} TableCleared(fds: seq<int>, masks: seq<Mask>, i: nat)
    requires |fds| == |masks| && Distinct(fds) && i < |fds| && fds[i] != -1
    ensures Distinct(fds[i := -1]) && Table(fds[i := -1], masks) == Table(fds, masks) - {fds[i] as nat}
  {
    var n := |fds| - 1;
    if i < n {
      TableCleared(fds[..n], masks[..n], i);
      assert fds[i := -1][..n] == fds[..n][i := -1];
    } else {
      assert fds[i := -1][..n] == fds[..n];
      TableHas(fds[..n], masks[..n], fds[i]);
    }
  }

  // ---- the loop ---------------------------------------------------------------------------------------------------

  class EventLoop {
    const events: array<Mask>
    const pendingFds: array<int>
    const pendingMasks: array<Mask>
    var npending: nat
    var maxfd: int
    /** The kernel's own table of associations. */
    var kernel: map<nat, Mask>

    ghost predicate Valid()
      reads this, pendingFds, pendingMasks, events
    {
      && events != pendingMasks && pendingFds.Length == pendingMasks.Length == BATCH && npending <= BATCH
      && Distinct(pendingFds[..npending]) && -1 <= maxfd < events.Length
    }

    /** The loop the fields stand for. */
    ghost function L(): Loop
      requires Valid()
      reads this, pendingFds, pendingMasks, events
    {
      Loop(events[..], kernel, Table(pendingFds[..npending], pendingMasks[..npending]), maxfd)
    }

    constructor (setsize: nat)
      ensures Valid() && fresh(events) && fresh(pendingFds) && fresh(pendingMasks) && L() == Fresh(setsize)
    {
      events := new Mask[setsize](_ => NONE);
      pendingFds := new int[BATCH](_ => -1);
      pendingMasks := new Mask[BATCH](_ => NONE);
      npending, maxfd, kernel := 0, -1, map[];
    }

    /** aeApiLookupPending. */
    method LookupPending(fd: nat) returns (r: int)
      requires Valid()
      ensures r == -1 <==> fd !in L().pending
      ensures r != -1 ==> 0 <= r < npending && pendingFds[r] == fd && L().pending[fd] == pendingMasks[r]
    {
      TableHas(pendingFds[..npending], pendingMasks[..npending], fd);
      var i := 0;
      while i < npending
        invariant i <= npending && forall j :: 0 <= j < i ==> pendingFds[j] != fd
      {
        if pendingFds[i] == fd {
          TableAt(pendingFds[..npending], pendingMasks[..npending], i);
          return i;
        }
        i := i + 1;
      }
      return -1;
    }

    method SetPendingMask(pfd: nat, m: Mask)
      requires Valid() && pfd < npending && pendingFds[pfd] != -1
      modifies pendingMasks
      ensures Valid() && L() == old(L()).(pending := old(L()).pending[pendingFds[pfd] as nat := m]) && pendingMasks[pfd] == m
    {
      ghost var fds, masks := pendingFds[..npending], pendingMasks[..npending];
      TableUpdated(fds, masks, pfd, m);
      pendingMasks[pfd] := m;
      assert pendingMasks[..npending] == masks[pfd := m];
    }

    method ClearPending(pfd: nat)
      requires Valid() && pfd < npending && pendingFds[pfd] != -1
      modifies pendingFds
      ensures Valid() && L() == old(L()).(pending := old(L()).pending - {old(pendingFds[pfd]) as nat})
    {
      ghost var fds, masks := pendingFds[..npending], pendingMasks[..npending];
      TableCleared(fds, masks, pfd);
      pendingFds[pfd] := -1;
      assert pendingFds[..npending] == fds[pfd := -1];
    }

    /** aeApiAddEvent. */
    method ApiAddEvent(fd: nat, mask: Mask, ok: bool) returns (r: bool)
      requires Valid() && fd < events.Length
      modifies this`kernel, pendingMasks
      ensures Valid() && (r <==> AddEvent(old(L()), fd, mask, ok).Ok?)
      ensures L() == if r then AddEvent(old(L()), fd, mask, ok).l else old(L())
    {
      hide Table;
      var fullmask := mask.Or(events[fd]);
      var pfd := LookupPending(fd);
      if pfd != -1 {
        SetPendingMask(pfd, pendingMasks[pfd].Or(fullmask));
        return true;
      }
      if !ok {
        return false;
      }
      kernel := kernel[fd := fullmask];
      r := true;
    }

    /** aeCreateFileEvent. */
    method CreateFileEvent(fd: nat, mask: Mask, ok: bool) returns (r: bool)
      requires Valid()
      modifies this, pendingMasks, events
      ensures Valid() && (r <==> Create(old(L()), fd, mask, ok).Ok?)
      ensures L() == if r then Create(old(L()), fd, mask, ok).l else old(L())
    {
      hide Table;
      if fd >= events.Length {
        return false;
      }
      r := ApiAddEvent(fd, mask, ok);
      if r {
        events[fd] := events[fd].Or(mask);
        if fd > maxfd {
          maxfd := fd;
        }
      }
    }

    /** aeApiDelEvent; false where it would abort. */
    method ApiDelEvent(fd: nat, mask: Mask) returns (r: bool)
      requires Valid() && fd < events.Length
      modifies this`kernel, pendingMasks, pendingFds
      ensures Valid() && (r <==> DelEvent(old(L()), fd, mask).Ok?)
      ensures L().events == old(L()).events && L().maxfd == old(L()).maxfd
      ensures r ==> L() == DelEvent(old(L()), fd, mask).l
    {
      hide Table;
      var pfd := LookupPending(fd);
      if pfd != -1 {
        ghost var was := L().pending;
        SetPendingMask(pfd, pendingMasks[pfd].Without(mask));
        if pendingMasks[pfd] == NONE {
          ClearPending(pfd);
          assert L().pending == was - {fd};
        }
        return true;
      }
      var fullmask := events[fd];
      if fullmask == NONE {
        if fd !in kernel {
          return false;
        }
        kernel := kernel - {fd};
      } else {
        kernel := kernel[fd := fullmask];
      }
      r := true;
    }

    /** aeDeleteFileEvent, on a loop that satisfies the invariant: it never aborts. */
    method DeleteFileEvent(fd: nat, mask0: Mask)
      requires Valid() && Inv(L())
      modifies this, pendingMasks, pendingFds, events
      ensures Valid() && Ok(L()) == Delete(old(L()), fd, mask0)
    {
      hide Table, Inv;
      ghost var l := L();
      DeleteKeepsInvIff(l, fd, mask0);
      if fd >= events.Length || events[fd] == NONE {
        return;
      }
      var mask := if mask0.writable then mask0.Or(BARRIER) else mask0;
      mask := mask.And(events[fd]);
      events[fd] := events[fd].Without(mask);
      if fd == maxfd && events[fd] == NONE {
        var j := maxfd - 1;
        while j >= 0
          invariant -1 <= j < maxfd && LargestBelow(events[..], maxfd) == LargestBelow(events[..], j + 1)
        {
          if events[j] != NONE {
            break;
          }
          j := j - 1;
        }
        maxfd := j;
      }
      if mask.readable || mask.writable {
        var ok := ApiDelEvent(fd, mask);
      }
    }

    /** The first loop of aeApiPoll: whatever is pending goes back to the kernel. */
    method Reassociate()
      requires Valid()
      modifies this`kernel, this`npending, pendingFds, pendingMasks
      ensures Valid() && npending == 0
      ensures L() == old(L()).(kernel := old(L()).kernel + old(L()).pending, pending := map[])
    {
      hide Table, Distinct;
      ghost var fds, masks := pendingFds[..npending], pendingMasks[..npending];
      TableStart(fds, masks);
      for i := 0 to npending
        invariant npending == |fds| == |masks| && Distinct(fds) && Distinct(fds[..i])
        invariant forall k :: i <= k < npending ==> pendingFds[k] == fds[k] && pendingMasks[k] == masks[k]
        invariant kernel == old(kernel) + Table(fds[..i], masks[..i])
      {
        TableStep(fds, masks, i);
        if pendingFds[i] == -1 {
          continue;
        }
        kernel := kernel[pendingFds[i] as nat := pendingMasks[i]];
        pendingMasks[i] := NONE;
        pendingFds[i] := -1;
      }
      assert fds[..|fds|] == fds && masks[..|masks|] == masks;
      npending := 0;
      TableStart(pendingFds[..0], pendingMasks[..0]);
    }

    /** The second loop of aeApiPoll: the fired descriptors become the pending ones. */
    method FillPending(fired: seq<nat>, users: seq<Mask>)
      requires Valid() && |fired| == |users| <= BATCH && Distinct(fired)
      modifies this`npending, pendingFds, pendingMasks
      ensures Valid() && L() == old(L()).(pending := Table(fired, users))
    {
      hide Table, Distinct;
      npending := |fired|;
      for i := 0 to |fired|
        invariant npending == |fired|
        invariant forall k :: 0 <= k < i ==> pendingFds[k] == fired[k] && pendingMasks[k] == users[k]
      {
        pendingFds[i] := fired[i];
        pendingMasks[i] := users[i];
      }
      assert pendingFds[..npending] == fired && pendingMasks[..npending] == users;
    }

    /** aeApiPoll, where port_getn returns the descriptors `fired`, all of them associated by then. */
    method Poll(fired: seq<nat>)
      requires Valid() && |fired| <= BATCH && Distinct(fired)
      requires forall i :: 0 <= i < |fired| ==> fired[i] in L().kernel + L().pending
      modifies this, pendingFds, pendingMasks
      ensures Valid() && L() == Evport.Poll(old(L()), fired)
    {
      hide Table, Distinct;
      Reassociate();
      var associated := kernel;
      var users := seq(|fired|, i requires 0 <= i < |fired| => if fired[i] in associated then associated[fired[i]] else NONE);
      kernel := kernel - (set fd | fd in fired);
      FiredTable(fired, users, associated);
      FillPending(fired, users);
    }
  }

  lemma TableStart(fds: seq<int>, masks: seq<Mask>)
    requires |fds| == |masks|
    ensures Distinct(fds[..0]) && Table(fds[..0], masks[..0]) == map[]
  {
  }

  lemma TableStep(fds: seq<int>, masks: seq<Mask>, i: nat)
    requires |fds| == |masks| && Distinct(fds) && i < |fds|
    ensures fds[i] >= -1 && Distinct(fds[..i]) && Distinct(fds[..i + 1])
    ensures Table(fds[..i + 1], masks[..i + 1])
         == if fds[i] == -1 then Table(fds[..i], masks[..i]) else Table(fds[..i], masks[..i])[fds[i] as nat := masks[i]]
  {
    assert fds[..i + 1][..i] == fds[..i] && masks[..i + 1][..i] == masks[..i];
  }

  lemma {:induction false} FiredTable(fired: seq<nat>, users: seq<Mask>, kernel: map<nat, Mask>)
    requires |fired| == |users| && Distinct(fired) && forall i :: 0 <= i < |fired| ==> fired[i] in kernel && users[i] == kernel[fired[i]]
    ensures Table(fired, users) == map fd | fd in fired :: kernel[fd]
  {
    if fired != [] {
      var n := |fired| - 1;
      assert fired == fired[..n] + [fired[n]];
      FiredTable(fired[..n], users[..n], kernel);
    }
  }
}
