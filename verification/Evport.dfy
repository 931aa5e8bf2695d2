/** Event ports: which descriptors are associated in the kernel and which are pending. */
module Evport {

  /** AE_READABLE, AE_WRITABLE and AE_BARRIER. */
  datatype Mask = Mask(readable: bool, writable: bool, barrier: bool) {
    function Or(m: Mask): Mask { Mask(readable || m.readable, writable || m.writable, barrier || m.barrier) }
    function And(m: Mask): Mask { Mask(readable && m.readable, writable && m.writable, barrier && m.barrier) }
    function Without(m: Mask): Mask { Mask(readable && !m.readable, writable && !m.writable, barrier && !m.barrier) }
  }

  const NONE := Mask(false, false, false)
  const BARRIER := Mask(false, false, true)
  const BATCH := 512

  /** The registered masks, the kernel associations, the descriptors returned by the last poll, the largest descriptor. */
  datatype Loop = Loop(events: seq<Mask>, kernel: map<nat, Mask>, pending: map<nat, Mask>, maxfd: int)

  /** The descriptor is associated in the kernel, or else pending, with exactly its registered mask. */
  ghost predicate EitherOr(l: Loop, fd: nat)
    requires fd < |l.events|
  {
    if l.events[fd] == NONE then fd !in l.kernel && fd !in l.pending
    else
      || (fd in l.kernel && l.kernel[fd] == l.events[fd] && fd !in l.pending)
      || (fd in l.pending && l.pending[fd] == l.events[fd] && fd !in l.kernel)
  }

  ghost predicate IsMax(events: seq<Mask>, maxfd: int) {
    && -1 <= maxfd < |events|
    && (maxfd >= 0 ==> events[maxfd] != NONE)
    && forall fd :: maxfd < fd < |events| ==> events[fd] == NONE
  }

  ghost predicate Inv(l: Loop) {
    && (forall fd :: 0 <= fd < |l.events| ==> EitherOr(l, fd))
    && (forall fd :: fd in l.kernel || fd in l.pending ==> fd < |l.events|)
    && IsMax(l.events, l.maxfd)
  }

  datatype Result = Ok(l: Loop) | Err | Abort

  // ---- the calls ---------------------------------------------------------------------------------------------

  /** aeApiAddEvent; `ok` is what port_associate answers. */
  function AddEvent(l: Loop, fd: nat, mask: Mask, ok: bool): Result
    requires fd < |l.events|
  {
    var full := mask.Or(l.events[fd]);
    if fd in l.pending then Ok(l.(pending := l.pending[fd := l.pending[fd].Or(full)]))
    else if ok then Ok(l.(kernel := l.kernel[fd := full]))
    else Err
  }

  /** aeCreateFileEvent. */
  function Create(l: Loop, fd: nat, mask: Mask, ok: bool): Result {
    if fd >= |l.events| then Err
    else match AddEvent(l, fd, mask, ok)
      case Ok(m) => Ok(m.(events := m.events[fd := m.events[fd].Or(mask)], maxfd := if fd > m.maxfd then fd else m.maxfd))
      case r => r
  }

  /** aeApiDelEvent, after the caller has updated the registered mask. */
  function DelEvent(l: Loop, fd: nat, mask: Mask): Result
    requires fd < |l.events|
  {
    if fd in l.pending then
      var left := l.pending[fd].Without(mask);
      Ok(l.(pending := if left == NONE then l.pending - {fd} else l.pending[fd := left]))
    else if l.events[fd] == NONE then
      if fd in l.kernel then Ok(l.(kernel := l.kernel - {fd})) else Abort
    else Ok(l.(kernel := l.kernel[fd := l.events[fd]]))
  }

  /** The largest descriptor below `n` with a registered mask. */
  function LargestBelow(events: seq<Mask>, n: nat): int
    requires n <= |events|
  {
    if n == 0 then -1 else if events[n - 1] != NONE then n - 1 else LargestBelow(events, n - 1)
  }

  /** The events a delete takes away: a removed AE_WRITABLE takes AE_BARRIER with it. */
  function Removed(l: Loop, fd: nat, mask: Mask): Mask
    requires fd < |l.events|
  {
    (if mask.writable then mask.Or(BARRIER) else mask).And(l.events[fd])
  }

  /** aeDeleteFileEvent. */
  function Delete(l: Loop, fd: nat, mask: Mask): Result
    requires l.maxfd < |l.events|
  {
    if fd >= |l.events| || l.events[fd] == NONE then Ok(l)
    else
      var gone := Removed(l, fd, mask);
      var events := l.events[fd := l.events[fd].Without(gone)];
      var maxfd := if fd == l.maxfd && events[fd] == NONE then LargestBelow(events, fd) else l.maxfd;
      var m := l.(events := events, maxfd := maxfd);
      if gone.readable || gone.writable then DelEvent(m, fd, gone) else Ok(m)
  }

  /** aeApiPoll: pending descriptors are associated again, then the fired ones leave the kernel and become pending. */
  ghost function Poll(l: Loop, fired: seq<nat>): Loop
    requires forall i :: 0 <= i < |fired| ==> fired[i] in l.kernel + l.pending
  {
    var kernel := l.kernel + l.pending;
    l.(kernel := kernel - (set fd | fd in fired), pending := map fd | fd in fired :: kernel[fd])
  }

  // ---- what they keep --------------------------------------------------------------------------------------------

  lemma {:induction false} LargestIsMax(events: seq<Mask>, n: nat)
    requires n <= |events| && forall fd :: n <= fd < |events| ==> events[fd] == NONE
    ensures IsMax(events, LargestBelow(events, n))
  {
    if n > 0 && events[n - 1] == NONE {
      LargestIsMax(events, n - 1);
    }
  }

  /** A create keeps the invariant exactly when it leaves the descriptor with some event. */
  lemma CreateKeepsInvIff(l: Loop, fd: nat, mask: Mask, ok: bool)
    requires Inv(l)
    ensures Create(l, fd, mask, ok) != Abort
    ensures Create(l, fd, mask, ok).Ok? ==>
      (Inv(Create(l, fd, mask, ok).l) <==> !(mask == NONE && l.events[fd] == NONE))
  {
    var r := Create(l, fd, mask, ok);
    if r.Ok? {
      var m := r.l;
      assert EitherOr(l, fd);
      assert forall j :: 0 <= j < |l.events| && j != fd ==> (EitherOr(m, j) <==> EitherOr(l, j));
      if mask == NONE && l.events[fd] == NONE {
        assert !EitherOr(m, fd);
      } else {
        assert EitherOr(m, fd);
      }
    }
  }

  /** The delete takes AE_BARRIER, by name or along with AE_WRITABLE, and no event that is registered. */
  predicate TakesBarrierAlone(l: Loop, fd: nat, mask: Mask) {
    && fd < |l.events| && l.events[fd].barrier && (mask.barrier || mask.writable)
    && !(l.events[fd].readable && mask.readable) && !(l.events[fd].writable && mask.writable)
  }

  lemma RemovedIs(l: Loop, fd: nat, mask: Mask)
    requires fd < |l.events|
    ensures Removed(l, fd, mask) == BARRIER <==> TakesBarrierAlone(l, fd, mask)
  {
  }

  /** A delete keeps the invariant exactly when it does not take away AE_BARRIER alone, and it never aborts. */
  lemma DeleteKeepsInvIff(l: Loop, fd: nat, mask: Mask)
    requires Inv(l)
    ensures Delete(l, fd, mask).Ok?
    ensures Inv(Delete(l, fd, mask).l) <==> !TakesBarrierAlone(l, fd, mask)
  {
    if fd < |l.events| {
      RemovedIs(l, fd, mask);
      if l.events[fd] != NONE {
        DeletedEntry(l, fd, mask);
        DeletedMax(l, fd, Removed(l, fd, mask));
      }
    }
  }

  lemma DeletedEntry(l: Loop, fd: nat, mask: Mask)
    requires Inv(l) && fd < |l.events| && l.events[fd] != NONE
    ensures Delete(l, fd, mask).Ok?
    ensures var m := Delete(l, fd, mask).l;
      && |m.events| == |l.events|
      && (EitherOr(m, fd) <==> Removed(l, fd, mask) != BARRIER)
      && (forall j :: 0 <= j < |l.events| && j != fd ==> EitherOr(m, j))
      && (forall j :: j in m.kernel || j in m.pending ==> j < |l.events|)
  {
    assert l.maxfd < |l.events|;
    hide IsMax, LargestBelow;
    assert EitherOr(l, fd);
    var m := Delete(l, fd, mask).l;
    assert forall j :: 0 <= j < |l.events| && j != fd ==> (EitherOr(m, j) <==> EitherOr(l, j));
  }

  // ---- what they do ----------------------------------------------------------------------------------------------

  /** Only the entries of one descriptor differ. */
  ghost predicate OnlyAt(l: Loop, m: Loop, fd: nat) {
    && |m.events| == |l.events| && (forall j :: 0 <= j < |l.events| && j != fd ==> m.events[j] == l.events[j])
    && (forall j :: j != fd ==> (j in m.kernel <==> j in l.kernel) && (j in l.kernel && j in m.kernel ==> m.kernel[j] == l.kernel[j]))
    && (forall j :: j != fd ==> (j in m.pending <==> j in l.pending) && (j in l.pending && j in m.pending ==> m.pending[j] == l.pending[j]))
  }

  /** A create registers the given events besides those there were; it fails for a descriptor out of
      range, and when the kernel refuses an association that is needed now. */
  lemma CreateDoes(l: Loop, fd: nat, mask: Mask, ok: bool)
    ensures var r := Create(l, fd, mask, ok);
      if fd >= |l.events| || (fd !in l.pending && !ok) then r == Err
      else
        && r.Ok? && OnlyAt(l, r.l, fd)
        && (r.l.events[fd].readable <==> l.events[fd].readable || mask.readable)
        && (r.l.events[fd].writable <==> l.events[fd].writable || mask.writable)
        && (r.l.events[fd].barrier <==> l.events[fd].barrier || mask.barrier)
        && r.l.maxfd == if fd > l.maxfd then fd else l.maxfd
  {
  }

  /** A delete clears the given events of its descriptor, AE_BARRIER also when AE_WRITABLE is given,
      and touches no other descriptor; the largest descriptor is found again. */
  lemma DeleteDoes(l: Loop, fd: nat, mask: Mask)
    requires Inv(l)
    ensures var r := Delete(l, fd, mask);
      && r.Ok? && OnlyAt(l, r.l, fd) && IsMax(r.l.events, r.l.maxfd)
      && if fd >= |l.events| then r.l == l
         else
           && (r.l.events[fd].readable <==> l.events[fd].readable && !mask.readable)
           && (r.l.events[fd].writable <==> l.events[fd].writable && !mask.writable)
           && (r.l.events[fd].barrier <==> l.events[fd].barrier && !mask.barrier && !mask.writable)
  {
    if fd < |l.events| && l.events[fd] != NONE {
      DeletedEntry(l, fd, mask);
      DeletedMax(l, fd, Removed(l, fd, mask));
      DeletedElsewhere(l, fd, mask);
    }
  }

  lemma DeletedElsewhere(l: Loop, fd: nat, mask: Mask)
    requires l.maxfd < |l.events| && Delete(l, fd, mask).Ok?
    ensures OnlyAt(l, Delete(l, fd, mask).l, fd)
  {
    hide LargestBelow;
  }

  /** A poll leaves the fired descriptors pending and all other registered ones associated, each with
      its mask. */
  lemma PollDoes(l: Loop, fired: seq<nat>, fd: nat)
    requires Inv(l) && fd < |l.events| && forall i :: 0 <= i < |fired| ==> fired[i] in l.kernel + l.pending
    ensures var m := Poll(l, fired);
      && m.events == l.events && m.maxfd == l.maxfd
      && (fd in m.pending <==> fd in fired) && (fd in m.kernel <==> l.events[fd] != NONE && fd !in fired)
      && (fd in m.pending ==> m.pending[fd] == l.events[fd]) && (fd in m.kernel ==> m.kernel[fd] == l.events[fd])
  {
    assert EitherOr(l, fd);
    if fd in fired {
      var i :| 0 <= i < |fired| && fired[i] == fd;
      assert fired[i] in l.kernel + l.pending;
    }
  }

  lemma DeletedMax(l: Loop, fd: nat, gone: Mask)
    requires Inv(l) && fd < |l.events|
    ensures var events := l.events[fd := l.events[fd].Without(gone)];
      IsMax(events, if fd == l.maxfd && events[fd] == NONE then LargestBelow(events, fd) else l.maxfd)
  {
    var events := l.events[fd := l.events[fd].Without(gone)];
    if fd == l.maxfd && events[fd] == NONE {
      LargestIsMax(events, fd);
    } else if fd > l.maxfd {
      assert l.events[fd] == NONE;
    }
  }

  lemma PollKeepsInv(l: Loop, fired: seq<nat>)
    requires Inv(l) && forall i :: 0 <= i < |fired| ==> fired[i] in l.kernel + l.pending
    ensures Inv(Poll(l, fired))
  {
    var m := Poll(l, fired);
    forall fd | 0 <= fd < |m.events|
      ensures EitherOr(m, fd)
    {
      assert EitherOr(l, fd);
    }
  }

  // ---- runs ------------------------------------------------------------------------------------------------------

  datatype Call =
    | CreateCall(fd: nat, mask: Mask, ok: bool)
    | DeleteCall(fd: nat, mask: Mask)
    | PollCall(fired: seq<nat>)

  /** What a call makes of the loop; a poll returns only associated descriptors. */
  ghost function Apply(l: Loop, c: Call): Loop
    requires Inv(l)
  {
    match c
    case CreateCall(fd, mask, ok) => if Create(l, fd, mask, ok).Ok? then Create(l, fd, mask, ok).l else l
    case DeleteCall(fd, mask) => if Delete(l, fd, mask).Ok? then Delete(l, fd, mask).l else l
    case PollCall(fired) =>
      if forall i :: 0 <= i < |fired| ==> fired[i] in l.kernel + l.pending then Poll(l, fired) else l
  }

  /** A create that leaves the descriptor with an event; a delete that does not remove AE_BARRIER alone. */
  predicate SoundCall(l: Loop, c: Call) {
    match c
    case CreateCall(fd, mask, ok) => !(fd < |l.events| && mask == NONE && l.events[fd] == NONE)
    case DeleteCall(fd, mask) => !TakesBarrierAlone(l, fd, mask)
    case PollCall(fired) => true
  }

  lemma ApplyKeeps(l: Loop, c: Call)
    requires Inv(l) && SoundCall(l, c)
    ensures Inv(Apply(l, c)) && |Apply(l, c).events| == |l.events|
  {
    hide Inv;
    match c {
      case CreateCall(fd, mask, ok) => CreateKeepsInvIff(l, fd, mask, ok);
      case DeleteCall(fd, mask) => DeleteKeepsInvIff(l, fd, mask);
      case PollCall(fired) =>
        if forall i :: 0 <= i < |fired| ==> fired[i] in l.kernel + l.pending {
          PollKeepsInv(l, fired);
        }
    }
  }

  function Fresh(setsize: nat): Loop {
    Loop(seq(setsize, _ => NONE), map[], map[], -1)
  }

  lemma FreshInv(setsize: nat)
    ensures Inv(Fresh(setsize))
  {
  }

  /** Every call of the run is sound where it is made. */
  ghost predicate SoundRun(l: Loop, calls: seq<Call>)
    requires Inv(l)
    decreases |calls|
  {
    calls == [] || (SoundCall(l, calls[0]) && (ApplyKeeps(l, calls[0]); SoundRun(Apply(l, calls[0]), calls[1..])))
  }

  ghost function Run(l: Loop, calls: seq<Call>): (r: Loop)
    requires Inv(l) && SoundRun(l, calls)
    ensures Inv(r) && |r.events| == |l.events|
    decreases |calls|
  {
    if calls == [] then l else (ApplyKeeps(l, calls[0]); Run(Apply(l, calls[0]), calls[1..]))
  }

  /** After every run a descriptor is associated in the kernel or pending, never both, with exactly its mask. */
  lemma EveryRunIsEitherOr(setsize: nat, calls: seq<Call>, fd: nat)
    requires fd < setsize && (FreshInv(setsize); SoundRun(Fresh(setsize), calls))
    ensures (FreshInv(setsize); EitherOr(Run(Fresh(setsize), calls), fd))
  {
    FreshInv(setsize);
    hide Run, SoundRun, EitherOr;
  }

  /** Removing AE_BARRIER by itself leaves a descriptor pending, later associated, that has no event left. */
  lemma BarrierAloneLeavesAGhost()
    ensures var writable := Mask(false, true, false);
      var l1 := Create(Fresh(1), 0, writable.Or(BARRIER), true).l;
      var l2 := Delete(l1, 0, BARRIER).l;
      var l3 := Poll(l2, [0]);
      var l4 := Delete(l3, 0, writable);
      l4.Ok? && l4.l.events[0] == NONE && 0 in l4.l.pending && 0 in Poll(l4.l, []).kernel
  {
    var writable := Mask(false, true, false);
    var l1 := Create(Fresh(1), 0, writable.Or(BARRIER), true).l;
    assert l1.kernel == map[0 := Mask(false, true, true)] && l1.events == [Mask(false, true, true)];
    var l2 := Delete(l1, 0, BARRIER).l;
    assert l2.kernel == l1.kernel && l2.events == [writable] && l2.pending == map[];
    var l3 := Poll(l2, [0]);
    assert l3.pending[0] == Mask(false, true, true);
    var l4 := Delete(l3, 0, writable).l;
    assert l4.pending[0] == BARRIER;
  }
}
