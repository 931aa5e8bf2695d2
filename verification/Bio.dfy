/** Background jobs: one queue per worker, shared with any number of submitters under the worker's mutex. */
module Bio {
  import opened Seqs

  datatype JobType = CloseFile | AofFsync | CloseAof | LazyFree

  /** A submitted job; `id` tells jobs with the same arguments apart. */
  datatype Job = Job(id: nat, jobType: JobType, fd: int)

  const WORKERS := 3

  /** bio_job_to_worker. */
  function WorkerOf(t: JobType): (w: nat)
    ensures w < WORKERS
  {
    match t
    case CloseFile => 0
    case AofFsync => 1
    case CloseAof => 1
    case LazyFree => 2
  }

  /** Where a worker stands in its loop: at its top with the lock, or with a job in hand and the lock released. */
  datatype Phase = AtTop | Taken | Executed

  /**
   * The queue of one worker, with what happened so far: every job ever submitted to it, the jobs whose
   * work was done and the jobs that were removed, each in order.
   */
  datatype Worker = Worker(jobs: seq<Job>, phase: Phase, submitted: seq<Job>, executed: seq<Job>, finished: seq<Job>)

  datatype State = State(workers: seq<Worker>, counter: map<JobType, int>)

  datatype Step =
    | Submit(job: Job)
    | Take(worker: nat)
    | Execute(worker: nat)
    | Finish(worker: nat)

  function Initial(): State {
    State(seq(WORKERS, _ => Worker([], AtTop, [], [], [])), map[CloseFile := 0, AofFsync := 0, CloseAof := 0, LazyFree := 0])
  }

  /** One critical section, or the unlocked work on a job; a step that is not enabled changes nothing. */
  function Next(s: State, step: Step): State
    requires |s.workers| == WORKERS && forall t: JobType :: t in s.counter
  {
    match step
    case Submit(job) =>
      var w := s.workers[WorkerOf(job.jobType)];
      State(s.workers[WorkerOf(job.jobType) := w.(jobs := w.jobs + [job], submitted := w.submitted + [job])],
        s.counter[job.jobType := s.counter[job.jobType] + 1])
    case Take(i) =>
      if i >= WORKERS || s.workers[i].phase != AtTop || s.workers[i].jobs == [] then s
      else s.(workers := s.workers[i := s.workers[i].(phase := Taken)])
    case Execute(i) =>
      if i >= WORKERS || s.workers[i].phase != Taken || s.workers[i].jobs == [] then s
      else s.(workers := s.workers[i := s.workers[i].(phase := Executed, executed := s.workers[i].executed + [s.workers[i].jobs[0]])])
    case Finish(i) =>
      if i >= WORKERS || s.workers[i].phase != Executed || s.workers[i].jobs == [] then s
      else
        var w := s.workers[i];
        var job := w.jobs[0];
        State(s.workers[i := w.(phase := AtTop, jobs := w.jobs[1..], finished := w.finished + [job])],
          s.counter[job.jobType := s.counter[job.jobType] - 1])
  }

  // ---- the invariant ---------------------------------------------------------------------------------------------

  ghost function Jobs(q: seq<Job>, t: JobType): nat {
    if q == [] then 0 else (if q[0].jobType == t then 1 else 0) + Jobs(q[1..], t)
  }

  lemma {:induction false} JobsAppend(q: seq<Job>, job: Job, t: JobType)
    ensures Jobs(q + [job], t) == Jobs(q, t) + if job.jobType == t then 1 else 0
  {
    if q == [] {
      assert q + [job] == [job];
    } else {
      assert (q + [job])[1..] == q[1..] + [job];
      JobsAppend(q[1..], job, t);
    }
  }

  /** Jobs finish in submission order; the one in hand stays at the head of the queue until it is finished. */
  ghost predicate InOrder(w: Worker, i: nat) {
    && w.submitted == w.finished + w.jobs
    && (w.phase != AtTop ==> w.jobs != [])
    && w.executed == w.finished + (if w.phase == Executed && w.jobs != [] then [w.jobs[0]] else [])
    && forall k :: 0 <= k < |w.submitted| ==> WorkerOf(w.submitted[k].jobType) == i
  }

  ghost predicate Inv(s: State) {
    && |s.workers| == WORKERS
    && (forall i :: 0 <= i < WORKERS ==> InOrder(s.workers[i], i))
    && (forall t: JobType :: t in s.counter && s.counter[t] == Jobs(s.workers[WorkerOf(t)].jobs, t))
  }

  lemma InitialInv()
    ensures Inv(Initial())
  {
    forall t: JobType
      ensures t in Initial().counter && Initial().counter[t] == 0
    {
      match t {
        case CloseFile =>
        case AofFsync =>
        case CloseAof =>
        case LazyFree =>
      }
    }
  }

  lemma SubmitKeepsInv(s: State, job: Job)
    requires Inv(s)
    ensures Inv(Next(s, Submit(job)))
  {
    hide Jobs;
    var i := WorkerOf(job.jobType);
    var w := s.workers[i];
    var s' := Next(s, Submit(job));
    assert InOrder(w, i);
    assert w.finished + (w.jobs + [job]) == (w.finished + w.jobs) + [job];
    assert InOrder(s'.workers[i], i);
    forall t: JobType
      ensures s'.counter[t] == Jobs(s'.workers[WorkerOf(t)].jobs, t)
    {
      JobsAppend(w.jobs, job, t);
    }
  }

  /** A worker that moves on without touching its queue. */
  lemma PhaseKeepsInv(s: State, i: nat, w: Worker)
    requires Inv(s) && i < WORKERS && w.jobs == s.workers[i].jobs && InOrder(w, i)
    ensures Inv(s.(workers := s.workers[i := w]))
  {
    hide Jobs, InOrder;
  }

  lemma TakeKeepsInv(s: State, i: nat)
    requires Inv(s)
    ensures Inv(Next(s, Take(i)))
  {
    hide Jobs;
    if i < WORKERS && s.workers[i].phase == AtTop && s.workers[i].jobs != [] {
      assert InOrder(s.workers[i], i);
      PhaseKeepsInv(s, i, s.workers[i].(phase := Taken));
    }
  }

  lemma ExecuteKeepsInv(s: State, i: nat)
    requires Inv(s)
    ensures Inv(Next(s, Execute(i)))
  {
    hide Jobs;
    if i < WORKERS && s.workers[i].phase == Taken && s.workers[i].jobs != [] {
      var w := s.workers[i];
      assert InOrder(w, i);
      assert w.finished + [] == w.finished;
      PhaseKeepsInv(s, i, w.(phase := Executed, executed := w.executed + [w.jobs[0]]));
    }
  }

  lemma FinishKeepsInv(s: State, i: nat)
    requires Inv(s)
    ensures Inv(Next(s, Finish(i)))
  {
    if i < WORKERS && s.workers[i].phase == Executed && s.workers[i].jobs != [] {
      var w := s.workers[i];
      assert InOrder(w, i);
      var s' := Next(s, Finish(i));
      assert w.jobs == [w.jobs[0]] + w.jobs[1..];
      assert w.finished + w.jobs == (w.finished + [w.jobs[0]]) + w.jobs[1..];
      assert w.submitted[|w.finished|] == w.jobs[0];
      assert InOrder(s'.workers[i], i);
      forall t: JobType
        ensures s'.counter[t] == Jobs(s'.workers[WorkerOf(t)].jobs, t)
      {
        assert t == w.jobs[0].jobType ==> WorkerOf(t) == i;
      }
    }
  }

  lemma NextKeepsInv(s: State, step: Step)
    requires Inv(s)
    ensures Inv(Next(s, step))
  {
    hide Inv;
    match step {
      case Submit(job) => SubmitKeepsInv(s, job);
      case Take(i) => TakeKeepsInv(s, i);
      case Execute(i) => ExecuteKeepsInv(s, i);
      case Finish(i) => FinishKeepsInv(s, i);
    }
  }

  /** Any interleaving. */
  ghost function Run(s: State, steps: seq<Step>): (r: State)
    requires Inv(s)
    ensures Inv(r)
    decreases |steps|
  {
    if steps == [] then s else (NextKeepsInv(s, steps[0]); Run(Next(s, steps[0]), steps[1..]))
  }

  // ---- what follows ---------------------------------------------------------------------------------------------------

  /** Under every interleaving: finished jobs are the first ones submitted, and the counters count the queued jobs. */
  lemma JobsFinishInOrder(steps: seq<Step>, i: nat, t: JobType)
    requires i < WORKERS
    ensures var s := (InitialInv(); Run(Initial(), steps));
      && s.workers[i].finished <= s.workers[i].executed <= s.workers[i].submitted
      && s.counter[t] == Jobs(s.workers[WorkerOf(t)].jobs, t)
      && s.workers[i].submitted == s.workers[i].finished + s.workers[i].jobs
  {
    InitialInv();
    var s := Run(Initial(), steps);
    hide Run, Jobs;
    assert InOrder(s.workers[i], i);
    var w := s.workers[i];
    if w.phase == Executed && w.jobs != [] {
      assert w.jobs == [w.jobs[0]] + w.jobs[1..];
    }
  }

  lemma NextExtends(s: State, step: Step, i: nat)
    requires Inv(s) && i < WORKERS
    ensures |Next(s, step).workers| == WORKERS
    ensures s.workers[i].submitted <= Next(s, step).workers[i].submitted
    ensures s.workers[i].executed <= Next(s, step).workers[i].executed
  {
    hide Jobs, InOrder;
  }

  lemma {:induction false} RunExtends(s: State, steps: seq<Step>, i: nat)
    requires Inv(s) && i < WORKERS
    ensures s.workers[i].submitted <= Run(s, steps).workers[i].submitted
    ensures s.workers[i].executed <= Run(s, steps).workers[i].executed
    decreases |steps|
  {
    if steps != [] {
      NextKeepsInv(s, steps[0]);
      NextExtends(s, steps[0], i);
      var n := Next(s, steps[0]);
      hide Next, Jobs, InOrder;
      RunExtends(n, steps[1..], i);
    }
  }

  /** Draining: once the queue is seen empty, every job submitted before the call is done. */
  lemma DrainedMeansDone(s: State, steps: seq<Step>, t: JobType)
    requires Inv(s) && Run(s, steps).workers[WorkerOf(t)].jobs == []
    ensures s.workers[WorkerOf(t)].submitted <= Run(s, steps).workers[WorkerOf(t)].finished
  {
    hide Run;
    RunExtends(s, steps, WorkerOf(t));
    var w := Run(s, steps).workers[WorkerOf(t)];
    assert InOrder(w, WorkerOf(t));
    assert w.finished + [] == w.finished;
  }

  // ---- the order of jobs of different types --------------------------------------------------------------------------

  /** The jobs a run submits to worker `i`, in order. */
  ghost function SubmittedBy(steps: seq<Step>, i: nat): seq<Job> {
    if steps == [] then []
    else (if steps[0].Submit? && WorkerOf(steps[0].job.jobType) == i then [steps[0].job] else []) + SubmittedBy(steps[1..], i)
  }

  lemma {:induction false} SubmittedByConcat(a: seq<Step>, b: seq<Step>, i: nat)
    ensures SubmittedBy(a + b, i) == SubmittedBy(a, i) + SubmittedBy(b, i)
  {
    if a == [] {
      assert a + b == b;
    } else {
      assert (a + b)[0] == a[0] && (a + b)[1..] == a[1..] + b;
      SubmittedByConcat(a[1..], b, i);
    }
  }

  lemma {:induction false} SubmittedByOnly(steps: seq<Step>, i: nat, job: Job)
    requires Submit(job) !in steps
    ensures job !in SubmittedBy(steps, i)
  {
    if steps != [] {
      SubmittedByOnly(steps[1..], i, job);
    }
  }

  lemma NextSubmits(s: State, step: Step, i: nat)
    requires Inv(s) && i < WORKERS
    ensures |Next(s, step).workers| == WORKERS
    ensures Next(s, step).workers[i].submitted == s.workers[i].submitted + SubmittedBy([step], i)
  {
    hide Jobs, InOrder;
    assert [step][1..] == [] && SubmittedBy([], i) == [];
  }

  lemma RunStep(s: State, steps: seq<Step>)
    requires Inv(s) && steps != []
    ensures Inv(Next(s, steps[0])) && Run(s, steps) == Run(Next(s, steps[0]), steps[1..])
  {
    hide Inv, Next;
    NextKeepsInv(s, steps[0]);
  }

  lemma {:induction false} RunSubmits(s: State, steps: seq<Step>, i: nat)
    requires Inv(s) && i < WORKERS
    ensures Run(s, steps).workers[i].submitted == s.workers[i].submitted + SubmittedBy(steps, i)
    decreases |steps|
  {
    if steps == [] {
      assert s.workers[i].submitted + [] == s.workers[i].submitted;
    } else {
      RunSubmitsStep(s, steps, i);
    }
  }

  lemma {:induction false} RunSubmitsStep(s: State, steps: seq<Step>, i: nat)
    requires Inv(s) && i < WORKERS && steps != []
    ensures Run(s, steps).workers[i].submitted == s.workers[i].submitted + SubmittedBy(steps, i)
    decreases |steps|, 0
  {
    hide Next, Run, Jobs, InOrder, SubmittedBy;
    RunStep(s, steps);
    NextSubmits(s, steps[0], i);
    RunSubmits(Next(s, steps[0]), steps[1..], i);
    assert steps == [steps[0]] + steps[1..];
    SubmittedByConcat([steps[0]], steps[1..], i);
    Associates(s.workers[i].submitted, SubmittedBy([steps[0]], i), SubmittedBy(steps[1..], i));
  }

  /** The state after any interleaving from the start. */
  ghost function After(steps: seq<Step>): (s: State)
    ensures Inv(s)
  {
    InitialInv(); Run(Initial(), steps)
  }

  ghost predicate Done(s: State, job: Job)
    requires Inv(s)
  {
    job in s.workers[WorkerOf(job.jobType)].executed
  }

  /** A run that submits x and later y, and y only once. */
  ghost function Both(a: seq<Step>, x: Job, b: seq<Step>, y: Job, c: seq<Step>): seq<Step> {
    a + [Submit(x)] + b + [Submit(y)] + c
  }

  /** What one worker is given by such a run. */
  lemma SubmittedByBoth(a: seq<Step>, x: Job, b: seq<Step>, y: Job, c: seq<Step>, i: nat)
    requires WorkerOf(x.jobType) == i && WorkerOf(y.jobType) == i
    ensures SubmittedBy(Both(a, x, b, y, c), i) == SubmittedBy(a, i) + [x] + SubmittedBy(b, i) + [y] + SubmittedBy(c, i)
  {
    SubmittedByConcat(a + [Submit(x)] + b + [Submit(y)], c, i);
    SubmittedByConcat(a + [Submit(x)] + b, [Submit(y)], i);
    SubmittedByConcat(a + [Submit(x)], b, i);
    SubmittedByConcat(a, [Submit(x)], i);
    assert SubmittedBy([Submit(x)], i) == [x] by { assert [Submit(x)][1..] == []; }
    assert SubmittedBy([Submit(y)], i) == [y] by { assert [Submit(y)][1..] == []; }
  }

  /** Jobs of one worker: when the later one is done, the earlier one was done before it. */
  lemma SameWorkerKeepsOrder(a: seq<Step>, x: Job, b: seq<Step>, y: Job, c: seq<Step>)
    requires WorkerOf(x.jobType) == WorkerOf(y.jobType) && x != y && Submit(y) !in a + b + c
    requires Done(After(Both(a, x, b, y, c)), y)
    ensures var e := After(Both(a, x, b, y, c)).workers[WorkerOf(x.jobType)].executed;
      exists i, j :: 0 <= i < j < |e| && e[i] == x && e[j] == y
  {
    var w, steps := WorkerOf(x.jobType), Both(a, x, b, y, c);
    InitialInv();
    RunSubmits(Initial(), steps, w);
    JobsFinishInOrder(steps, w, x.jobType);
    SubmittedByBoth(a, x, b, y, c, w);
    SubmittedByOnly(a, w, y);
    SubmittedByOnly(b, w, y);
    SubmittedByOnly(c, w, y);
    hide Inv, Run, SubmittedBy, Both;
    var e := After(steps).workers[w].executed;
    OnceIn(SubmittedBy(a, w), x, SubmittedBy(b, w), y, SubmittedBy(c, w), e);
  }

  lemma PartOf(p: seq<Job>, x: Job, q: seq<Job>, y: Job, r: seq<Job>, k: nat)
    requires k < |p| + |q| + |r| + 2
    ensures (p + [x] + q + [y] + r)[k] ==
      if k < |p| then p[k] else if k == |p| then x
      else if k < |p| + 1 + |q| then q[k - |p| - 1] else if k == |p| + 1 + |q| then y else r[k - |p| - |q| - 2]
  {
  }

  lemma OnceIn(p: seq<Job>, x: Job, q: seq<Job>, y: Job, r: seq<Job>, e: seq<Job>)
    requires e <= p + [x] + q + [y] + r && y in e && y !in p && y !in q && y !in r && x != y
    ensures exists i, j :: 0 <= i < j < |e| && e[i] == x && e[j] == y
  {
    var j :| 0 <= j < |e| && e[j] == y;
    PartOf(p, x, q, y, r, j);
    PartOf(p, x, q, y, r, |p|);
    assert j == |p| + 1 + |q| && e[|p|] == x;
  }

  /** A job of one type is never done before an earlier submitted job of the other. */
  ghost predicate OrderKept(t: JobType, u: JobType) {
    forall a, x: Job, b, y: Job, c ::
      x.jobType == t && y.jobType == u && x != y && Submit(y) !in a + b + c && Done(After(Both(a, x, b, y, c)), y)
      ==> Done(After(Both(a, x, b, y, c)), x)
  }

  /** The order of two types of jobs is kept on every run if and only if one worker does both. */
  lemma OrderKeptIff(t: JobType, u: JobType)
    ensures OrderKept(t, u) <==> WorkerOf(t) == WorkerOf(u)
  {
    if WorkerOf(t) == WorkerOf(u) {
      forall a, x: Job, b, y: Job, c |
        x.jobType == t && y.jobType == u && x != y && Submit(y) !in a + b + c && Done(After(Both(a, x, b, y, c)), y)
        ensures Done(After(Both(a, x, b, y, c)), x)
      {
        SameWorkerKeepsOrder(a, x, b, y, c);
      }
    } else {
      OtherWorkerOvertakes(Job(0, t, 0), Job(1, u, 0));
    }
  }

  /** When a job that closes an AOF descriptor is done, every fsync of it submitted before was done before. */
  lemma AofClosedAfterItsFsyncs(a: seq<Step>, x: Job, b: seq<Step>, y: Job, c: seq<Step>)
    requires x.jobType == AofFsync && y.jobType == CloseAof && x.fd == y.fd && Submit(y) !in a + b + c
    requires Done(After(Both(a, x, b, y, c)), y)
    ensures var e := After(Both(a, x, b, y, c)).workers[WorkerOf(AofFsync)].executed;
      exists i, j :: 0 <= i < j < |e| && e[i] == x && e[j] == y
  {
    SameWorkerKeepsOrder(a, x, b, y, c);
  }

  /** A plain file is closed by another worker, so such a job can overtake an earlier fsync of the same descriptor. */
  lemma CloseFileCanOvertakeFsync(fd: int)
    ensures !OrderKept(AofFsync, CloseFile)
    ensures var s := After(Both([], Job(0, AofFsync, fd), [], Job(1, CloseFile, fd), [Take(0)] + [Execute(0)]));
      Done(s, Job(1, CloseFile, fd)) && !Done(s, Job(0, AofFsync, fd))
  {
    OrderKeptIff(AofFsync, CloseFile);
    OtherWorkerOvertakes(Job(0, AofFsync, fd), Job(1, CloseFile, fd));
  }

  lemma RunCons(s: State, step: Step, steps: seq<Step>)
    requires Inv(s)
    ensures Inv(Next(s, step)) && Run(s, [step] + steps) == Run(Next(s, step), steps)
  {
    hide Inv, Next;
    NextKeepsInv(s, step);
    assert ([step] + steps)[1..] == steps;
  }

  /** Worker w has just this queue, and worker v has executed nothing. */
  ghost predicate Stands(s: State, w: nat, jobs: seq<Job>, phase: Phase, v: nat) {
    && Inv(s) && w < WORKERS && v < WORKERS && w != v
    && s.workers[w].jobs == jobs && s.workers[w].phase == phase && s.workers[w].executed == []
    && s.workers[v].executed == []
  }

  lemma SubmitStands(s: State, w: nat, jobs: seq<Job>, v: nat, job: Job)
    requires Stands(s, w, jobs, AtTop, v)
    ensures Stands(Next(s, Submit(job)), w, if WorkerOf(job.jobType) == w then jobs + [job] else jobs, AtTop, v)
  {
    SubmitKeepsInv(s, job);
    hide Jobs, InOrder;
  }

  lemma TakeStands(s: State, w: nat, job: Job, v: nat)
    requires Stands(s, w, [job], AtTop, v)
    ensures Stands(Next(s, Take(w)), w, [job], Taken, v)
  {
    TakeKeepsInv(s, w);
    hide Jobs, InOrder;
  }

  lemma ExecuteStands(s: State, w: nat, job: Job, v: nat)
    requires Stands(s, w, [job], Taken, v)
    ensures var s' := Next(s, Execute(w)); Inv(s') && s'.workers[w].executed == [job] && s'.workers[v].executed == []
  {
    ExecuteKeepsInv(s, w);
    hide Jobs, InOrder;
    assert [] + [job] == [job];
  }

  lemma InitialStands(w: nat, v: nat)
    requires w < WORKERS && v < WORKERS && w != v
    ensures Stands(Initial(), w, [], AtTop, v)
  {
    InitialInv();
  }

  /** Another worker takes and executes the later job while the earlier one waits. */
  lemma OtherWorkerOvertakes(x: Job, y: Job)
    requires WorkerOf(x.jobType) != WorkerOf(y.jobType)
    ensures var w := WorkerOf(y.jobType);
      var c := [Take(w)] + [Execute(w)];
      && Submit(y) !in [] + [] + c
      && Done(After(Both([], x, [], y, c)), y) && !Done(After(Both([], x, [], y, c)), x)
  {
    var w := WorkerOf(y.jobType);
    var c := [Take(w)] + [Execute(w)];
    assert Both([], x, [], y, c) == [Submit(x)] + ([Submit(y)] + ([Take(w)] + ([Execute(w)] + [])));
    OvertakingRun(x, y, w, WorkerOf(x.jobType));
    hide Run;
  }

  lemma OvertakingRun(x: Job, y: Job, w: nat, v: nat)
    requires w == WorkerOf(y.jobType) && v == WorkerOf(x.jobType) && w != v
    ensures var s := After([Submit(x)] + ([Submit(y)] + ([Take(w)] + ([Execute(w)] + []))));
      s.workers[w].executed == [y] && s.workers[v].executed == []
  {
    hide Next, Run, Jobs, InOrder, Initial, After, Stands;
    InitialInv();
    var s0 := Initial();
    InitialStands(w, v);
    SubmitStands(s0, w, [], v, x);
    RunCons(s0, Submit(x), [Submit(y)] + ([Take(w)] + ([Execute(w)] + [])));
    var s1 := Next(s0, Submit(x));
    SubmitStands(s1, w, [], v, y);
    RunCons(s1, Submit(y), [Take(w)] + ([Execute(w)] + []));
    var s2 := Next(s1, Submit(y));
    assert [] + [y] == [y];
    TakeStands(s2, w, y, v);
    RunCons(s2, Take(w), [Execute(w)] + []);
    var s3 := Next(s2, Take(w));
    ExecuteStands(s3, w, y, v);
    RunCons(s3, Execute(w), []);
    RunNothing(Next(s3, Execute(w)));
    AfterIs([Submit(x)] + ([Submit(y)] + ([Take(w)] + ([Execute(w)] + []))));
  }

  lemma RunNothing(s: State)
    requires Inv(s)
    ensures Run(s, []) == s
  {
  }

  lemma AfterIs(steps: seq<Step>)
    ensures Inv(Initial()) && After(steps) == Run(Initial(), steps)
  {
    InitialInv();
  }

  // ---- progress --------------------------------------------------------------------------------------------------

  /** Two types of jobs share a worker only if they are the same, or are the two on AOF descriptors. */
  lemma WorkersAreShared(t: JobType, u: JobType)
    ensures WorkerOf(t) == WorkerOf(u) <==> t == u || {t, u} == {AofFsync, CloseAof}
  {
    match t {
      case CloseFile =>
      case AofFsync => assert u == CloseAof ==> {t, u} == {AofFsync, CloseAof};
      case CloseAof => assert u == AofFsync ==> {t, u} == {AofFsync, CloseAof};
      case LazyFree =>
    }
  }

  /** One turn of a worker's loop. */
  ghost function Turn(i: nat): seq<Step> {
    [Take(i)] + ([Execute(i)] + ([Finish(i)] + []))
  }

  /** Steps of worker `i` change nothing of another worker. */
  ghost predicate OthersSame(s: State, r: State, i: nat) {
    |r.workers| == |s.workers| && forall j :: 0 <= j < |s.workers| && j != i ==> r.workers[j] == s.workers[j]
  }

  lemma TakeDoes(s: State, i: nat)
    requires Inv(s) && i < WORKERS && s.workers[i].jobs != []
    ensures var r := Next(s, Take(i));
      && Inv(r) && OthersSame(s, r, i) && r.counter == s.counter && r.workers[i].phase != AtTop
      && r.workers[i].jobs == s.workers[i].jobs && r.workers[i].finished == s.workers[i].finished
      && r.workers[i].submitted == s.workers[i].submitted
  {
    TakeKeepsInv(s, i);
  }

  lemma ExecuteDoes(s: State, i: nat)
    requires Inv(s) && i < WORKERS && s.workers[i].jobs != [] && s.workers[i].phase != AtTop
    ensures var r := Next(s, Execute(i));
      && Inv(r) && OthersSame(s, r, i) && r.counter == s.counter && r.workers[i].phase == Executed
      && r.workers[i].jobs == s.workers[i].jobs && r.workers[i].finished == s.workers[i].finished
      && r.workers[i].submitted == s.workers[i].submitted
  {
    ExecuteKeepsInv(s, i);
  }

  lemma FinishDoes(s: State, i: nat)
    requires Inv(s) && i < WORKERS && s.workers[i].jobs != [] && s.workers[i].phase == Executed
    ensures var r, job := Next(s, Finish(i)), s.workers[i].jobs[0];
      && Inv(r) && OthersSame(s, r, i) && r.counter == s.counter[job.jobType := s.counter[job.jobType] - 1]
      && r.workers[i] == Worker(s.workers[i].jobs[1..], AtTop, s.workers[i].submitted, s.workers[i].executed,
                                s.workers[i].finished + [job])
  {
    FinishKeepsInv(s, i);
    hide Jobs, InOrder;
  }

  /** A turn finishes the oldest job, wherever the worker stood, and takes it out of the pending count. */
  lemma TurnFinishesOldest(s: State, i: nat)
    requires Inv(s) && i < WORKERS && s.workers[i].jobs != []
    ensures var r, job := Run(s, Turn(i)), s.workers[i].jobs[0];
      && Inv(r) && OthersSame(s, r, i) && r.counter == s.counter[job.jobType := s.counter[job.jobType] - 1]
      && r.workers[i].phase == AtTop && r.workers[i].jobs == s.workers[i].jobs[1..]
      && r.workers[i].finished == r.workers[i].executed == s.workers[i].finished + [job]
      && r.workers[i].submitted == s.workers[i].submitted
  {
    hide Next, Jobs, Run;
    TakeDoes(s, i);
    RunCons(s, Take(i), [Execute(i)] + ([Finish(i)] + []));
    var a := Next(s, Take(i));
    ExecuteDoes(a, i);
    RunCons(a, Execute(i), [Finish(i)] + []);
    var b := Next(a, Execute(i));
    FinishDoes(b, i);
    RunCons(b, Finish(i), []);
    RunNothing(Next(b, Finish(i)));
    assert InOrder(Next(b, Finish(i)).workers[i], i);
  }

  ghost function Turns(s: State, i: nat, n: nat): (r: State)
    requires Inv(s)
    ensures Inv(r)
    decreases n
  {
    if n == 0 then s else Turns(Run(s, Turn(i)), i, n - 1)
  }

  /** As many turns as jobs are queued drain the queue: all jobs submitted are done, in the order they
      came, and none of a type the worker serves is pending. */
  lemma {:induction false} TurnsDrain(s: State, i: nat, t: JobType)
    requires Inv(s) && i < WORKERS
    ensures var r := Turns(s, i, |s.workers[i].jobs|);
      && OthersSame(s, r, i) && r.workers[i].jobs == [] && r.workers[i].finished == s.workers[i].submitted
      && (WorkerOf(t) == i ==> r.counter[t] == 0)
    decreases |s.workers[i].jobs|
  {
    hide Inv, Jobs, Turn, Next, Run, OthersSame;
    var r := Run(s, Turn(i));
    ThreeWorkers(s);
    ThreeWorkers(r);
    if s.workers[i].jobs == [] {
      DrainedAlready(s, i, t);
    } else {
      TurnFinishesOldest(s, i);
      TurnsDrain(r, i, t);
      SameThrough(s, r, Turns(r, i, |r.workers[i].jobs|), i);
    }
  }

  lemma ThreeWorkers(s: State)
    requires Inv(s)
    ensures |s.workers| == WORKERS
  {
  }

  lemma DrainedAlready(s: State, i: nat, t: JobType)
    requires Inv(s) && i < WORKERS && s.workers[i].jobs == []
    ensures OthersSame(s, s, i) && s.workers[i].finished == s.workers[i].submitted && (WorkerOf(t) == i ==> s.counter[t] == 0)
  {
    assert InOrder(s.workers[i], i);
    PlusNothing(s.workers[i].finished);
    assert s.counter[t] == Jobs(s.workers[WorkerOf(t)].jobs, t);
  }

  lemma SameThrough(s: State, a: State, b: State, i: nat)
    requires OthersSame(s, a, i) && OthersSame(a, b, i)
    ensures OthersSame(s, b, i)
  {
  }
}
