/** The job lists and counters in place, and the operations on them. */
module BioQueues {
  import opened Bio

  class Queues {
    var jobs: seq<seq<Job>>
    var counter: map<JobType, int>
    var phase: seq<Phase>
    ghost var submitted: seq<seq<Job>>
    ghost var executed: seq<seq<Job>>
    ghost var finished: seq<seq<Job>>

    ghost predicate Shape()
      reads this
    {
      |jobs| == |phase| == |submitted| == |executed| == |finished| == WORKERS
    }

    ghost function St(): State
      requires Shape()
      reads this
    {
      State(seq(WORKERS, i requires 0 <= i < WORKERS && Shape() reads this => Worker(jobs[i], phase[i], submitted[i], executed[i], finished[i])), counter)
    }

    ghost predicate Valid()
      reads this
    {
      Shape() && Inv(St())
    }

    constructor ()
      ensures Valid() && St() == Initial()
    {
      jobs, phase := seq(WORKERS, _ => []), seq(WORKERS, _ => AtTop);
      submitted, executed, finished := seq(WORKERS, _ => []), seq(WORKERS, _ => []), seq(WORKERS, _ => []);
      counter := map[CloseFile := 0, AofFsync := 0, CloseAof := 0, LazyFree := 0];
      new;
      InitialInv();
      assert St().workers == Initial().workers;
    }

    /** bioSubmitJob. */
    method SubmitJob(job: Job)
      requires Valid()
      modifies this
      ensures Valid() && St() == Next(old(St()), Submit(job))
    {
      hide Inv;
      ghost var s := St();
      NextKeepsInv(s, Submit(job));
      Known(s, job.jobType);
      var worker := WorkerOf(job.jobType);
      jobs := jobs[worker := jobs[worker] + [job]];
      counter := counter[job.jobType := counter[job.jobType] + 1];
      submitted := submitted[worker := submitted[worker] + [job]];
      assert St().workers == Next(s, Submit(job)).workers;
    }

    /** The top of the worker's loop, with the lock held: false where the worker has to wait. */
    method TakeJob(worker: nat) returns (got: bool)
      requires Valid() && worker < WORKERS && phase[worker] == AtTop
      modifies this
      ensures Valid() && St() == Next(old(St()), Take(worker)) && got == (jobs[worker] != [])
    {
      hide Inv;
      ghost var s := St();
      NextKeepsInv(s, Take(worker));
      Known(s, LazyFree);
      if |jobs[worker]| == 0 {
        return false;
      }
      phase := phase[worker := Taken];
      got := true;
      assert St().workers == Next(s, Take(worker)).workers;
    }

    /** The work itself, with the lock released. */
    method ExecuteJob(worker: nat)
      requires Valid() && worker < WORKERS && phase[worker] == Taken
      modifies this
      ensures Valid() && St() == Next(old(St()), Execute(worker)) && phase[worker] == Executed
    {
      hide Inv;
      ghost var s := St();
      NextKeepsInv(s, Execute(worker));
      Known(s, LazyFree);
      InHand(s, worker);
      phase := phase[worker := Executed];
      executed := executed[worker := executed[worker] + [jobs[worker][0]]];
      assert St().workers == Next(s, Execute(worker)).workers;
    }

    /** The job is deleted from the list, with the lock held again. */
    method FinishJob(worker: nat)
      requires Valid() && worker < WORKERS && phase[worker] == Executed
      modifies this
      ensures Valid() && St() == Next(old(St()), Finish(worker)) && phase[worker] == AtTop
    {
      hide Inv;
      ghost var s := St();
      NextKeepsInv(s, Finish(worker));
      Known(s, LazyFree);
      InHand(s, worker);
      var job := jobs[worker][0];
      Known(s, job.jobType);
      jobs := jobs[worker := jobs[worker][1..]];
      counter := counter[job.jobType := counter[job.jobType] - 1];
      phase := phase[worker := AtTop];
      finished := finished[worker := finished[worker] + [job]];
      assert St().workers == Next(s, Finish(worker)).workers;
    }

    /** bioPendingJobsOfType: queued jobs of the type, the one in hand included. */
    method PendingJobsOfType(t: JobType) returns (n: int)
      requires Valid()
      ensures n == Jobs(jobs[WorkerOf(t)], t)
    {
      n := counter[t];
    }

    /** One step of some other thread. */
    method OtherThread(step: Step)
      requires Valid()
      modifies this
      ensures Valid() && St() == Next(old(St()), step)
    {
      hide Inv;
      Known(St(), LazyFree);
      match step {
        case Submit(job) =>
          SubmitJob(job);
        case Take(i) =>
          if i < WORKERS && phase[i] == AtTop {
            var got := TakeJob(i);
          }
        case Execute(i) =>
          if i < WORKERS && phase[i] == Taken {
            ExecuteJob(i);
          }
        case Finish(i) =>
          if i < WORKERS && phase[i] == Executed {
            FinishJob(i);
          }
      }
    }

    /**
     * bioDrainWorker: waits while the list is not empty and the other threads go on, here as the steps
     * `others`. Where it returns, every job submitted to the worker before the call is finished.
     */
    method DrainWorker(t: JobType, others: seq<Step>) returns (returned: bool)
      requires Valid()
      modifies this
      ensures Valid()
      ensures returned <==> exists i :: 0 <= i <= |others| && Drained(old(St()), others[..i], t)
      ensures returned ==> old(submitted[WorkerOf(t)]) <= finished[WorkerOf(t)] && jobs[WorkerOf(t)] == []
    {
      hide Inv, Next;
      ghost var s := St();
      var i := 0;
      while jobs[WorkerOf(t)] != []
        invariant i <= |others| && Valid() && St() == Run(s, others[..i])
        invariant forall k :: 0 <= k < i ==> !Drained(s, others[..k], t)
        decreases |others| - i
      {
        if i == |others| {
          return false;
        }
        RunSnoc(s, others, i);
        OtherThread(others[i]);
        i := i + 1;
      }
      DrainedMeansDone(s, others[..i], t);
      returned := true;
    }
  }

  /** After the steps nothing is queued at the worker of the type. */
  ghost predicate Drained(s: State, steps: seq<Step>, t: JobType)
    requires Inv(s)
  {
    Run(s, steps).workers[WorkerOf(t)].jobs == []
  }

  lemma Known(s: State, t: JobType)
    requires Inv(s)
    ensures |s.workers| == WORKERS && forall u: JobType :: u in s.counter
  {
  }

  lemma InHand(s: State, i: nat)
    requires Inv(s) && i < WORKERS && s.workers[i].phase != AtTop
    ensures s.workers[i].jobs != []
  {
    assert InOrder(s.workers[i], i);
  }

  lemma {:induction false} RunSnoc(s: State, steps: seq<Step>, i: nat)
    requires Inv(s) && i < |steps|
    ensures (Known(Run(s, steps[..i]), LazyFree); Run(s, steps[..i + 1]) == Next(Run(s, steps[..i]), steps[i]))
    decreases i
  {
    hide Inv, Next;
    Known(s, LazyFree);
    NextKeepsInv(s, steps[0]);
    if i == 0 {
      assert steps[..1] == [steps[0]];
    } else {
      RunSnoc(Next(s, steps[0]), steps[1..], i - 1);
      assert steps[..i + 1][1..] == steps[1..][..i];
      assert steps[..i][1..] == steps[1..][..i - 1];
    }
  }
}
