/**
  What holds in every state of every run of the test runner, under every
  interleaving: the invariant, the absence of deadlock, termination, and the
  result main computes from the jobs handed back.
 */
module ProtocolProof {
  import Numbers
  import opened Protocol

  // ----- the invariant holds at first

  lemma {:induction false} SumIdle(f: Worker -> int, n: nat)
    requires f(Idle) == 0
    ensures Sum(f, seq(n, _ => Idle)) == 0
  {
    if n > 0 {
      SumIdle(f, n - 1);
      assert seq(n, _ => Idle)[1..] == seq(n - 1, _ => Idle);
    }
  }

  lemma InvInit(c: Config)
    ensures Inv(c, Init(c))
  {
    SumIdle(TookPill, c.processors);
    SumIdle(HasRealJob, c.processors);
    forall x: nat
      ensures Places(Init(c), x) == 0
    {
      SumIdle(Carries(x), c.processors);
    }
  }

  // ----- and is kept by every step

  /** The input queue is first in, first out: its head is the next item in main's order. */
  lemma HeadOfInput(c: Config, s: State)
    requires QueuesOk(c, s) && s.input != []
    ensures 0 <= Taken(s) < Total(c) && s.input[0] == Item(c, Taken(s))
  {
  }

  lemma StepWorkers(c: Config, s: State, a: Action)
    requires WorkersOk(c, s) && QueuesOk(c, s) && Enabled(c, s, a)
    ensures WorkersOk(c, Step(c, s, a))
  {
    var s' := Step(c, s, a);
    if a.Get? {
      HeadOfInput(c, s);
    }
    forall w | 0 <= w < |s'.workers|
      ensures WorkerOk(c, s'.threadExit, s'.workers[w])
    {
      assert WorkerOk(c, s.threadExit, s.workers[w]);
    }
  }

  lemma HandedBackMore(c: Config, threadExit: bool, jobs: seq<Job>, job: Job)
    requires AllHandedBack(c, threadExit, jobs) && HandedBack(c, threadExit, job)
    ensures AllHandedBack(c, threadExit, jobs + [job])
  {
    forall k | 0 <= k < |jobs| + 1
      ensures HandedBack(c, threadExit, (jobs + [job])[k])
    {
      if k < |jobs| {
        assert HandedBack(c, threadExit, jobs[k]);
      }
    }
  }

  lemma HandedBackTail(c: Config, threadExit: bool, jobs: seq<Job>)
    requires AllHandedBack(c, threadExit, jobs) && jobs != []
    ensures HandedBack(c, threadExit, jobs[0]) && AllHandedBack(c, threadExit, jobs[1..])
  {
    forall k | 0 <= k < |jobs| - 1
      ensures HandedBack(c, threadExit, jobs[1..][k])
    {
      assert HandedBack(c, threadExit, jobs[k + 1]);
    }
  }

  lemma HandedBackInterrupted(c: Config, jobs: seq<Job>)
    requires AllHandedBack(c, false, jobs)
    ensures AllHandedBack(c, true, jobs)
  {
    forall k | 0 <= k < |jobs|
      ensures HandedBack(c, true, jobs[k])
    {
      assert HandedBack(c, false, jobs[k]);
    }
  }

  lemma InputAfter(c: Config, s: State, a: Action)
    requires WorkersOk(c, s) && QueuesOk(c, s) && Enabled(c, s, a)
    ensures var s' := Step(c, s, a);
      && |s'.input| <= s'.put <= Total(c)
      && (c.processors == 0 ==> Taken(s') == 0)
      && s'.input == Items(c, s'.put - |s'.input|, s'.put)
  {
    if a.MainPut? {
      assert Items(c, Taken(s), s.put) + [Item(c, s.put)] == Items(c, Taken(s), s.put + 1);
    } else if a.Get? {
      assert Items(c, Taken(s), s.put)[1..] == Items(c, Taken(s) + 1, s.put);
    }
  }

  lemma StepQueues(c: Config, s: State, a: Action)
    requires WorkersOk(c, s) && QueuesOk(c, s) && Enabled(c, s, a)
    ensures QueuesOk(c, Step(c, s, a))
  {
    InputAfter(c, s, a);
    if a.MainGet? {
      HandedBackTail(c, s.threadExit, s.output);
      HandedBackMore(c, s.threadExit, s.collected, s.output[0]);
    } else if a.Interrupt? {
      HandedBackInterrupted(c, s.output);
      HandedBackInterrupted(c, s.collected);
    } else if a.Put? {
      assert WorkerOk(c, s.threadExit, s.workers[a.w]);
      HandedBackMore(c, s.threadExit, s.output, s.workers[a.w].job);
    }
  }

  lemma StepMain(c: Config, s: State, a: Action)
    requires WorkersOk(c, s) && MainOk(c, s) && Enabled(c, s, a)
    ensures MainOk(c, Step(c, s, a))
  {
  }

  lemma StepCounts(c: Config, s: State, a: Action)
    requires WorkersOk(c, s) && QueuesOk(c, s) && CountsOk(c, s) && Enabled(c, s, a)
    ensures CountsOk(c, Step(c, s, a))
  {
    var s' := Step(c, s, a);
    if a.Get? || a.Check? || a.Finish? || a.Put? {
      SumUpdate(TookPill, s.workers, a.w, s'.workers[a.w]);
      SumUpdate(HasRealJob, s.workers, a.w, s'.workers[a.w]);
      assert WorkerOk(c, s.threadExit, s.workers[a.w]);
      if a.Get? {
        HeadOfInput(c, s);
      }
    }
  }

  // ----- nothing is lost or duplicated

  lemma CountIdAppend(jobs: seq<Job>, job: Job, x: nat)
    ensures CountId(jobs + [job], x) == CountId(jobs, x) + if job.id == x then 1 else 0
  {
    assert (jobs + [job])[..|jobs|] == jobs;
  }

  lemma {:induction false} CountIdHead(jobs: seq<Job>, x: nat)
    requires jobs != []
    ensures CountId(jobs, x) == CountId(jobs[1..], x) + if jobs[0].id == x then 1 else 0
  {
    var n := |jobs| - 1;
    if n > 0 {
      CountIdHead(jobs[..n], x);
      assert jobs[..n][1..] == jobs[1..][..n - 1];
      assert jobs[1..][n - 1] == jobs[n];
    }
  }

  lemma PlacesAfter(c: Config, s: State, a: Action, x: nat)
    requires QueuesOk(c, s) && Enabled(c, s, a)
    ensures Places(Step(c, s, a), x) == Places(s, x) + if a.Get? && x == Taken(s) then 1 else 0
  {
    var s' := Step(c, s, a);
    if a.Get? || a.Check? || a.Finish? || a.Put? {
      SumUpdate(Carries(x), s.workers, a.w, s'.workers[a.w]);
    }
    if a.MainGet? {
      CountIdHead(s.output, x);
      CountIdAppend(s.collected, s.output[0], x);
    } else if a.Get? {
      HeadOfInput(c, s);
    } else if a.Put? {
      CountIdAppend(s.output, s.workers[a.w].job, x);
    }
  }

  lemma StepNothingLost(c: Config, s: State, a: Action)
    requires QueuesOk(c, s) && NothingLost(c, s) && Enabled(c, s, a)
    ensures NothingLost(c, Step(c, s, a))
  {
    forall x: nat
      ensures Places(Step(c, s, a), x) == if x < Taken(Step(c, s, a)) then 1 else 0
    {
      PlacesAfter(c, s, a, x);
    }
  }

  /** Every step of every thread keeps the invariant. */
  lemma InvStep(c: Config, s: State, a: Action)
    requires Inv(c, s) && Enabled(c, s, a)
    ensures Inv(c, Step(c, s, a))
  {
    StepWorkers(c, s, a);
    StepQueues(c, s, a);
    StepMain(c, s, a);
    StepCounts(c, s, a);
    StepNothingLost(c, s, a);
  }

  // ----- no deadlock

  /** While every worker waits or is gone, no real job is in a worker's hand. */
  lemma RestingWorkers(c: Config, s: State)
    requires Inv(c, s)
    requires forall w :: 0 <= w < |s.workers| ==> s.workers[w].Idle? || s.workers[w].Stopped?
    ensures |s.output| + |s.collected| == Numbers.Min(Taken(s), Jobs(c))
  {
    forall w | 0 <= w < |s.workers|
      ensures HasRealJob(s.workers[w]) == 0
    {
      assert WorkerOk(c, s.threadExit, s.workers[w]);
    }
    SumAtLeast(HasRealJob, s.workers, 0);
    SumAtMost(HasRealJob, s.workers, 0);
  }

  /** Once every worker is gone, every item has been taken. */
  lemma AllStoppedTookAll(c: Config, s: State)
    requires Inv(c, s) && (c.processors > 0 || Jobs(c) == 0)
    requires forall w :: 0 <= w < |s.workers| ==> s.workers[w].Stopped?
    ensures Taken(s) == Total(c)
  {
    forall w | 0 <= w < |s.workers|
      ensures TookPill(s.workers[w]) == 1
    {
      assert WorkerOk(c, s.threadExit, s.workers[w]);
    }
    SumAtLeast(TookPill, s.workers, 1);
    SumAtMost(TookPill, s.workers, 1);
  }

  /** A worker still waiting has a pill still to come. */
  lemma IdleWorkerHasPill(c: Config, s: State, i: nat)
    requires Inv(c, s) && i < |s.workers| && s.workers[i].Idle?
    ensures Taken(s) < Total(c)
  {
    var gone := s.workers[i := Stopped(Job(Jobs(c), true, false, 0))];
    SumUpdate(TookPill, s.workers, i, gone[i]);
    SumAtMost(TookPill, gone, 1);
  }

  ghost predicate HasWorkers(c: Config) {
    c.processors > 0 || Jobs(c) == 0
  }

  /** Until main has returned, some thread can take a step, without any help from the interrupt. */
  lemma SomeStepEnabled(c: Config, s: State) returns (a: Action)
    requires Inv(c, s) && HasWorkers(c) && !Returned(c, s)
    ensures Enabled(c, s, a) && !a.Interrupt?
  {
    if s.put < Total(c) {
      return MainPut;
    }
    if w: nat :| w < |s.workers| && !s.workers[w].Idle? && !s.workers[w].Stopped? {
      assert WorkerOk(c, s.threadExit, s.workers[w]);
      return match s.workers[w] case Holding(_) => Check(w) case Running(_) => Finish(w) case _ => Put(w);
    }
    if w: nat :| w < |s.workers| && s.workers[w].Idle? && s.input != [] {
      return Get(w);
    }
    if |s.collected| < Jobs(c) {
      RestingWorkers(c, s);
      if s.input != [] {
        AllStoppedTookAll(c, s);
      }
      return MainGet;
    }
    if s.workers[s.joined].Idle? {
      IdleWorkerHasPill(c, s, s.joined);
    }
    return MainJoin;
  }

  // ----- termination

  ghost function Weight(w: Worker): int {
    match w
    case Idle => 0
    case Holding(_) => 4
    case Running(_) => 3
    case Putting(_) => 2
    case Stopped(_) => 0
  }

  /** Every item has a bounded way to go, and every step takes something one step further. */
  ghost function Measure(c: Config, s: State): int {
    6 * (Total(c) - s.put) + 5 * |s.input| + Sum(Weight, s.workers) + |s.output|
    + (c.processors - s.joined) + if s.threadExit then 0 else 1
  }

  lemma MeasurePositive(c: Config, s: State)
    requires Inv(c, s)
    ensures Measure(c, s) >= 0
  {
    SumAtLeast(Weight, s.workers, 0);
  }

  lemma MeasureDrops(c: Config, s: State, a: Action)
    requires WorkersOk(c, s) && Enabled(c, s, a)
    ensures Measure(c, Step(c, s, a)) < Measure(c, s)
  {
    var s' := Step(c, s, a);
    if a.Get? || a.Check? || a.Finish? || a.Put? {
      SumUpdate(Weight, s.workers, a.w, s'.workers[a.w]);
    }
  }

  lemma MeasureDropsForAll(c: Config, s: State)
    requires Inv(c, s)
    ensures forall a :: Enabled(c, s, a) ==> 0 <= Measure(c, Step(c, s, a)) < Measure(c, s)
  {
    forall a | Enabled(c, s, a)
      ensures 0 <= Measure(c, Step(c, s, a)) < Measure(c, s)
    {
      InvStep(c, s, a);
      MeasureDrops(c, s, a);
      MeasurePositive(c, Step(c, s, a));
    }
  }

  // ----- runs

  /** The schedule acts leads from s to t, one enabled action after the other. */
  ghost predicate Leads(c: Config, s: State, acts: seq<Action>, t: State)
    decreases |acts|
  {
    if acts == [] then s == t
    else Enabled(c, s, acts[0]) && Leads(c, Step(c, s, acts[0]), acts[1..], t)
  }

  /** Whatever the schedule, the invariant holds and the run is short. */
  lemma {:induction false} ScheduleKeepsInv(c: Config, s: State, acts: seq<Action>, t: State)
    requires Inv(c, s) && Leads(c, s, acts, t)
    ensures Inv(c, t) && |acts| + Measure(c, t) <= Measure(c, s)
    decreases |acts|
  {
    if acts != [] {
      InvStep(c, s, acts[0]);
      MeasureDrops(c, s, acts[0]);
      MeasurePositive(c, Step(c, s, acts[0]));
      ScheduleKeepsInv(c, Step(c, s, acts[0]), acts[1..], t);
    }
  }

  lemma {:induction false} MeasureInit(c: Config)
    ensures Measure(c, Init(c)) == 6 * Total(c) + c.processors + 1
  {
    SumIdle(Weight, c.processors);
  }

  /** No run is longer than this bound, and a run that no thread can continue has returned. */
  lemma EveryRunReturns(c: Config, acts: seq<Action>, s: State)
    requires HasWorkers(c) && Leads(c, Init(c), acts, s)
    ensures |acts| <= 6 * Total(c) + c.processors + 1
    ensures (forall a :: Enabled(c, s, a) ==> a.Interrupt?) ==> Returned(c, s)
  {
    InvInit(c);
    ScheduleKeepsInv(c, Init(c), acts, s);
    MeasureInit(c);
    MeasurePositive(c, s);
    if !Returned(c, s) {
      var a := SomeStepEnabled(c, s);
    }
  }

  lemma {:induction false} FinishRun(c: Config, s: State) returns (acts: seq<Action>, t: State)
    requires Inv(c, s) && HasWorkers(c)
    ensures Leads(c, s, acts, t) && Returned(c, t)
    decreases Measure(c, s)
  {
    if Returned(c, s) {
      acts, t := [], s;
    } else {
      var a := SomeStepEnabled(c, s);
      InvStep(c, s, a);
      MeasureDrops(c, s, a);
      MeasurePositive(c, Step(c, s, a));
      var rest;
      rest, t := FinishRun(c, Step(c, s, a));
      acts := [a] + rest;
      assert acts[1..] == rest;
    }
  }

  lemma ReturnedHasWorkers(c: Config, s: State)
    requires Inv(c, s) && Returned(c, s)
    ensures HasWorkers(c)
  {
    SumAtLeast(HasRealJob, s.workers, 0);
  }

  /** Some schedule brings main to its return. */
  ghost predicate CanReturn(c: Config) {
    exists acts, s :: Leads(c, Init(c), acts, s) && Returned(c, s)
  }

  /**
    Main can return exactly when there is a worker or nothing to do.  Without a
    worker it waits for the first job for ever.
   */
  lemma ReturnsIffHasWorkers(c: Config)
    ensures CanReturn(c) <==> HasWorkers(c)
  {
    InvInit(c);
    if HasWorkers(c) {
      var acts, t := FinishRun(c, Init(c));
      assert CanReturn(c);
    } else {
      forall acts, s | Leads(c, Init(c), acts, s)
        ensures !Returned(c, s)
      {
        ScheduleKeepsInv(c, Init(c), acts, s);
        if Returned(c, s) {
          ReturnedHasWorkers(c, s);
        }
      }
    }
  }

  // ----- what main has when it returns

  /** A worker gets a pill only after every real job has been taken from the queue. */
  lemma PillsComeLast(c: Config, s: State, w: nat)
    requires Inv(c, s) && Enabled(c, s, Get(w))
    ensures s.input[0].isBreak <==> Taken(s) >= Jobs(c)
    ensures s.input[0].isBreak ==> forall k :: 0 <= k < |s.input| ==> s.input[k].isBreak
  {
    HeadOfInput(c, s);
  }

  lemma StoppedCarryPills(c: Config, s: State, x: nat)
    requires WorkersOk(c, s) && x < Jobs(c)
    requires forall w :: 0 <= w < |s.workers| ==> s.workers[w].Stopped?
    ensures Sum(Carries(x), s.workers) == 0
  {
    forall w | 0 <= w < |s.workers|
      ensures Carries(x)(s.workers[w]) == 0
    {
      assert WorkerOk(c, s.threadExit, s.workers[w]);
    }
    SumAtLeast(Carries(x), s.workers, 0);
    SumAtMost(Carries(x), s.workers, 0);
  }

  lemma {:induction false} NoSuchId(jobs: seq<Job>, x: nat)
    requires forall k :: 0 <= k < |jobs| ==> jobs[k].id != x
    ensures CountId(jobs, x) == 0
  {
    if jobs != [] {
      NoSuchId(jobs[..|jobs| - 1], x);
    }
  }

  /**
    When main returns, both queues are empty, every planned job was collected
    exactly once and nothing else was, every worker is gone, and each pill was
    taken by exactly one worker.
   */
  lemma ReturnedExactlyOnce(c: Config, s: State)
    requires Inv(c, s) && Returned(c, s)
    ensures s.input == [] && s.output == []
    ensures forall w :: 0 <= w < |s.workers| ==> s.workers[w].Stopped?
    ensures forall x: nat :: CountId(s.collected, x) == if x < Jobs(c) then 1 else 0
    ensures forall x: nat :: Jobs(c) <= x < Total(c) ==> Sum(Carries(x), s.workers) == 1
  {
    AllStoppedTookAll(c, s);
    RestingWorkers(c, s);
    forall x: nat
      ensures CountId(s.collected, x) == if x < Jobs(c) then 1 else 0
      ensures Jobs(c) <= x < Total(c) ==> Sum(Carries(x), s.workers) == 1
    {
      assert Places(s, x) == if x < Taken(s) then 1 else 0;
      if x < Jobs(c) {
        StoppedCarryPills(c, s, x);
      } else {
        forall k | 0 <= k < |s.collected|
          ensures s.collected[k].id != x
        {
          assert HandedBack(c, s.threadExit, s.collected[k]);
        }
        NoSuchId(s.collected, x);
      }
    }
  }

  // ----- the result

  datatype Verdict = Pass | Fail | Valgrind | Crash | Skip | Interrupted

  function VerdictOf(job: Job): Verdict {
    if job.isBreak then Interrupted
    else if job.isSkip then Skip
    else if job.returnCode == 0 then Pass
    else if job.returnCode == 1 then Fail
    else if job.returnCode == 2 then Valgrind
    else Crash
  }

  /** How many of the jobs have this verdict. */
  ghost function Count(jobs: seq<Job>, v: Verdict): int {
    if jobs == [] then 0
    else Count(jobs[..|jobs| - 1], v) + if VerdictOf(jobs[|jobs| - 1]) == v then 1 else 0
  }

  lemma CountAppend(jobs: seq<Job>, job: Job)
    ensures forall v :: Count(jobs + [job], v) == Count(jobs, v) + if VerdictOf(job) == v then 1 else 0
  {
    assert (jobs + [job])[..|jobs|] == jobs;
  }

  ghost predicate Good(job: Job) {
    !job.isBreak && (job.isSkip || job.returnCode == 0)
  }

  lemma {:induction false} CountsAddUp(jobs: seq<Job>)
    ensures Count(jobs, Pass) + Count(jobs, Fail) + Count(jobs, Valgrind) + Count(jobs, Crash)
          + Count(jobs, Skip) + Count(jobs, Interrupted) == |jobs|
    ensures Count(jobs, Pass) + Count(jobs, Skip) <= |jobs|
    ensures Count(jobs, Pass) + Count(jobs, Skip) == |jobs| <==>
      forall k :: 0 <= k < |jobs| ==> Good(jobs[k])
  {
    if jobs != [] {
      CountsAddUp(jobs[..|jobs| - 1]);
      assert Good(jobs[|jobs| - 1]) <==> VerdictOf(jobs[|jobs| - 1]) in {Pass, Skip};
    }
  }

  /** The verdict a plan leads to when no interrupt comes. */
  ghost function PlannedVerdict(c: Config, x: nat): Verdict
    requires x < Jobs(c)
  {
    VerdictOf(Job(x, false, c.plans[x].isSkip, c.plans[x].returnCode))
  }

  /** How many of the first n plans lead to this verdict. */
  ghost function Planned(c: Config, v: Verdict, n: nat): int
    requires n <= Jobs(c)
  {
    if n == 0 then 0 else Planned(c, v, n - 1) + if PlannedVerdict(c, n - 1) == v then 1 else 0
  }

  /** Counting by verdict is summing the ids' occurrences over the planned verdicts. */
  ghost function CountById(c: Config, jobs: seq<Job>, v: Verdict, n: nat): int
    requires n <= Jobs(c)
  {
    if n == 0 then 0
    else CountById(c, jobs, v, n - 1) + if PlannedVerdict(c, n - 1) == v then CountId(jobs, n - 1) else 0
  }

  lemma {:induction false} CountByIdAppend(c: Config, jobs: seq<Job>, job: Job, v: Verdict, n: nat)
    requires n <= Jobs(c) && job.id < Jobs(c)
    ensures CountById(c, jobs + [job], v, n)
         == CountById(c, jobs, v, n) + if job.id < n && PlannedVerdict(c, job.id) == v then 1 else 0
  {
    if n > 0 {
      CountByIdAppend(c, jobs, job, v, n - 1);
      CountIdAppend(jobs, job, n - 1);
    }
  }

  lemma {:induction false} CountByIdEmpty(c: Config, v: Verdict, n: nat)
    requires n <= Jobs(c)
    ensures CountById(c, [], v, n) == 0
  {
    if n > 0 {
      CountByIdEmpty(c, v, n - 1);
    }
  }

  lemma {:induction false} CountIsById(c: Config, jobs: seq<Job>, v: Verdict)
    requires AllHandedBack(c, false, jobs)
    ensures Count(jobs, v) == CountById(c, jobs, v, Jobs(c))
  {
    if jobs == [] {
      CountByIdEmpty(c, v, Jobs(c));
    } else {
      var front, last := jobs[..|jobs| - 1], jobs[|jobs| - 1];
      assert HandedBack(c, false, last);
      forall k | 0 <= k < |front|
        ensures HandedBack(c, false, front[k])
      {
        assert HandedBack(c, false, jobs[k]);
      }
      CountIsById(c, front, v);
      CountByIdAppend(c, front, last, v, Jobs(c));
      assert jobs == front + [last];
    }
  }

  lemma {:induction false} OnceEach(c: Config, jobs: seq<Job>, v: Verdict, n: nat)
    requires n <= Jobs(c)
    requires forall x: nat :: x < Jobs(c) ==> CountId(jobs, x) == 1
    ensures CountById(c, jobs, v, n) == Planned(c, v, n)
  {
    if n > 0 {
      OnceEach(c, jobs, v, n - 1);
    }
  }

  /**
    Without an interrupt the counters do not depend on the interleaving: main
    reports of each verdict exactly as many as were planned.
   */
  lemma UninterruptedResult(c: Config, s: State, v: Verdict)
    requires Inv(c, s) && Returned(c, s) && !s.threadExit
    ensures Count(s.collected, v) == Planned(c, v, Jobs(c))
  {
    ReturnedExactlyOnce(c, s);
    CountIsById(c, s.collected, v);
    OnceEach(c, s.collected, v, Jobs(c));
  }

  /** Without an interrupt every job came back good exactly when every plan is to skip or to return 0. */
  lemma UninterruptedExit(c: Config, s: State)
    requires Inv(c, s) && Returned(c, s) && !s.threadExit
    ensures (forall k :: 0 <= k < |s.collected| ==> Good(s.collected[k]))
       <==> (forall i :: 0 <= i < Jobs(c) ==> c.plans[i].isSkip || c.plans[i].returnCode == 0)
  {
    ReturnedExactlyOnce(c, s);
    if forall k :: 0 <= k < |s.collected| ==> Good(s.collected[k]) {
      forall i | 0 <= i < Jobs(c)
        ensures c.plans[i].isSkip || c.plans[i].returnCode == 0
      {
        if forall k :: 0 <= k < |s.collected| ==> s.collected[k].id != i {
          NoSuchId(s.collected, i);
        }
        var k :| 0 <= k < |s.collected| && s.collected[k].id == i;
        assert HandedBack(c, false, s.collected[k]);
      }
    }
    forall k | 0 <= k < |s.collected|
      ensures HandedBack(c, false, s.collected[k])
    {
    }
  }
}
