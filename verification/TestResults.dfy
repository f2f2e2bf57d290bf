/**
  What the counters of the test runner stand for, said of the jobs and of the
  plans themselves: which return code is a pass, a failure, a valgrind error or a
  crash, and which jobs an interrupt breaks off.
 */
module TestResults {
  import opened Protocol
  import opened ProtocolProof

  // ----- the counters

  /** The places of the jobs with a verdict. */
  ghost function WithVerdict(jobs: seq<Job>, v: Verdict): set<int> {
    set k | 0 <= k < |jobs| && VerdictOf(jobs[k]) == v
  }

  lemma {:induction false} CountIsPlaces(jobs: seq<Job>, v: Verdict)
    ensures Count(jobs, v) == |WithVerdict(jobs, v)|
  {
    if jobs != [] {
      var n := |jobs| - 1;
      CountIsPlaces(jobs[..n], v);
      assert WithVerdict(jobs, v) == WithVerdict(jobs[..n], v) + if VerdictOf(jobs[n]) == v then {n} else {};
    }
  }

  /** Which jobs each count is about. */
  lemma CountsOfJobs(jobs: seq<Job>)
    ensures Count(jobs, Interrupted) == |set k | 0 <= k < |jobs| && jobs[k].isBreak|
    ensures Count(jobs, Skip) == |set k | 0 <= k < |jobs| && !jobs[k].isBreak && jobs[k].isSkip|
    ensures Count(jobs, Pass)
         == |set k | 0 <= k < |jobs| && !jobs[k].isBreak && !jobs[k].isSkip && jobs[k].returnCode == 0|
    ensures Count(jobs, Fail)
         == |set k | 0 <= k < |jobs| && !jobs[k].isBreak && !jobs[k].isSkip && jobs[k].returnCode == 1|
    ensures Count(jobs, Valgrind)
         == |set k | 0 <= k < |jobs| && !jobs[k].isBreak && !jobs[k].isSkip && jobs[k].returnCode == 2|
    ensures Count(jobs, Crash)
         == |set k | 0 <= k < |jobs| && !jobs[k].isBreak && !jobs[k].isSkip && !(0 <= jobs[k].returnCode <= 2)|
  {
    forall v
      ensures Count(jobs, v) == |WithVerdict(jobs, v)|
    {
      CountIsPlaces(jobs, v);
    }
    assert WithVerdict(jobs, Interrupted) == set k | 0 <= k < |jobs| && jobs[k].isBreak;
    assert WithVerdict(jobs, Skip) == set k | 0 <= k < |jobs| && !jobs[k].isBreak && jobs[k].isSkip;
    assert WithVerdict(jobs, Pass)
        == set k | 0 <= k < |jobs| && !jobs[k].isBreak && !jobs[k].isSkip && jobs[k].returnCode == 0;
    assert WithVerdict(jobs, Fail)
        == set k | 0 <= k < |jobs| && !jobs[k].isBreak && !jobs[k].isSkip && jobs[k].returnCode == 1;
    assert WithVerdict(jobs, Valgrind)
        == set k | 0 <= k < |jobs| && !jobs[k].isBreak && !jobs[k].isSkip && jobs[k].returnCode == 2;
    assert WithVerdict(jobs, Crash)
        == set k | 0 <= k < |jobs| && !jobs[k].isBreak && !jobs[k].isSkip && !(0 <= jobs[k].returnCode <= 2);
  }

  /** The plans that lead to a verdict. */
  ghost function PlannedPlaces(c: Config, v: Verdict, n: nat): set<int>
    requires n <= Jobs(c)
  {
    set i | 0 <= i < n && PlannedVerdict(c, i) == v
  }

  lemma PlannedNext(c: Config, v: Verdict, n: nat)
    requires n < Jobs(c)
    ensures PlannedPlaces(c, v, n + 1)
         == PlannedPlaces(c, v, n) + if PlannedVerdict(c, n) == v then {n} else {}
    ensures n !in PlannedPlaces(c, v, n)
  {
  }

  lemma {:induction false} PlannedIsPlaces(c: Config, v: Verdict, n: nat)
    requires n <= Jobs(c)
    ensures Planned(c, v, n) == |PlannedPlaces(c, v, n)|
  {
    if n > 0 {
      PlannedIsPlaces(c, v, n - 1);
      PlannedNext(c, v, n - 1);
    }
  }

  /** Which plans each planned count is about. */
  lemma CountsOfPlans(c: Config)
    ensures Planned(c, Skip, Jobs(c)) == |set i | 0 <= i < Jobs(c) && c.plans[i].isSkip|
    ensures Planned(c, Pass, Jobs(c))
         == |set i | 0 <= i < Jobs(c) && !c.plans[i].isSkip && c.plans[i].returnCode == 0|
    ensures Planned(c, Fail, Jobs(c))
         == |set i | 0 <= i < Jobs(c) && !c.plans[i].isSkip && c.plans[i].returnCode == 1|
    ensures Planned(c, Valgrind, Jobs(c))
         == |set i | 0 <= i < Jobs(c) && !c.plans[i].isSkip && c.plans[i].returnCode == 2|
    ensures Planned(c, Crash, Jobs(c))
         == |set i | 0 <= i < Jobs(c) && !c.plans[i].isSkip && !(0 <= c.plans[i].returnCode <= 2)|
  {
    var n := Jobs(c);
    forall v
      ensures Planned(c, v, n) == |PlannedPlaces(c, v, n)|
    {
      PlannedIsPlaces(c, v, n);
    }
    assert PlannedPlaces(c, Skip, n) == set i | 0 <= i < n && c.plans[i].isSkip;
    assert PlannedPlaces(c, Pass, n) == set i | 0 <= i < n && !c.plans[i].isSkip && c.plans[i].returnCode == 0;
    assert PlannedPlaces(c, Fail, n) == set i | 0 <= i < n && !c.plans[i].isSkip && c.plans[i].returnCode == 1;
    assert PlannedPlaces(c, Valgrind, n) == set i | 0 <= i < n && !c.plans[i].isSkip && c.plans[i].returnCode == 2;
    assert PlannedPlaces(c, Crash, n)
        == set i | 0 <= i < n && !c.plans[i].isSkip && !(0 <= c.plans[i].returnCode <= 2);
  }

  // ----- the jobs that an interrupt breaks off

  /** Job x is still queued, or with a worker that has not looked at it yet. */
  ghost predicate Unchecked(s: State, x: nat) {
    x >= Taken(s) || exists w :: 0 <= w < |s.workers| && s.workers[w].Holding? && s.workers[w].job.id == x
  }

  /** Wherever job x is handed back, or about to be, it is broken off or not as told. */
  ghost predicate HandedBackAs(s: State, x: nat, broken: bool) {
    && (forall w :: 0 <= w < |s.workers| && s.workers[w].Putting? && s.workers[w].job.id == x ==>
          s.workers[w].job.isBreak == broken)
    && (forall k :: 0 <= k < |s.output| && s.output[k].id == x ==> s.output[k].isBreak == broken)
    && (forall k :: 0 <= k < |s.collected| && s.collected[k].id == x ==> s.collected[k].isBreak == broken)
  }

  ghost predicate NoneRuns(s: State, x: nat) {
    forall w :: 0 <= w < |s.workers| && s.workers[w].Running? ==> s.workers[w].job.id != x
  }

  /** The interrupt has struck before any worker looked at job x. */
  ghost predicate ToBreakOff(s: State, x: nat) {
    s.threadExit && NoneRuns(s, x) && HandedBackAs(s, x, true)
  }

  /** A worker looked at job x before the interrupt. */
  ghost predicate ToFinish(s: State, x: nat) {
    !Unchecked(s, x) && HandedBackAs(s, x, false)
  }

  lemma BreakOffStep(c: Config, s: State, a: Action, x: nat)
    requires Inv(c, s) && Enabled(c, s, a) && x < Jobs(c) && ToBreakOff(s, x)
    ensures ToBreakOff(Step(c, s, a), x)
  {
    var s' := Step(c, s, a);
    assert a.Check? ==> WorkerOk(c, s.threadExit, s.workers[a.w]);
  }

  lemma FinishStep(c: Config, s: State, a: Action, x: nat)
    requires Inv(c, s) && Enabled(c, s, a) && x < Jobs(c) && ToFinish(s, x)
    ensures ToFinish(Step(c, s, a), x)
  {
    var s' := Step(c, s, a);
    if a.Get? {
      HeadOfInput(c, s);
      assert s'.workers[a.w].job.id == Taken(s);
    }
    if a.Finish? || a.Check? {
      assert WorkerOk(c, s.threadExit, s.workers[a.w]);
    }
  }

  lemma {:induction false} DecidedRun(c: Config, s: State, acts: seq<Action>, t: State, x: nat)
    requires Inv(c, s) && Leads(c, s, acts, t) && x < Jobs(c)
    ensures Inv(c, t)
    ensures ToBreakOff(s, x) ==> ToBreakOff(t, x)
    ensures ToFinish(s, x) ==> ToFinish(t, x)
    decreases |acts|
  {
    if acts != [] {
      InvStep(c, s, acts[0]);
      if ToBreakOff(s, x) {
        BreakOffStep(c, s, acts[0], x);
      }
      if ToFinish(s, x) {
        FinishStep(c, s, acts[0], x);
      }
      DecidedRun(c, Step(c, s, acts[0]), acts[1..], t, x);
    }
  }

  /** Before an interrupt nothing is marked, and a job is in one place only. */
  lemma Undecided(c: Config, s: State, x: nat)
    requires Inv(c, s) && !s.threadExit && x < Jobs(c)
    ensures HandedBackAs(s, x, false)
    ensures Unchecked(s, x) ==> NoneRuns(s, x) && HandedBackAs(s, x, true)
  {
    forall w | 0 <= w < |s.workers|
      ensures WorkerOk(c, false, s.workers[w])
    {
      assert WorkerOk(c, s.threadExit, s.workers[w]);
    }
    assert forall k :: 0 <= k < |s.output| ==> HandedBack(c, false, s.output[k]);
    assert forall k :: 0 <= k < |s.collected| ==> HandedBack(c, false, s.collected[k]);
    if Unchecked(s, x) {
      OnlyHeld(c, s, x);
    }
  }

  lemma {:induction false} SumPositive(x: nat, workers: seq<Worker>, w: nat)
    requires w < |workers| && !workers[w].Idle? && workers[w].job.id == x
    ensures Sum(Carries(x), workers) >= 1
  {
    SumAtLeast(Carries(x), workers[1..], 0);
    if w > 0 {
      SumPositive(x, workers[1..], w - 1);
    }
  }

  lemma {:induction false} SumOfTwo(x: nat, workers: seq<Worker>, v: nat, w: nat)
    requires v < w < |workers| && !workers[v].Idle? && workers[v].job.id == x
    requires !workers[w].Idle? && workers[w].job.id == x
    ensures Sum(Carries(x), workers) >= 2
  {
    if v == 0 {
      SumPositive(x, workers[1..], w - 1);
    } else {
      SumAtLeast(Carries(x), workers[1..], 0);
      SumOfTwo(x, workers[1..], v - 1, w - 1);
    }
  }

  lemma {:induction false} CountPositive(jobs: seq<Job>, k: nat)
    requires k < |jobs|
    ensures CountId(jobs, jobs[k].id) >= 1
  {
    var n := |jobs| - 1;
    CountNotNegative(jobs[..n], jobs[k].id);
    if k < n {
      CountPositive(jobs[..n], k);
    }
  }

  lemma {:induction false} CountNotNegative(jobs: seq<Job>, x: nat)
    ensures CountId(jobs, x) >= 0
  {
    if jobs != [] {
      CountNotNegative(jobs[..|jobs| - 1], x);
    }
  }

  /** An unchecked job is nowhere but in the hand of the worker that will look at it. */
  lemma OnlyHeld(c: Config, s: State, x: nat)
    requires Inv(c, s) && x < Jobs(c) && Unchecked(s, x)
    ensures forall w :: 0 <= w < |s.workers| && !s.workers[w].Idle? && s.workers[w].job.id == x ==>
      s.workers[w].Holding?
    ensures forall k :: 0 <= k < |s.output| ==> s.output[k].id != x
    ensures forall k :: 0 <= k < |s.collected| ==> s.collected[k].id != x
  {
    assert Places(s, x) == if x < Taken(s) then 1 else 0;
    SumAtLeast(Carries(x), s.workers, 0);
    CountNotNegative(s.output, x);
    CountNotNegative(s.collected, x);
    forall w | 0 <= w < |s.workers| && !s.workers[w].Idle? && s.workers[w].job.id == x
      ensures s.workers[w].Holding? && x < Taken(s)
    {
      SumPositive(x, s.workers, w);
      var v :| 0 <= v < |s.workers| && s.workers[v].Holding? && s.workers[v].job.id == x;
      if v < w {
        SumOfTwo(x, s.workers, v, w);
      } else if w < v {
        SumOfTwo(x, s.workers, w, v);
      }
    }
    NotInQueues(c, s, x);
  }

  lemma NotInQueues(c: Config, s: State, x: nat)
    requires Inv(c, s) && x < Jobs(c) && Unchecked(s, x)
    ensures forall k :: 0 <= k < |s.output| ==> s.output[k].id != x
    ensures forall k :: 0 <= k < |s.collected| ==> s.collected[k].id != x
  {
    assert Places(s, x) == if x < Taken(s) then 1 else 0;
    SumAtLeast(Carries(x), s.workers, 0);
    CountNotNegative(s.output, x);
    CountNotNegative(s.collected, x);
    if w :| 0 <= w < |s.workers| && s.workers[w].Holding? && s.workers[w].job.id == x {
      SumPositive(x, s.workers, w);
    }
    forall k | 0 <= k < |s.output|
      ensures s.output[k].id != x
    {
      CountPositive(s.output, k);
    }
    forall k | 0 <= k < |s.collected|
      ensures s.collected[k].id != x
    {
      CountPositive(s.collected, k);
    }
  }

  /**
    Whatever the threads do after an interrupt, a job comes back broken off
    exactly when no worker had looked at it by then.
   */
  lemma InterruptedExactly(c: Config, s: State, acts: seq<Action>, t: State, x: nat)
    requires Inv(c, s) && !s.threadExit && x < Jobs(c)
    requires Leads(c, Step(c, s, Interrupt), acts, t) && Returned(c, t)
    ensures exists k :: 0 <= k < |t.collected| && t.collected[k].id == x
    ensures forall k :: 0 <= k < |t.collected| && t.collected[k].id == x ==>
      (t.collected[k].isBreak <==> Unchecked(s, x))
  {
    var s' := Step(c, s, Interrupt);
    InvStep(c, s, Interrupt);
    Undecided(c, s, x);
    assert Unchecked(s', x) <==> Unchecked(s, x);
    assert Unchecked(s, x) ==> ToBreakOff(s', x);
    assert !Unchecked(s, x) ==> ToFinish(s', x);
    DecidedRun(c, s', acts, t, x);
    ReturnedExactlyOnce(c, t);
    if forall k :: 0 <= k < |t.collected| ==> t.collected[k].id != x {
      NoSuchId(t.collected, x);
    }
  }
}
