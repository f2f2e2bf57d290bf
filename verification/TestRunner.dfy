/**
  The test runner with its shared state in place: the queues, the interrupt
  flag, the workers and main's counters are fields, and every atomic step of a
  thread is a method.  Each method takes the same step as the transition system,
  and the run loop lets an arbitrary enabled thread go next.
 */
module TestRunner {
  import opened Protocol
  import ProtocolProof
  import TestResults

  /** How many worker threads are started for the --jobs option (0 when it is not given). */
  function WorkerThreads(processors: int, processLimit: int): nat {
    var n := if processLimit != 0 && processors >= processLimit then processLimit else processors;
    if n < 0 then 0 else n
  }

  /** On a machine with a processor, only a negative limit leaves the runner without workers. */
  lemma NoWorkersIffNegativeLimit(plans: seq<Plan>, processors: int, processLimit: int)
    requires processors > 0
    ensures ProtocolProof.CanReturn(Config(plans, WorkerThreads(processors, processLimit)))
       <==> plans == [] || processLimit >= 0
  {
    ProtocolProof.ReturnsIffHasWorkers(Config(plans, WorkerThreads(processors, processLimit)));
  }

  /** As many threads as processors, or fewer if a positive limit says so; none for a negative limit. */
  lemma ThreadsStarted(processors: int, processLimit: int)
    requires processors > 0
    ensures processLimit == 0 ==> WorkerThreads(processors, processLimit) == processors
    ensures processLimit > 0 ==>
      var n := WorkerThreads(processors, processLimit);
      n <= processors && n <= processLimit && (n == processors || n == processLimit)
    ensures processLimit < 0 ==> WorkerThreads(processors, processLimit) == 0
  {
  }

  /** With --jobs=-1 a run of a single job never returns. */
  lemma NegativeLimitNeverReturns(plan: Plan, processors: int)
    requires processors > 0
    ensures WorkerThreads(processors, -1) == 0
    ensures !ProtocolProof.CanReturn(Config([plan], WorkerThreads(processors, -1)))
  {
    NoWorkersIffNegativeLimit([plan], processors, -1);
  }

  /** The actions that some worker can take now. */
  function WorkerActions(jobs: nat, workers: seq<Worker>, hasInput: bool): (acts: set<Action>)
    ensures forall w: nat :: Get(w) in acts <==> w < |workers| && workers[w].Idle? && hasInput
    ensures forall w: nat :: Check(w) in acts <==> w < |workers| && workers[w].Holding?
    ensures forall w: nat :: Finish(w) in acts <==> w < |workers| && workers[w].Running? && workers[w].job.id < jobs
    ensures forall w: nat :: Put(w) in acts <==> w < |workers| && workers[w].Putting?
    ensures forall a :: a in acts ==> a.Get? || a.Check? || a.Finish? || a.Put?
  {
    set w | 0 <= w < |workers| && (workers[w].Idle? ==> hasInput)
         && (workers[w].Running? ==> workers[w].job.id < jobs) && !workers[w].Stopped? ::
      match workers[w]
      case Idle => Get(w)
      case Holding(_) => Check(w)
      case Running(_) => Finish(w)
      case _ => Put(w)
  }

  function MainActions(canPut: bool, canGet: bool, canJoin: bool, canInterrupt: bool): (acts: set<Action>)
    ensures MainPut in acts <==> canPut
    ensures MainGet in acts <==> canGet
    ensures MainJoin in acts <==> canJoin
    ensures Interrupt in acts <==> canInterrupt
    ensures forall a :: a in acts ==> a.MainPut? || a.MainGet? || a.MainJoin? || a.Interrupt?
  {
    (if canPut then {MainPut} else {}) + (if canGet then {MainGet} else {})
    + (if canJoin then {MainJoin} else {}) + (if canInterrupt then {Interrupt} else {})
  }

  class TestRunner {
    const config: Config
    var inputQueue: seq<Job>
    var outputQueue: seq<Job>
    var threadExit: bool
    var workers: seq<Worker>
    var put: nat
    var received: nat
    var joined: nat
    var passedTests: int
    var failedTests: int
    var valgrindErrors: int
    var crashedTests: int
    var skippedTests: int
    ghost var collected: seq<Job>

    ghost function View(): State
      reads this
    {
      State(put, inputQueue, outputQueue, workers, threadExit, collected, joined)
    }

    ghost predicate Counted()
      reads this
    {
      && received == |collected|
      && passedTests == ProtocolProof.Count(collected, ProtocolProof.Pass)
      && failedTests == ProtocolProof.Count(collected, ProtocolProof.Fail)
      && valgrindErrors == ProtocolProof.Count(collected, ProtocolProof.Valgrind)
      && crashedTests == ProtocolProof.Count(collected, ProtocolProof.Crash)
      && skippedTests == ProtocolProof.Count(collected, ProtocolProof.Skip)
    }

    ghost predicate Valid()
      reads this
    {
      Inv(config, View()) && Counted()
    }

    /** The actions that some thread can take now. */
    function Ready(): (acts: set<Action>)
      requires received == |collected|
      reads this
      ensures forall a :: a in acts <==> Enabled(config, View(), a)
    {
      MainActions(put < Total(config),
                  put == Total(config) && received < Jobs(config) && outputQueue != [],
                  put == Total(config) && received == Jobs(config) && joined < config.processors
                  && joined < |workers| && workers[joined].Stopped?,
                  !threadExit)
      + WorkerActions(Jobs(config), workers, inputQueue != [])
    }

    constructor (c: Config)
      ensures config == c && Valid() && View() == Init(c)
    {
      config := c;
      inputQueue, outputQueue, threadExit := [], [], false;
      workers := seq(c.processors, _ => Idle);
      put, received, joined := 0, 0, 0;
      passedTests, failedTests, valgrindErrors, crashedTests, skippedTests := 0, 0, 0, 0, 0;
      collected := [];
      new;
      ProtocolProof.InvInit(c);
    }

    /** Main queues its next job, or its next pill. */
    method PutItem()
      requires Valid() && Enabled(config, View(), MainPut)
      modifies this`inputQueue, this`put
      ensures Valid() && View() == Step(config, old(View()), MainPut)
    {
      ProtocolProof.InvStep(config, View(), MainPut);
      inputQueue := inputQueue + [Item(config, put)];
      put := put + 1;
    }

    /** Counts a job that came back; a broken-off job has no result and is not counted. */
    method CountJob(job: Job)
      requires Counted()
      modifies this`received, this`collected
      modifies this`passedTests, this`failedTests, this`valgrindErrors, this`crashedTests, this`skippedTests
      ensures collected == old(collected) + [job] && Counted()
      ensures skippedTests == old(skippedTests) + if !job.isBreak && job.isSkip then 1 else 0
      ensures var ran, code := !job.isBreak && !job.isSkip, job.returnCode;
        && passedTests == old(passedTests) + (if ran && code == 0 then 1 else 0)
        && failedTests == old(failedTests) + (if ran && code == 1 then 1 else 0)
        && valgrindErrors == old(valgrindErrors) + (if ran && code == 2 then 1 else 0)
        && crashedTests == old(crashedTests) + (if ran && !(0 <= code <= 2) then 1 else 0)
    {
      ProtocolProof.CountAppend(collected, job);
      received, collected := received + 1, collected + [job];
      if job.isBreak {
        return;
      }
      if job.isSkip {
        skippedTests := skippedTests + 1;
      } else if job.returnCode == 0 {
        passedTests := passedTests + 1;
      } else if job.returnCode == 1 {
        failedTests := failedTests + 1;
      } else if job.returnCode == 2 {
        valgrindErrors := valgrindErrors + 1;
      } else {
        crashedTests := crashedTests + 1;
      }
    }

    /** Main takes one job from the output queue. */
    method Collect()
      requires Valid() && Enabled(config, View(), MainGet)
      modifies this`outputQueue, this`received, this`collected
      modifies this`passedTests, this`failedTests, this`valgrindErrors, this`crashedTests, this`skippedTests
      ensures Valid() && View() == Step(config, old(View()), MainGet)
    {
      ProtocolProof.InvStep(config, View(), MainGet);
      var job := outputQueue[0];
      outputQueue := outputQueue[1..];
      CountJob(job);
      assert View() == Step(config, old(View()), MainGet);
    }

    method Join()
      requires Valid() && Enabled(config, View(), MainJoin)
      modifies this`joined
      ensures Valid() && View() == Step(config, old(View()), MainJoin)
    {
      ProtocolProof.InvStep(config, View(), MainJoin);
      joined := joined + 1;
    }

    method SigintHook()
      requires Valid() && !threadExit
      modifies this`threadExit
      ensures Valid() && View() == Step(config, old(View()), Interrupt)
    {
      ProtocolProof.InvStep(config, View(), Interrupt);
      threadExit := true;
    }

    /** Worker w takes the head of the input queue. */
    method GetJob(w: nat)
      requires Valid() && Enabled(config, View(), Get(w))
      modifies this`inputQueue, this`workers
      ensures Valid() && View() == Step(config, old(View()), Get(w))
    {
      ProtocolProof.InvStep(config, View(), Get(w));
      var job := inputQueue[0];
      inputQueue := inputQueue[1..];
      workers := workers[w := Holding(job)];
    }

    /** Worker w looks at its job and at the interrupt flag. */
    method CheckJob(w: nat)
      requires Valid() && Enabled(config, View(), Check(w))
      modifies this`workers
      ensures Valid() && View() == Step(config, old(View()), Check(w))
    {
      ProtocolProof.InvStep(config, View(), Check(w));
      var job := workers[w].job;
      if job.isBreak {
        workers := workers[w := Stopped(job)];
      } else if threadExit {
        workers := workers[w := Putting(job.(isBreak := true))];
      } else if job.isSkip {
        workers := workers[w := Putting(job)];
      } else {
        workers := workers[w := Running(job)];
      }
    }

    /** The process of worker w's job ends with its return code. */
    method FinishJob(w: nat)
      requires Valid() && Enabled(config, View(), Finish(w))
      modifies this`workers
      ensures Valid() && View() == Step(config, old(View()), Finish(w))
    {
      ProtocolProof.InvStep(config, View(), Finish(w));
      var job := workers[w].job;
      workers := workers[w := Putting(job.(returnCode := config.plans[job.id].returnCode))];
    }

    /** Worker w puts its job on the output queue and waits for the next. */
    method PutJob(w: nat)
      requires Valid() && Enabled(config, View(), Put(w))
      modifies this`outputQueue, this`workers
      ensures Valid() && View() == Step(config, old(View()), Put(w))
    {
      ProtocolProof.InvStep(config, View(), Put(w));
      outputQueue := outputQueue + [workers[w].job];
      workers := workers[w := Idle];
    }

    method TakeStep(a: Action)
      requires Valid() && Enabled(config, View(), a)
      modifies this
      ensures Valid() && View() == Step(config, old(View()), a)
    {
      match a
      case MainPut => PutItem();
      case MainGet => Collect();
      case MainJoin => Join();
      case Interrupt => SigintHook();
      case Get(w) => GetJob(w);
      case Check(w) => CheckJob(w);
      case Finish(w) => FinishJob(w);
      case Put(w) => PutJob(w);
    }

    /** Each counter is the number of collected jobs of its kind. */
    ghost predicate Reports(jobs: seq<Job>)
      reads this
    {
      && skippedTests == |set k | 0 <= k < |jobs| && !jobs[k].isBreak && jobs[k].isSkip|
      && passedTests
         == |set k | 0 <= k < |jobs| && !jobs[k].isBreak && !jobs[k].isSkip && jobs[k].returnCode == 0|
      && failedTests
         == |set k | 0 <= k < |jobs| && !jobs[k].isBreak && !jobs[k].isSkip && jobs[k].returnCode == 1|
      && valgrindErrors
         == |set k | 0 <= k < |jobs| && !jobs[k].isBreak && !jobs[k].isSkip && jobs[k].returnCode == 2|
      && crashedTests
         == |set k | 0 <= k < |jobs| && !jobs[k].isBreak && !jobs[k].isSkip && !(0 <= jobs[k].returnCode <= 2)|
    }

    lemma UninterruptedReport()
      requires Valid() && Returned(config, View()) && !threadExit
      ensures ReportsPlans(config.plans)
    {
      forall v
        ensures ProtocolProof.Count(collected, v) == ProtocolProof.Planned(config, v, Jobs(config))
      {
        ProtocolProof.UninterruptedResult(config, View(), v);
      }
      TestResults.CountsOfPlans(config);
    }

    /** Each counter is the number of plans of its kind. */
    ghost predicate ReportsPlans(plans: seq<Plan>)
      reads this
    {
      && skippedTests == |set i | 0 <= i < |plans| && plans[i].isSkip|
      && passedTests == |set i | 0 <= i < |plans| && !plans[i].isSkip && plans[i].returnCode == 0|
      && failedTests == |set i | 0 <= i < |plans| && !plans[i].isSkip && plans[i].returnCode == 1|
      && valgrindErrors == |set i | 0 <= i < |plans| && !plans[i].isSkip && plans[i].returnCode == 2|
      && crashedTests == |set i | 0 <= i < |plans| && !plans[i].isSkip && !(0 <= plans[i].returnCode <= 2)|
    }

    /**
      Lets arbitrary threads go one after the other until main returns.  The run
      ends whatever the choices are; the counters then account for every job by
      its return code, and the exit code is 0 exactly when every job came back
      skipped or with return code 0 and none was broken off.  Without an interrupt
      all this is decided by the plans.
     */
    method RunTests() returns (exitCode: int)
      requires Valid() && ProtocolProof.HasWorkers(config)
      modifies this
      ensures Valid() && Returned(config, View()) && Reports(collected)
      ensures passedTests + failedTests + valgrindErrors + crashedTests + skippedTests
            + |set k | 0 <= k < |collected| && collected[k].isBreak| == Jobs(config)
      ensures exitCode == 0 <==> forall k :: 0 <= k < |collected| ==>
        !collected[k].isBreak && (collected[k].isSkip || collected[k].returnCode == 0)
      ensures !threadExit ==> ReportsPlans(config.plans)
      ensures !threadExit ==>
        (exitCode == 0 <==> forall i :: 0 <= i < Jobs(config) ==>
          config.plans[i].isSkip || config.plans[i].returnCode == 0)
    {
      while !(put == Total(config) && received == Jobs(config) && joined == config.processors)
        invariant Valid()
        decreases ProtocolProof.Measure(config, View())
      {
        ghost var possible := ProtocolProof.SomeStepEnabled(config, View());
        assert possible in Ready();
        ProtocolProof.MeasureDropsForAll(config, View());
        var a :| a in Ready();
        TakeStep(a);
      }
      ProtocolProof.CountsAddUp(collected);
      TestResults.CountsOfJobs(collected);
      assert forall k :: 0 <= k < |collected| ==>
        (ProtocolProof.Good(collected[k]) <==>
         !collected[k].isBreak && (collected[k].isSkip || collected[k].returnCode == 0));
      if !threadExit {
        UninterruptedReport();
        ProtocolProof.UninterruptedExit(config, View());
      }
      if passedTests + skippedTests == Jobs(config) {
        return 0;
      } else {
        return 1;
      }
    }
  }
}
