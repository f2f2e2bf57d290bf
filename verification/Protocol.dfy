/**
  The parallel test runner as a transition system: a main thread that queues
  jobs and then one poison pill per worker, the workers, the two queues between
  them, and an interrupt that may strike at any moment.  One action is one atomic
  step of one thread; any enabled action may come next.
 */
module Protocol {
  import Numbers

  /** A unit of work.  Job i of the plan has id i; the pills have the ids after them. */
  datatype Job = Job(id: nat, isBreak: bool, isSkip: bool, returnCode: int)

  /** What the run is given: per job whether to skip it and what its process would return. */
  datatype Plan = Plan(isSkip: bool, returnCode: int)

  datatype Config = Config(plans: seq<Plan>, processors: nat)

  /** Where a worker stands in its loop: waiting, got a job, running it, about to hand it back, gone. */
  datatype Worker =
    | Idle
    | Holding(job: Job)
    | Running(job: Job)
    | Putting(job: Job)
    | Stopped(job: Job)

  /**
    put, collected and joined are main's progress: items put on the input queue,
    jobs taken from the output queue, and threads joined.
   */
  datatype State = State(put: nat, input: seq<Job>, output: seq<Job>, workers: seq<Worker>,
                         threadExit: bool, collected: seq<Job>, joined: nat)

  datatype Action =
    | MainPut
    | MainGet
    | MainJoin
    | Interrupt
    | Get(w: nat)
    | Check(w: nat)
    | Finish(w: nat)
    | Put(w: nat)

  function Jobs(c: Config): nat {
    |c.plans|
  }

  function Total(c: Config): nat {
    Jobs(c) + c.processors
  }

  /** Item i that main puts on the input queue: the planned jobs, then the pills. */
  function Item(c: Config, i: nat): Job
    requires i < Total(c)
  {
    if i < Jobs(c) then Job(i, false, c.plans[i].isSkip, 0) else Job(i, true, false, 0)
  }

  function Items(c: Config, from: nat, to: nat): (items: seq<Job>)
    requires from <= to <= Total(c)
    ensures |items| == to - from
    ensures forall k :: 0 <= k < |items| ==> items[k] == Item(c, from + k)
  {
    seq(to - from, k requires 0 <= k < to - from => Item(c, from + k))
  }

  function Init(c: Config): State {
    State(0, [], [], seq(c.processors, _ => Idle), false, [], 0)
  }

  predicate Returned(c: Config, s: State) {
    s.put == Total(c) && |s.collected| == Jobs(c) && s.joined == c.processors
  }

  predicate Enabled(c: Config, s: State, a: Action) {
    match a
    case MainPut => s.put < Total(c)
    case MainGet => s.put == Total(c) && |s.collected| < Jobs(c) && s.output != []
    case MainJoin =>
      && s.put == Total(c) && |s.collected| == Jobs(c)
      && s.joined < c.processors && s.joined < |s.workers| && s.workers[s.joined].Stopped?
    case Interrupt => !s.threadExit
    case Get(w) => w < |s.workers| && s.workers[w].Idle? && s.input != []
    case Check(w) => w < |s.workers| && s.workers[w].Holding?
    case Finish(w) =>
      w < |s.workers| && s.workers[w].Running? && s.workers[w].job.id < Jobs(c)
    case Put(w) => w < |s.workers| && s.workers[w].Putting?
  }

  /** What a worker does with the job it has just got. */
  function Checked(threadExit: bool, job: Job): Worker {
    if job.isBreak then Stopped(job)
    else if threadExit then Putting(job.(isBreak := true))
    else if job.isSkip then Putting(job)
    else Running(job)
  }

  function Step(c: Config, s: State, a: Action): State
    requires Enabled(c, s, a)
  {
    match a
    case MainPut => s.(input := s.input + [Item(c, s.put)], put := s.put + 1)
    case MainGet => s.(output := s.output[1..], collected := s.collected + [s.output[0]])
    case MainJoin => s.(joined := s.joined + 1)
    case Interrupt => s.(threadExit := true)
    case Get(w) => s.(input := s.input[1..], workers := s.workers[w := Holding(s.input[0])])
    case Check(w) => s.(workers := s.workers[w := Checked(s.threadExit, s.workers[w].job)])
    case Finish(w) =>
      var job := s.workers[w].job;
      s.(workers := s.workers[w := Putting(job.(returnCode := c.plans[job.id].returnCode))])
    case Put(w) =>
      s.(output := s.output + [s.workers[w].job], workers := s.workers[w := Idle])
  }

  // ----- sums over the workers

  ghost function Sum(f: Worker -> int, workers: seq<Worker>): int {
    if workers == [] then 0 else f(workers[0]) + Sum(f, workers[1..])
  }

  lemma {:induction false} SumUpdate(f: Worker -> int, workers: seq<Worker>, i: nat, w: Worker)
    requires i < |workers|
    ensures Sum(f, workers[i := w]) == Sum(f, workers) - f(workers[i]) + f(w)
  {
    if i > 0 {
      SumUpdate(f, workers[1..], i - 1, w);
      assert workers[i := w][1..] == workers[1..][i - 1 := w];
    }
  }

  lemma {:induction false} SumAtLeast(f: Worker -> int, workers: seq<Worker>, low: int)
    requires forall i :: 0 <= i < |workers| ==> f(workers[i]) >= low
    ensures Sum(f, workers) >= low * |workers|
  {
    if workers != [] {
      SumAtLeast(f, workers[1..], low);
    }
  }

  lemma {:induction false} SumAtMost(f: Worker -> int, workers: seq<Worker>, high: int)
    requires forall i :: 0 <= i < |workers| ==> f(workers[i]) <= high
    ensures Sum(f, workers) <= high * |workers|
  {
    if workers != [] {
      SumAtMost(f, workers[1..], high);
    }
  }

  /** 1 for a worker that has taken its pill. */
  ghost function TookPill(w: Worker): int {
    if !w.Idle? && w.job.isBreak && !w.Putting? then 1 else 0
  }

  /** 1 for a worker with a real job in hand. */
  ghost function HasRealJob(w: Worker): int {
    if w.Idle? || TookPill(w) == 1 then 0 else 1
  }

  // ----- the invariant

  /** How many items the workers have taken from the input queue. */
  ghost function Taken(s: State): int {
    s.put - |s.input|
  }

  /**
    A job handed back: skipped, or run with its process's return code, or marked
    by a worker that saw the interrupt and otherwise as it was queued.
   */
  ghost predicate HandedBack(c: Config, threadExit: bool, job: Job) {
    && job.id < Jobs(c)
    && job.isSkip == c.plans[job.id].isSkip
    && (job.isBreak ==> threadExit && job.returnCode == 0)
    && (!job.isBreak && !job.isSkip ==> job.returnCode == c.plans[job.id].returnCode)
  }

  ghost predicate WorkerOk(c: Config, threadExit: bool, w: Worker) {
    match w
    case Idle => true
    case Holding(job) => job.id < Total(c) && job == Item(c, job.id)
    case Running(job) => job.id < Jobs(c) && job == Item(c, job.id) && !job.isSkip
    case Putting(job) => HandedBack(c, threadExit, job)
    case Stopped(job) => Jobs(c) <= job.id < Total(c) && job == Item(c, job.id)
  }

  ghost predicate AllHandedBack(c: Config, threadExit: bool, jobs: seq<Job>) {
    forall k {:trigger HandedBack(c, threadExit, jobs[k])} ::
      0 <= k < |jobs| ==> HandedBack(c, threadExit, jobs[k])
  }

  ghost predicate QueuesOk(c: Config, s: State) {
    && |s.input| <= s.put <= Total(c)
    && (c.processors == 0 ==> Taken(s) == 0)
    && s.input == Items(c, s.put - |s.input|, s.put)
    && AllHandedBack(c, s.threadExit, s.output)
    && AllHandedBack(c, s.threadExit, s.collected)
  }

  ghost predicate MainOk(c: Config, s: State) {
    && |s.collected| <= Jobs(c) && s.joined <= c.processors
    && (s.collected != [] ==> s.put == Total(c))
    && (s.joined > 0 ==> s.put == Total(c) && |s.collected| == Jobs(c))
    && (forall i :: 0 <= i < s.joined ==> i < |s.workers| && s.workers[i].Stopped?)
  }

  /** The pills taken and the real jobs in hand, on their way back or collected add up. */
  ghost predicate CountsOk(c: Config, s: State) {
    && Sum(TookPill, s.workers) == Taken(s) - Numbers.Min(Taken(s), Jobs(c))
    && Sum(HasRealJob, s.workers) + |s.output| + |s.collected| == Numbers.Min(Taken(s), Jobs(c))
  }

  /** 1 for a worker that has the item with id x: got it, runs it, hands it back or stopped at it. */
  ghost function Carries(x: nat): Worker -> int {
    (w: Worker) => if !w.Idle? && w.job.id == x then 1 else 0
  }

  ghost function CountId(jobs: seq<Job>, x: nat): int {
    if jobs == [] then 0
    else CountId(jobs[..|jobs| - 1], x) + if jobs[|jobs| - 1].id == x then 1 else 0
  }

  /** In how many places item x is: with a worker, on the output queue, or collected. */
  ghost function Places(s: State, x: nat): int {
    Sum(Carries(x), s.workers) + CountId(s.output, x) + CountId(s.collected, x)
  }

  /** Every item taken from the input queue is in exactly one place, and no other is anywhere. */
  ghost predicate NothingLost(c: Config, s: State) {
    forall x: nat {:trigger Places(s, x)} :: Places(s, x) == if x < Taken(s) then 1 else 0
  }

  ghost predicate WorkersOk(c: Config, s: State) {
    && |s.workers| == c.processors
    && (forall w {:trigger WorkerOk(c, s.threadExit, s.workers[w])} ::
          0 <= w < |s.workers| ==> WorkerOk(c, s.threadExit, s.workers[w]))
  }

  ghost predicate Inv(c: Config, s: State) {
    && WorkersOk(c, s)
    && QueuesOk(c, s)
    && MainOk(c, s)
    && CountsOk(c, s)
    && NothingLost(c, s)
  }
}
