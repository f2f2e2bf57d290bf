/**
  The mini shell's executor.  It starts the commands of a pipeline from left to
  right, waits for them at every and- or or-operator and at the end, and stops
  where the operator and the exit status say so.  Changes of directory apply to
  everything behind them.
 */
module ShellRun {
  import opened Wrappers
  import Sequences
  import opened ShellSyntax
  import ShellGrammar

  // ----- what a pipeline means

  datatype Stdin = InheritedIn | FromFile(name: string) | FromPipe(producer: nat)

  /**
    A started process: the place of its command, its words, its standard streams,
    what is added to its environment, and its directory.
   */
  datatype Launch = Launch(node: nat, argv: seq<string>, stdin: Stdin, stdout: Output, stderr: Output,
                           env: Option<map<string, string>>, cwd: Option<string>)

  datatype Outcome = Exit(status: int) | IndexError | TypeError

  /** Exit statuses are given: one for the command at each place of the pipeline. */
  type Exits = nat -> int

  /** How Python joins a directory and a path. */
  function JoinPath(dir: string, path: string): string {
    if path != "" && path[0] == '/' then path
    else if dir == "" || dir[|dir| - 1] == '/' then dir + path
    else dir + "/" + path
  }

  /** The directory in force at place k. */
  function CwdAt(nodes: seq<Node>, k: nat): string
    requires k <= |nodes|
  {
    if k == 0 then "."
    else
      match nodes[k - 1]
      case Chdir(Some(dir)) => JoinPath(CwdAt(nodes, k - 1), dir)
      case _ => CwdAt(nodes, k - 1)
  }

  /** The command whose output the unit at place k reads; changes of directory are looked through. */
  function ProducerAt(nodes: seq<Node>, k: nat): (producer: Option<nat>)
    requires k <= |nodes|
    ensures producer.Some? ==> producer.value < k
  {
    if k < 2 then None
    else if nodes[k - 2].Chdir? then ProducerAt(nodes, k - 2)
    else if nodes[k - 1] == Pipe then Some(k - 2)
    else None
  }

  function LaunchAt(nodes: seq<Node>, k: nat): Launch
    requires k < |nodes| && nodes[k].Command?
  {
    var stdin :=
      match ProducerAt(nodes, k)
      case Some(j) => FromPipe(j)
      case None => match nodes[k].stdin case Some(f) => FromFile(f) case None => InheritedIn;
    var cmd, cwd := nodes[k], CwdAt(nodes, k);
    Launch(k, cmd.argv, stdin, cmd.stdout, cmd.stderr,
           if cmd.env == map[] then None else Some(cmd.env), if cwd == "." then None else Some(cwd))
  }

  datatype Result = Result(executed: seq<nat>, outcome: Outcome)

  function Before(k: nat, r: Result): Result {
    Result([k] + r.executed, r.outcome)
  }

  /** The commands of the pipe that is under way at place k. */
  function PipeAt(nodes: seq<Node>, k: nat): (ks: seq<nat>)
    requires k <= |nodes|
    ensures forall j :: j in ks ==> j < k
  {
    match ProducerAt(nodes, k)
    case None => []
    case Some(j) => PipeAt(nodes, j) + [j]
  }

  // ----- the files a command opens

  datatype Opening = Reading(name: string) | Writing(name: string)

  function OutFile(out: Output): seq<Opening> {
    if out.ToFile? && !IsNullDevice(out.name) then [Writing(out.name)] else []
  }

  /** The null device is shared and never opened for output. */
  predicate IsNullDevice(name: string) {
    name == "NUL:" || name == "/dev/null"
  }

  /** The input file of the command at place k, when it does not read from a pipe. */
  function InFile(nodes: seq<Node>, k: nat): seq<Opening>
    requires k < |nodes| && nodes[k].Command?
  {
    if ProducerAt(nodes, k).None? && nodes[k].stdin.Some? then [Reading(nodes[k].stdin.value)] else []
  }

  /** The files the command at place k opens. */
  function OpeningsAt(nodes: seq<Node>, k: nat): seq<Opening>
    requires k < |nodes| && nodes[k].Command?
  {
    InFile(nodes, k) + OutFile(nodes[k].stdout) + OutFile(nodes[k].stderr)
  }

  /** Which commands run from place i on, and how the run ends. */
  function Evaluate(nodes: seq<Node>, i: nat, exits: Exits): (r: Result)
    ensures forall k :: k in r.executed ==> k < |nodes| && nodes[k].Command?
    decreases |nodes| - i
  {
    if i >= |nodes| then Result([], IndexError)
    else
      match nodes[i]
      case Chdir(dir) =>
        if i + 1 == |nodes| then Result([], IndexError)
        else if dir == None then Result([], TypeError)
        else Evaluate(nodes, i + 2, exits)
      case Command(_, _, _, _, _) =>
        if i + 1 == |nodes| then Result([i], Exit(exits(i)))
        else if nodes[i + 1] == Pipe then Before(i, Evaluate(nodes, i + 2, exits))
        else if (nodes[i + 1] == Or) == (exits(i) == 0) then Result([i], Exit(exits(i)))
        else Before(i, Evaluate(nodes, i + 2, exits))
      case _ => Result([], IndexError)
  }

  /** The place of the unit at which the run ends. */
  function EndsAt(nodes: seq<Node>, i: nat, exits: Exits): (k: nat)
    requires i < |nodes|
    ensures i <= k < |nodes|
    decreases |nodes| - i
  {
    if i + 2 >= |nodes| || nodes[i] == Chdir(None) then i
    else if nodes[i].Command? && nodes[i + 1] != Pipe && (nodes[i + 1] == Or) == (exits(i) == 0) then i
    else EndsAt(nodes, i + 2, exits)
  }

  /** The commands of the pipe that is left under way: none when the run ends with a status. */
  function LeftUnderWay(nodes: seq<Node>, exits: Exits): seq<nat> {
    if nodes == [] || Evaluate(nodes, 0, exits).outcome.Exit? then []
    else PipeAt(nodes, EndsAt(nodes, 0, exits))
  }

  predicate EndsInPipe(nodes: seq<Node>, exits: Exits) {
    nodes != [] && ProducerAt(nodes, EndsAt(nodes, 0, exits)).Some?
  }

  predicate EndsWith<T(==)>(s: seq<T>, t: seq<T>) {
    |t| <= |s| && s[|s| - |t|..] == t
  }

  lemma PipeNext(nodes: seq<Node>, i: nat)
    requires ShellGrammar.WellShaped(nodes) && i % 2 == 0 && i + 2 < |nodes|
    ensures PipeAt(nodes, i + 2) ==
      if nodes[i].Chdir? then PipeAt(nodes, i) else if nodes[i + 1] == Pipe then PipeAt(nodes, i) + [i] else []
  {
    assert ShellGrammar.NodeOk(nodes, i) && ShellGrammar.NodeOk(nodes, i + 1);
  }

  lemma {:induction false} EndsWithPipe(nodes: seq<Node>, i: nat, exits: Exits)
    requires ShellGrammar.WellShaped(nodes) && i % 2 == 0 && i < |nodes|
    requires !Evaluate(nodes, i, exits).outcome.Exit?
    ensures EndsWith(PipeAt(nodes, i) + Evaluate(nodes, i, exits).executed, PipeAt(nodes, EndsAt(nodes, i, exits)))
    decreases |nodes| - i
  {
    assert ShellGrammar.NodeOk(nodes, i);
    var pipe := PipeAt(nodes, i);
    if EndsAt(nodes, i, exits) == i {
      assert pipe + [] == pipe;
    } else {
      assert ShellGrammar.NodeOk(nodes, i + 1);
      var rest, left := Evaluate(nodes, i + 2, exits).executed, PipeAt(nodes, EndsAt(nodes, i, exits));
      EndsWithPipe(nodes, i + 2, exits);
      PipeNext(nodes, i);
      if nodes[i].Command? {
        LongerPipeEnds(pipe, i, rest, left);
      }
    }
  }

  lemma LongerPipeEnds(pipe: seq<nat>, i: nat, rest: seq<nat>, left: seq<nat>)
    requires EndsWith((pipe + [i]) + rest, left) || EndsWith([] + rest, left)
    ensures EndsWith(pipe + ([i] + rest), left)
  {
    Sequences.ConcatAssociative(pipe, [i], rest);
    if EndsWith([] + rest, left) {
      assert [] + rest == rest;
      EndsWithMore(pipe + [i], rest, left);
    }
  }

  lemma EndsWithMore<T>(a: seq<T>, b: seq<T>, t: seq<T>)
    requires EndsWith(b, t)
    ensures EndsWith(a + b, t)
  {
    assert (a + b)[|a + b| - |t|..] == b[|b| - |t|..];
  }

  /**
    What a run leaves under way are the commands it started last; there are none
    exactly when it ends with a status or the change of directory that breaks it
    off does not stand in a pipe.
   */
  lemma LeftUnderWayIsLast(nodes: seq<Node>, exits: Exits)
    requires ShellGrammar.WellShaped(nodes)
    ensures EndsWith(Evaluate(nodes, 0, exits).executed, LeftUnderWay(nodes, exits))
    ensures LeftUnderWay(nodes, exits) == [] <==>
      Evaluate(nodes, 0, exits).outcome.Exit? || !EndsInPipe(nodes, exits)
  {
    var ran := Evaluate(nodes, 0, exits).executed;
    if !Evaluate(nodes, 0, exits).outcome.Exit? {
      EndsWithPipe(nodes, 0, exits);
      assert PipeAt(nodes, 0) + ran == ran;
    }
  }

  // ----- the operating system, as far as the executor uses it

  datatype File = DevNull | Handle(n: nat)

  /** A process has its place among the launches for an id, a file its place among the openings for a handle. */
  class System {
    const exits: Exits
    var launched: seq<Launch>
    var unwaited: set<nat>
    var openings: seq<Opening>
    var openFiles: set<nat>

    ghost predicate Valid()
      reads this
    {
      && (forall p :: p in unwaited ==> p < |launched|)
      && (forall f :: f in openFiles ==> f < |openings|)
    }

    constructor (e: Exits)
      ensures Valid() && exits == e && launched == [] && unwaited == {} && openings == [] && openFiles == {}
    {
      exits, launched, unwaited, openings, openFiles := e, [], {}, [], {};
    }

    method Popen(launch: Launch) returns (proc: nat)
      requires Valid()
      modifies this`launched, this`unwaited
      ensures Valid() && proc == |old(launched)| && launched == old(launched) + [launch]
      ensures proc !in old(unwaited) && unwaited == old(unwaited) + {proc}
    {
      proc := |launched|;
      launched := launched + [launch];
      unwaited := unwaited + {proc};
    }

    /** A process can be waited for once. */
    method Wait(proc: nat) returns (status: int)
      requires Valid() && proc in unwaited
      modifies this`unwaited
      ensures Valid() && unwaited == old(unwaited) - {proc} && status == exits(launched[proc].node)
    {
      unwaited := unwaited - {proc};
      status := exits(launched[proc].node);
    }

    method Open(opening: Opening) returns (file: nat)
      requires Valid()
      modifies this`openings, this`openFiles
      ensures Valid() && file == |old(openings)| && openings == old(openings) + [opening]
      ensures file !in old(openFiles) && openFiles == old(openFiles) + {file}
    {
      file := |openings|;
      openings, openFiles := openings + [opening], openFiles + {file};
    }

    /** An open file can be closed once. */
    method Close(file: nat)
      requires Valid() && file in openFiles
      modifies this`openFiles
      ensures Valid() && openFiles == old(openFiles) - {file}
    {
      openFiles := openFiles - {file};
    }
  }

  ghost function Handles(files: seq<File>): set<nat> {
    set f | f in files && f.Handle? :: f.n
  }

  ghost predicate DistinctHandles(files: seq<File>) {
    forall i, j :: 0 <= i < j < |files| && files[i].Handle? ==> files[i] != files[j]
  }

  method CloseAll(files: seq<File>, sys: System)
    requires sys.Valid() && DistinctHandles(files) && Handles(files) <= sys.openFiles
    modifies sys`openFiles
    ensures sys.Valid() && sys.openFiles == old(sys.openFiles) - Handles(files)
  {
    for i := 0 to |files|
      invariant sys.Valid() && sys.openFiles == old(sys.openFiles) - Handles(files[..i])
    {
      assert files[..i + 1] == files[..i] + [files[i]];
      if files[i] != DevNull {
        assert files[i] in files;
        assert files[i].n !in Handles(files[..i]);
        sys.Close(files[i].n);
      }
    }
    assert files[..|files|] == files;
  }

  /** Waits for all processes of a pipe; its status is the last one's. */
  method ExecPipedCommands(procs: seq<nat>, sys: System) returns (retval: int)
    requires sys.Valid() && procs != [] && Sequences.Distinct(procs)
    requires forall j :: 0 <= j < |procs| ==> procs[j] in sys.unwaited && procs[j] < |sys.launched|
    modifies sys`unwaited
    ensures sys.Valid() && sys.unwaited == old(sys.unwaited) - Sequences.Elements(procs)
    ensures retval == sys.exits(old(sys.launched)[procs[|procs| - 1]].node)
  {
    var retvals: seq<int> := [];
    for i := 0 to |procs|
      invariant sys.Valid() && |retvals| == i
      invariant sys.unwaited == old(sys.unwaited) - Sequences.Elements(procs[..i])
      invariant forall j :: 0 <= j < i ==>
        procs[j] < |sys.launched| && retvals[j] == sys.exits(sys.launched[procs[j]].node)
    {
      assert procs[i] !in Sequences.Elements(procs[..i]);
      var status := sys.Wait(procs[i]);
      retvals := retvals + [status];
      assert procs[..i + 1] == procs[..i] + [procs[i]];
    }
    assert procs[..|procs|] == procs;
    retval := 0;
    for i := 0 to |retvals|
      invariant retval == 0 && forall j :: 0 <= j < i ==> retvals[j] == 0
    {
      if retvals[i] != 0 {
        retval := retvals[|retvals| - 1];
        break;
      }
    }
  }

  ghost function Launches(nodes: seq<Node>, ks: seq<nat>): (ls: seq<Launch>)
    requires forall k :: k in ks ==> k < |nodes| && nodes[k].Command?
    ensures |ls| == |ks|
    ensures forall j :: 0 <= j < |ks| ==> ks[j] in ks && ls[j] == LaunchAt(nodes, ks[j])
  {
    seq(|ks|, j requires 0 <= j < |ks| => assert ks[j] in ks; LaunchAt(nodes, ks[j]))
  }

  lemma LaunchesAppend(nodes: seq<Node>, ks: seq<nat>, k: nat)
    requires forall j :: j in ks ==> j < |nodes| && nodes[j].Command?
    requires k < |nodes| && nodes[k].Command?
    ensures Launches(nodes, ks + [k]) == Launches(nodes, ks) + [LaunchAt(nodes, k)]
  {
  }

  /** The openings of the commands at the given places. */
  ghost function Openings(nodes: seq<Node>, ks: seq<nat>): seq<Opening>
    requires forall k :: k in ks ==> k < |nodes| && nodes[k].Command?
  {
    if ks == [] then []
    else
      var front, last := ks[..|ks| - 1], ks[|ks| - 1];
      assert last in ks && forall k :: k in front ==> k in ks;
      Openings(nodes, front) + OpeningsAt(nodes, last)
  }

  lemma OpeningsAppend(nodes: seq<Node>, ks: seq<nat>, k: nat)
    requires forall j :: j in ks ==> j < |nodes| && nodes[j].Command?
    requires k < |nodes| && nodes[k].Command?
    ensures Openings(nodes, ks + [k]) == Openings(nodes, ks) + OpeningsAt(nodes, k)
  {
    assert (ks + [k])[..|ks|] == ks;
  }

  /** The logs behind one more command. */
  lemma LogsMore(nodes: seq<Node>, ks: seq<nat>, k: nat, launched0: seq<Launch>, openings0: seq<Opening>)
    requires forall j :: j in ks ==> j < |nodes| && nodes[j].Command?
    requires k < |nodes| && nodes[k].Command?
    ensures launched0 + Launches(nodes, ks) + [LaunchAt(nodes, k)] == launched0 + Launches(nodes, ks + [k])
    ensures openings0 + Openings(nodes, ks) + OpeningsAt(nodes, k) == openings0 + Openings(nodes, ks + [k])
  {
    LaunchesAppend(nodes, ks, k);
    OpeningsAppend(nodes, ks, k);
    Sequences.ConcatAssociative(launched0, Launches(nodes, ks), [LaunchAt(nodes, k)]);
    Sequences.ConcatAssociative(openings0, Openings(nodes, ks), OpeningsAt(nodes, k));
  }

  // ----- what the executor holds on to

  ghost predicate AtLeast(k: nat, low: nat) {
    low <= k
  }

  /** The last m of n ids. */
  ghost function LastIds(n: nat, m: nat): set<nat>
    requires m <= n
  {
    var low := n - m;
    set k: nat | k < n && AtLeast(k, low)
  }

  /** procs are the processes started last, and the ones to be waited for on top of those from before. */
  ghost predicate HoldingProcs(procs: seq<nat>, n: nat, unwaited: set<nat>, unwaited0: set<nat>) {
    && |procs| <= n && (forall j :: 0 <= j < |procs| ==> procs[j] == n - |procs| + j)
    && unwaited == unwaited0 + LastIds(n, |procs|)
    && forall p :: p in unwaited0 ==> p < n - |procs|
  }

  lemma HoldingMoreProcs(procs: seq<nat>, n: nat, unwaited: set<nat>, unwaited0: set<nat>)
    requires HoldingProcs(procs, n, unwaited, unwaited0)
    ensures HoldingProcs(procs + [n], n + 1, unwaited + {n}, unwaited0)
  {
    assert LastIds(n + 1, |procs| + 1) == LastIds(n, |procs|) + {n};
  }

  lemma HeldProcs(procs: seq<nat>, n: nat, unwaited: set<nat>, unwaited0: set<nat>)
    requires HoldingProcs(procs, n, unwaited, unwaited0)
    ensures Sequences.Distinct(procs) && Sequences.Elements(procs) == LastIds(n, |procs|)
    ensures unwaited - Sequences.Elements(procs) == unwaited0
  {
    forall p | p in LastIds(n, |procs|)
      ensures p in procs
    {
      assert procs[p - (n - |procs|)] == p;
    }
  }

  /** files hold the handles from f0 on, each once: the files to be closed on top of those from before. */
  ghost predicate HoldingFiles(files: seq<File>, f0: nat, n: nat, openFiles: set<nat>, open0: set<nat>) {
    && f0 <= n && DistinctHandles(files) && Handles(files) == LastIds(n, n - f0)
    && openFiles == open0 + LastIds(n, n - f0)
    && forall f :: f in open0 ==> f < f0
  }

  lemma HoldingNewFile(files: seq<File>, f0: nat, n: nat, openFiles: set<nat>, open0: set<nat>)
    requires HoldingFiles(files, f0, n, openFiles, open0)
    ensures HoldingFiles(files + [Handle(n)], f0, n + 1, openFiles + {n}, open0)
  {
    HandlesAppend(files, Handle(n));
    assert LastIds(n + 1, n + 1 - f0) == LastIds(n, n - f0) + {n};
    assert forall i :: 0 <= i < |files| && files[i].Handle? ==> files[i].n in Handles(files);
  }

  lemma HoldingNullDevice(files: seq<File>, f0: nat, n: nat, openFiles: set<nat>, open0: set<nat>)
    requires HoldingFiles(files, f0, n, openFiles, open0)
    ensures HoldingFiles(files + [DevNull], f0, n, openFiles, open0)
  {
    HandlesAppend(files, DevNull);
  }

  lemma HandlesAppend(files: seq<File>, file: File)
    ensures Handles(files + [file]) == Handles(files) + if file.Handle? then {file.n} else {}
  {
    var more := files + [file];
    assert forall f :: f in more <==> f in files || f == file;
  }

  /** The processes and files of the pipe at hand. */
  ghost predicate Holding(sys: System, procs: seq<nat>, files: seq<File>, f0: nat,
                          unwaited0: set<nat>, open0: set<nat>)
    reads sys
  {
    && sys.Valid()
    && HoldingProcs(procs, |sys.launched|, sys.unwaited, unwaited0)
    && HoldingFiles(files, f0, |sys.openings|, sys.openFiles, open0)
  }

  lemma HoldingNothing(sys: System)
    requires sys.Valid()
    ensures Holding(sys, [], [], |sys.openings|, sys.unwaited, sys.openFiles)
  {
    assert LastIds(|sys.launched|, 0) == {} && LastIds(|sys.openings|, 0) == {};
  }

  /** Opens the file of an output, unless there is none or it is the null device, and keeps it for closing. */
  method OpenOutput(out: Output, sys: System, files: seq<File>,
                    ghost procs: seq<nat>, ghost f0: nat, ghost unwaited0: set<nat>, ghost open0: set<nat>)
      returns (files': seq<File>)
    requires Holding(sys, procs, files, f0, unwaited0, open0)
    modifies sys`openings, sys`openFiles
    ensures Holding(sys, procs, files', f0, unwaited0, open0)
    ensures sys.openings == old(sys.openings) + OutFile(out)
  {
    files' := files;
    if out.ToFile? {
      if out.name == "NUL:" || out.name == "/dev/null" {
        HoldingNullDevice(files, f0, |sys.openings|, sys.openFiles, open0);
        files' := files + [DevNull];
      } else {
        HoldingNewFile(files, f0, |sys.openings|, sys.openFiles, open0);
        var n := sys.Open(Writing(out.name));
        files' := files + [Handle(n)];
      }
    }
  }

  /** Opens the input file of a command that does not read from a pipe. */
  method OpenInput(nodes: seq<Node>, i: nat, piping: bool, sys: System, files: seq<File>,
                   ghost procs: seq<nat>, ghost f0: nat, ghost unwaited0: set<nat>, ghost open0: set<nat>)
      returns (files': seq<File>)
    requires i < |nodes| && nodes[i].Command? && piping == ProducerAt(nodes, i).Some?
    requires Holding(sys, procs, files, f0, unwaited0, open0)
    modifies sys`openings, sys`openFiles
    ensures Holding(sys, procs, files', f0, unwaited0, open0)
    ensures sys.openings == old(sys.openings) + InFile(nodes, i)
  {
    files' := files;
    if !piping && nodes[i].stdin.Some? {
      HoldingNewFile(files, f0, |sys.openings|, sys.openFiles, open0);
      var n := sys.Open(Reading(nodes[i].stdin.value));
      files' := files + [Handle(n)];
    }
  }

  /** Opens exactly the command's own files, in order. */
  method OpenFiles(nodes: seq<Node>, i: nat, piping: bool, sys: System, files: seq<File>,
                   ghost procs: seq<nat>, ghost f0: nat, ghost unwaited0: set<nat>, ghost open0: set<nat>)
      returns (files': seq<File>)
    requires i < |nodes| && nodes[i].Command? && piping == ProducerAt(nodes, i).Some?
    requires Holding(sys, procs, files, f0, unwaited0, open0)
    modifies sys`openings, sys`openFiles
    ensures Holding(sys, procs, files', f0, unwaited0, open0)
    ensures sys.openings == old(sys.openings) + OpeningsAt(nodes, i)
  {
    var cmd := nodes[i];
    files' := OpenInput(nodes, i, piping, sys, files, procs, f0, unwaited0, open0);
    files' := OpenOutput(cmd.stdout, sys, files', procs, f0, unwaited0, open0);
    files' := OpenOutput(cmd.stderr, sys, files', procs, f0, unwaited0, open0);
    Sequences.ConcatAssociative(old(sys.openings), InFile(nodes, i), OutFile(cmd.stdout));
    Sequences.ConcatAssociative(old(sys.openings), InFile(nodes, i) + OutFile(cmd.stdout), OutFile(cmd.stderr));
  }

  /** Waits for the processes of the pipe and closes its files. */
  method EndPipe(procs: seq<nat>, files: seq<File>, sys: System,
                 ghost f0: nat, ghost unwaited0: set<nat>, ghost open0: set<nat>)
      returns (retval: int)
    requires procs != [] && Holding(sys, procs, files, f0, unwaited0, open0)
    modifies sys`unwaited, sys`openFiles
    ensures sys.Valid() && sys.unwaited == unwaited0 && sys.openFiles == open0
    ensures retval == sys.exits(sys.launched[|sys.launched| - 1].node)
  {
    HeldProcs(procs, |sys.launched|, sys.unwaited, unwaited0);
    assert forall j :: 0 <= j < |procs| ==> procs[j] in Sequences.Elements(procs);
    retval := ExecPipedCommands(procs, sys);
    CloseAll(files, sys);
  }

  // ----- the run

  /** How far the run has come: at place i, with the commands of done started. */
  ghost predicate Going(nodes: seq<Node>, i: nat, exits: Exits, done: seq<nat>, cwd: string) {
    && i < |nodes| && i % 2 == 0
    && (forall k :: k in done ==> k < |nodes| && nodes[k].Command?)
    && Evaluate(nodes, 0, exits) == Result(done + Evaluate(nodes, i, exits).executed,
                                           Evaluate(nodes, i, exits).outcome)
    && EndsAt(nodes, 0, exits) == EndsAt(nodes, i, exits)
    && cwd == CwdAt(nodes, i)
  }

  /** The pipe at hand is the one under way at place i: its processes, the last of them, and its files. */
  ghost predicate UnderWay(nodes: seq<Node>, i: nat, procs: seq<nat>, launched: seq<Launch>, files: nat)
    requires i < |nodes|
  {
    var pipe := PipeAt(nodes, i);
    && |procs| == |pipe| <= |launched|
    && (forall k :: k in pipe ==> k < |nodes| && nodes[k].Command?)
    && (pipe != [] ==> launched[|launched| - 1].node == pipe[|pipe| - 1])
    && files == |Openings(nodes, pipe)|
  }

  lemma GoPastChdir(nodes: seq<Node>, i: nat, exits: Exits, done: seq<nat>, cwd: string,
                    procs: seq<nat>, launched: seq<Launch>, files: nat)
    requires ShellGrammar.WellShaped(nodes) && Going(nodes, i, exits, done, cwd)
    requires UnderWay(nodes, i, procs, launched, files)
    requires nodes[i].Chdir? && nodes[i].dir.Some? && i + 1 < |nodes|
    ensures i + 2 < |nodes| && Going(nodes, i + 2, exits, done, JoinPath(cwd, nodes[i].dir.value))
    ensures UnderWay(nodes, i + 2, procs, launched, files)
  {
    assert ShellGrammar.NodeOk(nodes, i) && ShellGrammar.NodeOk(nodes, i + 1);
    assert CwdAt(nodes, i + 2) == CwdAt(nodes, i + 1);
    PipeNext(nodes, i);
  }

  lemma GoPastCommand(nodes: seq<Node>, i: nat, exits: Exits, done: seq<nat>, cwd: string)
    requires ShellGrammar.WellShaped(nodes) && Going(nodes, i, exits, done, cwd) && nodes[i].Command?
    requires i + 1 < |nodes|
    requires nodes[i + 1] == Pipe || (nodes[i + 1] == Or && exits(i) != 0) || (nodes[i + 1] == And && exits(i) == 0)
    ensures i + 2 < |nodes| && Going(nodes, i + 2, exits, done + [i], cwd)
    ensures PipeAt(nodes, i + 2) == if nodes[i + 1] == Pipe then PipeAt(nodes, i) + [i] else []
  {
    assert CwdAt(nodes, i + 2) == CwdAt(nodes, i + 1) == CwdAt(nodes, i);
    var rest := Evaluate(nodes, i + 2, exits).executed;
    assert done + ([i] + rest) == done + [i] + rest;
    PipeNext(nodes, i);
  }

  /** The command at place i ends the run. */
  lemma StopAtCommand(nodes: seq<Node>, i: nat, exits: Exits, done: seq<nat>, cwd: string)
    requires ShellGrammar.WellShaped(nodes) && Going(nodes, i, exits, done, cwd) && nodes[i].Command?
    requires i + 1 == |nodes| || (nodes[i + 1] == Or && exits(i) == 0) || (nodes[i + 1] == And && exits(i) != 0)
    ensures Evaluate(nodes, 0, exits) == Result(done + [i], Exit(exits(i)))
  {
  }

  /** A change of directory at the end, or one that names none, breaks the run off. */
  lemma BreakAtChdir(nodes: seq<Node>, i: nat, exits: Exits, done: seq<nat>, cwd: string)
    requires Going(nodes, i, exits, done, cwd) && nodes[i].Chdir?
    requires i + 1 == |nodes| || nodes[i].dir == None
    ensures Evaluate(nodes, 0, exits) == Result(done, if i + 1 == |nodes| then IndexError else TypeError)
    ensures LeftUnderWay(nodes, exits) == PipeAt(nodes, i)
  {
    assert done + [] == done;
  }

  /** The pipe at hand is not empty exactly when the next command reads from its last process. */
  lemma ReadsFromLast(nodes: seq<Node>, i: nat, procs: seq<nat>, launched: seq<Launch>, files: nat)
    requires i < |nodes| && UnderWay(nodes, i, procs, launched, files)
    requires procs != [] ==> procs[|procs| - 1] == |launched| - 1
    ensures ProducerAt(nodes, i) == if procs == [] then None else Some(launched[procs[|procs| - 1]].node)
  {
  }

  /** Opens the files of the command at place i and starts it. */
  method StartCommand(nodes: seq<Node>, i: nat, cwd: string, sys: System, procs: seq<nat>, files: seq<File>,
                      ghost f0: nat, ghost unwaited0: set<nat>, ghost open0: set<nat>)
      returns (procs': seq<nat>, files': seq<File>)
    requires i < |nodes| && nodes[i].Command? && cwd == CwdAt(nodes, i)
    requires f0 <= |sys.openings| && UnderWay(nodes, i, procs, sys.launched, |sys.openings| - f0)
    requires Holding(sys, procs, files, f0, unwaited0, open0)
    modifies sys`launched, sys`unwaited, sys`openings, sys`openFiles
    ensures Holding(sys, procs', files', f0, unwaited0, open0) && |procs'| == |procs| + 1
    ensures sys.launched == old(sys.launched) + [LaunchAt(nodes, i)]
    ensures sys.openings == old(sys.openings) + OpeningsAt(nodes, i)
  {
    var cmd := nodes[i];
    ReadsFromLast(nodes, i, procs, sys.launched, |sys.openings| - f0);
    files' := OpenFiles(nodes, i, procs != [], sys, files, procs, f0, unwaited0, open0);
    var stdin :=
      if procs != [] then FromPipe(sys.launched[procs[|procs| - 1]].node)
      else if cmd.stdin.Some? then FromFile(cmd.stdin.value) else InheritedIn;
    var env := if cmd.env == map[] then None else Some(cmd.env);
    var launch := Launch(i, cmd.argv, stdin, cmd.stdout, cmd.stderr, env, if cwd == "." then None else Some(cwd));
    assert launch == LaunchAt(nodes, i);
    HoldingMoreProcs(procs, |sys.launched|, sys.unwaited, unwaited0);
    var proc := sys.Popen(launch);
    procs' := procs + [proc];
  }

  /** The logs and the pending processes and files as the run found them. */
  datatype Snapshot = Snapshot(launched: seq<Launch>, openings: seq<Opening>, unwaited: set<nat>, openFiles: set<nat>)

  /** The commands of done were started and their files opened, and nothing else was. */
  ghost predicate Logged(nodes: seq<Node>, done: seq<nat>, sys: System, before: Snapshot)
    reads sys
  {
    && (forall k :: k in done ==> k < |nodes| && nodes[k].Command?)
    && sys.launched == before.launched + Launches(nodes, done)
    && sys.openings == before.openings + Openings(nodes, done)
  }

  /** Everything the run keeps in front of the unit at place i. */
  ghost predicate Progress(nodes: seq<Node>, i: nat, cwd: string, done: seq<nat>, sys: System, procs: seq<nat>,
                           files: seq<File>, f0: nat, before: Snapshot)
    reads sys
  {
    && Going(nodes, i, sys.exits, done, cwd) && Logged(nodes, done, sys, before)
    && f0 <= |sys.openings| && UnderWay(nodes, i, procs, sys.launched, |sys.openings| - f0)
    && Holding(sys, procs, files, f0, before.unwaited, before.openFiles)
  }

  /** The processes and files of the commands in pipe, the ones started last, are left over. */
  ghost predicate LeavesOver(nodes: seq<Node>, pipe: seq<nat>, sys: System, before: Snapshot)
    reads sys
  {
    && |pipe| <= |sys.launched| && sys.unwaited == before.unwaited + LastIds(|sys.launched|, |pipe|)
    && (forall k :: k in pipe ==> k < |nodes| && nodes[k].Command?)
    && |Openings(nodes, pipe)| <= |sys.openings|
    && sys.openFiles == before.openFiles + LastIds(|sys.openings|, |Openings(nodes, pipe)|)
  }

  /** The run has ended as its meaning says. */
  ghost predicate Ended(nodes: seq<Node>, outcome: Outcome, sys: System, before: Snapshot)
    reads sys
  {
    && outcome == Evaluate(nodes, 0, sys.exits).outcome
    && Logged(nodes, Evaluate(nodes, 0, sys.exits).executed, sys, before)
    && LeavesOver(nodes, LeftUnderWay(nodes, sys.exits), sys, before)
  }

  lemma PastChdir(nodes: seq<Node>, i: nat, cwd: string, done: seq<nat>, sys: System, procs: seq<nat>,
                  files: seq<File>, f0: nat, before: Snapshot)
    requires ShellGrammar.WellShaped(nodes) && Progress(nodes, i, cwd, done, sys, procs, files, f0, before)
    requires nodes[i].Chdir? && nodes[i].dir.Some? && i + 1 < |nodes|
    ensures i + 2 < |nodes|
    ensures Progress(nodes, i + 2, JoinPath(cwd, nodes[i].dir.value), done, sys, procs, files, f0, before)
  {
    GoPastChdir(nodes, i, sys.exits, done, cwd, procs, sys.launched, |sys.openings| - f0);
  }

  lemma BrokenOff(nodes: seq<Node>, i: nat, cwd: string, done: seq<nat>, sys: System, procs: seq<nat>,
                  files: seq<File>, f0: nat, before: Snapshot)
    requires Progress(nodes, i, cwd, done, sys, procs, files, f0, before)
    requires nodes[i].Chdir? && (i + 1 == |nodes| || nodes[i].dir == None)
    ensures Ended(nodes, if i + 1 == |nodes| then IndexError else TypeError, sys, before)
  {
    BreakAtChdir(nodes, i, sys.exits, done, cwd);
  }

  /** Nothing is held any more once the pipe has ended. */
  ghost predicate PipeEnded(nodes: seq<Node>, i: nat, cwd: string, done: seq<nat>, sys: System, before: Snapshot)
    reads sys
  {
    && Going(nodes, i, sys.exits, done, cwd) && nodes[i].Command? && sys.Valid()
    && Logged(nodes, done + [i], sys, before)
    && sys.unwaited == before.unwaited && sys.openFiles == before.openFiles
  }

  /** Whether the run ends at the command at place i. */
  ghost predicate StopsAt(nodes: seq<Node>, i: nat, status: int) {
    i + 1 >= |nodes| || (nodes[i + 1] == Or && status == 0) || (nodes[i + 1] == And && status != 0)
  }

  lemma AfterPipe(nodes: seq<Node>, i: nat, cwd: string, done: seq<nat>, sys: System, before: Snapshot)
    requires ShellGrammar.WellShaped(nodes) && PipeEnded(nodes, i, cwd, done, sys, before)
    requires i + 1 < |nodes| ==> nodes[i + 1] != Pipe
    ensures StopsAt(nodes, i, sys.exits(i)) ==> Ended(nodes, Exit(sys.exits(i)), sys, before)
    ensures !StopsAt(nodes, i, sys.exits(i)) ==>
      i + 2 < |nodes| && Progress(nodes, i + 2, cwd, done + [i], sys, [], [], |sys.openings|, before)
  {
    if StopsAt(nodes, i, sys.exits(i)) {
      StopAtCommand(nodes, i, sys.exits, done, cwd);
      assert LastIds(|sys.launched|, 0) == {} && LastIds(|sys.openings|, 0) == {};
    } else {
      assert ShellGrammar.NodeOk(nodes, i + 1);
      GoPastCommand(nodes, i, sys.exits, done, cwd);
      HoldingNothing(sys);
    }
  }

  lemma IntoPipe(nodes: seq<Node>, i: nat, cwd: string, done: seq<nat>, sys: System, procs: seq<nat>,
                 files: seq<File>, f0: nat, before: Snapshot)
    requires ShellGrammar.WellShaped(nodes) && Going(nodes, i, sys.exits, done, cwd) && nodes[i].Command?
    requires i + 1 < |nodes| && nodes[i + 1] == Pipe
    requires Started(nodes, i, done, sys, procs, files, f0, before)
    ensures Progress(nodes, i + 2, cwd, done + [i], sys, procs, files, f0, before)
  {
    GoPastCommand(nodes, i, sys.exits, done, cwd);
    OpeningsAppend(nodes, PipeAt(nodes, i), i);
  }

  /** The command at place i has joined the pipe at hand. */
  ghost predicate Started(nodes: seq<Node>, i: nat, done: seq<nat>, sys: System, procs: seq<nat>, files: seq<File>,
                          f0: nat, before: Snapshot)
    requires i < |nodes| && nodes[i].Command?
    reads sys
  {
    && Logged(nodes, done + [i], sys, before)
    && sys.launched != [] && sys.launched[|sys.launched| - 1].node == i
    && Holding(sys, procs, files, f0, before.unwaited, before.openFiles)
    && |procs| == |PipeAt(nodes, i)| + 1
    && (forall k :: k in PipeAt(nodes, i) ==> nodes[k].Command?)
    && f0 <= |sys.openings|
    && |sys.openings| - f0 == |Openings(nodes, PipeAt(nodes, i))| + |OpeningsAt(nodes, i)|
  }

  /** Starts the command at place i on top of the pipe at hand. */
  method JoinPipe(nodes: seq<Node>, i: nat, cwd: string, sys: System, procs: seq<nat>, files: seq<File>,
                  ghost done: seq<nat>, ghost f0: nat, ghost before: Snapshot)
      returns (procs': seq<nat>, files': seq<File>)
    requires Progress(nodes, i, cwd, done, sys, procs, files, f0, before) && nodes[i].Command?
    modifies sys`launched, sys`unwaited, sys`openings, sys`openFiles
    ensures Started(nodes, i, done, sys, procs', files', f0, before)
  {
    LogsMore(nodes, done, i, before.launched, before.openings);
    procs', files' := StartCommand(nodes, i, cwd, sys, procs, files, f0, before.unwaited, before.openFiles);
  }

  /** Waits for the pipe that ends with the command at place i. */
  method WaitForPipe(nodes: seq<Node>, i: nat, ghost cwd: string, sys: System, procs: seq<nat>, files: seq<File>,
                     ghost done: seq<nat>, ghost f0: nat, ghost before: Snapshot)
      returns (retval: int)
    requires Going(nodes, i, sys.exits, done, cwd) && nodes[i].Command?
    requires Started(nodes, i, done, sys, procs, files, f0, before)
    modifies sys`unwaited, sys`openFiles
    ensures PipeEnded(nodes, i, cwd, done, sys, before) && retval == sys.exits(i)
  {
    retval := EndPipe(procs, files, sys, f0, before.unwaited, before.openFiles);
  }

  /**
    Runs the command at place i and, unless a pipe follows it, waits for its
    pipe; a status is given back when the run ends here.
   */
  method RunCommand(nodes: seq<Node>, i: nat, cwd: string, sys: System, procs: seq<nat>, files: seq<File>,
                    ghost done: seq<nat>, ghost f0: nat, ghost before: Snapshot)
      returns (status: Option<int>, procs': seq<nat>, files': seq<File>, ghost f1: nat)
    requires ShellGrammar.WellShaped(nodes) && Progress(nodes, i, cwd, done, sys, procs, files, f0, before)
    requires nodes[i].Command?
    modifies sys`launched, sys`unwaited, sys`openings, sys`openFiles
    ensures status.Some? ==> Ended(nodes, Exit(status.value), sys, before)
    ensures status.None? ==> i + 2 < |nodes|
    ensures status.None? ==> Progress(nodes, i + 2, cwd, done + [i], sys, procs', files', f1, before)
  {
    procs', files' := JoinPipe(nodes, i, cwd, sys, procs, files, done, f0, before);
    f1 := f0;
    assert ShellGrammar.NodeOk(nodes, i);
    if i + 1 < |nodes| && nodes[i + 1] == Pipe {
      IntoPipe(nodes, i, cwd, done, sys, procs', files', f0, before);
      return None, procs', files', f1;
    }
    var retval := WaitForPipe(nodes, i, cwd, sys, procs', files', done, f0, before);
    procs', files', f1 := [], [], |sys.openings|;
    AfterPipe(nodes, i, cwd, done, sys, before);
    if i + 1 == |nodes| || (nodes[i + 1] == Or && retval == 0) || (nodes[i + 1] == And && retval != 0) {
      return Some(retval), procs', files', f1;
    }
    return None, procs', files', f1;
  }

  /**
    Runs a parsed pipeline.  It starts exactly the commands and opens exactly the
    files that the meaning of the pipeline says, in order and each command with
    the right streams and directory, and ends as the meaning says.  When it
    returns a status, every process it started was waited for once and every file
    it opened was closed once; when an exception breaks it off, those of the pipe
    under way are left over and no others.
   */
  method Run(nodes: seq<Node>, sys: System) returns (outcome: Outcome)
    requires ShellGrammar.WellShaped(nodes) && sys.Valid()
    modifies sys`launched, sys`unwaited, sys`openings, sys`openFiles
    ensures Ended(nodes, outcome, sys,
                  old(Snapshot(sys.launched, sys.openings, sys.unwaited, sys.openFiles)))
  {
    ghost var before := Snapshot(sys.launched, sys.openings, sys.unwaited, sys.openFiles);
    var i := 0;
    var procs: seq<nat>, files: seq<File> := [], [];
    var cwd := ".";
    ghost var done: seq<nat>, f0: nat := [], |sys.openings|;
    StartProgress(nodes, sys);
    while true
      invariant Progress(nodes, i, cwd, done, sys, procs, files, f0, before)
      decreases |nodes| - i
    {
      assert ShellGrammar.NodeOk(nodes, i);
      if nodes[i].Chdir? {
        if i + 1 == |nodes| {
          BrokenOff(nodes, i, cwd, done, sys, procs, files, f0, before);
          return IndexError;
        }
        if nodes[i].dir == None {
          BrokenOff(nodes, i, cwd, done, sys, procs, files, f0, before);
          return TypeError;
        }
        PastChdir(nodes, i, cwd, done, sys, procs, files, f0, before);
        cwd := JoinPath(cwd, nodes[i].dir.value);
      } else {
        var status;
        status, procs, files, f0 := RunCommand(nodes, i, cwd, sys, procs, files, done, f0, before);
        if status.Some? {
          return Exit(status.value);
        }
        done := done + [i];
      }
      i := i + 2;
    }
  }

  lemma StartProgress(nodes: seq<Node>, sys: System)
    requires ShellGrammar.WellShaped(nodes) && sys.Valid()
    ensures Progress(nodes, 0, ".", [], sys, [], [], |sys.openings|,
                     Snapshot(sys.launched, sys.openings, sys.unwaited, sys.openFiles))
  {
    HoldingNothing(sys);
    assert [] + Evaluate(nodes, 0, sys.exits).executed == Evaluate(nodes, 0, sys.exits).executed;
  }
}
