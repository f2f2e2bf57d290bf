/**
  What running a parsed pipeline amounts to: its pipes are joined by and- and
  or-operators that associate to the right, and a short circuit ends the whole
  run.  The module also says when a run always ends with a status.
 */
module ShellMeaning {
  import opened Wrappers
  import opened ShellSyntax
  import ShellGrammar
  import opened ShellRun

  // ----- the pipes of a pipeline

  /** The commands of each pipe, and the operators between the pipes. */
  datatype Pipes = Pipes(groups: seq<seq<nat>>, ops: seq<Node>)

  /** The pipes from place i on; sofar holds the commands of the pipe that is under way. */
  ghost function PipesFrom(nodes: seq<Node>, i: nat, sofar: seq<nat>): (p: Pipes)
    ensures |p.groups| == |p.ops| + 1
    ensures forall op :: op in p.ops ==> op == And || op == Or
    decreases |nodes| - i
  {
    if i >= |nodes| then Pipes([sofar], [])
    else if nodes[i].Chdir? then PipesFrom(nodes, i + 2, sofar)
    else if i + 1 >= |nodes| then Pipes([sofar + [i]], [])
    else if nodes[i + 1] == And || nodes[i + 1] == Or then
      var rest := PipesFrom(nodes, i + 2, []);
      Pipes([sofar + [i]] + rest.groups, [nodes[i + 1]] + rest.ops)
    else PipesFrom(nodes, i + 2, sofar + [i])
  }

  /** Every change of directory names one, and the pipeline does not end with one. */
  predicate Straight(nodes: seq<Node>) {
    && nodes != [] && nodes[|nodes| - 1].Command?
    && forall i :: 0 <= i < |nodes| && nodes[i].Chdir? ==> nodes[i].dir.Some?
  }

  /** The status of a pipe is its last command's. */
  ghost function StatusOf(group: seq<nat>, exits: Exits): int {
    if group == [] then 0 else exits(group[|group| - 1])
  }

  ghost function Statuses(groups: seq<seq<nat>>, exits: Exits): (ss: seq<int>)
    ensures |ss| == |groups|
  {
    if groups == [] then [] else [StatusOf(groups[0], exits)] + Statuses(groups[1..], exits)
  }

  ghost function Concat(groups: seq<seq<nat>>): seq<nat> {
    if groups == [] then [] else groups[0] + Concat(groups[1..])
  }

  /**
    a op (b op (c ...)): whether the operator stops at its left operand, the
    number of operands evaluated, and the status.
   */
  ghost predicate Stops(op: Node, status: int) {
    (op == Or) == (status == 0)
  }

  ghost function Evaluated(ss: seq<int>, ops: seq<Node>): (n: nat)
    requires |ss| == |ops| + 1
    ensures 1 <= n <= |ss|
  {
    if ops == [] || Stops(ops[0], ss[0]) then 1 else 1 + Evaluated(ss[1..], ops[1..])
  }

  ghost function RightAssociated(ss: seq<int>, ops: seq<Node>): int
    requires |ss| == |ops| + 1
  {
    if ops == [] || Stops(ops[0], ss[0]) then ss[0] else RightAssociated(ss[1..], ops[1..])
  }

  /** The pipes p mean r, with the commands of sofar already in front. */
  ghost predicate Means(p: Pipes, sofar: seq<nat>, r: Result, exits: Exits)
    requires |p.groups| == |p.ops| + 1
  {
    var ss := Statuses(p.groups, exits);
    && r.outcome == Exit(RightAssociated(ss, p.ops))
    && sofar + r.executed == Concat(p.groups[..Evaluated(ss, p.ops)])
  }

  lemma LastPipe(group: seq<nat>, sofar: seq<nat>, i: nat, exits: Exits)
    requires group == sofar + [i]
    ensures Means(Pipes([group], []), sofar, Result([i], Exit(exits(i))), exits)
  {
    assert [group][..1] == [group];
    assert Concat([group]) == group + Concat([]);
    assert Statuses([group], exits)[0] == StatusOf(group, exits);
  }

  lemma StoppedPipe(group: seq<nat>, sofar: seq<nat>, i: nat, op: Node, rest: Pipes, exits: Exits)
    requires group == sofar + [i] && Stops(op, exits(i)) && |rest.groups| == |rest.ops| + 1
    ensures Means(Pipes([group] + rest.groups, [op] + rest.ops), sofar, Result([i], Exit(exits(i))), exits)
  {
    var groups := [group] + rest.groups;
    assert Statuses(groups, exits)[0] == exits(i);
    assert groups[..1] == [group];
    assert Concat([group]) == group + Concat([]);
  }

  lemma PassedPipe(group: seq<nat>, sofar: seq<nat>, i: nat, op: Node, rest: Pipes, r: Result, exits: Exits)
    requires group == sofar + [i] && !Stops(op, exits(i)) && |rest.groups| == |rest.ops| + 1
    requires Means(rest, [], r, exits)
    ensures Means(Pipes([group] + rest.groups, [op] + rest.ops), sofar, Before(i, r), exits)
  {
    var groups, ops := [group] + rest.groups, [op] + rest.ops;
    var ss := Statuses(groups, exits);
    assert groups[1..] == rest.groups && ops[1..] == rest.ops;
    assert ss[0] == exits(i) && ss[1..] == Statuses(rest.groups, exits);
    var n := Evaluated(ss[1..], rest.ops);
    assert groups[..n + 1] == [group] + rest.groups[..n];
    assert ([group] + rest.groups[..n])[1..] == rest.groups[..n];
    assert [] + r.executed == r.executed;
    assert sofar + ([i] + r.executed) == group + r.executed;
  }

  lemma LongerPipe(p: Pipes, sofar: seq<nat>, i: nat, r: Result, exits: Exits)
    requires |p.groups| == |p.ops| + 1 && Means(p, sofar + [i], r, exits)
    ensures Means(p, sofar, Before(i, r), exits)
  {
    assert sofar + ([i] + r.executed) == sofar + [i] + r.executed;
  }

  lemma {:induction false} EvaluateFrom(nodes: seq<Node>, i: nat, sofar: seq<nat>, exits: Exits)
    requires ShellGrammar.WellShaped(nodes) && Straight(nodes) && i < |nodes| && i % 2 == 0
    ensures Means(PipesFrom(nodes, i, sofar), sofar, Evaluate(nodes, i, exits), exits)
    decreases |nodes| - i
  {
    assert ShellGrammar.NodeOk(nodes, i);
    if nodes[i].Chdir? {
      assert ShellGrammar.NodeOk(nodes, i + 1);
      EvaluateFrom(nodes, i + 2, sofar, exits);
    } else if i + 1 == |nodes| {
      LastPipe(sofar + [i], sofar, i, exits);
    } else {
      assert ShellGrammar.NodeOk(nodes, i + 1);
      var op := nodes[i + 1];
      if op == Pipe {
        EvaluateFrom(nodes, i + 2, sofar + [i], exits);
        LongerPipe(PipesFrom(nodes, i, sofar), sofar, i, Evaluate(nodes, i + 2, exits), exits);
      } else if Stops(op, exits(i)) {
        StoppedPipe(sofar + [i], sofar, i, op, PipesFrom(nodes, i + 2, []), exits);
      } else {
        EvaluateFrom(nodes, i + 2, [], exits);
        PassedPipe(sofar + [i], sofar, i, op, PipesFrom(nodes, i + 2, []), Evaluate(nodes, i + 2, exits), exits);
      }
    }
  }

  /**
    Running a straight pipeline is the right-associated short-circuit evaluation
    of its pipes: the pipes in front of the first stop run, with all their
    commands in order, and the status is that of the last one that ran.
   */
  lemma RunIsShortCircuit(nodes: seq<Node>, exits: Exits)
    requires ShellGrammar.WellShaped(nodes) && Straight(nodes)
    ensures var p := PipesFrom(nodes, 0, []);
      var ss := Statuses(p.groups, exits);
      && Evaluate(nodes, 0, exits).outcome == Exit(RightAssociated(ss, p.ops))
      && Evaluate(nodes, 0, exits).executed == Concat(p.groups[..Evaluated(ss, p.ops)])
  {
    EvaluateFrom(nodes, 0, [], exits);
    assert [] + Evaluate(nodes, 0, exits).executed == Evaluate(nodes, 0, exits).executed;
  }

  // ----- when a run always ends with a status

  /** Exit statuses under which no operator stops the run. */
  ghost function Passing(nodes: seq<Node>): Exits {
    (k: nat) => if k + 1 < |nodes| && nodes[k + 1] == Or then 1 else 0
  }

  lemma {:induction false} PassingReachesEnd(nodes: seq<Node>, i: nat)
    requires ShellGrammar.WellShaped(nodes) && i < |nodes| && i % 2 == 0
    requires nodes[|nodes| - 1].Chdir? || exists k :: i <= k < |nodes| && nodes[k] == Chdir(None)
    ensures !Evaluate(nodes, i, Passing(nodes)).outcome.Exit?
    decreases |nodes| - i
  {
    assert ShellGrammar.NodeOk(nodes, i);
    if i + 1 < |nodes| {
      assert ShellGrammar.NodeOk(nodes, i + 1);
      if nodes[i] != Chdir(None) {
        PassingReachesEnd(nodes, i + 2);
      }
    }
  }

  /** A parsed pipeline ends with a status, whatever its commands return, exactly when it is straight. */
  lemma AlwaysExitsIffStraight(nodes: seq<Node>)
    requires ShellGrammar.WellShaped(nodes)
    ensures (forall exits: Exits :: Evaluate(nodes, 0, exits).outcome.Exit?) <==> Straight(nodes)
  {
    if Straight(nodes) {
      forall exits: Exits
        ensures Evaluate(nodes, 0, exits).outcome.Exit?
      {
        RunIsShortCircuit(nodes, exits);
      }
    } else {
      assert ShellGrammar.NodeOk(nodes, |nodes| - 1);
      PassingReachesEnd(nodes, 0);
    }
  }

  // ----- words whose run is broken off

  function Plain(name: string, stdout: Output): (cmd: Node)
    ensures cmd.Command?
  {
    Command([name], None, stdout, Inherited, map[])
  }

  /** What a plain name does to the parser. */
  lemma ReadName(name: string, pipeline: seq<Node>)
    requires '=' !in name && name != "cd"
    ensures Read(State(BEGIN, None, pipeline, map[]), name)
         == Some(State(COMMAND, Some(Plain(name, Inherited)), pipeline, map[]))
  {
  }

  lemma ReadCd(pipeline: seq<Node>)
    ensures Read(State(BEGIN, None, pipeline, map[]), "cd") == Some(State(CHDIR, Some(Chdir(None)), pipeline, map[]))
  {
  }

  lemma ReadAnd(dir: Option<string>, pipeline: seq<Node>)
    ensures Read(State(CHDIR, Some(Chdir(dir)), pipeline, map[]), "&&")
         == Some(State(BEGIN, None, pipeline + [Chdir(dir)] + [And], map[]))
  {
  }

  lemma ReadPipe(name: string, pipeline: seq<Node>)
    ensures Read(State(COMMAND, Some(Plain(name, Inherited)), pipeline, map[]), "|")
         == Some(State(BEGIN, None, pipeline + [Plain(name, ToPipe)] + [Pipe], map[]))
  {
  }

  /** One word, and the words behind it. */
  lemma ReadNext(st: State, tokens: seq<string>, n: nat, st': State)
    requires n < |tokens| && Read(st, tokens[n]) == Some(st')
    ensures ReadAll(st, tokens[n..]) == ReadAll(st', tokens[n + 1..])
    ensures n + 1 == |tokens| ==> ReadAll(st, tokens[n..]) == Some(st')
  {
    assert tokens[n..][1..] == tokens[n + 1..];
  }

  function NamelessChdir(): seq<Node> {
    [Chdir(None), And, Plain("ls", Inherited)]
  }

  lemma ParseNamelessChdir()
    ensures ParseTokens(["cd", "&&", "ls"]) == Some(NamelessChdir())
  {
    var tokens, nodes := ["cd", "&&", "ls"], NamelessChdir();
    var in_cd := State(CHDIR, Some(nodes[0]), [], map[]);
    var behind := State(BEGIN, None, nodes[..2], map[]);
    ReadCd([]);
    ReadName("ls", nodes[..2]);
    ReadAnd(None, []);
    assert nodes[..2] == [] + [nodes[0]] + [nodes[1]] && nodes == nodes[..2] + [nodes[2]];
    ReadNext(Start, tokens, 0, in_cd);
    ReadNext(in_cd, tokens, 1, behind);
    ReadNext(behind, tokens, 2, State(COMMAND, Some(nodes[2]), nodes[..2], map[]));
    assert tokens[0..] == tokens;
  }

  /** `cd && ls` parses, and its run always breaks off before ls starts. */
  lemma NamelessChdirBreaksOff(exits: Exits)
    ensures ParseTokens(["cd", "&&", "ls"]) == Some(NamelessChdir()) && !Straight(NamelessChdir())
    ensures Evaluate(NamelessChdir(), 0, exits) == Result([], TypeError)
  {
    ParseNamelessChdir();
    assert NamelessChdir()[0] == Chdir(None);
  }

  function ChdirBehindPipe(): seq<Node> {
    [Plain("ls", ToPipe), Pipe, Chdir(Some("x"))]
  }

  lemma ParseChdirBehindPipe()
    ensures ParseTokens(["ls", "|", "cd", "x"]) == Some(ChdirBehindPipe())
  {
    var tokens, nodes := ["ls", "|", "cd", "x"], ChdirBehindPipe();
    var in_ls := State(COMMAND, Some(Plain("ls", Inherited)), [], map[]);
    var behind := State(BEGIN, None, nodes[..2], map[]);
    var in_cd := State(CHDIR, Some(Chdir(None)), nodes[..2], map[]);
    ReadName("ls", []);
    ReadCd(nodes[..2]);
    ReadPipe("ls", []);
    assert nodes[..2] == [] + [nodes[0]] + [nodes[1]] && nodes == nodes[..2] + [nodes[2]];
    ReadNext(Start, tokens, 0, in_ls);
    ReadNext(in_ls, tokens, 1, behind);
    ReadNext(behind, tokens, 2, in_cd);
    ReadNext(in_cd, tokens, 3, State(CHDIR, Some(nodes[2]), nodes[..2], map[]));
    assert tokens[0..] == tokens;
  }

  /** `ls | cd x` parses; its run always breaks off, with ls started and not waited for. */
  lemma LastChdirBreaksOff(exits: Exits)
    ensures var nodes := ChdirBehindPipe();
      && ParseTokens(["ls", "|", "cd", "x"]) == Some(nodes) && !Straight(nodes)
      && Evaluate(nodes, 0, exits) == Result([0], IndexError) && LeftUnderWay(nodes, exits) == [0]
  {
    var nodes := ChdirBehindPipe();
    ParseChdirBehindPipe();
    assert Evaluate(nodes, 2, exits) == Result([], IndexError);
    assert EndsAt(nodes, 2, exits) == 2 && ProducerAt(nodes, 2) == Some(0);
    assert PipeAt(nodes, 0) == [];
  }
}
