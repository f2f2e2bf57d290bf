/**
  The language of the mini shell's parser.  A source is written as a tree:
  commands with their assignments, words and redirections in any order, changes
  of directory, and the operators between them.  The parser accepts exactly the
  words of the well-formed sources and returns the nodes they stand for.
 */
module ShellGrammar {
  import opened Wrappers
  import opened ShellSyntax

  // ----- the shape of a parsed pipeline

  predicate IsOperator(n: Node) {
    n.Pipe? || n.And? || n.Or?
  }

  /** Units and operators alternate; what stands behind a unit fits the unit. */
  ghost predicate NodeOk(nodes: seq<Node>, i: int)
    requires 0 <= i < |nodes|
  {
    if i % 2 == 1 then IsOperator(nodes[i])
    else
      && !IsOperator(nodes[i])
      && (nodes[i].Command? ==>
            nodes[i].argv != [] && nodes[i].stderr != ToPipe &&
            (nodes[i].stdout == ToPipe <==> i + 1 < |nodes| && nodes[i + 1] == Pipe))
      && (nodes[i].Chdir? && i + 1 < |nodes| ==> nodes[i + 1] == And)
  }

  ghost predicate AllNodesOk(nodes: seq<Node>) {
    forall i {:trigger NodeOk(nodes, i)} :: 0 <= i < |nodes| ==> NodeOk(nodes, i)
  }

  ghost predicate WellShaped(nodes: seq<Node>) {
    |nodes| % 2 == 1 && AllNodesOk(nodes)
  }

  ghost predicate StateOk(st: State) {
    && |st.pipeline| % 2 == 0 && AllNodesOk(st.pipeline)
    && (st.mode == BEGIN <==> st.current == None)
    && (st.mode == CHDIR ==> st.current.Some? && st.current.value.Chdir?)
    && (st.mode != BEGIN && st.mode != CHDIR ==> st.current.Some? && st.current.value.Command?)
    && (st.current.Some? && st.current.value.Command? ==>
          st.current.value.argv != [] && st.current.value.stdout != ToPipe && st.current.value.stderr != ToPipe)
  }

  lemma AppendPair(nodes: seq<Node>, unit: Node, op: Node)
    requires |nodes| % 2 == 0 && AllNodesOk(nodes)
    requires IsOperator(op) && !IsOperator(unit)
    requires unit.Command? ==> unit.argv != [] && unit.stderr != ToPipe && (unit.stdout == ToPipe <==> op == Pipe)
    requires unit.Chdir? ==> op == And
    ensures AllNodesOk(nodes + [unit] + [op])
  {
    var more := nodes + [unit] + [op];
    forall i | 0 <= i < |more|
      ensures NodeOk(more, i)
    {
      if i < |nodes| {
        assert NodeOk(nodes, i);
      }
    }
  }

  lemma ReadKeepsShape(st: State, token: string)
    requires StateOk(st) && Read(st, token).Some?
    ensures StateOk(Read(st, token).value)
  {
    var st' := Read(st, token).value;
    if |st'.pipeline| > |st.pipeline| {
      var n := |st.pipeline|;
      AppendPair(st.pipeline, st'.pipeline[n], st'.pipeline[n + 1]);
    }
  }

  lemma {:induction false} ReadAllKeepsShape(st: State, tokens: seq<string>)
    requires StateOk(st) && ReadAll(st, tokens).Some?
    ensures StateOk(ReadAll(st, tokens).value)
    decreases |tokens|
  {
    if tokens != [] {
      ReadKeepsShape(st, tokens[0]);
      ReadAllKeepsShape(Read(st, tokens[0]).value, tokens[1..]);
    }
  }

  /**
    Whatever the words: a successful parse alternates units and operators, gives a
    command a pipe for its output exactly when a pipe follows it, and lets only
    the and-operator follow a change of directory.
   */
  lemma ParseIsWellShaped(tokens: seq<string>)
    requires ParseTokens(tokens).Some?
    ensures WellShaped(ParseTokens(tokens).value)
  {
    ReadAllKeepsShape(Start, tokens);
    var st := ReadAll(Start, tokens).value;
    LastNodeKeepsShape(st);
  }

  lemma LastNodeKeepsShape(st: State)
    requires StateOk(st) && st.current.Some? && st.mode != BEGIN
    ensures WellShaped(st.pipeline + [st.current.value])
  {
    var nodes := st.pipeline + [st.current.value];
    forall i | 0 <= i < |nodes|
      ensures NodeOk(nodes, i)
    {
      if i < |st.pipeline| {
        assert NodeOk(st.pipeline, i);
      }
    }
  }

  // ----- sources

  datatype Arg = Word(word: string) | In(file: string) | Out(file: string) | Err(file: string) | ErrToOut

  /**
    The last, perhaps unfinished unit of a source: assignments only, a command
    (with a redirection sign still waiting for its file), or a change of directory.
   */
  datatype Tail =
    | Assignments(env: seq<string>)
    | Simple(env: seq<string>, name: string, args: seq<Arg>, waiting: Option<string>)
    | Cd(dir: Option<string>)

  /** A finished unit: anything but bare assignments. */
  type Unit = t: Tail | !t.Assignments? witness Cd(None)

  datatype Joined = Joined(unit: Unit, op: Node)

  datatype Source = Source(done: seq<Joined>, tail: Tail)

  const Operators: set<string> := {">", "2>", "2>&1", "<", "|", "&&", "||"}

  function OperatorToken(op: Node): string {
    match op case Pipe => "|" case And => "&&" case _ => "||"
  }

  function RenderArg(a: Arg): seq<string> {
    match a
    case Word(w) => [w]
    case In(f) => ["<", f]
    case Out(f) => [">", f]
    case Err(f) => ["2>", f]
    case ErrToOut => ["2>&1"]
  }

  function RenderArgs(args: seq<Arg>): seq<string> {
    if args == [] then [] else RenderArgs(args[..|args| - 1]) + RenderArg(args[|args| - 1])
  }

  function RenderTail(t: Tail): seq<string> {
    match t
    case Assignments(env) => env
    case Simple(env, name, args, waiting) =>
      env + [name] + RenderArgs(args) + if waiting.Some? then [waiting.value] else []
    case Cd(dir) => ["cd"] + if dir.Some? then [dir.value] else []
  }

  function RenderDone(done: seq<Joined>): seq<string> {
    if done == [] then []
    else
      var j := done[|done| - 1];
      RenderDone(done[..|done| - 1]) + RenderTail(j.unit) + [OperatorToken(j.op)]
  }

  /** The words of a source. */
  function Render(s: Source): seq<string> {
    RenderDone(s.done) + RenderTail(s.tail)
  }

  // ----- what a source stands for

  function EnvOf(env: seq<string>): map<string, string> {
    if env == [] then map[]
    else
      match MatchAssignment(env[|env| - 1])
      case Some((name, value)) => EnvOf(env[..|env| - 1])[name := value]
      case None => EnvOf(env[..|env| - 1])
  }

  function Words(args: seq<Arg>): seq<string> {
    if args == [] then []
    else Words(args[..|args| - 1]) + match args[|args| - 1] case Word(w) => [w] case _ => []
  }

  function InputOf(args: seq<Arg>): Option<string> {
    if args == [] then None
    else match args[|args| - 1] case In(f) => Some(f) case _ => InputOf(args[..|args| - 1])
  }

  function OutputOf(args: seq<Arg>): Output {
    if args == [] then Inherited
    else match args[|args| - 1] case Out(f) => ToFile(f) case _ => OutputOf(args[..|args| - 1])
  }

  function ErrorOf(args: seq<Arg>): Output {
    if args == [] then Inherited
    else match args[|args| - 1] case Err(f) => ToFile(f) case ErrToOut => ToStdout case _ => ErrorOf(args[..|args| - 1])
  }

  function CommandOf(env: seq<string>, name: string, args: seq<Arg>): (cmd: Node)
    ensures cmd.Command?
  {
    Command([name] + Words(args), InputOf(args), OutputOf(args), ErrorOf(args), EnvOf(env))
  }

  /** The node of a finished unit in front of the given operator, if any. */
  function NodeOf(t: Unit, op: Option<Node>): Node {
    match t
    case Simple(env, name, args, _) =>
      var cmd := CommandOf(env, name, args);
      if op == Some(Pipe) then cmd.(stdout := ToPipe) else cmd
    case Cd(dir) => Chdir(dir)
  }

  function DoneNodes(done: seq<Joined>): seq<Node> {
    if done == [] then []
    else
      var j := done[|done| - 1];
      DoneNodes(done[..|done| - 1]) + [NodeOf(j.unit, Some(j.op))] + [j.op]
  }

  // ----- well-formed sources

  /** The stream an argument redirects; a command redirects each stream at most once. */
  datatype Slot = NoSlot | InSlot | OutSlot | ErrSlot

  function SlotOf(a: Arg): Slot {
    match a
    case Word(_) => NoSlot
    case In(_) => InSlot
    case Out(_) => OutSlot
    case Err(_) => ErrSlot
    case ErrToOut => ErrSlot
  }

  ghost predicate Uses(args: seq<Arg>, slot: Slot) {
    exists i :: 0 <= i < |args| && SlotOf(args[i]) == slot
  }

  ghost predicate ArgsOk(args: seq<Arg>) {
    && (forall i :: 0 <= i < |args| && args[i].Word? ==> args[i].word !in Operators)
    && (forall i, j :: 0 <= i < j < |args| && SlotOf(args[i]) != NoSlot ==> SlotOf(args[i]) != SlotOf(args[j]))
  }

  ghost predicate EnvOk(env: seq<string>) {
    forall i :: 0 <= i < |env| ==> MatchAssignment(env[i]).Some?
  }

  ghost predicate WfTail(t: Tail) {
    match t
    case Assignments(env) => EnvOk(env)
    case Simple(env, name, args, waiting) =>
      && EnvOk(env) && ArgsOk(args)
      && MatchAssignment(name).None? && name != "cd"
      && (waiting.Some? ==> waiting.value in {">", "2>", "<"})
    case Cd(dir) => dir != Some("&&")
  }

  ghost predicate WfJoined(j: Joined) {
    && WfTail(j.unit) && IsOperator(j.op)
    && (j.unit.Simple? ==> j.unit.waiting == None && (j.op == Pipe ==> !Uses(j.unit.args, OutSlot)))
    && (j.unit.Cd? ==> j.op == And)
  }

  ghost predicate Wf(s: Source) {
    && (forall k {:trigger WfJoined(s.done[k])} :: 0 <= k < |s.done| ==> WfJoined(s.done[k]))
    && WfTail(s.tail)
  }

  /** A source that can end here: its last unit is a command or a change of directory. */
  ghost predicate Complete(s: Source) {
    !s.tail.Assignments?
  }

  /** The nodes of a complete source. */
  function NodesOf(s: Source): seq<Node>
    requires !s.tail.Assignments?
  {
    DoneNodes(s.done) + [NodeOf(s.tail, None)]
  }

  // ----- reading a source word by word

  function WaitingMode(waiting: Option<string>): Mode {
    match waiting
    case None => COMMAND
    case Some(sign) => if sign == ">" then STDOUT else if sign == "2>" then STDERR else STDIN
  }

  /** The state of the parser behind the words of a source. */
  function StateOf(s: Source): State {
    match s.tail
    case Assignments(env) => State(BEGIN, None, DoneNodes(s.done), EnvOf(env))
    case Simple(env, name, args, waiting) =>
      State(WaitingMode(waiting), Some(CommandOf(env, name, args)), DoneNodes(s.done), map[])
    case Cd(dir) => State(CHDIR, Some(Chdir(dir)), DoneNodes(s.done), map[])
  }

  ghost function AddArg(s: Source, a: Arg): Option<Source>
    requires s.tail.Simple?
  {
    if SlotOf(a) != NoSlot && Uses(s.tail.args, SlotOf(a)) then None
    else Some(s.(tail := s.tail.(args := s.tail.args + [a], waiting := None)))
  }

  ghost function JoinTail(s: Source, op: Node): Option<Source>
    requires !s.tail.Assignments?
  {
    Some(Source(s.done + [Joined(s.tail, op)], Assignments([])))
  }

  /** The source with one more word, if some well-formed source goes on so. */
  ghost function Extend(s: Source, token: string): Option<Source> {
    match s.tail
    case Assignments(env) =>
      if MatchAssignment(token).Some? then Some(s.(tail := Assignments(env + [token])))
      else if token != "cd" then Some(s.(tail := Simple(env, token, [], None)))
      else if env == [] then Some(s.(tail := Cd(None)))
      else None
    case Simple(env, name, args, Some(sign)) =>
      AddArg(s, FileArg(sign, token))
    case Simple(env, name, args, None) =>
      if token in {">", "2>", "<"} then Some(s.(tail := s.tail.(waiting := Some(token))))
      else if token == "2>&1" then AddArg(s, ErrToOut)
      else if token == "|" then if Uses(args, OutSlot) then None else JoinTail(s, Pipe)
      else if token == "&&" then JoinTail(s, And)
      else if token == "||" then JoinTail(s, Or)
      else AddArg(s, Word(token))
    case Cd(dir) =>
      if token == "&&" then JoinTail(s, And)
      else if dir.Some? then None
      else Some(s.(tail := Cd(Some(token))))
  }

  lemma {:induction false} StreamsOf(args: seq<Arg>)
    ensures InputOf(args) == None <==> !Uses(args, InSlot)
    ensures OutputOf(args) == Inherited <==> !Uses(args, OutSlot)
    ensures ErrorOf(args) == Inherited <==> !Uses(args, ErrSlot)
    ensures OutputOf(args) != ToPipe && ErrorOf(args) != ToPipe
  {
    if args != [] {
      var front, last := args[..|args| - 1], args[|args| - 1];
      StreamsOf(front);
      UsesMore(front, last);
      assert args == front + [last];
    }
  }

  lemma UsesMore(args: seq<Arg>, a: Arg)
    ensures forall slot :: Uses(args + [a], slot) <==> Uses(args, slot) || SlotOf(a) == slot
  {
    var more := args + [a];
    forall slot
      ensures Uses(more, slot) <==> Uses(args, slot) || SlotOf(a) == slot
    {
      if Uses(args, slot) {
        var i :| 0 <= i < |args| && SlotOf(args[i]) == slot;
        assert SlotOf(more[i]) == slot;
      }
      assert SlotOf(more[|args|]) == SlotOf(a);
    }
  }

  lemma {:induction false} EnvNotEmpty(env: seq<string>)
    requires EnvOk(env)
    ensures EnvOf(env) == map[] <==> env == []
  {
    if env != [] {
      var (name, value) := MatchAssignment(env[|env| - 1]).value;
      assert name in EnvOf(env);
    }
  }

  lemma ArgsMore(args: seq<Arg>, a: Arg)
    requires ArgsOk(args) && (a.Word? ==> a.word !in Operators)
    requires SlotOf(a) != NoSlot ==> !Uses(args, SlotOf(a))
    ensures ArgsOk(args + [a])
  {
    var more := args + [a];
    forall i, j | 0 <= i < j < |more| && SlotOf(more[i]) != NoSlot
      ensures SlotOf(more[i]) != SlotOf(more[j])
    {
      assert j == |args| && SlotOf(args[i]) == SlotOf(a) ==> Uses(args, SlotOf(a));
    }
  }

  /** A command with one more argument. */
  function WithArg(cmd: Node, a: Arg): Node
    requires cmd.Command?
  {
    match a
    case Word(w) => cmd.(argv := cmd.argv + [w])
    case In(f) => cmd.(stdin := Some(f))
    case Out(f) => cmd.(stdout := ToFile(f))
    case Err(f) => cmd.(stderr := ToFile(f))
    case ErrToOut => cmd.(stderr := ToStdout)
  }

  lemma CommandMore(env: seq<string>, name: string, args: seq<Arg>, a: Arg)
    ensures CommandOf(env, name, args + [a]) == WithArg(CommandOf(env, name, args), a)
  {
    assert (args + [a])[..|args|] == args;
    if a.Word? {
      assert [name] + (Words(args) + [a.word]) == [name] + Words(args) + [a.word];
    }
  }

  lemma DoneMore(done: seq<Joined>, j: Joined)
    ensures DoneNodes(done + [j]) == DoneNodes(done) + [NodeOf(j.unit, Some(j.op))] + [j.op]
    ensures RenderDone(done + [j]) == RenderDone(done) + RenderTail(j.unit) + [OperatorToken(j.op)]
  {
    assert (done + [j])[..|done|] == done;
  }

  lemma WfDoneMore(s: Source, j: Joined)
    requires Wf(s) && WfJoined(j)
    ensures Wf(Source(s.done + [j], Assignments([])))
  {
    forall k | 0 <= k < |s.done| + 1
      ensures WfJoined((s.done + [j])[k])
    {
      if k < |s.done| {
        assert WfJoined(s.done[k]);
      }
    }
  }

  /** The source after a word and the parser after the same word agree, and fail together. */
  ghost predicate Agree(s: Source, token: string, next: Option<Source>, read: Option<State>) {
    match next
    case None => read == None
    case Some(s') => Wf(s') && Render(s') == Render(s) + [token] && read == Some(StateOf(s'))
  }

  lemma RenderMore(s: Source, t: Tail, token: string)
    requires RenderTail(t) == RenderTail(s.tail) + [token]
    ensures Render(s.(tail := t)) == Render(s) + [token]
  {
  }

  lemma ExtendByAssignment(s: Source, token: string)
    requires Wf(s) && s.tail.Assignments? && MatchAssignment(token).Some?
    ensures Agree(s, token, Extend(s, token), Read(StateOf(s), token))
  {
    var env := s.tail.env;
    RenderMore(s, Assignments(env + [token]), token);
    assert (env + [token])[..|env|] == env;
  }

  lemma ExtendByName(s: Source, token: string)
    requires Wf(s) && s.tail.Assignments? && MatchAssignment(token).None?
    ensures Agree(s, token, Extend(s, token), Read(StateOf(s), token))
  {
    var env := s.tail.env;
    if token != "cd" {
      assert RenderTail(Simple(env, token, [], None)) == env + [token] + [] + [];
      assert [token] + Words([]) == [token];
      RenderMore(s, Simple(env, token, [], None), token);
    } else {
      EnvNotEmpty(env);
      if env == [] {
        assert RenderTail(Cd(None)) == ["cd"] + [];
        RenderMore(s, Cd(None), token);
      }
    }
  }

  lemma AddArgAgrees(s: Source, a: Arg, token: string)
    requires Wf(s) && s.tail.Simple? && (a.Word? ==> a.word !in Operators)
    requires SlotOf(a) == NoSlot || !Uses(s.tail.args, SlotOf(a))
    requires (if s.tail.waiting.Some? then [s.tail.waiting.value] else []) + [token] == RenderArg(a)
    ensures var s' := AddArg(s, a).value;
      && Wf(s') && Render(s') == Render(s) + [token]
      && StateOf(s') == State(COMMAND, Some(CommandOf(s.tail.env, s.tail.name, s.tail.args + [a])),
                              DoneNodes(s.done), map[])
  {
    var Simple(env, name, args, waiting) := s.tail;
    ArgsMore(args, a);
    RenderAddArg(s, a, token);
  }

  lemma RenderAddArg(s: Source, a: Arg, token: string)
    requires s.tail.Simple?
    requires (if s.tail.waiting.Some? then [s.tail.waiting.value] else []) + [token] == RenderArg(a)
    ensures Render(s.(tail := s.tail.(args := s.tail.args + [a], waiting := None))) == Render(s) + [token]
  {
    var Simple(env, name, args, waiting) := s.tail;
    var t := s.tail.(args := args + [a], waiting := None);
    var sign := if waiting.Some? then [waiting.value] else [];
    assert (args + [a])[..|args|] == args;
    calc {
      RenderTail(t);
      env + [name] + (RenderArgs(args) + (sign + [token])) + [];
      env + [name] + RenderArgs(args) + sign + [token];
      RenderTail(s.tail) + [token];
    }
    RenderMore(s, t, token);
  }

  function FileArg(sign: string, token: string): Arg {
    if sign == ">" then Out(token) else if sign == "2>" then Err(token) else In(token)
  }

  /** Whether the stream that an argument redirects is still as the command found it. */
  predicate StreamFree(cmd: Node, a: Arg)
    requires cmd.Command?
  {
    match SlotOf(a)
    case NoSlot => true
    case InSlot => cmd.stdin == None
    case OutSlot => cmd.stdout == Inherited
    case ErrSlot => cmd.stderr == Inherited
  }

  lemma ReadFileAdds(st: State, cmd: Node, sign: string, token: string)
    requires cmd.Command? && st.current == Some(cmd) && st.mode == WaitingMode(Some(sign))
    ensures ReadFile(st, cmd, token) ==
      if StreamFree(cmd, FileArg(sign, token))
      then Some(st.(current := Some(WithArg(cmd, FileArg(sign, token))), mode := COMMAND)) else None
  {
  }

  lemma FreeIffUnused(env: seq<string>, name: string, args: seq<Arg>, a: Arg)
    ensures StreamFree(CommandOf(env, name, args), a) <==> SlotOf(a) == NoSlot || !Uses(args, SlotOf(a))
  {
    StreamsOf(args);
  }

  /** Adding an argument to the source does to the state what it does to the command. */
  lemma AddArgState(s: Source, a: Arg, token: string, read: Option<State>)
    requires Wf(s) && s.tail.Simple? && (a.Word? ==> a.word !in Operators)
    requires (if s.tail.waiting.Some? then [s.tail.waiting.value] else []) + [token] == RenderArg(a)
    requires var cmd := CommandOf(s.tail.env, s.tail.name, s.tail.args);
      read == if StreamFree(cmd, a) then Some(State(COMMAND, Some(WithArg(cmd, a)), DoneNodes(s.done), map[])) else None
    ensures Agree(s, token, AddArg(s, a), read)
  {
    FreeIffUnused(s.tail.env, s.tail.name, s.tail.args, a);
    CommandMore(s.tail.env, s.tail.name, s.tail.args, a);
    if SlotOf(a) == NoSlot || !Uses(s.tail.args, SlotOf(a)) {
      AddArgAgrees(s, a, token);
    }
  }

  lemma ExtendWaiting(s: Source, token: string)
    requires Wf(s) && s.tail.Simple? && s.tail.waiting.Some?
    ensures Agree(s, token, AddArg(s, FileArg(s.tail.waiting.value, token)),
                  ReadFile(StateOf(s), StateOf(s).current.value, token))
  {
    var st := StateOf(s);
    ReadFileAdds(st, st.current.value, s.tail.waiting.value, token);
    AddArgState(s, FileArg(s.tail.waiting.value, token), token, ReadFile(st, st.current.value, token));
  }

  lemma JoinAgrees(s: Source, op: Node)
    requires Wf(s) && WfJoinable(s.tail, op)
    ensures var s' := JoinTail(s, op).value;
      && Wf(s') && Render(s') == Render(s) + [OperatorToken(op)]
      && StateOf(s') == State(BEGIN, None, DoneNodes(s.done) + [NodeOf(s.tail, Some(op))] + [op], map[])
  {
    var j := Joined(s.tail, op);
    WfDoneMore(s, j);
    DoneMore(s.done, j);
    assert RenderDone(s.done + [j]) + [] == RenderDone(s.done) + RenderTail(s.tail) + [OperatorToken(op)];
  }

  ghost predicate WfJoinable(t: Tail, op: Node) {
    !t.Assignments? && WfJoined(Joined(t, op))
  }

  lemma ExtendBySign(s: Source, token: string)
    requires Wf(s) && s.tail.Simple? && s.tail.waiting.None? && token in {">", "2>", "<"}
    ensures Agree(s, token, Extend(s, token), ReadCommand(StateOf(s), StateOf(s).current.value, token))
  {
    RenderMore(s, s.tail.(waiting := Some(token)), token);
  }

  lemma ExtendByErrToOut(s: Source, token: string)
    requires Wf(s) && s.tail.Simple? && s.tail.waiting.None? && token == "2>&1"
    ensures Agree(s, token, Extend(s, token), ReadCommand(StateOf(s), StateOf(s).current.value, token))
  {
    AddArgState(s, ErrToOut, token, ReadCommand(StateOf(s), StateOf(s).current.value, token));
  }

  lemma ReadOperatorJoins(st: State, cmd: Node, op: Node)
    requires cmd.Command? && st.current == Some(cmd) && st.mode == COMMAND && IsOperator(op)
    requires op == Pipe ==> cmd.stdout == Inherited
    ensures ReadCommand(st, cmd, OperatorToken(op)) ==
      Some(State(BEGIN, None, st.pipeline + [if op == Pipe then cmd.(stdout := ToPipe) else cmd] + [op], st.env))
  {
  }

  lemma ExtendByOperator(s: Source, op: Node)
    requires Wf(s) && s.tail.Simple? && s.tail.waiting.None? && IsOperator(op)
    ensures Agree(s, OperatorToken(op), if op == Pipe && Uses(s.tail.args, OutSlot) then None else JoinTail(s, op),
                  ReadCommand(StateOf(s), StateOf(s).current.value, OperatorToken(op)))
  {
    var st := StateOf(s);
    StreamsOf(s.tail.args);
    if op != Pipe || !Uses(s.tail.args, OutSlot) {
      ReadOperatorJoins(st, st.current.value, op);
      JoinAgrees(s, op);
    }
  }

  lemma ReadWordAdds(st: State, cmd: Node, token: string)
    requires cmd.Command? && token !in Operators
    ensures ReadCommand(st, cmd, token) == Some(st.(current := Some(WithArg(cmd, Word(token)))))
  {
  }

  lemma ExtendByWord(s: Source, token: string)
    requires Wf(s) && s.tail.Simple? && s.tail.waiting.None? && token !in Operators
    ensures Agree(s, token, AddArg(s, Word(token)), ReadCommand(StateOf(s), StateOf(s).current.value, token))
  {
    var st := StateOf(s);
    ReadWordAdds(st, st.current.value, token);
    AddArgState(s, Word(token), token, ReadCommand(st, st.current.value, token));
  }

  lemma ExtendCd(s: Source, token: string)
    requires Wf(s) && s.tail.Cd?
    ensures Agree(s, token, Extend(s, token), Read(StateOf(s), token))
  {
    if token == "&&" {
      JoinAgrees(s, And);
    } else {
      assert RenderDone(s.done) + (["cd"] + [token]) == RenderDone(s.done) + (["cd"] + []) + [token];
    }
  }

  lemma ExtendAtOperator(s: Source, token: string)
    requires Wf(s) && s.tail.Simple? && s.tail.waiting.None? && token in {"|", "&&", "||"}
    ensures Agree(s, token, Extend(s, token), ReadCommand(StateOf(s), StateOf(s).current.value, token))
  {
    var op := if token == "|" then Pipe else if token == "&&" then And else Or;
    assert OperatorToken(op) == token;
    ExtendByOperator(s, op);
  }

  /** A command that waits for no file takes the next word as the parser does. */
  lemma ExtendFree(s: Source, token: string)
    requires Wf(s) && s.tail.Simple? && s.tail.waiting.None?
    ensures Agree(s, token, Extend(s, token), ReadCommand(StateOf(s), StateOf(s).current.value, token))
  {
    if token in {">", "2>", "<"} {
      ExtendBySign(s, token);
    } else if token == "2>&1" {
      ExtendByErrToOut(s, token);
    } else if token in {"|", "&&", "||"} {
      ExtendAtOperator(s, token);
    } else {
      ExtendByWord(s, token);
    }
  }

  /** In the middle of a command the parser's step depends on whether a file is awaited. */
  lemma ReadSimple(s: Source, token: string)
    requires s.tail.Simple?
    ensures Read(StateOf(s), token) ==
      if s.tail.waiting.Some? && WaitingMode(s.tail.waiting) != COMMAND
      then ReadFile(StateOf(s), StateOf(s).current.value, token)
      else ReadCommand(StateOf(s), StateOf(s).current.value, token)
  {
  }

  lemma ExtendAgrees(s: Source, token: string)
    requires Wf(s)
    ensures Agree(s, token, Extend(s, token), Read(StateOf(s), token))
  {
    match s.tail
    case Assignments(_) =>
      if MatchAssignment(token).Some? {
        ExtendByAssignment(s, token);
      } else {
        ExtendByName(s, token);
      }
    case Simple(_, _, _, waiting) =>
      ReadSimple(s, token);
      if waiting.Some? {
        ExtendWaiting(s, token);
      } else {
        ExtendFree(s, token);
      }
    case Cd(_) => ExtendCd(s, token);
  }

  // ----- the language

  lemma {:induction false} ReadAllAppend(st: State, tokens: seq<string>, token: string)
    requires ReadAll(st, tokens).Some?
    ensures ReadAll(st, tokens + [token]) == Read(ReadAll(st, tokens).value, token)
    decreases |tokens|
  {
    if tokens == [] {
      assert ReadAll(st, [token]) == Read(st, token) by {
        if Read(st, token).Some? {
          assert [token][1..] == [];
        }
      }
    } else {
      assert (tokens + [token])[1..] == tokens[1..] + [token];
      ReadAllAppend(Read(st, tokens[0]).value, tokens[1..], token);
    }
  }

  lemma ConcatHead<T>(a: seq<T>, b: seq<T>)
    requires b != []
    ensures a + [b[0]] + b[1..] == a + b
  {
  }

  /** Every word the parser gets over is the next word of some well-formed source. */
  lemma {:induction false} WordsHaveSource(s: Source, tokens: seq<string>) returns (s': Source)
    requires Wf(s) && ReadAll(StateOf(s), tokens).Some?
    ensures Wf(s') && Render(s') == Render(s) + tokens
    ensures ReadAll(StateOf(s), tokens) == Some(StateOf(s'))
    decreases |tokens|
  {
    if tokens == [] {
      s' := s;
    } else {
      ExtendAgrees(s, tokens[0]);
      var next := Extend(s, tokens[0]).value;
      s' := WordsHaveSource(next, tokens[1..]);
      ConcatHead(Render(s), tokens);
    }
  }

  lemma {:induction false} DoneNotEmpty(done: seq<Joined>)
    requires done != []
    ensures RenderDone(done) != []
  {
  }

  lemma ShrinkAssignments(s: Source) returns (s0: Source, token: string)
    requires Wf(s) && s.tail.Assignments? && s.tail.env != []
    ensures Wf(s0) && Extend(s0, token) == Some(s)
  {
    var env := s.tail.env;
    var n := |env| - 1;
    s0, token := s.(tail := Assignments(env[..n])), env[n];
    assert env == env[..n] + [env[n]];
  }

  lemma ShrinkJoined(s: Source) returns (s0: Source, token: string)
    requires Wf(s) && s.tail == Assignments([]) && s.done != []
    ensures Wf(s0) && Extend(s0, token) == Some(s)
  {
    var n := |s.done| - 1;
    var j := s.done[n];
    assert WfJoined(s.done[n]);
    s0, token := Source(s.done[..n], j.unit), OperatorToken(j.op);
    assert s.done == s0.done + [j];
    ShrinkDone(s, n);
  }

  lemma ShrinkCd(s: Source) returns (s0: Source, token: string)
    requires Wf(s) && s.tail.Cd?
    ensures Wf(s0) && Extend(s0, token) == Some(s)
  {
    match s.tail.dir
    case Some(dir) =>
      s0, token := s.(tail := Cd(None)), dir;
    case None =>
      s0, token := s.(tail := Assignments([])), "cd";
      NotAnAssignment("cd");
  }

  /** A source with any words is a shorter source and one more word. */
  lemma Shrink(s: Source) returns (s0: Source, token: string)
    requires Wf(s) && Render(s) != []
    ensures Wf(s0) && Extend(s0, token) == Some(s)
  {
    match s.tail
    case Assignments(env) =>
      if env == [] {
        s0, token := ShrinkJoined(s);
      } else {
        s0, token := ShrinkAssignments(s);
      }
    case Simple(env, name, args, waiting) =>
      if waiting.Some? {
        s0, token := s.(tail := s.tail.(waiting := None)), waiting.value;
      } else if args == [] {
        s0, token := s.(tail := Assignments(env)), name;
      } else {
        s0, token := ShrinkArgs(s);
      }
    case Cd(_) => s0, token := ShrinkCd(s);
  }

  lemma NotAnAssignment(token: string)
    requires '=' !in token
    ensures MatchAssignment(token).None?
  {
  }

  lemma ShrinkDone(s: Source, n: nat)
    requires Wf(s) && n <= |s.done|
    ensures forall k :: 0 <= k < n ==> WfJoined(s.done[..n][k])
  {
    forall k | 0 <= k < n
      ensures WfJoined(s.done[..n][k])
    {
      assert WfJoined(s.done[k]);
    }
  }

  lemma ShrinkArgs(s: Source) returns (s0: Source, token: string)
    requires Wf(s) && s.tail.Simple? && s.tail.waiting.None? && s.tail.args != []
    ensures Wf(s0) && Extend(s0, token) == Some(s)
  {
    var args := s.tail.args;
    var n := |args| - 1;
    var front, last := args[..n], args[n];
    assert args == front + [last];
    assert ArgsOk(front);
    assert SlotOf(last) != NoSlot ==> !Uses(front, SlotOf(last));
    var waiting :=
      match last case In(_) => Some("<") case Out(_) => Some(">") case Err(_) => Some("2>") case _ => None;
    token := match last case Word(w) => w case In(f) => f case Out(f) => f case Err(f) => f case ErrToOut => "2>&1";
    s0 := s.(tail := s.tail.(args := front, waiting := waiting));
  }

  /** The parser reads the words of a well-formed source into the source's state. */
  lemma {:induction false} RenderReads(s: Source)
    requires Wf(s)
    ensures ReadAll(Start, Render(s)) == Some(StateOf(s))
    decreases |Render(s)|
  {
    if Render(s) == [] {
      if s.done != [] {
        DoneNotEmpty(s.done);
      }
    } else {
      var s0, token := Shrink(s);
      ExtendAgrees(s0, token);
      RenderReads(s0);
      ReadAllAppend(Start, Render(s0), token);
    }
  }

  /** Parsing the words of a source gives the nodes the source stands for. */
  lemma ParseOfSource(s: Source)
    requires Wf(s) && Complete(s)
    ensures ParseTokens(Render(s)) == Some(NodesOf(s))
  {
    RenderReads(s);
  }

  /** Some well-formed, complete source has exactly these words. */
  ghost predicate HasSource(tokens: seq<string>) {
    exists s :: Wf(s) && Complete(s) && Render(s) == tokens
  }

  lemma ParsedHasSource(tokens: seq<string>)
    requires ParseTokens(tokens).Some?
    ensures HasSource(tokens)
  {
    var empty := Source([], Assignments([]));
    assert Render(empty) == [];
    var s := WordsHaveSource(empty, tokens);
    assert Render(s) == tokens;
    assert Complete(s);
  }

  /** The parser accepts exactly the words of the well-formed, complete sources. */
  lemma ParseExactly(tokens: seq<string>)
    ensures ParseTokens(tokens).Some? <==> HasSource(tokens)
  {
    if HasSource(tokens) {
      var s :| Wf(s) && Complete(s) && Render(s) == tokens;
      ParseOfSource(s);
    }
    if ParseTokens(tokens).Some? {
      ParsedHasSource(tokens);
    }
  }

  // ----- canonical assignments

  lemma ChompValue(value: string, end: string)
    requires IsValue(value) && (end == "" || end == "\n")
    ensures Chomp(value + end) == value
  {
    assert !IsSpace(value[|value| - 1]);
    if end == "\n" {
      assert (value + end)[..|value|] == value;
    } else {
      assert value + end == value;
    }
  }

  lemma SplitAtEquals(name: string, rest: string)
    requires forall j :: 0 <= j < |name| ==> name[j] != '='
    ensures EqualsSign(name + "=" + rest) == |name|
    ensures (name + "=" + rest)[..|name|] == name && (name + "=" + rest)[|name| + 1..] == rest
  {
    var token := name + "=" + rest;
    assert token[|name|] == '=';
    assert forall j :: 0 <= j < |name| ==> token[j] == name[j];
  }

  lemma AssignmentMatches(name: string, value: string, end: string)
    requires IsName(name) && IsValue(value) && (end == "" || end == "\n")
    ensures MatchAssignment(name + "=" + (value + end)) == Some((name, value))
  {
    assert forall j :: 0 <= j < |name| ==> IsWordChar(name[j]);
    SplitAtEquals(name, value + end);
    ChompValue(value, end);
  }

  lemma JoinAtEquals(token: string, i: nat)
    requires i < |token| && token[i] == '='
    ensures token == token[..i] + "=" + token[i + 1..]
  {
    assert token == token[..i] + [token[i]] + token[i + 1..];
  }

  lemma MatchIsAssignment(token: string)
    requires MatchAssignment(token).Some?
    ensures var (name, value) := MatchAssignment(token).value;
      IsName(name) && IsValue(value) && (token == name + "=" + value || token == name + "=" + (value + "\n"))
  {
    JoinAtEquals(token, EqualsSign(token));
  }

  /** A word is an assignment exactly when it is a name, an equals sign and a value, perhaps with a newline. */
  lemma AssignmentExactly(token: string, name: string, value: string)
    ensures MatchAssignment(token) == Some((name, value)) <==>
      IsName(name) && IsValue(value) && (token == name + "=" + value || token == name + "=" + (value + "\n"))
  {
    if MatchAssignment(token).Some? {
      MatchIsAssignment(token);
    }
    if IsName(name) && IsValue(value) {
      AssignmentMatches(name, value, "");
      AssignmentMatches(name, value, "\n");
      assert value + "" == value;
    }
  }
}
