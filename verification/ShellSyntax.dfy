/**
  The mini shell's parser: a list of words is read by a machine with six modes
  that builds commands, changes of directory and the operators between them.
 */
module ShellSyntax {
  import opened Wrappers

  /** Where an output stream of a command goes. */
  datatype Output = Inherited | ToPipe | ToStdout | ToFile(name: string)

  datatype Node =
    | Command(argv: seq<string>, stdin: Option<string>, stdout: Output, stderr: Output, env: map<string, string>)
    | Chdir(dir: Option<string>)
    | Pipe
    | And
    | Or

  datatype Mode = BEGIN | COMMAND | CHDIR | STDERR | STDOUT | STDIN

  datatype State = State(mode: Mode, current: Option<Node>, pipeline: seq<Node>, env: map<string, string>)

  // ----- assignments in front of a command

  /** Letters, digits and the underscore of ASCII. */
  predicate IsWordChar(c: char) {
    'a' <= c <= 'z' || 'A' <= c <= 'Z' || '0' <= c <= '9' || c == '_'
  }

  /** White space as the regular expressions of Python 3 know it. */
  predicate IsSpace(c: char) {
    var n := c as int;
    9 <= n <= 13 || 28 <= n <= 32 || n == 0x85 || n == 0xA0 || n == 0x1680 || 0x2000 <= n <= 0x200A
    || n == 0x2028 || n == 0x2029 || n == 0x202F || n == 0x205F || n == 0x3000
  }

  predicate IsName(s: string) {
    s != "" && forall i :: 0 <= i < |s| ==> IsWordChar(s[i])
  }

  predicate IsValue(s: string) {
    s != "" && forall i :: 0 <= i < |s| ==> !IsSpace(s[i])
  }

  /** The place of the first equals sign, or the length. */
  function EqualsSign(s: string): (i: nat)
    ensures i <= |s| && (i < |s| ==> s[i] == '=')
    ensures forall j :: 0 <= j < i ==> s[j] != '='
  {
    if s == "" || s[0] == '=' then 0 else 1 + EqualsSign(s[1..])
  }

  /** The word without a newline at its end. */
  function Chomp(s: string): (r: string)
    ensures s == r || s == r + "\n"
  {
    if s != "" && s[|s| - 1] == '\n' then
      var r := s[..|s| - 1];
      assert s == r + "\n";
      r
    else s
  }

  /** A name, an equals sign and a value; one newline at the end is tolerated and dropped. */
  function MatchAssignment(token: string): Option<(string, string)> {
    var i := EqualsSign(token);
    if i == |token| then None
    else
      var name, rest := token[..i], token[i + 1..];
      var value := Chomp(rest);
      if IsName(name) && IsValue(value) then Some((name, value)) else None
  }

  // ----- the machine

  function Commit(st: State): Option<State> {
    match st.current
    case None => None
    case Some(node) => Some(st.(current := None, pipeline := st.pipeline + [node]))
  }

  /** Commits the current node, puts an operator behind it and starts afresh. */
  function CommitWith(st: State, op: Node): Option<State> {
    match Commit(st)
    case None => None
    case Some(st') => Some(st'.(pipeline := st'.pipeline + [op], mode := BEGIN))
  }

  function ReadBegin(st: State, token: string): Option<State> {
    match MatchAssignment(token)
    case Some((name, value)) => Some(st.(env := st.env[name := value]))
    case None =>
      if st.current.Some? then None
      else if token == "cd" then
        if st.env != map[] then None else Some(st.(current := Some(Chdir(None)), mode := CHDIR))
      else
        Some(st.(current := Some(Command([token], None, Inherited, Inherited, st.env)), env := map[], mode := COMMAND))
  }

  function ReadCommand(st: State, cmd: Node, token: string): Option<State>
    requires cmd.Command?
  {
    if token == ">" then Some(st.(mode := STDOUT))
    else if token == "2>" then Some(st.(mode := STDERR))
    else if token == "2>&1" then
      if cmd.stderr != Inherited then None else Some(st.(current := Some(cmd.(stderr := ToStdout))))
    else if token == "<" then Some(st.(mode := STDIN))
    else if token == "|" then
      if cmd.stdout != Inherited then None
      else CommitWith(st.(current := Some(cmd.(stdout := ToPipe))), Pipe)
    else if token == "&&" then CommitWith(st, And)
    else if token == "||" then CommitWith(st, Or)
    else Some(st.(current := Some(cmd.(argv := cmd.argv + [token]))))
  }

  function ReadChdir(st: State, dir: Option<string>, token: string): Option<State> {
    if token == "&&" then CommitWith(st, And)
    else if dir.Some? then None
    else Some(st.(current := Some(Chdir(Some(token)))))
  }

  function ReadFile(st: State, cmd: Node, token: string): Option<State>
    requires cmd.Command?
  {
    match st.mode
    case STDOUT =>
      if cmd.stdout != Inherited then None
      else Some(st.(current := Some(cmd.(stdout := ToFile(token))), mode := COMMAND))
    case STDERR =>
      if cmd.stderr != Inherited then None
      else Some(st.(current := Some(cmd.(stderr := ToFile(token))), mode := COMMAND))
    case _ =>
      if cmd.stdin != None then None
      else Some(st.(current := Some(cmd.(stdin := Some(token))), mode := COMMAND))
  }

  /** One turn of the loop; None is a failed assertion. */
  function Read(st: State, token: string): Option<State> {
    if st.mode == BEGIN then ReadBegin(st, token)
    else
      match st.current
      case Some(Chdir(dir)) => if st.mode == CHDIR then ReadChdir(st, dir, token) else None
      case Some(Command(argv, stdin, stdout, stderr, env)) =>
        if st.mode == COMMAND then ReadCommand(st, st.current.value, token)
        else if st.mode == CHDIR then None
        else ReadFile(st, st.current.value, token)
      case _ => None
  }

  function ReadAll(st: State, tokens: seq<string>): Option<State>
    decreases |tokens|
  {
    if tokens == [] then Some(st)
    else
      match Read(st, tokens[0])
      case None => None
      case Some(st') => ReadAll(st', tokens[1..])
  }

  const Start: State := State(BEGIN, None, [], map[])

  function ParseTokens(tokens: seq<string>): Option<seq<Node>> {
    match ReadAll(Start, tokens)
    case None => None
    case Some(st) =>
      match Commit(st)
      case None => None
      case Some(st') => Some(st'.pipeline)
  }

  // ----- the parser in place

  class Pipeline {
    var currentCommand: Option<Node>
    var pipeline: seq<Node>

    constructor ()
      ensures currentCommand == None && pipeline == []
    {
      currentCommand, pipeline := None, [];
    }

    method CommitCommand() returns (ok: bool)
      modifies this
      ensures ok <==> old(currentCommand).Some?
      ensures ok ==> currentCommand == None && pipeline == old(pipeline) + [old(currentCommand).value]
      ensures !ok ==> currentCommand == old(currentCommand) && pipeline == old(pipeline)
    {
      if currentCommand.None? {
        return false;
      }
      pipeline := pipeline + [currentCommand.value];
      currentCommand := None;
      return true;
    }

    /** Parses the words; false is a failed assertion. */
    method Parse(tokens: seq<string>) returns (ok: bool)
      modifies this
      ensures ok <==> ParseTokens(tokens).Some?
      ensures ok ==> pipeline == ParseTokens(tokens).value
    {
      currentCommand, pipeline := None, [];
      var mode, env := BEGIN, map[];
      var rest := tokens;
      while rest != []
        invariant ReadAll(State(mode, currentCommand, pipeline, env), rest) == ReadAll(Start, tokens)
        invariant mode == BEGIN <==> currentCommand == None
        invariant mode == CHDIR <==> currentCommand.Some? && currentCommand.value.Chdir?
        invariant mode != BEGIN && mode != CHDIR <==> currentCommand.Some? && currentCommand.value.Command?
        decreases |rest|
      {
        var token := rest[0];
        rest := rest[1..];
        if mode == BEGIN {
          var assignment := MatchAssignment(token);
          if assignment.Some? {
            env := env[assignment.value.0 := assignment.value.1];
          } else if token == "cd" {
            if env != map[] {
              return false;
            }
            currentCommand, mode := Some(Chdir(None)), CHDIR;
          } else {
            currentCommand := Some(Command([token], None, Inherited, Inherited, env));
            env, mode := map[], COMMAND;
          }
        } else if mode == COMMAND {
          var cmd := currentCommand.value;
          if token == ">" {
            mode := STDOUT;
          } else if token == "2>" {
            mode := STDERR;
          } else if token == "2>&1" {
            if cmd.stderr != Inherited {
              return false;
            }
            currentCommand := Some(cmd.(stderr := ToStdout));
          } else if token == "<" {
            mode := STDIN;
          } else if token == "|" {
            if cmd.stdout != Inherited {
              return false;
            }
            currentCommand := Some(cmd.(stdout := ToPipe));
            var committed := CommitCommand();
            pipeline, mode := pipeline + [Pipe], BEGIN;
          } else if token == "&&" {
            var committed := CommitCommand();
            pipeline, mode := pipeline + [And], BEGIN;
          } else if token == "||" {
            var committed := CommitCommand();
            pipeline, mode := pipeline + [Or], BEGIN;
          } else {
            currentCommand := Some(cmd.(argv := cmd.argv + [token]));
          }
        } else if mode == CHDIR {
          if token == "&&" {
            var committed := CommitCommand();
            pipeline, mode := pipeline + [And], BEGIN;
          } else {
            if currentCommand.value.dir.Some? {
              return false;
            }
            currentCommand := Some(Chdir(Some(token)));
          }
        } else {
          var cmd := currentCommand.value;
          if mode == STDOUT {
            if cmd.stdout != Inherited {
              return false;
            }
            currentCommand := Some(cmd.(stdout := ToFile(token)));
          } else if mode == STDERR {
            if cmd.stderr != Inherited {
              return false;
            }
            currentCommand := Some(cmd.(stderr := ToFile(token)));
          } else {
            if cmd.stdin != None {
              return false;
            }
            currentCommand := Some(cmd.(stdin := Some(token)));
          }
          mode := COMMAND;
        }
      }
      ok := CommitCommand();
    }
  }
}
