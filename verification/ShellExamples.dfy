/** Some commands word for word: what is parsed, and what the processes get. */
module ShellExamples {
  import opened Wrappers
  import opened ShellSyntax
  import opened ShellRun
  import opened ShellMeaning
  import ShellLaunch

  lemma ReadDir(dir: string, pipeline: seq<Node>)
    requires dir != "&&"
    ensures Read(State(CHDIR, Some(Chdir(None)), pipeline, map[]), dir)
         == Some(State(CHDIR, Some(Chdir(Some(dir))), pipeline, map[]))
  {
  }

  function TwoChdirs(): seq<Node> {
    [Chdir(Some("a")), And, Chdir(Some("b")), And, Plain("ls", Inherited)]
  }

  lemma ParseTwoChdirs()
    ensures ParseTokens(["cd", "a", "&&", "cd", "b", "&&", "ls"]) == Some(TwoChdirs())
  {
    var tokens, nodes := ["cd", "a", "&&", "cd", "b", "&&", "ls"], TwoChdirs();
    var in_cd := State(CHDIR, Some(Chdir(None)), [], map[]);
    var in_cd_a := State(CHDIR, Some(nodes[0]), [], map[]);
    var behind_a := State(BEGIN, None, nodes[..2], map[]);
    ReadCd([]);
    ReadDir("a", []);
    ReadAnd(Some("a"), []);
    assert nodes[..2] == [] + [nodes[0]] + [nodes[1]];
    ReadNext(Start, tokens, 0, in_cd);
    ReadNext(in_cd, tokens, 1, in_cd_a);
    ReadNext(in_cd_a, tokens, 2, behind_a);
    SecondChdir(tokens, nodes);
    assert tokens[0..] == tokens;
  }

  lemma {:induction false} SecondChdir(tokens: seq<string>, nodes: seq<Node>)
    requires tokens == ["cd", "a", "&&", "cd", "b", "&&", "ls"] && nodes == TwoChdirs()
    ensures ReadAll(State(BEGIN, None, nodes[..2], map[]), tokens[3..])
         == Some(State(COMMAND, Some(nodes[4]), nodes[..4], map[]))
    ensures nodes == nodes[..4] + [nodes[4]]
  {
    var behind_a := State(BEGIN, None, nodes[..2], map[]);
    var in_cd := State(CHDIR, Some(Chdir(None)), nodes[..2], map[]);
    var in_cd_b := State(CHDIR, Some(nodes[2]), nodes[..2], map[]);
    var behind_b := State(BEGIN, None, nodes[..4], map[]);
    ReadCd(nodes[..2]);
    ReadDir("b", nodes[..2]);
    ReadAnd(Some("b"), nodes[..2]);
    ReadName("ls", nodes[..4]);
    assert nodes[..4] == nodes[..2] + [nodes[2]] + [nodes[3]];
    ReadNext(behind_a, tokens, 3, in_cd);
    ReadNext(in_cd, tokens, 4, in_cd_b);
    ReadNext(in_cd_b, tokens, 5, behind_b);
    ReadNext(behind_b, tokens, 6, State(COMMAND, Some(nodes[4]), nodes[..4], map[]));
  }

  /** `cd a && cd b && ls` starts ls in ./a/b. */
  lemma LaunchBehindTwoChdirs()
    ensures ParseTokens(["cd", "a", "&&", "cd", "b", "&&", "ls"]) == Some(TwoChdirs())
    ensures LaunchAt(TwoChdirs(), 4) == Launch(4, ["ls"], InheritedIn, Inherited, Inherited, None, Some("./a/b"))
  {
    var nodes := TwoChdirs();
    ParseTwoChdirs();
    assert CwdAt(nodes, 1) == CwdAt(nodes, 2) == "./a";
    assert CwdAt(nodes, 3) == CwdAt(nodes, 4) == "./a/b";
    assert ProducerAt(nodes, 2) == None;
  }

  // ----- redirections

  lemma ReadSign(cmd: Node, pipeline: seq<Node>, sign: string, mode: Mode)
    requires cmd.Command?
    requires (sign == "<" && mode == STDIN) || (sign == ">" && mode == STDOUT) || (sign == "2>" && mode == STDERR)
    ensures Read(State(COMMAND, Some(cmd), pipeline, map[]), sign)
         == Some(State(mode, Some(cmd), pipeline, map[]))
  {
  }

  /** What a file name does to the command that waits for it. */
  function Redirected(cmd: Node, mode: Mode, file: string): (r: Node)
    requires cmd.Command?
    ensures r.Command?
  {
    match mode
    case STDIN => cmd.(stdin := Some(file))
    case STDOUT => cmd.(stdout := ToFile(file))
    case _ => cmd.(stderr := ToFile(file))
  }

  lemma ReadTarget(cmd: Node, pipeline: seq<Node>, mode: Mode, file: string)
    requires cmd.Command?
    requires (mode == STDIN && cmd.stdin == None) || (mode == STDOUT && cmd.stdout == Inherited)
          || (mode == STDERR && cmd.stderr == Inherited)
    ensures Read(State(mode, Some(cmd), pipeline, map[]), file)
         == Some(State(COMMAND, Some(Redirected(cmd, mode, file)), pipeline, map[]))
  {
  }

  lemma ReadArgument(cmd: Node, pipeline: seq<Node>, word: string)
    requires cmd.Command? && word !in {">", "2>", "2>&1", "<", "|", "&&", "||"}
    ensures Read(State(COMMAND, Some(cmd), pipeline, map[]), word)
         == Some(State(COMMAND, Some(cmd.(argv := cmd.argv + [word])), pipeline, map[]))
  {
  }

  function ThreeFiles(): (cmd: Node)
    ensures cmd.Command?
  {
    Command(["a", "b"], Some("i"), ToFile("o"), ToFile("e"), map[])
  }

  /** `a b < i > o 2> e`: each file goes to the stream in front of whose sign it stands. */
  lemma ParseThreeFiles()
    ensures ParseTokens(["a", "b", "<", "i", ">", "o", "2>", "e"]) == Some([ThreeFiles()])
  {
    var tokens := ["a", "b", "<", "i", ">", "o", "2>", "e"];
    var a := Plain("a", Inherited);
    var ab := a.(argv := a.argv + ["b"]);
    var in_a := State(COMMAND, Some(a), [], map[]);
    var in_ab := State(COMMAND, Some(ab), [], map[]);
    var in_in := State(STDIN, Some(ab), [], map[]);
    var behind_in := State(COMMAND, Some(ab.(stdin := Some("i"))), [], map[]);
    ReadName("a", []);
    ReadArgument(a, [], "b");
    ReadSign(ab, [], "<", STDIN);
    ReadTarget(ab, [], STDIN, "i");
    ReadNext(Start, tokens, 0, in_a);
    ReadNext(in_a, tokens, 1, in_ab);
    ReadNext(in_ab, tokens, 2, in_in);
    ReadNext(in_in, tokens, 3, behind_in);
    OutputFiles(tokens, ab.(stdin := Some("i")));
    assert tokens[0..] == tokens && [] + [ThreeFiles()] == [ThreeFiles()];
  }

  lemma {:induction false} OutputFiles(tokens: seq<string>, cmd: Node)
    requires tokens == ["a", "b", "<", "i", ">", "o", "2>", "e"]
    requires cmd == Command(["a"] + ["b"], Some("i"), Inherited, Inherited, map[])
    ensures ReadAll(State(COMMAND, Some(cmd), [], map[]), tokens[4..])
         == Some(State(COMMAND, Some(ThreeFiles()), [], map[]))
  {
    var start := State(COMMAND, Some(cmd), [], map[]);
    var in_out := State(STDOUT, Some(cmd), [], map[]);
    var behind_out := State(COMMAND, Some(cmd.(stdout := ToFile("o"))), [], map[]);
    var in_err := State(STDERR, Some(cmd.(stdout := ToFile("o"))), [], map[]);
    ReadSign(cmd, [], ">", STDOUT);
    ReadTarget(cmd, [], STDOUT, "o");
    ReadSign(cmd.(stdout := ToFile("o")), [], "2>", STDERR);
    ReadTarget(cmd.(stdout := ToFile("o")), [], STDERR, "e");
    assert ["a"] + ["b"] == ["a", "b"];
    ReadNext(start, tokens, 4, in_out);
    ReadNext(in_out, tokens, 5, behind_out);
    ReadNext(behind_out, tokens, 6, in_err);
    ReadNext(in_err, tokens, 7, State(COMMAND, Some(ThreeFiles()), [], map[]));
  }

  /** The process of `a b < i > o 2> e` gets its three files on its three streams. */
  lemma LaunchWithThreeFiles()
    ensures ParseTokens(["a", "b", "<", "i", ">", "o", "2>", "e"]) == Some([ThreeFiles()])
    ensures LaunchAt([ThreeFiles()], 0)
         == Launch(0, ["a", "b"], FromFile("i"), ToFile("o"), ToFile("e"), None, None)
    ensures OpeningsAt([ThreeFiles()], 0) == [Reading("i"), Writing("o"), Writing("e")]
  {
    ParseThreeFiles();
    ShellLaunch.OpenedForOutput("o");
    ShellLaunch.OpenedForOutput("e");
  }

  // ----- assignments and errors

  function AssignedAndPiped(): seq<Node> {
    [Command(["a"], None, ToPipe, ToStdout, map["A" := "1"]), Pipe, Plain("b", Inherited)]
  }

  lemma OneAssignment()
    ensures MatchAssignment("A=1") == Some(("A", "1"))
  {
    var token := "A=1";
    assert token[1..] == "=1" && token[..1] == "A" && token[2..] == "1";
    assert EqualsSign(token) == 1 + EqualsSign(token[1..]);
  }

  function AssignedCommand(): (cmd: Node)
    ensures cmd.Command?
  {
    Command(["a"], None, Inherited, Inherited, map["A" := "1"])
  }

  lemma ReadAssignedCommand()
    ensures Read(Start, "A=1") == Some(State(BEGIN, None, [], map["A" := "1"]))
    ensures Read(State(BEGIN, None, [], map["A" := "1"]), "a")
         == Some(State(COMMAND, Some(AssignedCommand()), [], map[]))
  {
    OneAssignment();
    assert map[]["A" := "1"] == map["A" := "1"];
  }

  lemma ReadJoined(cmd: Node, pipeline: seq<Node>)
    requires cmd.Command? && cmd.stderr == Inherited
    ensures Read(State(COMMAND, Some(cmd), pipeline, map[]), "2>&1")
         == Some(State(COMMAND, Some(cmd.(stderr := ToStdout)), pipeline, map[]))
  {
  }

  lemma ReadPiped(cmd: Node, pipeline: seq<Node>)
    requires cmd.Command? && cmd.stdout == Inherited
    ensures Read(State(COMMAND, Some(cmd), pipeline, map[]), "|")
         == Some(State(BEGIN, None, pipeline + [cmd.(stdout := ToPipe)] + [Pipe], map[]))
  {
  }

  /** `A=1 a 2>&1 | b`: the assignment is the first command's alone, and so is the joined error stream. */
  lemma ParseAssignedAndPiped()
    ensures ParseTokens(["A=1", "a", "2>&1", "|", "b"]) == Some(AssignedAndPiped())
  {
    var tokens, nodes := ["A=1", "a", "2>&1", "|", "b"], AssignedAndPiped();
    var a := AssignedCommand();
    var with_a := State(BEGIN, None, [], map["A" := "1"]);
    var in_a := State(COMMAND, Some(a), [], map[]);
    var joined := State(COMMAND, Some(a.(stderr := ToStdout)), [], map[]);
    var behind := State(BEGIN, None, nodes[..2], map[]);
    ReadAssignedCommand();
    ReadJoined(a, []);
    ReadPiped(a.(stderr := ToStdout), []);
    ReadName("b", nodes[..2]);
    assert nodes[..2] == [] + [nodes[0]] + [nodes[1]] && nodes == nodes[..2] + [nodes[2]];
    ReadNext(Start, tokens, 0, with_a);
    ReadNext(with_a, tokens, 1, in_a);
    ReadNext(in_a, tokens, 2, joined);
    ReadNext(joined, tokens, 3, behind);
    ReadNext(behind, tokens, 4, State(COMMAND, Some(nodes[2]), nodes[..2], map[]));
    assert tokens[0..] == tokens;
  }

  lemma LaunchAssignedAndPiped()
    ensures ParseTokens(["A=1", "a", "2>&1", "|", "b"]) == Some(AssignedAndPiped())
    ensures LaunchAt(AssignedAndPiped(), 0)
         == Launch(0, ["a"], InheritedIn, ToPipe, ToStdout, Some(map["A" := "1"]), None)
    ensures LaunchAt(AssignedAndPiped(), 2) == Launch(2, ["b"], FromPipe(0), Inherited, Inherited, None, None)
  {
    ParseAssignedAndPiped();
    assert map["A" := "1"] != map[] by {
      assert "A" in map["A" := "1"];
    }
    assert CwdAt(AssignedAndPiped(), 1) == ".";
  }

  // ----- the characters of names and values

  /** A name may hold these characters and no others. */
  lemma WordCharsExactly(c: char)
    ensures IsWordChar(c) <==>
      c in {'a', 'b', 'c', 'd', 'e', 'f', 'g', 'h', 'i', 'j', 'k', 'l', 'm',
            'n', 'o', 'p', 'q', 'r', 's', 't', 'u', 'v', 'w', 'x', 'y', 'z',
            'A', 'B', 'C', 'D', 'E', 'F', 'G', 'H', 'I', 'J', 'K', 'L', 'M',
            'N', 'O', 'P', 'Q', 'R', 'S', 'T', 'U', 'V', 'W', 'X', 'Y', 'Z',
            '0', '1', '2', '3', '4', '5', '6', '7', '8', '9', '_'}
  {
  }

  /** A value may hold no tab, newline, return, blank, and none of the other white space of Unicode. */
  lemma SpacesExactly(c: char)
    ensures IsSpace(c) <==>
      c as int in {9, 10, 11, 12, 13, 28, 29, 30, 31, 32, 0x85, 0xA0, 0x1680, 0x2000, 0x2001, 0x2002, 0x2003, 0x2004,
                   0x2005, 0x2006, 0x2007, 0x2008, 0x2009, 0x200A, 0x2028, 0x2029, 0x202F, 0x205F, 0x3000}
  {
  }
}
