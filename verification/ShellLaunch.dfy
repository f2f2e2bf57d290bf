/**
  What a started process gets: which words, files and assignments of a source
  reach which part of it, which directory it runs in, and from which command it
  reads.
 */
module ShellLaunch {
  import opened Wrappers
  import opened ShellSyntax
  import opened ShellGrammar
  import opened ShellRun
  import opened ShellMeaning

  // ----- directories

  ghost predicate Absolute(path: string) {
    path != "" && path[0] == '/'
  }

  ghost predicate OpenEnded(dir: string) {
    dir == "" || dir[|dir| - 1] == '/'
  }

  /** An absolute path replaces the directory; any other stands behind it, with one slash between them. */
  lemma JoinLaws(dir: string, path: string)
    ensures Absolute(path) ==> JoinPath(dir, path) == path
    ensures !Absolute(path) ==> dir <= JoinPath(dir, path) && EndsWith(JoinPath(dir, path), path)
    ensures !Absolute(path) && OpenEnded(dir) ==> |JoinPath(dir, path)| == |dir| + |path|
    ensures !Absolute(path) && !OpenEnded(dir) ==>
      |JoinPath(dir, path)| == |dir| + 1 + |path| && JoinPath(dir, path)[|dir|] == '/'
  {
    var joined := JoinPath(dir, path);
    assert joined[|joined| - |path|..] == path;
  }

  /** Going down twice is going down the joined path. */
  lemma JoinAssociative(a: string, b: string, c: string)
    ensures JoinPath(JoinPath(a, b), c) == JoinPath(a, JoinPath(b, c))
  {
    if Absolute(c) {
      return;
    }
    if Absolute(b) {
      assert Absolute(JoinPath(b, c));
    } else if b == "" {
      assert JoinPath(b, c) == c;
      JoinEmpty(a, c);
    } else {
      assert JoinPath(b, c)[0] == b[0];
      JoinRelative(a, b, c);
    }
  }

  lemma JoinEmpty(a: string, c: string)
    requires !Absolute(c)
    ensures JoinPath(JoinPath(a, ""), c) == JoinPath(a, c)
  {
    if OpenEnded(a) {
      assert JoinPath(a, "") == a;
    } else {
      assert JoinPath(a, "") == a + "/";
    }
  }

  ghost function Separator(dir: string): string {
    if OpenEnded(dir) then "" else "/"
  }

  lemma JoinIs(dir: string, path: string)
    requires !Absolute(path)
    ensures JoinPath(dir, path) == dir + Separator(dir) + path
  {
    assert dir + "" == dir;
  }

  lemma JoinRelative(a: string, b: string, c: string)
    requires !Absolute(b) && !Absolute(c) && b != ""
    ensures JoinPath(JoinPath(a, b), c) == JoinPath(a, JoinPath(b, c))
  {
    JoinIs(a, b);
    JoinIs(b, c);
    EndsLike(a + Separator(a), b);
    JoinIs(a + Separator(a) + b, c);
    assert (b + Separator(b) + c)[0] == b[0];
    JoinIs(a, b + Separator(b) + c);
    Regroup(a + Separator(a), b, Separator(b), c);
  }

  lemma EndsLike(s: string, b: string)
    requires b != ""
    ensures Separator(s + b) == Separator(b)
  {
    assert (s + b)[|s + b| - 1] == b[|b| - 1];
  }

  lemma Regroup(s: string, b: string, t: string, c: string)
    ensures s + b + t + c == s + (b + t + c)
  {
  }

  /** A name that joins with one slash on either side. */
  ghost predicate PlainDir(dir: string) {
    dir != "" && dir[0] != '/' && dir[|dir| - 1] != '/'
  }

  /** The directories that changes of directory name in front of place k. */
  ghost function Dirs(nodes: seq<Node>, k: nat): seq<string>
    requires k <= |nodes|
  {
    if k == 0 then []
    else
      match nodes[k - 1]
      case Chdir(Some(dir)) => Dirs(nodes, k - 1) + [dir]
      case _ => Dirs(nodes, k - 1)
  }

  /** Every name behind a slash. */
  ghost function Trail(dirs: seq<string>): string {
    if dirs == [] then "" else Trail(dirs[..|dirs| - 1]) + "/" + dirs[|dirs| - 1]
  }

  lemma {:induction false} TrailLaws(a: seq<string>, b: seq<string>, dir: string)
    ensures Trail([]) == "" && Trail([dir]) == "/" + dir
    ensures Trail(a + b) == Trail(a) + Trail(b)
  {
    assert [dir][..0] == [];
    if b == [] {
      assert a + b == a;
    } else {
      var n := |b| - 1;
      assert (a + b)[..|a| + n] == a + b[..n];
      TrailLaws(a, b[..n], dir);
    }
  }

  ghost predicate AllPlain(dirs: seq<string>) {
    forall i :: 0 <= i < |dirs| ==> PlainDir(dirs[i])
  }

  /** Going down the directories one after the other. */
  ghost function Down(dir: string, dirs: seq<string>): string {
    if dirs == [] then dir else JoinPath(Down(dir, dirs[..|dirs| - 1]), dirs[|dirs| - 1])
  }

  lemma {:induction false} CwdIsDown(nodes: seq<Node>, k: nat)
    requires k <= |nodes|
    ensures CwdAt(nodes, k) == Down(".", Dirs(nodes, k))
  {
    if k > 0 {
      CwdIsDown(nodes, k - 1);
      if nodes[k - 1].Chdir? && nodes[k - 1].dir.Some? {
        assert Dirs(nodes, k)[..|Dirs(nodes, k - 1)|] == Dirs(nodes, k - 1);
      }
    }
  }

  lemma {:induction false} DownPlain(dir: string, dirs: seq<string>)
    requires !OpenEnded(dir) && AllPlain(dirs)
    ensures Down(dir, dirs) == dir + Trail(dirs) && !OpenEnded(Down(dir, dirs))
  {
    if dirs == [] {
      assert dir + "" == dir;
    } else {
      var n := |dirs| - 1;
      DownPlain(dir, dirs[..n]);
      JoinPlain(dir, Trail(dirs[..n]), dirs[n]);
    }
  }

  lemma JoinPlain(dir: string, trail: string, name: string)
    requires !OpenEnded(dir + trail) && PlainDir(name)
    ensures JoinPath(dir + trail, name) == dir + (trail + "/" + name) && !OpenEnded(JoinPath(dir + trail, name))
  {
    assert dir + trail + "/" + name == dir + (trail + "/" + name);
    EndsLike(dir + trail + "/", name);
  }

  /** Behind relative directories only, the names stand one after the other behind the dot. */
  lemma RelativeDirectory(nodes: seq<Node>, k: nat)
    requires k <= |nodes| && AllPlain(Dirs(nodes, k))
    ensures CwdAt(nodes, k) == "." + Trail(Dirs(nodes, k))
  {
    CwdIsDown(nodes, k);
    DownPlain(".", Dirs(nodes, k));
  }

  lemma {:induction false} DownAfresh(dir: string, before: seq<string>, abs: string, after: seq<string>)
    requires Absolute(abs)
    ensures Down(dir, before + [abs] + after) == Down(abs, after)
  {
    if after == [] {
      assert before + [abs] + after == before + [abs];
      assert (before + [abs])[..|before|] == before;
    } else {
      var n, all := |after| - 1, before + [abs] + after;
      assert all[..|all| - 1] == before + [abs] + after[..n];
      DownAfresh(dir, before, abs, after[..n]);
    }
  }

  /** The last absolute directory starts afresh, wherever the ones before it led. */
  lemma AbsoluteDirectory(nodes: seq<Node>, k: nat, before: seq<string>, abs: string, after: seq<string>)
    requires k <= |nodes| && Dirs(nodes, k) == before + [abs] + after
    requires Absolute(abs) && !OpenEnded(abs) && AllPlain(after)
    ensures CwdAt(nodes, k) == abs + Trail(after)
  {
    CwdIsDown(nodes, k);
    DownAfresh(".", before, abs, after);
    DownPlain(abs, after);
  }

  // ----- pipes

  /**
    A command reads from the last command in front of it that a pipe follows,
    with nothing but changes of directory in between.
   */
  ghost predicate Feeds(nodes: seq<Node>, j: nat, k: nat)
    requires k < |nodes|
  {
    && j + 2 <= k && j % 2 == 0 && nodes[j].Command? && nodes[j + 1] == Pipe
    && forall i :: j < i < k && i % 2 == 0 ==> nodes[i].Chdir?
  }

  lemma {:induction false} ProducerExactly(nodes: seq<Node>, k: nat, j: nat)
    requires WellShaped(nodes) && k < |nodes| && k % 2 == 0
    ensures ProducerAt(nodes, k) == Some(j) <==> Feeds(nodes, j, k)
  {
    if k >= 2 {
      assert NodeOk(nodes, k - 2) && NodeOk(nodes, k - 1);
      if nodes[k - 2].Chdir? {
        ProducerExactly(nodes, k - 2, j);
        assert Feeds(nodes, j, k) ==> j != k - 2;
        assert Feeds(nodes, j, k) <==> Feeds(nodes, j, k - 2);
      } else {
        assert Feeds(nodes, j, k) ==> j == k - 2;
      }
    }
  }

  // ----- files

  /** Two names stand for the null device, which is not opened; every other name is. */
  lemma OpenedForOutput(name: string)
    ensures OutFile(ToFile("/dev/null")) == [] && OutFile(ToFile("NUL:")) == []
    ensures name != "/dev/null" && name != "NUL:" ==> OutFile(ToFile(name)) == [Writing(name)]
    ensures OutFile(Inherited) == OutFile(ToPipe) == OutFile(ToStdout) == []
  {
  }

  // ----- from the words of a command to its process

  lemma {:induction false} OutputTarget(args: seq<Arg>, f: string)
    requires ArgsOk(args)
    ensures OutputOf(args) == ToFile(f) <==> Out(f) in args
    ensures OutputOf(args) == Inherited <==> forall name :: Out(name) !in args
  {
    if args != [] {
      var front, last := args[..|args| - 1], args[|args| - 1];
      OneSlotEach(args);
      assert args == front + [last];
      if !last.Out? {
        OutputTarget(front, f);
      } else {
        assert Out(last.file) in args;
      }
    }
  }

  lemma {:induction false} ErrorTarget(args: seq<Arg>, f: string)
    requires ArgsOk(args)
    ensures ErrorOf(args) == ToFile(f) <==> Err(f) in args
    ensures ErrorOf(args) == ToStdout <==> ErrToOut in args
    ensures ErrorOf(args) == Inherited <==> ErrToOut !in args && forall name :: Err(name) !in args
  {
    if args != [] {
      var front, last := args[..|args| - 1], args[|args| - 1];
      OneSlotEach(args);
      assert args == front + [last];
      if !last.Err? && !last.ErrToOut? {
        ErrorTarget(front, f);
      } else {
        assert last in args;
      }
    }
  }

  lemma {:induction false} InputSource(args: seq<Arg>, f: string)
    requires ArgsOk(args)
    ensures InputOf(args) == Some(f) <==> In(f) in args
    ensures InputOf(args) == None <==> forall name :: In(name) !in args
  {
    if args != [] {
      var front, last := args[..|args| - 1], args[|args| - 1];
      OneSlotEach(args);
      assert args == front + [last];
      if !last.In? {
        InputSource(front, f);
      } else {
        assert In(last.file) in args;
      }
    }
  }

  /** What redirects the last argument's stream does not come before it. */
  lemma OneSlotEach(args: seq<Arg>)
    requires ArgsOk(args) && args != []
    ensures ArgsOk(args[..|args| - 1])
    ensures forall a :: a in args[..|args| - 1] && SlotOf(a) != NoSlot ==> SlotOf(a) != SlotOf(args[|args| - 1])
  {
    var front := args[..|args| - 1];
    assert forall i :: 0 <= i < |front| ==> front[i] == args[i];
  }

  /** The words of a command are its plain arguments, in order. */
  lemma {:induction false} WordsLaws(a: seq<Arg>, b: seq<Arg>, arg: Arg)
    ensures Words(a + b) == Words(a) + Words(b)
    ensures Words([arg]) == if arg.Word? then [arg.word] else []
  {
    assert [arg][..0] == [];
    if b == [] {
      assert a + b == a;
    } else {
      var n := |b| - 1;
      assert (a + b)[..|a| + n] == a + b[..n];
      WordsLaws(a, b[..n], arg);
    }
  }

  /** What each assignment assigns. */
  ghost function Assigned(env: seq<string>): (ms: seq<Option<(string, string)>>)
    ensures |ms| == |env|
  {
    if env == [] then [] else Assigned(env[..|env| - 1]) + [MatchAssignment(env[|env| - 1])]
  }

  /** The i-th assigns the value to the name, and no later one assigns to the name. */
  ghost predicate LastAssigned(ms: seq<Option<(string, string)>>, i: int, name: string, value: string) {
    && 0 <= i < |ms| && ms[i] == Some((name, value))
    && forall j :: i < j < |ms| && ms[j].Some? ==> ms[j].value.0 != name
  }

  lemma OtherNameBehind(ms: seq<Option<(string, string)>>, m: (string, string), i: int, name: string, value: string)
    requires m.0 != name
    ensures LastAssigned(ms + [Some(m)], i, name, value) <==> LastAssigned(ms, i, name, value)
  {
    var more := ms + [Some(m)];
    assert forall j :: 0 <= j < |ms| ==> more[j] == ms[j];
  }

  /** The last assignment to a name counts. */
  lemma {:induction false} LastAssignmentCounts(env: seq<string>, name: string, value: string)
    requires EnvOk(env)
    ensures name in EnvOf(env) && EnvOf(env)[name] == value
       <==> exists i :: LastAssigned(Assigned(env), i, name, value)
  {
    if env != [] {
      var n := |env| - 1;
      var m := MatchAssignment(env[n]).value;
      assert Assigned(env)[n] == Some(m);
      if m.0 == name {
        assert LastAssigned(Assigned(env), n, name, m.1);
      } else {
        LastAssignmentCounts(env[..n], name, value);
        forall i
          ensures LastAssigned(Assigned(env), i, name, value) <==> LastAssigned(Assigned(env[..n]), i, name, value)
        {
          OtherNameBehind(Assigned(env[..n]), m, i, name, value);
        }
      }
    }
  }

  /** The unit at position u of a source, and the operator behind it. */
  ghost function UnitAt(s: Source, u: nat): (Unit, Option<Node>)
    requires Complete(s) && u <= |s.done|
  {
    if u < |s.done| then (s.done[u].unit, Some(s.done[u].op)) else (s.tail, None)
  }

  lemma {:induction false} DoneNodesAt(done: seq<Joined>, u: nat)
    requires u < |done|
    ensures |DoneNodes(done)| == 2 * |done|
    ensures DoneNodes(done)[2 * u] == NodeOf(done[u].unit, Some(done[u].op))
  {
    var n := |done| - 1;
    DoneNodesSize(done[..n]);
    if u < n {
      DoneNodesAt(done[..n], u);
    }
  }

  lemma {:induction false} DoneNodesSize(done: seq<Joined>)
    ensures |DoneNodes(done)| == 2 * |done|
  {
    if done != [] {
      DoneNodesSize(done[..|done| - 1]);
    }
  }

  lemma NodeAt(s: Source, u: nat)
    requires Complete(s) && u <= |s.done|
    ensures 2 * u < |NodesOf(s)| && NodesOf(s)[2 * u] == NodeOf(UnitAt(s, u).0, UnitAt(s, u).1)
  {
    DoneNodesSize(s.done);
    if u < |s.done| {
      DoneNodesAt(s.done, u);
    }
  }

  /**
    The process of a command gets its name and plain words in order, its own
    files on its own streams, a pipe for its output exactly when one follows, and
    its own assignments.
   */
  lemma LaunchOfSource(s: Source, u: nat, f: string)
    requires Wf(s) && Complete(s) && u <= |s.done| && UnitAt(s, u).0.Simple?
    requires 2 * u < |NodesOf(s)| && NodesOf(s)[2 * u].Command?
    ensures var (unit, op) := UnitAt(s, u); var l := LaunchAt(NodesOf(s), 2 * u);
      && l.argv == [unit.name] + Words(unit.args)
      && (op != Some(Pipe) ==> (l.stdout == ToFile(f) <==> Out(f) in unit.args))
      && (op != Some(Pipe) && (forall name :: Out(name) !in unit.args) ==> l.stdout == Inherited)
      && (op == Some(Pipe) ==> l.stdout == ToPipe && Out(f) !in unit.args)
      && (l.stderr == ToFile(f) <==> Err(f) in unit.args)
      && (l.stderr == ToStdout <==> ErrToOut in unit.args)
      && (ProducerAt(NodesOf(s), 2 * u) == None ==> (l.stdin == FromFile(f) <==> In(f) in unit.args))
      && (l.env == if unit.env == [] then None else Some(EnvOf(unit.env)))
  {
    var (unit, op) := UnitAt(s, u);
    NodeAt(s, u);
    assert u < |s.done| ==> WfJoined(s.done[u]);
    OutputTarget(unit.args, f);
    ErrorTarget(unit.args, f);
    InputSource(unit.args, f);
    EnvNotEmpty(unit.env);
    OutUsesSlot(unit.args, f);
  }

  lemma OutUsesSlot(args: seq<Arg>, f: string)
    ensures Out(f) in args ==> Uses(args, OutSlot)
  {
    assert forall i :: 0 <= i < |args| && args[i] == Out(f) ==> SlotOf(args[i]) == OutSlot;
  }
}
