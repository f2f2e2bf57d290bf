/**
  How a run compares with the and-or lists of POSIX (section 2.9.3 of
  POSIX.1-2017 XCU), whose two operators have equal precedence and associate to
  the left.  The executor stops at the first short circuit instead, which gives
  another status for some pipelines; the module says exactly for which.
 */
module ShellPosix {
  import opened Wrappers
  import opened ShellSyntax
  import ShellGrammar
  import opened ShellRun
  import opened ShellMeaning

  // ----- the and-or list of a pipeline

  /** The operators from place i on, those behind a change of directory included. */
  ghost function OperatorsFrom(nodes: seq<Node>, i: nat): (ops: seq<Node>)
    decreases |nodes| - i
  {
    if i + 2 >= |nodes| then []
    else (if nodes[i + 1] == Pipe then [] else [nodes[i + 1]]) + OperatorsFrom(nodes, i + 2)
  }

  /** A change of directory succeeds. */
  ghost function UnitStatus(nodes: seq<Node>, i: nat, exits: Exits): int
    requires i < |nodes|
  {
    if nodes[i].Chdir? then 0 else exits(i)
  }

  /** The statuses of the operands: each operand's last unit gives its status. */
  ghost function OperandsFrom(nodes: seq<Node>, i: nat, exits: Exits): (ss: seq<int>)
    requires i < |nodes|
    ensures |ss| == |OperatorsFrom(nodes, i)| + 1
    decreases |nodes| - i
  {
    if i + 2 >= |nodes| then [UnitStatus(nodes, i, exits)]
    else (if nodes[i + 1] == Pipe then [] else [UnitStatus(nodes, i, exits)]) + OperandsFrom(nodes, i + 2, exits)
  }

  /** The status of the list so far when the operators and operands behind it are taken one by one. */
  ghost function LeftFrom(status: int, ss: seq<int>, ops: seq<Node>): int
    requires |ss| == |ops|
    decreases |ops|
  {
    if ops == [] then status
    else LeftFrom(if Stops(ops[0], status) then status else ss[0], ss[1..], ops[1..])
  }

  ghost function LeftAssociated(ss: seq<int>, ops: seq<Node>): int
    requires |ss| == |ops| + 1
  {
    LeftFrom(ss[0], ss[1..], ops)
  }

  /** The status that POSIX prescribes. */
  ghost function PosixStatus(nodes: seq<Node>, exits: Exits): int
    requires nodes != []
  {
    LeftAssociated(OperandsFrom(nodes, 0, exits), OperatorsFrom(nodes, 0))
  }

  // ----- the run is the right-associated list

  lemma UnitFirst(nodes: seq<Node>, i: nat, exits: Exits)
    requires i + 2 < |nodes| && nodes[i + 1] != Pipe
    ensures var ss, ops := OperandsFrom(nodes, i, exits), OperatorsFrom(nodes, i);
      && ss[0] == UnitStatus(nodes, i, exits) && ss[1..] == OperandsFrom(nodes, i + 2, exits)
      && ops != [] && ops[0] == nodes[i + 1] && ops[1..] == OperatorsFrom(nodes, i + 2)
  {
  }

  lemma UnitPiped(nodes: seq<Node>, i: nat, exits: Exits)
    requires i + 2 < |nodes| && nodes[i + 1] == Pipe
    ensures OperandsFrom(nodes, i, exits) == OperandsFrom(nodes, i + 2, exits)
    ensures OperatorsFrom(nodes, i) == OperatorsFrom(nodes, i + 2)
  {
  }

  ghost predicate UnitAt(nodes: seq<Node>, i: nat) {
    && ShellGrammar.WellShaped(nodes) && Straight(nodes) && i < |nodes| && i % 2 == 0
  }

  /** What can stand at place i and behind it. */
  lemma AtUnit(nodes: seq<Node>, i: nat)
    requires UnitAt(nodes, i)
    ensures nodes[i].Command? || (nodes[i].Chdir? && nodes[i].dir.Some? && i + 2 < |nodes| && nodes[i + 1] == And)
    ensures i + 1 < |nodes| ==> UnitAt(nodes, i + 2) && ShellGrammar.IsOperator(nodes[i + 1])
  {
    assert ShellGrammar.NodeOk(nodes, i);
    if i + 1 < |nodes| {
      assert ShellGrammar.NodeOk(nodes, i + 1);
    }
  }

  lemma {:induction false} RunIsRightAssociated(nodes: seq<Node>, i: nat, exits: Exits)
    requires UnitAt(nodes, i)
    ensures Evaluate(nodes, i, exits).outcome
         == Exit(RightAssociated(OperandsFrom(nodes, i, exits), OperatorsFrom(nodes, i)))
    decreases |nodes| - i
  {
    AtUnit(nodes, i);
    if i + 1 < |nodes| {
      RunIsRightAssociated(nodes, i + 2, exits);
      if nodes[i + 1] == Pipe {
        UnitPiped(nodes, i, exits);
      } else {
        UnitFirst(nodes, i, exits);
      }
    }
  }

  // ----- lists of one kind

  ghost predicate OneKind(ops: seq<Node>) {
    forall i, j :: 0 <= i < j < |ops| ==> ops[i] == ops[j]
  }

  lemma {:induction false} StoppedStays(status: int, ss: seq<int>, ops: seq<Node>)
    requires |ss| == |ops|
    requires forall i :: 0 <= i < |ops| ==> Stops(ops[i], status)
    ensures LeftFrom(status, ss, ops) == status
    decreases |ops|
  {
    if ops != [] {
      StoppedStays(status, ss[1..], ops[1..]);
    }
  }

  lemma {:induction false} OneKindAgrees(ss: seq<int>, ops: seq<Node>)
    requires |ss| == |ops| + 1 && OneKind(ops)
    ensures RightAssociated(ss, ops) == LeftAssociated(ss, ops)
  {
    if ops != [] {
      if Stops(ops[0], ss[0]) {
        StoppedStays(ss[0], ss[1..], ops);
      } else {
        OneKindAgrees(ss[1..], ops[1..]);
      }
    }
  }

  // ----- when the statuses agree

  /** Wherever there are both operators, the and-operators come first and stand behind changes of directory. */
  ghost predicate AndsLead(nodes: seq<Node>) {
    forall a, o :: 0 <= a < |nodes| && 0 <= o < |nodes| && nodes[a] == And && nodes[o] == Or ==>
      0 < a < o && nodes[a - 1].Chdir?
  }

  ghost predicate HasBehind(nodes: seq<Node>, i: nat, op: Node) {
    exists k :: i < k < |nodes| && nodes[k] == op
  }

  lemma {:induction false} OperatorsAreNodes(nodes: seq<Node>, i: nat)
    requires UnitAt(nodes, i)
    ensures forall op :: op in OperatorsFrom(nodes, i) ==> (op == And || op == Or) && HasBehind(nodes, i, op)
    decreases |nodes| - i
  {
    AtUnit(nodes, i);
    if i + 1 < |nodes| {
      OperatorsAreNodes(nodes, i + 2);
    }
  }

  lemma OneKindIff(ops: seq<Node>)
    requires forall op :: op in ops ==> op == And || op == Or
    ensures OneKind(ops) <==> !(And in ops && Or in ops)
  {
    if And in ops && Or in ops {
      var i :| 0 <= i < |ops| && ops[i] == And;
      var j :| 0 <= j < |ops| && ops[j] == Or;
      assert i < j || j < i;
    } else {
      assert forall i :: 0 <= i < |ops| ==> ops[i] in ops;
    }
  }

  /** Whether an operator is still to come, seen from one unit to the next. */
  lemma NextBehind(nodes: seq<Node>, i: nat, op: Node)
    requires UnitAt(nodes, i) && i + 1 < |nodes| && ShellGrammar.IsOperator(op)
    ensures HasBehind(nodes, i, op) <==> nodes[i + 1] == op || HasBehind(nodes, i + 2, op)
  {
    AtUnit(nodes, i);
    AtUnit(nodes, i + 2);
    if HasBehind(nodes, i, op) {
      var k :| i < k < |nodes| && nodes[k] == op;
      assert k == i + 1 || k > i + 2;
    }
  }

  lemma {:induction false} AgreesFrom(nodes: seq<Node>, i: nat, exits: Exits)
    requires UnitAt(nodes, i) && AndsLead(nodes)
    ensures var ss, ops := OperandsFrom(nodes, i, exits), OperatorsFrom(nodes, i);
      RightAssociated(ss, ops) == LeftAssociated(ss, ops)
    decreases |nodes| - i
  {
    var ss, ops := OperandsFrom(nodes, i, exits), OperatorsFrom(nodes, i);
    AtUnit(nodes, i);
    OperatorsAreNodes(nodes, i);
    if i + 1 < |nodes| && nodes[i + 1] == Pipe {
      UnitPiped(nodes, i, exits);
      AgreesFrom(nodes, i + 2, exits);
    } else if i + 1 < |nodes| && nodes[i + 1] == And && HasBehind(nodes, i, Or) {
      UnitFirst(nodes, i, exits);
      AgreesFrom(nodes, i + 2, exits);
    } else {
      OneKindIff(ops);
      OneKindAgrees(ss, ops);
    }
  }

  // ----- when some statuses differ

  /** The list from place i on, behind a status and an operator. */
  ghost function Behind(nodes: seq<Node>, i: nat, op: Node, status: int, exits: Exits): int
    requires i < |nodes|
  {
    LeftFrom(status, OperandsFrom(nodes, i, exits), [op] + OperatorsFrom(nodes, i))
  }

  lemma BehindStep(nodes: seq<Node>, i: nat, op: Node, status: int, exits: Exits)
    requires UnitAt(nodes, i)
    ensures var taken := if Stops(op, status) then status else UnitStatus(nodes, i, exits);
      Behind(nodes, i, op, status, exits) ==
        if i + 1 == |nodes| then taken
        else if nodes[i + 1] == Pipe then Behind(nodes, i + 2, op, status, exits)
        else Behind(nodes, i + 2, nodes[i + 1], taken, exits)
  {
    AtUnit(nodes, i);
    var ss, ops := OperandsFrom(nodes, i, exits), [op] + OperatorsFrom(nodes, i);
    assert ops[1..] == OperatorsFrom(nodes, i);
    assert Behind(nodes, i, op, status, exits)
        == LeftFrom(if Stops(op, status) then status else ss[0], ss[1..], OperatorsFrom(nodes, i));
    if i + 1 < |nodes| {
      if nodes[i + 1] == Pipe {
        UnitPiped(nodes, i, exits);
      } else {
        UnitFirst(nodes, i, exits);
        assert OperatorsFrom(nodes, i) == [nodes[i + 1]] + OperatorsFrom(nodes, i + 2);
      }
    }
  }

  lemma PosixFromStart(nodes: seq<Node>, exits: Exits)
    requires nodes != []
    ensures PosixStatus(nodes, exits) == Behind(nodes, 0, And, 0, exits)
  {
    assert ([And] + OperatorsFrom(nodes, 0))[1..] == OperatorsFrom(nodes, 0);
  }

  /** Success in front of place a, failure behind it. */
  ghost function FailBehind(a: nat): Exits {
    (k: nat) => if k < a then 0 else 1
  }

  /** Failure right in front of place a, success everywhere else. */
  ghost function FailBefore(a: nat): Exits {
    (k: nat) => if k + 1 == a then 1 else 0
  }

  /** With only or-operators left, failures stay failures. */
  lemma {:induction false} OnlyOrsFail(nodes: seq<Node>, i: nat, op: Node, status: int, a: nat)
    requires UnitAt(nodes, i) && a < i && !HasBehind(nodes, i, And)
    requires (op == Or && status == 1) || (op == And && status == 0)
    ensures Behind(nodes, i, op, status, FailBehind(a)) == 1
    decreases |nodes| - i
  {
    AtUnit(nodes, i);
    BehindStep(nodes, i, op, status, FailBehind(a));
    if i + 1 < |nodes| {
      OnlyOrsFail(nodes, i + 2, if nodes[i + 1] == Pipe then op else Or, if nodes[i + 1] == Pipe then status else 1, a);
    }
  }

  /** A success at place i, and whatever operator in front of it, hand a success on. */
  lemma SuccessHandedOn(nodes: seq<Node>, i: nat, op: Node, a: nat)
    requires UnitAt(nodes, i) && i < a && i + 1 < |nodes|
    ensures UnitAt(nodes, i + 2) && (nodes[i + 2].Command? || nodes[i + 2].Chdir?)
    ensures nodes[i + 1] == Pipe || nodes[i + 1] == And || nodes[i + 1] == Or
    ensures Behind(nodes, i, op, 0, FailBehind(a))
         == Behind(nodes, i + 2, if nodes[i + 1] == Pipe then op else nodes[i + 1], 0, FailBehind(a))
  {
    AtUnit(nodes, i);
    AtUnit(nodes, i + 2);
    BehindStep(nodes, i, op, 0, FailBehind(a));
  }

  ghost predicate LastAndAt(nodes: seq<Node>, a: nat) {
    a < |nodes| && nodes[a] == And && !HasBehind(nodes, a, And)
  }

  lemma OnlyOrsBehind(nodes: seq<Node>, a: nat)
    requires UnitAt(nodes, a + 1) && LastAndAt(nodes, a)
    ensures Behind(nodes, a + 1, And, 0, FailBehind(a)) == 1
  {
    FewerBehind(nodes, a, a + 1, And);
    OnlyOrsFail(nodes, a + 1, And, 0, a);
  }

  /** The left-associated list comes to its last and-operator with success and then fails. */
  lemma {:induction false} ListFailsLate(nodes: seq<Node>, i: nat, op: Node, a: nat)
    requires UnitAt(nodes, i) && i < a && LastAndAt(nodes, a)
    ensures Behind(nodes, i, op, 0, FailBehind(a)) == 1
    decreases |nodes| - i
  {
    SuccessHandedOn(nodes, i, op, a);
    if i + 1 == a {
      OnlyOrsBehind(nodes, a);
    } else {
      ListFailsLate(nodes, i + 2, if nodes[i + 1] == Pipe then op else nodes[i + 1], a);
    }
  }

  /** The run stops with success at the first or-operator in front of a. */
  lemma {:induction false} RunStopsEarly(nodes: seq<Node>, i: nat, o: nat, a: nat)
    requires UnitAt(nodes, i) && i < o < a < |nodes| && nodes[o] == Or
    ensures Evaluate(nodes, i, FailBehind(a)).outcome == Exit(0)
    decreases |nodes| - i
  {
    AtUnit(nodes, i);
    if nodes[i + 1] != Or {
      AtUnit(nodes, i + 2);
      RunStopsEarly(nodes, i + 2, o, a);
    }
  }

  /** Success behind the last failure wins at the next or-operator. */
  lemma {:induction false} ListRecovers(nodes: seq<Node>, i: nat, op: Node, status: int, a: nat)
    requires UnitAt(nodes, i) && a < i && (op == And || op == Or)
    requires status == 0 || (status == 1 && (op == Or || HasBehind(nodes, i, Or)))
    ensures Behind(nodes, i, op, status, FailBefore(a)) == 0
    decreases |nodes| - i
  {
    AtUnit(nodes, i);
    BehindStep(nodes, i, op, status, FailBefore(a));
    if i + 1 < |nodes| {
      NextBehind(nodes, i, Or);
      if nodes[i + 1] == Pipe {
        ListRecovers(nodes, i + 2, op, status, a);
      } else {
        ListRecovers(nodes, i + 2, nodes[i + 1], if op == And then status else 0, a);
      }
    }
  }

  /** A command that fails in front of an and-operator. */
  ghost predicate FailingAt(nodes: seq<Node>, i: nat, a: nat) {
    && i < a < |nodes| && nodes[a] == And && nodes[a - 1].Command?
    && forall o :: i < o < a ==> nodes[o] != Or
  }

  /** The run ends at the command in front of a. */
  lemma {:induction false} RunFailsBefore(nodes: seq<Node>, i: nat, a: nat)
    requires UnitAt(nodes, i) && FailingAt(nodes, i, a)
    ensures Evaluate(nodes, i, FailBefore(a)).outcome == Exit(1)
    decreases |nodes| - i
  {
    AtUnit(nodes, i);
    if i + 1 < a {
      AtUnit(nodes, i + 2);
      RunFailsBefore(nodes, i + 2, a);
    }
  }

  /** The left-associated list goes on behind a and recovers at the next or-operator. */
  lemma {:induction false} ListFailsBefore(nodes: seq<Node>, i: nat, a: nat)
    requires UnitAt(nodes, i) && FailingAt(nodes, i, a) && HasBehind(nodes, i, Or)
    ensures Behind(nodes, i, And, 0, FailBefore(a)) == 0
    decreases |nodes| - i
  {
    AtUnit(nodes, i);
    AtUnit(nodes, i + 2);
    BehindStep(nodes, i, And, 0, FailBefore(a));
    NextBehind(nodes, i, Or);
    if i + 1 == a {
      ListRecovers(nodes, i + 2, And, 1, a);
    } else {
      ListFailsBefore(nodes, i + 2, a);
    }
  }

  lemma FewerBehind(nodes: seq<Node>, i: nat, j: nat, op: Node)
    requires i <= j && !HasBehind(nodes, i, op)
    ensures !HasBehind(nodes, j, op)
  {
  }

  lemma LastAnd(nodes: seq<Node>, a: nat) returns (last: nat)
    requires a < |nodes| && nodes[a] == And
    ensures a <= last && LastAndAt(nodes, last)
    decreases |nodes| - a
  {
    last := a;
    if HasBehind(nodes, a, And) {
      var k :| a < k < |nodes| && nodes[k] == And;
      last := LastAnd(nodes, k);
    }
  }

  /** Exit statuses for which the run and the list differ. */
  lemma MixedDiffers(nodes: seq<Node>) returns (exits: Exits)
    requires ShellGrammar.WellShaped(nodes) && Straight(nodes) && !AndsLead(nodes)
    ensures Evaluate(nodes, 0, exits).outcome != Exit(PosixStatus(nodes, exits))
  {
    var a, o :| 0 <= a < |nodes| && 0 <= o < |nodes| && nodes[a] == And && nodes[o] == Or
             && !(0 < a < o && nodes[a - 1].Chdir?);
    OperatorPlaces(nodes, a, o);
    if b, p :| 0 <= p < b < |nodes| && nodes[b] == And && nodes[p] == Or {
      var last := LastAnd(nodes, b);
      exits := FailBehind(last);
      OperatorPlaces(nodes, last, p);
      RunStopsEarly(nodes, 0, p, last);
      PosixFromStart(nodes, exits);
      ListFailsLate(nodes, 0, And, last);
    } else {
      exits := FailBefore(a);
      PosixFromStart(nodes, exits);
      RunFailsBefore(nodes, 0, a);
      ListFailsBefore(nodes, 0, a);
    }
  }

  lemma OperatorPlaces(nodes: seq<Node>, a: nat, o: nat)
    requires ShellGrammar.WellShaped(nodes) && a < |nodes| && o < |nodes| && nodes[a] == And && nodes[o] == Or
    ensures a % 2 == 1 && o % 2 == 1 && a > 0 && o > 0
    ensures nodes[o - 1].Command? && (nodes[a - 1].Command? || nodes[a - 1].Chdir?)
  {
    assert ShellGrammar.NodeOk(nodes, a) && ShellGrammar.NodeOk(nodes, o);
    assert ShellGrammar.NodeOk(nodes, a - 1) && ShellGrammar.NodeOk(nodes, o - 1);
  }

  // ----- the condition in terms of the pipes

  ghost predicate BehindCommand(nodes: seq<Node>, i: nat, op: Node) {
    exists k :: i < k < |nodes| && nodes[k] == op && nodes[k - 1].Command?
  }

  /** The operators between the pipes are those behind a command. */
  lemma {:induction false} PipeOperators(nodes: seq<Node>, i: nat, sofar: seq<nat>, op: Node)
    requires UnitAt(nodes, i) && (op == And || op == Or)
    ensures op in PipesFrom(nodes, i, sofar).ops <==> BehindCommand(nodes, i, op)
    decreases |nodes| - i
  {
    AtUnit(nodes, i);
    if i + 1 < |nodes| {
      var more := if nodes[i].Chdir? then sofar else if nodes[i + 1] == Pipe then sofar + [i] else [];
      PipeOperators(nodes, i + 2, more, op);
      NextBehindCommand(nodes, i, op);
    }
  }

  lemma NextBehindCommand(nodes: seq<Node>, i: nat, op: Node)
    requires UnitAt(nodes, i) && i + 1 < |nodes| && (op == And || op == Or)
    ensures BehindCommand(nodes, i, op)
       <==> (nodes[i + 1] == op && nodes[i].Command?) || BehindCommand(nodes, i + 2, op)
  {
    AtUnit(nodes, i);
    AtUnit(nodes, i + 2);
    if BehindCommand(nodes, i, op) {
      var k :| i < k < |nodes| && nodes[k] == op && nodes[k - 1].Command?;
      assert k == i + 1 || k > i + 2;
    }
  }

  /** One kind of operator between the pipes, and no change of directory behind an or-operator. */
  ghost predicate PosixShaped(nodes: seq<Node>) {
    && OneKind(PipesFrom(nodes, 0, []).ops)
    && forall o, k :: 0 <= o < k < |nodes| && nodes[o] == Or ==> !nodes[k].Chdir?
  }

  lemma PosixShapedIffAndsLead(nodes: seq<Node>)
    requires ShellGrammar.WellShaped(nodes) && Straight(nodes)
    ensures PosixShaped(nodes) <==> AndsLead(nodes)
  {
    var ops := PipesFrom(nodes, 0, []).ops;
    OneKindIff(ops);
    PipeOperators(nodes, 0, [], And);
    PipeOperators(nodes, 0, [], Or);
    if PosixShaped(nodes) {
      forall a, o | 0 <= a < |nodes| && 0 <= o < |nodes| && nodes[a] == And && nodes[o] == Or
        ensures 0 < a < o && nodes[a - 1].Chdir?
      {
        OperatorPlaces(nodes, a, o);
      }
    }
    if AndsLead(nodes) {
      forall o, k | 0 <= o < k < |nodes| && nodes[o] == Or
        ensures !nodes[k].Chdir?
      {
        if nodes[k].Chdir? {
          assert ShellGrammar.NodeOk(nodes, k);
          AtUnit(nodes, k);
        }
      }
    }
  }

  /**
    A run gives the status that POSIX prescribes for its and-or list, whatever
    its commands return, exactly when the operators between its pipes are of one
    kind and no change of directory stands behind an or-operator.
   */
  lemma AgreesWithPosixIffOneKind(nodes: seq<Node>)
    requires ShellGrammar.WellShaped(nodes) && Straight(nodes)
    ensures (forall exits: Exits :: Evaluate(nodes, 0, exits).outcome == Exit(PosixStatus(nodes, exits)))
       <==> PosixShaped(nodes)
  {
    PosixShapedIffAndsLead(nodes);
    if AndsLead(nodes) {
      forall exits: Exits
        ensures Evaluate(nodes, 0, exits).outcome == Exit(PosixStatus(nodes, exits))
      {
        RunIsRightAssociated(nodes, 0, exits);
        AgreesFrom(nodes, 0, exits);
      }
    } else {
      var exits := MixedDiffers(nodes);
    }
  }

  function ChdirBehindOr(): seq<Node> {
    [Plain("a", Inherited), Or, Chdir(Some("x")), And, Plain("b", Inherited)]
  }

  lemma ReadOr(cmd: Node, pipeline: seq<Node>)
    requires cmd.Command?
    ensures Read(State(COMMAND, Some(cmd), pipeline, map[]), "||")
         == Some(State(BEGIN, None, pipeline + [cmd] + [Or], map[]))
  {
  }

  lemma ParseChdirBehindOr()
    ensures ParseTokens(["a", "||", "cd", "x", "&&", "b"]) == Some(ChdirBehindOr())
  {
    var tokens, nodes := ["a", "||", "cd", "x", "&&", "b"], ChdirBehindOr();
    var in_a := State(COMMAND, Some(nodes[0]), [], map[]);
    var behind_a := State(BEGIN, None, nodes[..2], map[]);
    var in_cd := State(CHDIR, Some(Chdir(None)), nodes[..2], map[]);
    var in_cd_x := State(CHDIR, Some(nodes[2]), nodes[..2], map[]);
    var behind_cd := State(BEGIN, None, nodes[..4], map[]);
    ReadName("a", []);
    ReadCd(nodes[..2]);
    ReadName("b", nodes[..4]);
    ReadOr(nodes[0], []);
    ReadAnd(Some("x"), nodes[..2]);
    assert nodes[..2] == [] + [nodes[0]] + [nodes[1]] && nodes[..4] == nodes[..2] + [nodes[2]] + [nodes[3]];
    assert nodes == nodes[..4] + [nodes[4]];
    ReadNext(Start, tokens, 0, in_a);
    ReadNext(in_a, tokens, 1, behind_a);
    ReadNext(behind_a, tokens, 2, in_cd);
    ReadNext(in_cd, tokens, 3, in_cd_x);
    ReadNext(in_cd_x, tokens, 4, behind_cd);
    ReadNext(behind_cd, tokens, 5, State(COMMAND, Some(nodes[4]), nodes[..4], map[]));
    assert tokens[0..] == tokens;
  }

  lemma PosixOfChdirBehindOr(exits: Exits)
    requires exits(0) == 0
    ensures PosixStatus(ChdirBehindOr(), exits) == exits(4)
  {
    var nodes := ChdirBehindOr();
    UnitFirst(nodes, 0, exits);
    UnitFirst(nodes, 2, exits);
    assert OperandsFrom(nodes, 4, exits) == [exits(4)] && OperatorsFrom(nodes, 4) == [];
    assert OperandsFrom(nodes, 2, exits) == [0, exits(4)] && OperatorsFrom(nodes, 2) == [And];
    assert OperandsFrom(nodes, 0, exits) == [0, 0, exits(4)] && OperatorsFrom(nodes, 0) == [Or, And];
    assert LeftFrom(0, [0, exits(4)], [Or, And]) == LeftFrom(0, [exits(4)], [And]);
  }

  /**
    The words `a || cd x && b` show that one kind of operator between the pipes is
    not enough: when a succeeds and b would fail, the run ends with a's success
    and never starts b, and the list of POSIX goes on to b and fails.
   */
  lemma ChdirBehindOrDiffers(exits: Exits)
    requires exits(0) == 0 && exits(4) == 1
    ensures var nodes := ChdirBehindOr();
      && ParseTokens(["a", "||", "cd", "x", "&&", "b"]) == Some(nodes)
      && OneKind(PipesFrom(nodes, 0, []).ops) && !PosixShaped(nodes)
      && Evaluate(nodes, 0, exits) == Result([0], Exit(0)) && PosixStatus(nodes, exits) == 1
  {
    var nodes := ChdirBehindOr();
    ParseChdirBehindOr();
    PosixOfChdirBehindOr(exits);
    assert PipesFrom(nodes, 4, []).ops == [] && PipesFrom(nodes, 2, []).ops == [];
    assert nodes[1] == Or && nodes[2].Chdir?;
  }
}
