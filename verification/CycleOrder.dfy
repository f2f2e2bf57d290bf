/**
  The order in which the cycle finder yields: depth first along simple paths, at
  each path first the cycles that its last node's children close, in the order of
  the children, and then the longer paths, the last child's first.
 */
module CycleOrder {
  import Sequences
  import Rotation
  import opened Graph

  /** Some rotation of c is among the cycles. */
  ghost predicate Recorded(cycles: seq<seq<Node>>, c: seq<Node>) {
    exists i {:trigger Rotation.IsRotation(cycles[i], c)} ::
      0 <= i < |cycles| && Rotation.IsRotation(cycles[i], c)
  }

  /** The cycles with one more, unless it is there already. */
  ghost function Note(cycles: seq<seq<Node>>, c: seq<Node>): seq<seq<Node>> {
    if Recorded(cycles, c) then cycles else cycles + [c]
  }

  ghost function NoteAll(cycles: seq<seq<Node>>, cs: seq<seq<Node>>): seq<seq<Node>>
    decreases |cs|
  {
    if cs == [] then cycles else NoteAll(Note(cycles, cs[0]), cs[1..])
  }

  ghost function Place(p: seq<Node>, x: Node): (k: nat)
    requires x in p
    ensures k < |p| && p[k] == x && x !in p[..k]
  {
    if p[0] == x then 0
    else
      var k := Place(p[1..], x);
      assert forall i :: 0 <= i < k ==> p[1..][..k][i] == p[..k + 1][i + 1];
      k + 1
  }

  ghost function Children(g: Adjacency, x: Node): (cs: seq<Node>)
    ensures forall c :: c in cs ==> c in Nodes(g)
  {
    if x in g then
      assert forall c :: c in g[x] ==> c in Nodes(g);
      g[x]
    else []
  }

  /** The cycles that children close on a path. */
  ghost function Closings(p: seq<Node>, cs: seq<Node>): seq<seq<Node>> {
    if cs == [] then []
    else (if cs[0] in p then [p[Place(p, cs[0])..]] else []) + Closings(p, cs[1..])
  }

  /** All cycles closed from a path on. */
  ghost function Search(g: Adjacency, p: seq<Node>): seq<seq<Node>>
    requires p != []
    decreases Nodes(g) - Sequences.Elements(p), 1, 0
  {
    var cs := Children(g, p[|p| - 1]);
    Closings(p, cs) + Deeper(g, p, cs)
  }

  ghost function Deeper(g: Adjacency, p: seq<Node>, cs: seq<Node>): seq<seq<Node>>
    requires forall c :: c in cs ==> c in Nodes(g)
    decreases Nodes(g) - Sequences.Elements(p), 0, |cs|
  {
    if cs == [] then []
    else
      Deeper(g, p, cs[1..]) +
      if cs[0] in p then []
      else
        assert cs[0] in Nodes(g) - Sequences.Elements(p) && cs[0] in Sequences.Elements(p + [cs[0]]);
        assert Sequences.Elements(p) <= Sequences.Elements(p + [cs[0]]);
        Search(g, p + [cs[0]])
  }

  /** The nodes marked from a path on: the last ones of all longer paths. */
  ghost function Marks(g: Adjacency, p: seq<Node>): set<Node>
    requires p != []
    decreases Nodes(g) - Sequences.Elements(p), 1, 0
  {
    DeeperMarks(g, p, Children(g, p[|p| - 1]))
  }

  ghost function DeeperMarks(g: Adjacency, p: seq<Node>, cs: seq<Node>): set<Node>
    requires forall c :: c in cs ==> c in Nodes(g)
    decreases Nodes(g) - Sequences.Elements(p), 0, |cs|
  {
    if cs == [] then {}
    else
      DeeperMarks(g, p, cs[1..]) +
      if cs[0] in p then {}
      else
        assert cs[0] in Nodes(g) - Sequences.Elements(p) && cs[0] in Sequences.Elements(p + [cs[0]]);
        assert Sequences.Elements(p) <= Sequences.Elements(p + [cs[0]]);
        {cs[0]} + Marks(g, p + [cs[0]])
  }

  /** What is closed from the paths of a stack on, the top one first. */
  ghost function Pending(g: Adjacency, paths: seq<seq<Node>>): seq<seq<Node>> {
    if paths == [] then []
    else
      var top := paths[|paths| - 1];
      (if top == [] then [] else Search(g, top)) + Pending(g, paths[..|paths| - 1])
  }

  ghost function PendingMarks(g: Adjacency, paths: seq<seq<Node>>): set<Node> {
    if paths == [] then {}
    else
      var top := paths[|paths| - 1];
      (if top == [] then {} else Marks(g, top)) + PendingMarks(g, paths[..|paths| - 1])
  }

  /** The cycles yielded and the nodes visited. */
  datatype Found = Found(cycles: seq<seq<Node>>, visited: set<Node>)

  /** How the search ends that has come to this stack. */
  ghost function Finish(g: Adjacency, found: Found, paths: seq<seq<Node>>): Found {
    Found(NoteAll(found.cycles, Pending(g, paths)), found.visited + PendingMarks(g, paths))
  }

  /** How it ends with a path off the stack and the children in cs still to look at. */
  ghost function FinishPath(g: Adjacency, found: Found, paths: seq<seq<Node>>, p: seq<Node>, cs: seq<Node>): Found
    requires forall c :: c in cs ==> c in Nodes(g)
  {
    Found(NoteAll(found.cycles, Closings(p, cs) + (Deeper(g, p, cs) + Pending(g, paths))),
          found.visited + DeeperMarks(g, p, cs) + PendingMarks(g, paths))
  }

  /** The whole finder, for an order of the keys: roots that were visited are skipped. */
  ghost function Yields(g: Adjacency, roots: seq<Node>): Found {
    if roots == [] then Found([], {})
    else
      var before, root := Yields(g, roots[..|roots| - 1]), roots[|roots| - 1];
      if root in before.visited then before else Finish(g, before, [[root]])
  }

  // ----- one step of the search

  lemma PendingPush(g: Adjacency, paths: seq<seq<Node>>, p: seq<Node>)
    requires p != []
    ensures Pending(g, paths + [p]) == Search(g, p) + Pending(g, paths)
    ensures PendingMarks(g, paths + [p]) == Marks(g, p) + PendingMarks(g, paths)
  {
    assert (paths + [p])[..|paths|] == paths;
  }

  /** A path is taken off the stack. */
  lemma Popped(g: Adjacency, found: Found, paths: seq<seq<Node>>, p: seq<Node>)
    requires p != []
    ensures Finish(g, found, paths + [p]) == FinishPath(g, found, paths, p, Children(g, p[|p| - 1]))
  {
    var cs := Children(g, p[|p| - 1]);
    PendingPush(g, paths, p);
    Sequences.ConcatAssociative(Closings(p, cs), Deeper(g, p, cs), Pending(g, paths));
    assert found.visited + (DeeperMarks(g, p, cs) + PendingMarks(g, paths))
        == found.visited + DeeperMarks(g, p, cs) + PendingMarks(g, paths);
  }

  /** A child on the path closes a cycle. */
  lemma ChildCloses(g: Adjacency, found: Found, paths: seq<seq<Node>>, p: seq<Node>, cs: seq<Node>)
    requires cs != [] && (forall c :: c in cs ==> c in Nodes(g)) && cs[0] in p
    ensures var cycles := Note(found.cycles, p[Place(p, cs[0])..]);
      FinishPath(g, found, paths, p, cs) == FinishPath(g, found.(cycles := cycles), paths, p, cs[1..])
  {
    var rest := Deeper(g, p, cs[1..]) + Pending(g, paths);
    var closed := [p[Place(p, cs[0])..]];
    assert Deeper(g, p, cs) == Deeper(g, p, cs[1..]) + [] == Deeper(g, p, cs[1..]);
    NoteFirst(found.cycles, closed[0], Closings(p, cs[1..]), rest);
    assert DeeperMarks(g, p, cs) == DeeperMarks(g, p, cs[1..]);
  }

  lemma NoteFirst(cycles: seq<seq<Node>>, c: seq<Node>, cs: seq<seq<Node>>, rest: seq<seq<Node>>)
    ensures NoteAll(cycles, ([c] + cs) + rest) == NoteAll(Note(cycles, c), cs + rest)
  {
    assert (([c] + cs) + rest)[1..] == cs + rest;
  }

  /** A child off the path makes a longer path. */
  lemma ChildPushes(g: Adjacency, found: Found, paths: seq<seq<Node>>, p: seq<Node>, cs: seq<Node>)
    requires cs != [] && (forall c :: c in cs ==> c in Nodes(g)) && cs[0] !in p
    ensures FinishPath(g, found, paths, p, cs)
         == FinishPath(g, found.(visited := found.visited + {cs[0]}), paths + [p + [cs[0]]], p, cs[1..])
  {
    var longer := p + [cs[0]];
    PendingPush(g, paths, longer);
    Sequences.ConcatAssociative(Deeper(g, p, cs[1..]), Search(g, longer), Pending(g, paths));
    assert Closings(p, cs) == [] + Closings(p, cs[1..]) == Closings(p, cs[1..]);
    assert DeeperMarks(g, p, cs) == DeeperMarks(g, p, cs[1..]) + ({cs[0]} + Marks(g, longer));
    assert found.visited + (DeeperMarks(g, p, cs[1..]) + ({cs[0]} + Marks(g, longer))) + PendingMarks(g, paths)
        == found.visited + {cs[0]} + DeeperMarks(g, p, cs[1..]) + (Marks(g, longer) + PendingMarks(g, paths));
  }

  /** All children have been looked at. */
  lemma ChildrenDone(g: Adjacency, found: Found, paths: seq<seq<Node>>, p: seq<Node>)
    ensures FinishPath(g, found, paths, p, []) == Finish(g, found, paths)
  {
    assert [] + ([] + Pending(g, paths)) == Pending(g, paths);
    assert found.visited + {} + PendingMarks(g, paths) == found.visited + PendingMarks(g, paths);
  }

  lemma EmptyStack(g: Adjacency, found: Found)
    ensures Finish(g, found, []) == found
  {
  }

  // ----- what is closed

  /** A longer simple path ends with the cycle, and its last node leads back to the cycle's first. */
  ghost predicate ClosedBeyond(g: Adjacency, p: seq<Node>, c: seq<Node>) {
    exists q, j {:trigger ClosesAt(g, p, q, j, c)} :: ClosesAt(g, p, q, j, c)
  }

  ghost predicate ClosesAt(g: Adjacency, p: seq<Node>, q: seq<Node>, j: int, c: seq<Node>) {
    && p <= q && Walk(g, q) && Sequences.Distinct(q)
    && 0 <= j < |q| && c == q[j..] && Edge(g, q[|q| - 1], q[j])
  }

  ghost predicate ChildrenOfLast(g: Adjacency, p: seq<Node>, cs: seq<Node>) {
    p != [] && forall x {:trigger x in cs} :: x in cs ==> Edge(g, p[|p| - 1], x)
  }

  lemma FewerChildren(g: Adjacency, p: seq<Node>, cs: seq<Node>)
    requires ChildrenOfLast(g, p, cs) && cs != []
    ensures ChildrenOfLast(g, p, cs[1..]) && Edge(g, p[|p| - 1], cs[0])
  {
    assert cs[0] in cs && forall x :: x in cs[1..] ==> x in cs;
  }

  lemma {:induction false} ClosingsEndPath(g: Adjacency, p: seq<Node>, cs: seq<Node>, c: seq<Node>)
    requires Walk(g, p) && Sequences.Distinct(p) && c in Closings(p, cs)
    requires ChildrenOfLast(g, p, cs)
    ensures ClosedBeyond(g, p, c)
  {
    FewerChildren(g, p, cs);
    if cs[0] in p && c == p[Place(p, cs[0])..] {
      assert ClosesAt(g, p, p, Place(p, cs[0]), c);
    } else {
      ClosingsEndPath(g, p, cs[1..], c);
    }
  }

  lemma WalkOn(g: Adjacency, p: seq<Node>, x: Node)
    requires Walk(g, p) && Sequences.Distinct(p) && Edge(g, p[|p| - 1], x) && x !in p
    ensures Walk(g, p + [x]) && Sequences.Distinct(p + [x])
  {
  }

  /** Whatever is yielded from a path on is the end of a simple path that goes on from it, in that path's order. */
  lemma {:induction false} YieldsEndPaths(g: Adjacency, p: seq<Node>, c: seq<Node>)
    requires Walk(g, p) && Sequences.Distinct(p) && c in Search(g, p)
    ensures ClosedBeyond(g, p, c)
    decreases Nodes(g) - Sequences.Elements(p), 1, 0
  {
    var cs := Children(g, p[|p| - 1]);
    if c in Closings(p, cs) {
      ClosingsEndPath(g, p, cs, c);
    } else {
      DeeperEndsPaths(g, p, cs, c);
    }
  }

  lemma {:induction false} DeeperEndsPaths(g: Adjacency, p: seq<Node>, cs: seq<Node>, c: seq<Node>)
    requires Walk(g, p) && Sequences.Distinct(p) && (forall x :: x in cs ==> x in Nodes(g))
    requires ChildrenOfLast(g, p, cs) && c in Deeper(g, p, cs)
    ensures ClosedBeyond(g, p, c)
    decreases Nodes(g) - Sequences.Elements(p), 0, |cs|
  {
    FewerChildren(g, p, cs);
    if c in Deeper(g, p, cs[1..]) {
      DeeperEndsPaths(g, p, cs[1..], c);
    } else {
      var longer := p + [cs[0]];
      assert cs[0] in Nodes(g) - Sequences.Elements(p) && cs[0] in Sequences.Elements(longer);
      assert Sequences.Elements(p) <= Sequences.Elements(longer);
      WalkOn(g, p, cs[0]);
      YieldsEndPaths(g, longer, c);
      var q, j :| ClosesAt(g, longer, q, j, c);
      PrefixOn(p, cs[0], q);
      assert ClosesAt(g, p, q, j, c);
    }
  }

  lemma PrefixOn(p: seq<Node>, x: Node, q: seq<Node>)
    requires p + [x] <= q
    ensures p <= q
  {
    assert (p + [x])[..|p|] == p;
  }
}
