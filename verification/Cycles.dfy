/**
  The cycle finder: from one root after another it walks every simple path with
  a stack, and yields the cycle each time a child closes the path, unless a
  rotation of that cycle was yielded before.  Nodes that an earlier root reached
  are not used as roots again.
 */
module Cycles {
  import Sequences
  import opened Wrappers
  import opened Graph
  import Rotation
  import ParentCounts
  import Topsort
  import opened CycleOrder

  ghost predicate SimplePath(g: Adjacency, root: Node, p: seq<Node>) {
    Walk(g, p) && Sequences.Distinct(p) && p[0] == root
  }

  /** Every cycle that the last node of p closes on p is recorded. */
  ghost predicate Handled(g: Adjacency, cycles: seq<seq<Node>>, p: seq<Node>) {
    forall j {:trigger Recorded(cycles, p[j..])} ::
      0 <= j < |p| && Edge(g, p[|p| - 1], p[j]) ==> Recorded(cycles, p[j..])
  }

  /** Every cycle that x reaches is recorded. */
  ghost predicate Exhausted(g: Adjacency, cycles: seq<seq<Node>>, x: Node) {
    forall c :: ElementaryCycle(g, c) && Reaches(g, x, c[0]) ==> Recorded(cycles, c)
  }

  // ----- paths and cycles

  lemma WalkConcat(g: Adjacency, v: seq<Node>, w: seq<Node>)
    requires Walk(g, v) && Walk(g, w)
    requires Edge(g, v[|v| - 1], w[0])
    ensures Walk(g, v + w)
  {
    var u := v + w;
    forall i | 0 <= i < |u| - 1
      ensures Edge(g, u[i], u[i + 1])
    {
      if i < |v| - 1 {
        assert Edge(g, v[i], v[i + 1]);
      } else if i >= |v| {
        assert Edge(g, w[i - |v|], w[i - |v| + 1]);
      }
    }
  }

  lemma SubWalk(g: Adjacency, w: seq<Node>, i: nat, j: nat)
    requires Walk(g, w) && i < j <= |w|
    ensures Walk(g, w[i..j])
  {
    forall m | 0 <= m < j - i - 1
      ensures Edge(g, w[i..j][m], w[i..j][m + 1])
    {
      assert Edge(g, w[i + m], w[i + m + 1]);
    }
  }

  lemma ReachesTransitive(g: Adjacency, x: Node, y: Node, z: Node)
    requires Reaches(g, x, y) && Reaches(g, y, z)
    ensures Reaches(g, x, z)
  {
    var v :| WalkTo(g, v, y) && v[0] == x;
    var w :| WalkTo(g, w, z) && w[0] == y;
    if |v| > 1 {
      assert Edge(g, v[|v| - 2], v[|v| - 1]);
      SubWalk(g, v, 0, |v| - 1);
      WalkConcat(g, v[..|v| - 1], w);
      assert WalkTo(g, v[..|v| - 1] + w, z);
    }
  }

  lemma {:induction false} ExhaustedBelow(g: Adjacency, cycles: seq<seq<Node>>, x: Node, y: Node)
    requires Exhausted(g, cycles, x) && Reaches(g, x, y)
    ensures Exhausted(g, cycles, y)
  {
    forall c | ElementaryCycle(g, c) && Reaches(g, y, c[0])
      ensures Recorded(cycles, c)
    {
      ReachesTransitive(g, x, y, c[0]);
    }
  }

  lemma RotatedCycle(g: Adjacency, c: seq<Node>, k: nat)
    requires ElementaryCycle(g, c) && k < |c|
    ensures ElementaryCycle(g, Rotation.Rotate(c, k))
  {
    SubWalk(g, c, k, |c|);
    if k > 0 {
      SubWalk(g, c, 0, k);
      assert Edge(g, c[k - 1], c[k]);
      WalkConcat(g, c[k..], c[..k]);
    }
  }

  /** Cutting the loops out of a walk leaves a simple path with the same ends. */
  lemma {:induction false} CutLoops(g: Adjacency, w: seq<Node>) returns (p: seq<Node>)
    requires Walk(g, w)
    ensures Walk(g, p) && Sequences.Distinct(p) && p[0] == w[0] && p[|p| - 1] == w[|w| - 1]
    ensures forall i :: 0 <= i < |p| ==> p[i] in w
    decreases |w|
  {
    if Sequences.Distinct(w) {
      p := w;
    } else {
      var i, j :| 0 <= i < j < |w| && w[i] == w[j];
      SubWalk(g, w, j, |w|);
      if i > 0 {
        SubWalk(g, w, 0, i);
        assert Edge(g, w[i - 1], w[i]);
        WalkConcat(g, w[..i], w[j..]);
      }
      p := CutLoops(g, w[..i] + w[j..]);
    }
  }

  /** The first part of a walk that meets c, without loops: only its last node is on c. */
  lemma StemToCycle(g: Adjacency, w: seq<Node>, c: seq<Node>) returns (stem: seq<Node>)
    requires Walk(g, w) && w[|w| - 1] in c
    ensures Walk(g, stem) && Sequences.Distinct(stem) && stem[0] == w[0]
    ensures stem[|stem| - 1] in c
    ensures forall i :: 0 <= i < |stem| - 1 ==> stem[i] !in c
  {
    var i := 0;
    while w[i] !in c
      invariant 0 <= i < |w|
      invariant forall m :: 0 <= m < i ==> w[m] !in c
      decreases |w| - i
    {
      assert i < |w| - 1;
      i := i + 1;
    }
    SubWalk(g, w, 0, i + 1);
    stem := CutLoops(g, w[..i + 1]);
    forall a | 0 <= a < |stem| - 1
      ensures stem[a] !in c
    {
      assert stem[a] in w[..i + 1] && stem[a] != stem[|stem| - 1];
    }
  }

  lemma StemAndCycle(g: Adjacency, stem: seq<Node>, around: seq<Node>)
    requires Walk(g, stem) && Sequences.Distinct(stem) && ElementaryCycle(g, around)
    requires stem[|stem| - 1] == around[0]
    requires forall i :: 0 <= i < |stem| - 1 ==> stem[i] !in around
    ensures SimplePath(g, stem[0], stem[..|stem| - 1] + around)
  {
    var j := |stem| - 1;
    if j > 0 {
      SubWalk(g, stem, 0, j);
      assert Edge(g, stem[j - 1], stem[j]);
      WalkConcat(g, stem[..j], around);
    } else {
      assert stem[..j] + around == around;
    }
  }

  /** A path into a cycle extends around it: some simple path ends with the whole cycle. */
  lemma PathAroundCycle(g: Adjacency, root: Node, c: seq<Node>) returns (p: seq<Node>, k: nat, j: nat)
    requires ElementaryCycle(g, c) && Reaches(g, root, c[0])
    ensures SimplePath(g, root, p) && k < |c| && j < |p|
    ensures p[j..] == Rotation.Rotate(c, k)
    ensures Edge(g, p[|p| - 1], p[j])
  {
    var w :| WalkTo(g, w, c[0]) && w[0] == root;
    var stem := StemToCycle(g, w, c);
    j := |stem| - 1;
    k :| 0 <= k < |c| && c[k] == stem[j];
    RotatedCycle(g, c, k);
    var around := Rotation.Rotate(c, k);
    assert forall x :: x in around ==> x in c;
    StemAndCycle(g, stem, around);
    p := stem[..j] + around;
  }

  // ----- the stack

  /** Each simple path from the root is handled, or grows from a path still on the stack. */
  ghost predicate Covered(g: Adjacency, root: Node, cycles: seq<seq<Node>>, paths: seq<seq<Node>>) {
    forall q :: SimplePath(g, root, q) ==> Handled(g, cycles, q) || InStack(paths, q)
  }

  ghost predicate InStack(paths: seq<seq<Node>>, q: seq<Node>) {
    exists i :: 0 <= i < |paths| && paths[i] <= q
  }

  /** The same with path off the stack and the first n of its children seen. */
  ghost predicate CoveredBut(g: Adjacency, root: Node, cycles: seq<seq<Node>>, paths: seq<seq<Node>>,
                             path: seq<Node>, children: seq<Node>, n: int)
  {
    && 0 <= n <= |children|
    && (forall j {:trigger Recorded(cycles, path[j..])} ::
          0 <= j < |path| && path[j] in children[..n] ==> Recorded(cycles, path[j..]))
    && forall q :: SimplePath(g, root, q) ==>
         || Handled(g, cycles, q)
         || InStack(paths, q)
         || (path <= q && (|path| < |q| ==> q[|path|] in children[n..]))
  }

  lemma RecordedGrows(cycles: seq<seq<Node>>, cycles': seq<seq<Node>>, c: seq<Node>)
    requires cycles <= cycles' && Recorded(cycles, c)
    ensures Recorded(cycles', c)
  {
    var i :| 0 <= i < |cycles| && Rotation.IsRotation(cycles[i], c);
    assert Rotation.IsRotation(cycles'[i], c);
  }

  lemma HandledGrows(g: Adjacency, cycles: seq<seq<Node>>, cycles': seq<seq<Node>>, q: seq<Node>)
    requires cycles <= cycles' && Handled(g, cycles, q)
    ensures Handled(g, cycles', q)
  {
    forall j | 0 <= j < |q| && Edge(g, q[|q| - 1], q[j])
      ensures Recorded(cycles', q[j..])
    {
      RecordedGrows(cycles, cycles', q[j..]);
    }
  }

  lemma ExhaustedGrows(g: Adjacency, cycles: seq<seq<Node>>, cycles': seq<seq<Node>>, x: Node)
    requires cycles <= cycles' && Exhausted(g, cycles, x)
    ensures Exhausted(g, cycles', x)
  {
    forall c | ElementaryCycle(g, c) && Reaches(g, x, c[0])
      ensures Recorded(cycles', c)
    {
      RecordedGrows(cycles, cycles', c);
    }
  }

  lemma InStackPush(paths: seq<seq<Node>>, p: seq<Node>, q: seq<Node>)
    ensures InStack(paths + [p], q) <==> InStack(paths, q) || p <= q
  {
    var more := paths + [p];
    if InStack(paths, q) {
      var i :| 0 <= i < |paths| && paths[i] <= q;
      assert more[i] <= q;
    }
    if p <= q {
      assert more[|paths|] <= q;
    }
  }

  lemma StartStack(g: Adjacency, root: Node, cycles: seq<seq<Node>>)
    ensures Covered(g, root, cycles, [[root]])
  {
    forall q | SimplePath(g, root, q)
      ensures InStack([[root]], q)
    {
      assert [[root]][0] <= q;
    }
  }

  lemma PopPath(g: Adjacency, root: Node, cycles: seq<seq<Node>>, paths: seq<seq<Node>>,
                path: seq<Node>, children: seq<Node>)
    requires Covered(g, root, cycles, paths + [path])
    requires path != [] && forall c :: Edge(g, path[|path| - 1], c) ==> c in children
    ensures CoveredBut(g, root, cycles, paths, path, children, 0)
  {
    assert children[0..] == children;
    forall q | SimplePath(g, root, q)
      ensures Handled(g, cycles, q) || InStack(paths, q)
           || (path <= q && (|path| < |q| ==> q[|path|] in children[0..]))
    {
      InStackPush(paths, path, q);
      if path <= q && |path| < |q| {
        assert Edge(g, q[|path| - 1], q[|path|]);
      }
    }
  }

  lemma SeenAndUnseen(children: seq<Node>, n: nat)
    requires n < |children|
    ensures forall x :: x in children[..n + 1] <==> x in children[..n] || x == children[n]
    ensures forall x :: x in children[n..] <==> x in children[n + 1..] || x == children[n]
  {
    assert children[..n + 1] == children[..n] + [children[n]];
    assert children[n..] == [children[n]] + children[n + 1..];
  }

  lemma ChildClosesPath(g: Adjacency, root: Node, cycles: seq<seq<Node>>, cycles': seq<seq<Node>>,
                        paths: seq<seq<Node>>, path: seq<Node>, children: seq<Node>, n: nat, k: nat)
    requires n < |children| && CoveredBut(g, root, cycles, paths, path, children, n)
    requires Sequences.Distinct(path) && k < |path| && path[k] == children[n]
    requires cycles <= cycles' && Recorded(cycles', path[k..])
    ensures CoveredBut(g, root, cycles', paths, path, children, n + 1)
  {
    SeenAndUnseen(children, n);
    forall j | 0 <= j < |path| && path[j] in children[..n + 1]
      ensures Recorded(cycles', path[j..])
    {
      if path[j] in children[..n] {
        RecordedGrows(cycles, cycles', path[j..]);
      }
    }
    forall q | SimplePath(g, root, q)
      ensures Handled(g, cycles', q) || InStack(paths, q)
           || (path <= q && (|path| < |q| ==> q[|path|] in children[n + 1..]))
    {
      if Handled(g, cycles, q) {
        HandledGrows(g, cycles, cycles', q);
      } else if path <= q && |path| < |q| {
        assert q[k] == path[k];
      }
    }
  }

  lemma ChildExtendsPath(g: Adjacency, root: Node, cycles: seq<seq<Node>>, paths: seq<seq<Node>>,
                         path: seq<Node>, children: seq<Node>, n: nat)
    requires n < |children| && CoveredBut(g, root, cycles, paths, path, children, n)
    requires children[n] !in path
    ensures CoveredBut(g, root, cycles, paths + [path + [children[n]]], path, children, n + 1)
  {
    var longer := path + [children[n]];
    var paths' := paths + [longer];
    SeenAndUnseen(children, n);
    forall q | SimplePath(g, root, q)
      ensures Handled(g, cycles, q) || InStack(paths', q)
           || (path <= q && (|path| < |q| ==> q[|path|] in children[n + 1..]))
    {
      InStackPush(paths, longer, q);
      if path <= q && |path| < |q| && q[|path|] == children[n] {
        assert q[..|longer|] == longer;
      }
    }
  }

  lemma AllChildrenSeen(g: Adjacency, root: Node, cycles: seq<seq<Node>>, paths: seq<seq<Node>>,
                        path: seq<Node>, children: seq<Node>)
    requires CoveredBut(g, root, cycles, paths, path, children, |children|)
    requires path != [] && forall c :: Edge(g, path[|path| - 1], c) ==> c in children
    ensures Covered(g, root, cycles, paths)
  {
    assert children[..|children|] == children && children[|children|..] == [];
    assert Handled(g, cycles, path);
    forall q | SimplePath(g, root, q)
      ensures Handled(g, cycles, q) || InStack(paths, q)
    {
      if path <= q && |q| == |path| {
        assert q == path;
      }
    }
  }

  /** With an empty stack, every cycle below the root is recorded. */
  lemma EmptyStackExhausts(g: Adjacency, root: Node, cycles: seq<seq<Node>>)
    requires Covered(g, root, cycles, [])
    ensures Exhausted(g, cycles, root)
  {
    forall c | ElementaryCycle(g, c) && Reaches(g, root, c[0])
      ensures Recorded(cycles, c)
    {
      var p, k, j := PathAroundCycle(g, root, c);
      assert Handled(g, cycles, p);
      assert Recorded(cycles, p[j..]);
      var i :| 0 <= i < |cycles| && Rotation.IsRotation(cycles[i], p[j..]);
      assert Rotation.IsRotation(c, p[j..]);
      Rotation.RotationSymmetric(c, p[j..]);
      Rotation.RotationTransitive(cycles[i], p[j..], c);
    }
  }

  // ----- termination

  /** What popping a path can cost at most, with r nodes left to extend it and at most d children each. */
  ghost function Weight(d: nat, r: nat): nat {
    if r == 0 then 1 else 1 + d * Weight(d, r - 1)
  }

  ghost function Work(d: nat, limit: nat, paths: seq<seq<Node>>): nat {
    if paths == [] then 0
    else
      var top := paths[|paths| - 1];
      Work(d, limit, paths[..|paths| - 1]) + if |top| <= limit then Weight(d, limit - |top|) else 0
  }

  lemma WorkPush(d: nat, limit: nat, paths: seq<seq<Node>>, p: seq<Node>)
    requires |p| <= limit
    ensures Work(d, limit, paths + [p]) == Work(d, limit, paths) + Weight(d, limit - |p|)
  {
    assert (paths + [p])[..|paths|] == paths;
  }

  /** Pushing at most d extensions of a path weighs less than the path itself. */
  lemma PushesWeighLess(d: nat, r: nat, n: nat)
    requires 0 < r && n <= d
    ensures n * Weight(d, r - 1) < Weight(d, r)
  {
    var w := Weight(d, r - 1);
    assert n * w <= d * w by {
      assert (d - n) * w >= 0;
    }
  }

  lemma {:induction false} DegreeBound(g: Adjacency, keys: set<Node>) returns (d: nat)
    requires keys <= g.Keys
    ensures forall p :: p in keys ==> |g[p]| <= d
  {
    d := 0;
    if keys != {} {
      var p :| p in keys;
      var rest := DegreeBound(g, keys - {p});
      d := if rest < |g[p]| then |g[p]| else rest;
    }
  }

  lemma SimplePathLength(g: Adjacency, root: Node, p: seq<Node>)
    requires SimplePath(g, root, p) && root in Nodes(g)
    ensures |p| <= |Nodes(g)|
  {
    if |p| > 1 {
      WalkInNodes(g, p);
    }
    DistinctLength(p, Nodes(g));
  }

  // ----- the finder

  /** The yielded lists: elementary cycles, none a rotation of another. */
  ghost predicate CyclesSoFar(g: Adjacency, cycles: seq<seq<Node>>) {
    && (forall i {:trigger ElementaryCycle(g, cycles[i])} :: 0 <= i < |cycles| ==> ElementaryCycle(g, cycles[i]))
    && (forall i, j {:trigger Rotation.IsRotation(cycles[i], cycles[j])} ::
          0 <= i < j < |cycles| ==> !Rotation.IsRotation(cycles[i], cycles[j]))
  }

  ghost predicate SimpleStack(g: Adjacency, root: Node, paths: seq<seq<Node>>) {
    forall i {:trigger SimplePath(g, root, paths[i])} :: 0 <= i < |paths| ==> SimplePath(g, root, paths[i])
  }

  method IndexOf(path: seq<Node>, child: Node) returns (k: nat)
    requires child in path
    ensures k < |path| && path[k] == child && child !in path[..k]
  {
    k := 0;
    while path[k] != child
      invariant k < |path| && child !in path[..k]
      decreases |path| - k
    {
      k := k + 1;
    }
  }

  /** Yields the cycle unless a rotation of it was yielded before. */
  method RecordCycle(cycles: seq<seq<Node>>, cycle: seq<Node>, ghost g: Adjacency)
      returns (cycles': seq<seq<Node>>)
    requires CyclesSoFar(g, cycles) && ElementaryCycle(g, cycle)
    ensures CyclesSoFar(g, cycles') && cycles <= cycles'
    ensures Recorded(cycles', cycle) && cycles' == Note(cycles, cycle)
  {
    for i := 0 to |cycles|
      invariant forall j :: 0 <= j < i ==> !Rotation.IsRotation(cycles[j], cycle)
    {
      var rotated := Rotation.IsRotated(cycles[i], cycle);
      if rotated == Some(true) {
        assert Rotation.IsRotation(cycles[i], cycle);
        return cycles;
      }
    }
    cycles' := cycles + [cycle];
    assert cycle == Rotation.Rotate(cycle, 0);
    assert Rotation.IsRotation(cycles'[|cycles|], cycle);
  }

  lemma PushPath(g: Adjacency, root: Node, path: seq<Node>, child: Node)
    requires SimplePath(g, root, path) && root in Nodes(g)
    requires Edge(g, path[|path| - 1], child) && child !in path
    ensures SimplePath(g, root, path + [child]) && Reaches(g, root, child)
    ensures |path| < |Nodes(g)|
  {
    WalkConcat(g, path, [child]);
    assert WalkTo(g, path + [child], child);
    SimplePathLength(g, root, path + [child]);
  }

  lemma StackPush(g: Adjacency, root: Node, paths: seq<seq<Node>>, p: seq<Node>)
    ensures SimpleStack(g, root, paths + [p]) <==> SimpleStack(g, root, paths) && SimplePath(g, root, p)
  {
    var more := paths + [p];
    if SimpleStack(g, root, more) {
      assert more[|paths|] == p;
      forall i | 0 <= i < |paths|
        ensures SimplePath(g, root, paths[i])
      {
        assert more[i] == paths[i];
      }
    }
  }

  /** The weight of n extensions of a path. */
  ghost function Extensions(d: nat, limit: nat, path: seq<Node>, n: nat): nat {
    if |path| < limit then n * Weight(d, limit - |path| - 1) else 0
  }

  lemma WorkExtend(d: nat, limit: nat, paths: seq<seq<Node>>, path: seq<Node>, child: Node, n: nat)
    requires |path| < limit
    ensures Work(d, limit, paths + [path + [child]]) + Extensions(d, limit, path, n)
         == Work(d, limit, paths) + Extensions(d, limit, path, n + 1)
  {
    WorkPush(d, limit, paths, path + [child]);
  }

  lemma ExtensionsGrow(d: nat, limit: nat, path: seq<Node>, n: nat)
    ensures Extensions(d, limit, path, n) <= Extensions(d, limit, path, n + 1)
  {
  }

  lemma WorkDrops(d: nat, limit: nat, paths: seq<seq<Node>>, path: seq<Node>, n: nat)
    requires n <= d && |path| <= limit
    ensures Work(d, limit, paths) + Extensions(d, limit, path, n) < Work(d, limit, paths + [path])
  {
    WorkPush(d, limit, paths, path);
    if |path| < limit {
      PushesWeighLess(d, limit - |path|, n);
    }
  }

  /** Everything the search keeps while it works from one root. */
  ghost predicate Searching(g: Adjacency, root: Node, cycles: seq<seq<Node>>, paths: seq<seq<Node>>) {
    && CyclesSoFar(g, cycles)
    && SimpleStack(g, root, paths)
    && Covered(g, root, cycles, paths)
  }

  /** A path off the stack and how many of its last node's children have been looked at. */
  datatype Frame = Frame(path: seq<Node>, children: seq<Node>, seen: nat)

  ghost predicate Extending(g: Adjacency, root: Node, cycles: seq<seq<Node>>, paths: seq<seq<Node>>, frame: Frame) {
    match frame
    case Frame(path, children, n) =>
      && CyclesSoFar(g, cycles)
      && SimpleStack(g, root, paths)
      && CoveredBut(g, root, cycles, paths, path, children, n)
  }

  lemma PushChild(g: Adjacency, root: Node, cycles: seq<seq<Node>>, paths: seq<seq<Node>>,
                  path: seq<Node>, children: seq<Node>, n: nat, d: nat)
    requires Extending(g, root, cycles, paths, Frame(path, children, n)) && n < |children|
    requires SimplePath(g, root, path) && root in Nodes(g)
    requires children[n] !in path && Edge(g, path[|path| - 1], children[n])
    ensures Extending(g, root, cycles, paths + [path + [children[n]]], Frame(path, children, n + 1))
    ensures Reaches(g, root, children[n])
    ensures Work(d, |Nodes(g)|, paths + [path + [children[n]]]) + Extensions(d, |Nodes(g)|, path, n)
         == Work(d, |Nodes(g)|, paths) + Extensions(d, |Nodes(g)|, path, n + 1)
  {
    PushPath(g, root, path, children[n]);
    WorkExtend(d, |Nodes(g)|, paths, path, children[n], n);
    ChildExtendsPath(g, root, cycles, paths, path, children, n);
    StackPush(g, root, paths, path + [children[n]]);
  }

  /** Whatever was added to the visited nodes is reachable from the root. */
  ghost predicate GrowsByReached(g: Adjacency, root: Node, before: set<Node>, after: set<Node>) {
    before <= after && forall x {:trigger Reaches(g, root, x)} :: x in after && x !in before ==> Reaches(g, root, x)
  }

  /** A child on the path closes a cycle. */
  method CloseCycle(child: Node, path: seq<Node>, cycles: seq<seq<Node>>, ghost paths: seq<seq<Node>>,
                    ghost visited: set<Node>, ghost g: Adjacency, ghost root: Node, ghost children: seq<Node>,
                    ghost n: nat, ghost finish: Found)
      returns (cycles': seq<seq<Node>>)
    requires SimplePath(g, root, path) && child in path
    requires n < |children| && child == children[n] && Edge(g, path[|path| - 1], child)
    requires Extending(g, root, cycles, paths, Frame(path, children, n))
    requires WillFinish(g, Found(cycles, visited), paths, path, children, n, finish)
    ensures Extending(g, root, cycles', paths, Frame(path, children, n + 1)) && cycles <= cycles'
    ensures WillFinish(g, Found(cycles', visited), paths, path, children, n + 1, finish)
  {
    FinishNext(g, Found(cycles, visited), paths, path, children, n, finish);
    var k := IndexOf(path, child);
    OnlyPlace(path, child, k);
    SubWalk(g, path, k, |path|);
    cycles' := RecordCycle(cycles, path[k..], g);
    ChildClosesPath(g, root, cycles, cycles', paths, path, children, n, k);
  }

  lemma ReachedMore(g: Adjacency, root: Node, before: set<Node>, x: Node)
    requires Reaches(g, root, x)
    ensures GrowsByReached(g, root, before, before + {x})
  {
  }

  /** Looks at one child of the end of path: it closes a cycle or makes a longer path. */
  method LookAt(child: Node, path: seq<Node>, paths: seq<seq<Node>>, cycles: seq<seq<Node>>, visited: set<Node>,
                ghost g: Adjacency, ghost root: Node, ghost d: nat, ghost children: seq<Node>, ghost n: nat,
                ghost finish: Found)
      returns (paths': seq<seq<Node>>, cycles': seq<seq<Node>>, visited': set<Node>)
    requires SimplePath(g, root, path) && root in Nodes(g)
    requires n < |children| && child == children[n] && Edge(g, path[|path| - 1], child)
    requires Extending(g, root, cycles, paths, Frame(path, children, n))
    requires WillFinish(g, Found(cycles, visited), paths, path, children, n, finish)
    ensures Extending(g, root, cycles', paths', Frame(path, children, n + 1)) && cycles <= cycles'
    ensures WillFinish(g, Found(cycles', visited'), paths', path, children, n + 1, finish)
    ensures GrowsByReached(g, root, visited, visited')
    ensures Work(d, |Nodes(g)|, paths') + Extensions(d, |Nodes(g)|, path, n)
         <= Work(d, |Nodes(g)|, paths) + Extensions(d, |Nodes(g)|, path, n + 1)
  {
    if child in path {
      ExtensionsGrow(d, |Nodes(g)|, path, n);
      cycles' := CloseCycle(child, path, cycles, paths, visited, g, root, children, n, finish);
      return paths, cycles', visited;
    }
    FinishNext(g, Found(cycles, visited), paths, path, children, n, finish);
    PushChild(g, root, cycles, paths, path, children, n, d);
    ReachedMore(g, root, visited, child);
    return paths + [path + [child]], cycles, visited + {child};
  }

  lemma GrowsOn(g: Adjacency, root: Node, a: set<Node>, b: set<Node>, c: set<Node>)
    requires GrowsByReached(g, root, a, b) && GrowsByReached(g, root, b, c)
    ensures GrowsByReached(g, root, a, c)
  {
  }

  /** Looks at every child of the end of path. */
  method ExtendPath(children: seq<Node>, path: seq<Node>, paths: seq<seq<Node>>, cycles: seq<seq<Node>>,
                    visited: set<Node>, ghost g: Adjacency, ghost root: Node, ghost d: nat)
      returns (paths': seq<seq<Node>>, cycles': seq<seq<Node>>, visited': set<Node>)
    requires SimplePath(g, root, path) && root in Nodes(g)
    requires path[|path| - 1] in g && children == g[path[|path| - 1]]
    requires Extending(g, root, cycles, paths, Frame(path, children, 0))
    ensures Extending(g, root, cycles', paths', Frame(path, children, |children|)) && cycles <= cycles'
    ensures GrowsByReached(g, root, visited, visited')
    ensures Work(d, |Nodes(g)|, paths')
         <= Work(d, |Nodes(g)|, paths) + Extensions(d, |Nodes(g)|, path, |children|)
    ensures Finish(g, Found(cycles', visited'), paths') == Finish(g, Found(cycles, visited), paths + [path])
  {
    ghost var limit := |Nodes(g)|;
    paths', cycles', visited' := paths, cycles, visited;
    ghost var finish := Finish(g, Found(cycles, visited), paths + [path]);
    StartFinish(g, Found(cycles, visited), paths, path);
    for n := 0 to |children|
      invariant Extending(g, root, cycles', paths', Frame(path, children, n)) && cycles <= cycles'
      invariant GrowsByReached(g, root, visited, visited')
      invariant Work(d, limit, paths') <= Work(d, limit, paths) + Extensions(d, limit, path, n)
      invariant WillFinish(g, Found(cycles', visited'), paths', path, children, n, finish)
    {
      ghost var cycles0, visited0 := cycles', visited';
      assert Edge(g, path[|path| - 1], children[n]);
      paths', cycles', visited' :=
        LookAt(children[n], path, paths', cycles', visited', g, root, d, children, n, finish);
      GrowsOn(g, root, visited, visited0, visited');
      LongerStill(cycles, cycles0, cycles');
    }
    ChildrenDone(g, Found(cycles', visited'), paths', path);
    assert children[|children|..] == [];
  }

  lemma LongerStill(a: seq<seq<Node>>, b: seq<seq<Node>>, c: seq<seq<Node>>)
    requires a <= b <= c
    ensures a <= c
  {
  }

  lemma StartFinish(g: Adjacency, found: Found, paths: seq<seq<Node>>, path: seq<Node>)
    requires path != [] && path[|path| - 1] in g
    ensures WillFinish(g, found, paths, path, g[path[|path| - 1]], 0, Finish(g, found, paths + [path]))
  {
    assert g[path[|path| - 1]][0..] == g[path[|path| - 1]] == Children(g, path[|path| - 1]);
    Popped(g, found, paths, path);
  }

  /** With n children looked at, the search still ends in the same way. */
  ghost predicate WillFinish(g: Adjacency, found: Found, paths: seq<seq<Node>>, path: seq<Node>,
                             children: seq<Node>, n: int, finish: Found)
  {
    && 0 <= n <= |children| && (forall c :: c in children[n..] ==> c in Nodes(g))
    && FinishPath(g, found, paths, path, children[n..]) == finish
  }

  lemma FinishNext(g: Adjacency, found: Found, paths: seq<seq<Node>>, path: seq<Node>,
                   children: seq<Node>, n: nat, finish: Found)
    requires n < |children| && WillFinish(g, found, paths, path, children, n, finish)
    ensures var c := children[n];
      if c in path then
        var cycles := Note(found.cycles, path[Place(path, c)..]);
        WillFinish(g, found.(cycles := cycles), paths, path, children, n + 1, finish)
      else
        WillFinish(g, found.(visited := found.visited + {c}), paths + [path + [c]], path, children, n + 1, finish)
  {
    var cs := children[n..];
    assert cs[0] == children[n] && cs[1..] == children[n + 1..];
    assert forall c :: c in cs[1..] ==> c in cs;
    if cs[0] in path {
      ChildCloses(g, found, paths, path, cs);
    } else {
      ChildPushes(g, found, paths, path, cs);
    }
  }

  lemma OnlyPlace(path: seq<Node>, x: Node, k: nat)
    requires k < |path| && path[k] == x && x !in path[..k]
    ensures k == Place(path, x)
  {
    var m := Place(path, x);
    assert forall i :: 0 <= i < k ==> path[..k][i] == path[i];
    assert forall i :: 0 <= i < m ==> path[..m][i] == path[i];
  }

  lemma PopForExtending(g: Adjacency, root: Node, cycles: seq<seq<Node>>, paths: seq<seq<Node>>,
                        path: seq<Node>, children: seq<Node>)
    requires Searching(g, root, cycles, paths + [path])
    requires path != [] && forall c :: Edge(g, path[|path| - 1], c) ==> c in children
    ensures SimplePath(g, root, path)
    ensures Extending(g, root, cycles, paths, Frame(path, children, 0))
  {
    StackPush(g, root, paths, path);
    PopPath(g, root, cycles, paths, path, children);
  }

  /** A path whose last node has no entry in the dictionary is simply dropped. */
  lemma DropPath(g: Adjacency, root: Node, cycles: seq<seq<Node>>, paths: seq<seq<Node>>,
                 path: seq<Node>, d: nat)
    requires Searching(g, root, cycles, paths + [path]) && root in Nodes(g)
    requires path != [] && path[|path| - 1] !in g
    ensures Searching(g, root, cycles, paths)
    ensures Work(d, |Nodes(g)|, paths) < Work(d, |Nodes(g)|, paths + [path])
  {
    StackPush(g, root, paths, path);
    PopPath(g, root, cycles, paths, path, []);
    AllChildrenSeen(g, root, cycles, paths, path, []);
    SimplePathLength(g, root, path);
    WorkDrops(d, |Nodes(g)|, paths, path, 0);
  }

  /** Looks at a path just popped: at its last node's children, if it has an entry. */
  method SearchPath(path: seq<Node>, paths: seq<seq<Node>>, cycles: seq<seq<Node>>, visited: set<Node>,
                    g: Adjacency, ghost root: Node, ghost d: nat)
      returns (paths': seq<seq<Node>>, cycles': seq<seq<Node>>, visited': set<Node>)
    requires Searching(g, root, cycles, paths + [path]) && SimplePath(g, root, path) && root in Nodes(g)
    requires forall p :: p in g ==> |g[p]| <= d
    ensures Searching(g, root, cycles', paths') && cycles <= cycles'
    ensures GrowsByReached(g, root, visited, visited')
    ensures Finish(g, Found(cycles', visited'), paths') == Finish(g, Found(cycles, visited), paths + [path])
    ensures Work(d, |Nodes(g)|, paths') < Work(d, |Nodes(g)|, paths + [path])
  {
    var parent := path[|path| - 1];
    if parent !in g {
      DropPath(g, root, cycles, paths, path, d);
      Popped(g, Found(cycles, visited), paths, path);
      ChildrenDone(g, Found(cycles, visited), paths, path);
      return paths, cycles, visited;
    }
    PopForExtending(g, root, cycles, paths, path, g[parent]);
    SimplePathLength(g, root, path);
    WorkDrops(d, |Nodes(g)|, paths, path, |g[parent]|);
    paths', cycles', visited' := ExtendPath(g[parent], path, paths, cycles, visited, g, root, d);
    AllChildrenSeen(g, root, cycles', paths', path, g[parent]);
  }

  /** Walks every simple path from the root. */
  method SearchFrom(g: Adjacency, root: Node, cycles: seq<seq<Node>>, visited: set<Node>, ghost d: nat)
      returns (cycles': seq<seq<Node>>, visited': set<Node>)
    requires root in g && CyclesSoFar(g, cycles)
    requires forall p :: p in g ==> |g[p]| <= d
    ensures CyclesSoFar(g, cycles') && cycles <= cycles'
    ensures Exhausted(g, cycles', root)
    ensures GrowsByReached(g, root, visited, visited')
    ensures Found(cycles', visited') == Finish(g, Found(cycles, visited), [[root]])
  {
    var paths := [[root]];
    cycles', visited' := cycles, visited;
    ghost var finish := Finish(g, Found(cycles, visited), paths);
    StartStack(g, root, cycles);
    while paths != []
      invariant Searching(g, root, cycles', paths) && cycles <= cycles'
      invariant GrowsByReached(g, root, visited, visited')
      invariant Finish(g, Found(cycles', visited'), paths) == finish
      decreases Work(d, |Nodes(g)|, paths)
    {
      var path, rest := paths[|paths| - 1], paths[..|paths| - 1];
      ghost var cycles0, visited0 := cycles', visited';
      TopOfStack(g, root, paths);
      paths, cycles', visited' := SearchPath(path, rest, cycles', visited', g, root, d);
      GrowsOn(g, root, visited, visited0, visited');
      LongerStill(cycles, cycles0, cycles');
    }
    EmptyStackExhausts(g, root, cycles');
    EmptyStack(g, Found(cycles', visited'));
  }

  lemma TopOfStack(g: Adjacency, root: Node, paths: seq<seq<Node>>)
    requires paths != [] && SimpleStack(g, root, paths)
    ensures paths == paths[..|paths| - 1] + [paths[|paths| - 1]] && SimplePath(g, root, paths[|paths| - 1])
  {
  }

  /** Sound, complete and without repetition: one list for every elementary cycle up to rotation. */
  ghost predicate AllCycles(g: Adjacency, cycles: seq<seq<Node>>) {
    && CyclesSoFar(g, cycles)
    && (forall c :: ElementaryCycle(g, c) ==> Recorded(cycles, c))
  }

  lemma YieldsIffCyclic(g: Adjacency, cycles: seq<seq<Node>>)
    requires AllCycles(g, cycles)
    ensures cycles == [] <==> Acyclic(g)
  {
    if cycles != [] {
      assert ElementaryCycle(g, cycles[0]);
    }
  }

  /**
    Yields the elementary cycles of the graph: each one up to rotation, none
    twice.  Roots are taken in any order, and those already visited are skipped;
    the order of the roots determines what is yielded, and in which order.
   */
  method FindCycles(g: Adjacency) returns (cycles: seq<seq<Node>>, ghost roots: seq<Node>)
    ensures AllCycles(g, cycles)
    ensures Sequences.Distinct(roots) && Sequences.Elements(roots) == g.Keys
    ensures cycles == Yields(g, roots).cycles
  {
    ghost var d := DegreeBound(g, g.Keys);
    cycles, roots := [], [];
    var visited, todo := {}, g.Keys;
    while todo != {}
      invariant todo <= g.Keys && Tried(g, roots, todo, cycles, visited)
      invariant CyclesSoFar(g, cycles)
      invariant forall x :: x in visited || x in g.Keys - todo ==> Exhausted(g, cycles, x)
      decreases todo
    {
      var parent :| parent in todo;
      NextRoot(g, roots, todo, cycles, visited, parent);
      todo, roots := todo - {parent}, roots + [parent];
      if parent in visited {
        continue;
      }
      ghost var cycles0, visited0 := cycles, visited;
      cycles, visited := SearchFrom(g, parent, cycles, visited, d);
      ExhaustedNext(g, cycles0, cycles, visited0, visited, todo, parent);
    }
    AllExhausted(g, cycles);
  }

  /** What an earlier root reached, and what this one reached, has no cycle left. */
  lemma ExhaustedNext(g: Adjacency, cycles0: seq<seq<Node>>, cycles: seq<seq<Node>>, visited0: set<Node>,
                      visited: set<Node>, todo: set<Node>, parent: Node)
    requires cycles0 <= cycles && Exhausted(g, cycles, parent)
    requires GrowsByReached(g, parent, visited0, visited)
    requires forall x :: x in visited0 || x in g.Keys - todo - {parent} ==> Exhausted(g, cycles0, x)
    ensures forall x :: x in visited || x in g.Keys - todo ==> Exhausted(g, cycles, x)
  {
    forall x | x in visited || x in g.Keys - todo
      ensures Exhausted(g, cycles, x)
    {
      if x in visited0 || x in g.Keys - todo - {parent} {
        ExhaustedGrows(g, cycles0, cycles, x);
      } else if x != parent {
        ExhaustedBelow(g, cycles, parent, x);
      }
    }
  }

  lemma AllExhausted(g: Adjacency, cycles: seq<seq<Node>>)
    requires forall x :: x in g.Keys ==> Exhausted(g, cycles, x)
    ensures forall c :: ElementaryCycle(g, c) ==> Recorded(cycles, c)
  {
    forall c | ElementaryCycle(g, c)
      ensures Recorded(cycles, c)
    {
      assert WalkTo(g, [c[0]], c[0]);
      assert Reaches(g, c[0], c[0]);
      if |c| > 1 {
        assert Edge(g, c[0], c[1]);
      }
      assert Exhausted(g, cycles, c[0]);
    }
  }

  /** The keys tried so far, and what they have yielded. */
  ghost predicate Tried(g: Adjacency, roots: seq<Node>, todo: set<Node>, cycles: seq<seq<Node>>, visited: set<Node>) {
    && Sequences.Distinct(roots) && Sequences.Elements(roots) == g.Keys - todo
    && Yields(g, roots) == Found(cycles, visited)
  }

  lemma NextRoot(g: Adjacency, roots: seq<Node>, todo: set<Node>, cycles: seq<seq<Node>>, visited: set<Node>,
                 root: Node)
    requires todo <= g.Keys && Tried(g, roots, todo, cycles, visited) && root in todo
    ensures root in visited ==> Tried(g, roots + [root], todo - {root}, cycles, visited)
    ensures root !in visited ==>
      var found := Finish(g, Found(cycles, visited), [[root]]);
      Tried(g, roots + [root], todo - {root}, found.cycles, found.visited)
  {
    var more := roots + [root];
    assert more[..|roots|] == roots;
    ParentCounts.ElementsAppend(roots, root);
    assert forall i :: 0 <= i < |roots| ==> roots[i] in Sequences.Elements(roots);
  }

  lemma CycleReachesRotation(g: Adjacency, a: seq<Node>, c: seq<Node>)
    requires ElementaryCycle(g, a) && Rotation.IsRotation(a, c)
    ensures |c| > 0 && Reaches(g, a[0], c[0])
  {
    var k :| 0 <= k < |a| && c == Rotation.Rotate(a, k);
    SubWalk(g, a, 0, k + 1);
    assert WalkTo(g, a[..k + 1], a[k]);
  }

  lemma OnCycleIsNode(g: Adjacency, c: seq<Node>, x: Node)
    requires ElementaryCycle(g, c) && Reaches(g, c[0], x)
    ensures OnOrBelowCycle(g, x) && x in Nodes(g)
  {
    var w :| WalkTo(g, w, x) && w[0] == c[0];
    if |w| > 1 {
      WalkInNodes(g, w);
    } else {
      assert Edge(g, c[|c| - 1], c[0]);
    }
  }

  ghost predicate ReachedFrom(g: Adjacency, cycles: seq<seq<Node>>, x: Node) {
    exists i :: 0 <= i < |cycles| && cycles[i] != [] && Reaches(g, cycles[i][0], x)
  }

  lemma BelowYieldedCycle(g: Adjacency, cycles: seq<seq<Node>>, x: Node)
    requires AllCycles(g, cycles)
    ensures OnOrBelowCycle(g, x) <==> ReachedFrom(g, cycles, x)
    ensures OnOrBelowCycle(g, x) ==> x in Nodes(g)
  {
    if OnOrBelowCycle(g, x) {
      var c :| ElementaryCycle(g, c) && Reaches(g, c[0], x);
      OnCycleIsNode(g, c, x);
      assert Recorded(cycles, c);
      var i :| 0 <= i < |cycles| && Rotation.IsRotation(cycles[i], c);
      CycleReachesRotation(g, cycles[i], c);
      ReachesTransitive(g, cycles[i][0], c[0], x);
    }
    if ReachedFrom(g, cycles, x) {
      var i :| 0 <= i < |cycles| && cycles[i] != [] && Reaches(g, cycles[i][0], x);
      OnCycleIsNode(g, cycles[i], x);
    }
  }

  /**
    On the same edges, the finder yields a cycle exactly when the sort raises an
    error, and the error names exactly the items that the yielded cycles reach.
   */
  lemma CyclesExplainError(pairs: seq<(Node, Node)>, result: Topsort.SortResult, cycles: seq<seq<Node>>)
    requires Topsort.IsSort(ParentCounts.AdjacencyOf(pairs), ParentCounts.Mentioned(pairs), result)
    requires AllCycles(ParentCounts.AdjacencyOf(pairs), cycles)
    ensures result.CycleError? <==> cycles != []
    ensures result.CycleError? ==>
      forall x :: x in result.numParents <==> ReachedFrom(ParentCounts.AdjacencyOf(pairs), cycles, x)
  {
    var g := ParentCounts.AdjacencyOf(pairs);
    YieldsIffCyclic(g, cycles);
    ParentCounts.NodesAreMentioned(pairs);
    if result.CycleError? {
      forall x
        ensures x in result.numParents <==> ReachedFrom(g, cycles, x)
      {
        BelowYieldedCycle(g, cycles, x);
      }
    }
  }
}
