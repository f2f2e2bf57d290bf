/**
  Finite directed graphs as the dependency tools keep them: a dictionary from a
  parent to the list of its children.  The list may repeat a child, and a child
  need not be a key of the dictionary.

  The module defines walks, elementary cycles and the longest chain that ends
  in a node, and proves that the nodes without a longest chain are exactly those
  on a cycle or reachable from one.
 */
module Graph {
  import Sequences

  /** Any hashable item; the algorithms only compare items for equality. */
  type Node(==, !new)

  type Adjacency = map<Node, seq<Node>>

  ghost predicate Edge(g: Adjacency, parent: Node, child: Node) {
    parent in g && child in g[parent]
  }

  /** Everything the dictionary mentions, as a parent or as a child. */
  ghost function Nodes(g: Adjacency): set<Node> {
    g.Keys + set p, c | p in g.Keys && c in g[p] :: c
  }

  ghost predicate Walk(g: Adjacency, w: seq<Node>) {
    && |w| > 0
    && forall i :: 0 <= i < |w| - 1 ==> Edge(g, w[i], w[i + 1])
  }

  ghost predicate WalkTo(g: Adjacency, w: seq<Node>, x: Node) {
    Walk(g, w) && w[|w| - 1] == x
  }

  /** A walk through distinct nodes whose last node is a parent of its first. */
  ghost predicate ElementaryCycle(g: Adjacency, c: seq<Node>) {
    Walk(g, c) && Sequences.Distinct(c) && Edge(g, c[|c| - 1], c[0])
  }

  ghost predicate Acyclic(g: Adjacency) {
    forall c :: !ElementaryCycle(g, c)
  }

  ghost predicate Reaches(g: Adjacency, x: Node, y: Node) {
    exists w :: WalkTo(g, w, y) && w[0] == x
  }

  ghost predicate OnOrBelowCycle(g: Adjacency, x: Node) {
    exists c :: ElementaryCycle(g, c) && Reaches(g, c[0], x)
  }

  /** No walk that ends in x visits more than k nodes (repetitions counted). */
  ghost predicate ChainBound(g: Adjacency, x: Node, k: nat) {
    forall w :: WalkTo(g, w, x) ==> |w| <= k
  }

  /** The longest chain of dependencies above x has r steps. */
  ghost predicate LongestChain(g: Adjacency, x: Node, r: nat) {
    && (exists w :: WalkTo(g, w, x) && |w| == r + 1)
    && ChainBound(g, x, r + 1)
  }

  ghost predicate Ranked(g: Adjacency, x: Node) {
    exists r: nat :: LongestChain(g, x, r)
  }

  ghost function Rank(g: Adjacency, x: Node): (r: nat)
    requires Ranked(g, x)
    ensures LongestChain(g, x, r)
  {
    var r: nat :| LongestChain(g, x, r);
    r
  }

  lemma RankUnique(g: Adjacency, x: Node, r: nat)
    requires LongestChain(g, x, r)
    ensures Ranked(g, x) && Rank(g, x) == r
  {
    var w :| WalkTo(g, w, x) && |w| == r + 1;
    var s := Rank(g, x);
    var v :| WalkTo(g, v, x) && |v| == s + 1;
  }

  lemma RankBelow(g: Adjacency, x: Node, k: nat)
    requires Ranked(g, x) && ChainBound(g, x, k)
    ensures Rank(g, x) < k
  {
    assert LongestChain(g, x, Rank(g, x));
  }

  // ----- chains, one step at a time

  /** x has chains of at most k + 1 nodes exactly when its parents have chains of at most k. */
  lemma ChainBoundStep(g: Adjacency, x: Node, k: nat)
    ensures ChainBound(g, x, k + 1) <==> forall p :: Edge(g, p, x) ==> ChainBound(g, p, k)
  {
    if ChainBound(g, x, k + 1) {
      forall p, w | Edge(g, p, x) && WalkTo(g, w, p)
        ensures |w| <= k
      {
        assert WalkTo(g, w + [x], x);
      }
    }
    if forall p :: Edge(g, p, x) ==> ChainBound(g, p, k) {
      forall w | WalkTo(g, w, x)
        ensures |w| <= k + 1
      {
        if |w| > 1 {
          assert Edge(g, w[|w| - 2], w[|w| - 1]);
          assert WalkTo(g, w[..|w| - 1], w[|w| - 2]);
        }
      }
    }
  }

  lemma ChainBoundPositive(g: Adjacency, x: Node)
    ensures !ChainBound(g, x, 0)
  {
    assert WalkTo(g, [x], x);
  }

  /** A node all of whose parents are ranked below r + 1, one of them at r, has rank r + 1. */
  lemma RankOfChild(g: Adjacency, parent: Node, x: Node, r: nat)
    requires Edge(g, parent, x) && LongestChain(g, parent, r)
    requires forall p :: Edge(g, p, x) ==> ChainBound(g, p, r + 1)
    ensures LongestChain(g, x, r + 1)
  {
    ChainBoundStep(g, x, r + 1);
    var w :| WalkTo(g, w, parent) && |w| == r + 1;
    assert WalkTo(g, w + [x], x);
  }

  lemma RankOfRoot(g: Adjacency, x: Node)
    requires forall p :: !Edge(g, p, x)
    ensures LongestChain(g, x, 0)
  {
    ChainBoundStep(g, x, 0);
    assert WalkTo(g, [x], x);
  }

  /** Bounded for k + 1 but not for k: the longest chain has exactly k steps. */
  lemma RankFromBounds(g: Adjacency, x: Node, k: nat)
    ensures LongestChain(g, x, k) <==> ChainBound(g, x, k + 1) && !ChainBound(g, x, k)
  {
  }

  // ----- cycles and unbounded chains

  ghost predicate HasParentIn(g: Adjacency, s: set<Node>, x: Node) {
    exists p :: p in s && Edge(g, p, x)
  }

  /** Where every node has a parent inside the set, chains never end. */
  lemma {:induction false} ParentedSetUnbounded(g: Adjacency, s: set<Node>, x: Node, k: nat)
    requires x in s
    requires forall y {:trigger HasParentIn(g, s, y)} :: y in s ==> HasParentIn(g, s, y)
    ensures !ChainBound(g, x, k)
  {
    if k == 0 {
      ChainBoundPositive(g, x);
    } else {
      assert HasParentIn(g, s, x);
      var p :| p in s && Edge(g, p, x);
      ParentedSetUnbounded(g, s, p, k - 1);
      ChainBoundStep(g, x, k - 1);
    }
  }

  lemma ParentOnOrBelowCycle(g: Adjacency, x: Node) returns (p: Node)
    requires OnOrBelowCycle(g, x)
    ensures Edge(g, p, x) && OnOrBelowCycle(g, p)
  {
    var c :| ElementaryCycle(g, c) && Reaches(g, c[0], x);
    var w :| WalkTo(g, w, x) && w[0] == c[0];
    if |w| == 1 {
      p := c[|c| - 1];
      assert WalkTo(g, c, p);
    } else {
      p := w[|w| - 2];
      assert Edge(g, w[|w| - 2], w[|w| - 1]);
      assert WalkTo(g, w[..|w| - 1], p);
    }
  }

  lemma {:induction false} CycleUnbounded(g: Adjacency, x: Node, k: nat)
    requires OnOrBelowCycle(g, x)
    ensures !ChainBound(g, x, k)
  {
    if k == 0 {
      ChainBoundPositive(g, x);
    } else {
      var p := ParentOnOrBelowCycle(g, x);
      CycleUnbounded(g, p, k - 1);
      ChainBoundStep(g, x, k - 1);
    }
  }

  /** Pigeonhole: a sequence of distinct members of s is no longer than s is large. */
  lemma {:induction false} DistinctLength<T>(w: seq<T>, s: set<T>)
    requires Sequences.Distinct(w)
    requires forall i :: 0 <= i < |w| ==> w[i] in s
    ensures |w| <= |s|
  {
    if w != [] {
      var last := w[|w| - 1];
      DistinctLength(w[..|w| - 1], s - {last});
    }
  }

  lemma WalkInNodes(g: Adjacency, w: seq<Node>)
    requires Walk(g, w) && |w| > 1
    ensures forall i :: 0 <= i < |w| ==> w[i] in Nodes(g)
  {
    forall i | 0 <= i < |w|
      ensures w[i] in Nodes(g)
    {
      if i == 0 {
        assert Edge(g, w[0], w[1]);
      } else {
        assert Edge(g, w[i - 1], w[i]);
      }
    }
  }

  lemma SliceOfSlice<T>(w: seq<T>, i: nat, j: nat, i': nat, j': nat)
    requires i <= j <= |w| && i' <= j' <= j - i
    ensures w[i..j][i'..j'] == w[i + i'..i + j']
  {
    forall m | 0 <= m < j' - i'
      ensures w[i..j][i'..j'][m] == w[i + i'..i + j'][m]
    {
      assert w[i..j][i' + m] == w[i + (i' + m)];
    }
  }

  /** A walk that repeats a node runs through an elementary cycle. */
  lemma {:induction false} CycleInWalk(g: Adjacency, w: seq<Node>) returns (i: nat, j: nat)
    requires Walk(g, w) && !Sequences.Distinct(w)
    ensures i < j < |w| && ElementaryCycle(g, w[i..j])
    decreases |w|
  {
    i, j :| 0 <= i < j < |w| && w[i] == w[j];
    var c := w[i..j];
    assert Edge(g, w[j - 1], w[j]);
    if !Sequences.Distinct(c) {
      var i', j' := CycleInWalk(g, c);
      SliceOfSlice(w, i, j, i', j');
      i, j := i + i', i + j';
    }
  }

  ghost predicate Unbounded(g: Adjacency, x: Node) {
    forall k: nat :: !ChainBound(g, x, k)
  }

  /** Chains above x grow without bound exactly when x lies on or below a cycle. */
  lemma UnboundedIffCycle(g: Adjacency, x: Node)
    ensures Unbounded(g, x) <==> OnOrBelowCycle(g, x)
  {
    if OnOrBelowCycle(g, x) {
      forall k: nat
        ensures !ChainBound(g, x, k)
      {
        CycleUnbounded(g, x, k);
      }
    }
    if Unbounded(g, x) {
      var k := |Nodes(g)| + 1;
      assert !ChainBound(g, x, k);
      var w :| WalkTo(g, w, x) && |w| > k;
      WalkInNodes(g, w);
      if Sequences.Distinct(w) {
        DistinctLength(w, Nodes(g));
      }
      var i, j := CycleInWalk(g, w);
      assert WalkTo(g, w[i..], x);
    }
  }

  lemma {:induction false} BoundedHasRank(g: Adjacency, x: Node, k: nat)
    requires ChainBound(g, x, k)
    ensures Ranked(g, x)
  {
    ChainBoundPositive(g, x);
    if ChainBound(g, x, k - 1) {
      BoundedHasRank(g, x, k - 1);
    } else {
      RankFromBounds(g, x, k - 1);
    }
  }

  /** A node either has a longest chain or lies on or below a cycle, never both. */
  lemma RankedIffNotBelowCycle(g: Adjacency, x: Node)
    ensures Ranked(g, x) <==> !OnOrBelowCycle(g, x)
  {
    UnboundedIffCycle(g, x);
    if !OnOrBelowCycle(g, x) {
      var k: nat :| ChainBound(g, x, k);
      BoundedHasRank(g, x, k);
    }
  }

  /** A graph has a cycle exactly when some node it mentions is on or below one. */
  lemma AcyclicIffNoneBelow(g: Adjacency, s: set<Node>)
    requires Nodes(g) <= s
    ensures Acyclic(g) <==> forall x :: x in s ==> !OnOrBelowCycle(g, x)
  {
    if c :| ElementaryCycle(g, c) {
      assert WalkTo(g, [c[0]], c[0]);
      assert OnOrBelowCycle(g, c[0]);
      if |c| > 1 {
        WalkInNodes(g, c);
      }
    }
  }
}
