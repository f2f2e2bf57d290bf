/**
  The queue sort of (parent, child) pairs: the answer grows while it is walked,
  each item in turn knocking down the counts of its children.
 */
module Topsort {
  import Sequences
  import opened Graph
  import opened ParentCounts
  import QueueOrder

  datatype SortResult =
    | Sorted(answer: seq<Node>)
    | CycleError(answer: seq<Node>, numParents: Counts, children: Adjacency)

  // ----- what the answer means

  /** Distinct items, parents before children, in order of their longest chain of parents. */
  ghost predicate Ordered(g: Adjacency, answer: seq<Node>) {
    && Sequences.Distinct(answer)
    && (forall j, p :: 0 <= j < |answer| && Edge(g, p, answer[j]) ==> p in answer[..j])
    && (forall j {:trigger Ranked(g, answer[j])} :: 0 <= j < |answer| ==> Ranked(g, answer[j]))
    && (forall i, j {:trigger Rank(g, answer[i]), Rank(g, answer[j])} ::
          0 <= i < j < |answer| ==> Rank(g, answer[i]) <= Rank(g, answer[j]))
  }

  ghost predicate RankedUpTo(g: Adjacency, answer: seq<Node>, r: nat) {
    forall j {:trigger Rank(g, answer[j])} {:trigger Ranked(g, answer[j])} ::
      0 <= j < |answer| ==> Ranked(g, answer[j]) && Rank(g, answer[j]) <= r
  }

  lemma OrderedAppend(g: Adjacency, answer: seq<Node>, x: Node)
    requires Ordered(g, answer) && x !in answer && Ranked(g, x)
    requires RankedUpTo(g, answer, Rank(g, x))
    requires forall p :: Edge(g, p, x) ==> p in answer
    ensures Ordered(g, answer + [x])
  {
    var longer := answer + [x];
    forall j, p | 0 <= j < |longer| && Edge(g, p, longer[j])
      ensures p in longer[..j]
    {
      assert longer[..j] == answer[..j];
      if j == |answer| {
        assert answer[..j] == answer;
      }
    }
  }

  /** The item that frees a child is its last parent in the answer, so the highest ranked. */
  lemma RankOfFreed(g: Adjacency, answer: seq<Node>, k: nat, child: Node)
    requires Ordered(g, answer) && k < |answer|
    requires Edge(g, answer[k], child)
    requires forall p :: Edge(g, p, child) ==> p in answer[..k + 1]
    ensures Ranked(g, child) && Rank(g, child) == Rank(g, answer[k]) + 1
  {
    var r := Rank(g, answer[k]);
    forall p | Edge(g, p, child)
      ensures ChainBound(g, p, r + 1)
    {
      var i :| 0 <= i <= k && answer[i] == p;
      assert Rank(g, answer[i]) <= r;
      assert LongestChain(g, p, Rank(g, p));
    }
    RankOfChild(g, answer[k], child, r);
    RankUnique(g, child, r + 1);
  }

  lemma PlaceChild(g: Adjacency, answer: seq<Node>, k: nat, child: Node)
    requires Ordered(g, answer) && k < |answer| && child !in answer
    requires RankedUpTo(g, answer, Rank(g, answer[k]) + 1)
    requires Edge(g, answer[k], child)
    requires forall p :: Edge(g, p, child) ==> p in answer[..k + 1]
    ensures Ordered(g, answer + [child])
    ensures RankedUpTo(g, answer + [child], Rank(g, answer[k]) + 1)
  {
    RankOfFreed(g, answer, k, child);
    OrderedAppend(g, answer, child);
  }

  lemma PlaceRoots(g: Adjacency, answer: seq<Node>)
    requires Sequences.Distinct(answer)
    requires forall x, p :: x in answer ==> !Edge(g, p, x)
    ensures Ordered(g, answer) && RankedUpTo(g, answer, 0)
  {
    forall j | 0 <= j < |answer|
      ensures Ranked(g, answer[j]) && Rank(g, answer[j]) == 0
    {
      assert answer[j] in answer;
      RankOfRoot(g, answer[j]);
      RankUnique(g, answer[j], 0);
    }
  }

  /** The answer is in order and holds exactly the items that no cycle reaches. */
  ghost predicate SortedPart(g: Adjacency, items: set<Node>, answer: seq<Node>) {
    && Ordered(g, answer)
    && (forall x :: x in answer <==> x in items && !OnOrBelowCycle(g, x))
  }

  // ----- the queue

  lemma SplitHead<T>(a: seq<T>, b: seq<T>)
    requires b != []
    ensures b == [b[0]] + b[1..] && a + b == a + [b[0]] + b[1..]
    ensures (a + b)[|a|] == b[0]
  {
  }

  /** The answer so far; everything in it was placed by the root scan or by an item of done. */
  ghost predicate Placed(g: Adjacency, items: set<Node>, answer: seq<Node>, done: seq<Node>) {
    && Sequences.Elements(answer) <= items
    && Ordered(g, answer)
    && done <= answer
    && RankedUpTo(g, answer, if done == [] then 0 else Rank(g, done[|done| - 1]) + 1)
  }

  lemma PlaceFreed(g: Adjacency, items: set<Node>, answer: seq<Node>, done: seq<Node>, child: Node)
    requires Placed(g, items, answer, done) && done != []
    requires child in items && child !in answer
    requires Edge(g, done[|done| - 1], child)
    requires forall p :: Edge(g, p, child) ==> p in done
    ensures Placed(g, items, answer + [child], done)
  {
    var k := |done| - 1;
    assert answer[..k + 1] == done && answer[k] == done[k];
    PlaceChild(g, answer, k, child);
    ElementsAppend(answer, child);
  }

  lemma PlacedNext(g: Adjacency, items: set<Node>, answer: seq<Node>, done: seq<Node>)
    requires Placed(g, items, answer, done) && |done| < |answer|
    ensures Placed(g, items, answer, answer[..|done| + 1])
  {
    var k := |done|;
    if k > 0 {
      assert done[k - 1] == answer[k - 1];
      assert Rank(g, answer[k - 1]) <= Rank(g, answer[k]);
    }
  }

  /** The answer is in queue order, and nothing was freed at or behind place n of item k. */
  ghost predicate FreedSoFar(g: Adjacency, answer: seq<Node>, k: int, n: int) {
    QueueOrder.InQueueOrder(g, answer) && QueueOrder.FreedUpTo(g, answer, k, n)
  }

  ghost predicate Between(g: Adjacency, items: set<Node>, numParents: Counts, children: Adjacency,
                          done: seq<Node>, queue: seq<Node>)
  {
    && Placing(g, items, numParents, children, done, queue)
    && Placed(g, items, done + queue, done)
    && FreedSoFar(g, done + queue, |done|, 0)
  }

  ghost predicate Midway(g: Adjacency, items: set<Node>, numParents: Counts, children: Adjacency,
                         done: seq<Node>, parent: Node, queue: seq<Node>, n: int)
  {
    && Releasing(g, items, numParents, children, done, parent, queue, n)
    && Placed(g, items, done + [parent] + queue, done + [parent])
    && FreedSoFar(g, done + [parent] + queue, |done|, n)
  }

  lemma StartMidway(g: Adjacency, items: set<Node>, numParents: Counts, children: Adjacency,
                    done: seq<Node>, queue: seq<Node>)
    requires Between(g, items, numParents, children, done, queue) && queue != []
    ensures queue[0] in numParents
    ensures Midway(g, items, numParents - {queue[0]}, children, done, queue[0], queue[1..], 0)
    ensures (done + queue)[|done|] == queue[0]
    ensures done + queue == done + [queue[0]] + queue[1..]
  {
    SplitHead(done, queue);
    var parent, rest := queue[0], queue[1..];
    var answer := done + queue;
    PlacedNext(g, items, answer, done);
    assert answer[..|done| + 1] == done + [parent];
    StartRelease(g, items, numParents, children, done, parent, rest);
  }

  /** One child of the item at hand is knocked down, and placed if that was its last parent. */
  lemma KnockDown(g: Adjacency, items: set<Node>, numParents: Counts, children: Adjacency,
                  done: seq<Node>, parent: Node, queue: seq<Node>, n: nat,
                  child: Node, counts: Counts, queue': seq<Node>)
    requires Midway(g, items, numParents, children, done, parent, queue, n)
    requires parent in children && n < |children[parent]| && child == children[parent][n]
    requires child in numParents && counts == numParents[child := numParents[child] - 1]
    requires queue' == if counts[child] == 0 then queue + [child] else queue
    ensures Midway(g, items, counts, children, done, parent, queue', n + 1)
  {
    StepRelease(g, items, numParents, children, done, parent, queue, n, child, counts, queue');
    if counts[child] == 0 {
      forall p | Edge(g, p, child)
        ensures p in done + [parent]
      {
        FreedParents(g, items, counts, children, done, parent, queue', n + 1, child, p);
      }
      assert child in items && child !in Sequences.Elements(done) && child != parent;
      assert Edge(g, parent, child);
      PlaceFreed(g, items, done + [parent] + queue, done + [parent], child);
      FreedHere(g, items, counts, children, done, parent, queue', n, child);
      QueueOrder.FreedNext(g, done + [parent] + queue, child, |done|, n);
      Sequences.ConcatAssociative(done + [parent], queue, [child]);
    }
  }

  /** The place at which a child loses its last parent is the last one that lists it. */
  lemma FreedHere(g: Adjacency, items: set<Node>, counts: Counts, children: Adjacency,
                  done: seq<Node>, parent: Node, queue: seq<Node>, n: nat, child: Node)
    requires Releasing(g, items, counts, children, done, parent, queue, n + 1)
    requires parent in children && n < |children[parent]| && child == children[parent][n]
    requires child in counts && counts[child] == 0
    ensures parent in g && QueueOrder.LastPlace(g[parent], child, n)
  {
    forall m | n < m < |g[parent]|
      ensures g[parent][m] != child
    {
      LastSlot(children, parent, n + 1, child, m);
    }
  }

  lemma ChildIsCounted(g: Adjacency, items: set<Node>, numParents: Counts, children: Adjacency,
                       done: seq<Node>, parent: Node, queue: seq<Node>, n: nat)
    requires Midway(g, items, numParents, children, done, parent, queue, n)
    requires parent in children && n < |children[parent]|
    ensures children[parent][n] in numParents
  {
    assert Edge(children, parent, children[parent][n]);
  }

  lemma EndMidway(g: Adjacency, items: set<Node>, numParents: Counts, children: Adjacency,
                  done: seq<Node>, parent: Node, queue: seq<Node>)
    requires Midway(g, items, numParents, children, done, parent, queue,
                    if parent in children then |children[parent]| else 0)
    ensures Between(g, items, numParents, children - {parent}, done + [parent], queue)
  {
    EndRelease(g, items, numParents, children, done, parent, queue);
  }

  lemma StartQueue(g: Adjacency, numParents: Counts, answer: seq<Node>)
    requires Counted(numParents, g)
    requires Sequences.Distinct(answer)
    requires forall x :: x in answer <==> x in numParents && numParents[x] == 0
    ensures Between(g, numParents.Keys, numParents, g, [], answer)
  {
    assert g - Sequences.Elements<Node>([]) == g;
    assert [] + answer == answer;
    forall x, p | x in answer
      ensures !Edge(g, p, x)
    {
      NoSlotsIffNoParent(g, x);
    }
    PlaceRoots(g, answer);
    QueueOrder.OnlyRoots(g, answer);
  }

  /** Knocks down every child of parent and appends those it frees to the growing answer. */
  method ReleaseChildren(numParents: Counts, children: Adjacency, answer: seq<Node>, parent: Node,
                         ghost g: Adjacency, ghost items: set<Node>,
                         ghost done: seq<Node>, ghost queue: seq<Node>)
      returns (numParents': Counts, answer': seq<Node>, ghost queue': seq<Node>)
    requires parent in children && answer == done + [parent] + queue
    requires Midway(g, items, numParents, children, done, parent, queue, 0)
    ensures numParents'.Keys == numParents.Keys
    ensures answer' == done + [parent] + queue' && answer <= answer'
    ensures Midway(g, items, numParents', children, done, parent, queue', |children[parent]|)
  {
    numParents', answer', queue' := numParents, answer, queue;
    for n := 0 to |children[parent]|
      invariant numParents'.Keys == numParents.Keys
      invariant answer' == done + [parent] + queue' && answer <= answer'
      invariant Midway(g, items, numParents', children, done, parent, queue', n)
    {
      var child := children[parent][n];
      ghost var counts, queue0 := numParents', queue';
      ChildIsCounted(g, items, counts, children, done, parent, queue0, n);
      numParents' := numParents'[child := numParents'[child] - 1];
      if numParents'[child] == 0 {
        Sequences.ConcatAssociative(done + [parent], queue', [child]);
        answer', queue' := answer' + [child], queue' + [child];
      }
      KnockDown(g, items, counts, children, done, parent, queue0, n, child, numParents', queue');
    }
  }

  /**
    What `Topsort` promises for items and the adjacency g: it succeeds exactly on
    an acyclic g; either way the answer holds, in order of longest chain, the
    items no cycle reaches, first the roots and then the others in the order in
    which the queue frees them.
   */
  ghost predicate IsSort(g: Adjacency, items: set<Node>, result: SortResult) {
    && SortedPart(g, items, result.answer)
    && QueueOrder.InQueueOrder(g, result.answer)
    && (result.Sorted? <==> Acyclic(g))
    && (result.Sorted? ==> Sequences.Elements(result.answer) == items)
    && (result.CycleError? ==> CycleResidue(g, items, result.numParents, result.children))
  }

  lemma ResidueLeft(g: Adjacency, items: set<Node>, numParents: Counts, children: Adjacency,
                    done: seq<Node>)
    requires Nodes(g) <= items
    requires Between(g, items, numParents, children, done, [])
    ensures Ordered(g, done) && (forall x :: x in done <==> x in items && x !in numParents)
    ensures QueueOrder.InQueueOrder(g, done)
    ensures CycleResidue(g, items, numParents, children)
  {
    assert done + [] == done;
    assert forall x :: x in done <==> x in Sequences.Elements(done);
    forall x | x in items && x !in numParents
      ensures Ranked(g, x)
    {
      assert x in done;
      var j :| 0 <= j < |done| && done[j] == x;
      assert Ranked(g, done[j]);
    }
    ResidueIsCyclic(g, items, numParents, children, done);
  }

  lemma ResidueDecides(g: Adjacency, items: set<Node>, numParents: Counts, children: Adjacency,
                       done: seq<Node>)
    requires Nodes(g) <= items && CycleResidue(g, items, numParents, children)
    requires forall x :: x in done <==> x in items && x !in numParents
    ensures forall x :: x in done <==> x in items && !OnOrBelowCycle(g, x)
    ensures numParents == map[] <==> Acyclic(g)
    ensures numParents == map[] ==> Sequences.Elements(done) == items
  {
    AcyclicIffNoneBelow(g, items);
    assert forall x :: x in numParents ==> x in items && OnOrBelowCycle(g, x);
    if numParents == map[] {
      assert forall x :: x in Sequences.Elements(done) <==> x in done;
    } else {
      var x :| x in numParents;
      assert OnOrBelowCycle(g, x);
    }
  }

  lemma QueueOutcome(g: Adjacency, items: set<Node>, numParents: Counts, children: Adjacency,
                     done: seq<Node>)
    requires Nodes(g) <= items
    requires Between(g, items, numParents, children, done, [])
    ensures IsSort(g, items,
                   if numParents == map[] then Sorted(done) else CycleError(done, numParents, children))
  {
    ResidueLeft(g, items, numParents, children, done);
    ResidueDecides(g, items, numParents, children, done);
  }

  /** Two sorts that scan the roots in the same order have the same outcome. */
  lemma SortDetermined(g: Adjacency, items: set<Node>, a: SortResult, b: SortResult)
    requires IsSort(g, items, a) && IsSort(g, items, b)
    requires QueueOrder.SameRoots(g, a.answer, b.answer) && QueueOrder.SameRoots(g, b.answer, a.answer)
    ensures a == b
  {
    QueueOrder.OrderDetermined(g, a.answer, b.answer);
    if a.CycleError? {
      ResidueUnique(g, items, a.numParents, a.children, b.numParents, b.children);
    }
  }

  method Topsort(pairs: seq<(Node, Node)>) returns (result: SortResult)
    ensures IsSort(AdjacencyOf(pairs), Mentioned(pairs), result)
  {
    var numParents, children := BuildTables(pairs);
    ghost var g, items := children, numParents.Keys;
    var answer := Parentless(numParents);
    StartQueue(g, numParents, answer);
    var k := 0;
    ghost var done, queue := [], answer;
    while k < |answer|
      invariant |done| == k && answer == done + queue
      invariant Between(g, items, numParents, children, done, queue)
      decreases numParents.Keys
    {
      StartMidway(g, items, numParents, children, done, queue);
      var parent := answer[k];
      ghost var children0 := children;
      numParents, queue := numParents - {parent}, queue[1..];
      if parent in children {
        numParents, answer, queue :=
          ReleaseChildren(numParents, children, answer, parent, g, items, done, queue);
        children := children - {parent};
      }
      EndMidway(g, items, numParents, children0, done, parent, queue);
      assert children == children0 - {parent};
      done, k := done + [parent], k + 1;
    }
    NodesAreMentioned(pairs);
    assert queue == [] && answer == done;
    QueueOutcome(g, items, numParents, children, done);
    if numParents != map[] {
      return CycleError(answer, numParents, children);
    }
    return Sorted(answer);
  }

  // ----- the smallest answer with a choice

  lemma TwoChildren(a: Node, b: Node, c: Node)
    ensures var g := AdjacencyOf([(a, b), (a, c)]);
      g == map[a := [b, c]] && Mentioned([(a, b), (a, c)]) == {a, b, c}
  {
    var pairs := [(a, b), (a, c)];
    assert pairs == [(a, b)] + [(a, c)];
    ChildrenInOrder([(a, b)], [(a, c)], a, b);
    ChildrenInOrder([], [(a, c)], a, c);
    assert Parents(pairs) == {a} && ChildrenOf(pairs, a) == [b, c];
    assert AdjacencyOf(pairs)[a] == [b, c];
    assert pairs[0] == (a, b) && pairs[1] == (a, c);
  }

  lemma StarIsAcyclic(a: Node, b: Node, c: Node)
    requires a != b && a != c
    ensures Acyclic(map[a := [b, c]])
  {
    var g: Adjacency := map[a := [b, c]];
    forall w
      ensures !ElementaryCycle(g, w)
    {
      var n := |w| - 1;
      assert n >= 0 && Edge(g, w[n], w[0]) ==> w[n] == a && w[0] != a;
      assert n > 0 && Edge(g, w[n - 1], w[n]) ==> w[n] != a;
    }
  }

  /** The pairs (a, b) and (a, c) give a, b, c in this order: the children come as they are listed. */
  lemma ChildrenAsListed(a: Node, b: Node, c: Node, result: SortResult)
    requires a != b && a != c && b != c
    requires IsSort(AdjacencyOf([(a, b), (a, c)]), Mentioned([(a, b), (a, c)]), result)
    ensures result == Sorted([a, b, c])
  {
    var g: Adjacency := map[a := [b, c]];
    var s := result.answer;
    TwoChildren(a, b, c);
    StarIsAcyclic(a, b, c);
    assert forall x :: x in s <==> x in Sequences.Elements(s);
    ThreeItems(s, a, b, c);
    assert Edge(g, a, b) && Edge(g, a, c);
    assert s[0] == a;
    if s[1] == c {
      assert QueueOrder.FreedAt(g, s, 1, 0, 1) && QueueOrder.FreedAt(g, s, 2, 0, 0);
    }
  }

  lemma ThreeItems(s: seq<Node>, a: Node, b: Node, c: Node)
    requires Sequences.Distinct(s) && a != b && a != c && b != c
    requires forall x :: x in s <==> x == a || x == b || x == c
    ensures |s| == 3
    ensures s[0] == a && s[1] == b ==> s == [a, b, c]
  {
    assert a in s && b in s && c in s;
    assert forall i :: 0 <= i < |s| ==> s[i] in s;
    DistinctLength(s, {a, b, c});
    var i :| 0 <= i < |s| && s[i] == a;
    var j :| 0 <= j < |s| && s[j] == b;
    var k :| 0 <= k < |s| && s[k] == c;
  }
}
