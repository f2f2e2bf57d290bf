/**
  The two dictionaries behind the dependency sorts: how many parent pairs each
  item still has, and the list of children of each parent.  Placing an item
  deletes its count and its list and takes one from the count of each listed child.

  Dictionary order is arbitrary: wherever the program walks the keys of a
  dictionary, the model picks the next key freely.
 */
module ParentCounts {
  import Sequences
  import opened Graph

  type Counts = map<Node, int>

  // ----- the two dictionaries

  /** The places where x stands in a list of children: one per remaining parent pair. */
  ghost function Slots(g: Adjacency, x: Node): set<(Node, int)> {
    set p, i | p in g.Keys && 0 <= i < |g[p]| && g[p][i] == x :: (p, i)
  }

  /** The first n slots of one parent. */
  ghost function Taken(parent: Node, n: int): set<(Node, int)> {
    set i | 0 <= i < n :: (parent, i)
  }

  /** Every item and child is a key of the counts, and each count is the number of parent pairs. */
  ghost predicate Counted(numParents: Counts, children: Adjacency) {
    && children.Keys <= numParents.Keys
    && (forall p, c :: Edge(children, p, c) ==> c in numParents)
    && forall x {:trigger Slots(children, x)} :: x in numParents ==> numParents[x] == |Slots(children, x)|
  }

  lemma NoSlotsIffNoParent(g: Adjacency, x: Node)
    ensures |Slots(g, x)| == 0 <==> forall p :: !Edge(g, p, x)
  {
    if p :| Edge(g, p, x) {
      var i :| 0 <= i < |g[p]| && g[p][i] == x;
      assert (p, i) in Slots(g, x);
    }
    if Slots(g, x) != {} {
      var s :| s in Slots(g, x);
      assert Edge(g, s.0, x);
    }
  }

  // ----- from pairs to dictionaries

  ghost function Parents(pairs: seq<(Node, Node)>): set<Node> {
    set pair | pair in pairs :: pair.0
  }

  ghost function Mentioned(pairs: seq<(Node, Node)>): set<Node> {
    Parents(pairs) + set pair | pair in pairs :: pair.1
  }

  /** The children of p, in the order of the pairs. */
  ghost function ChildrenOf(pairs: seq<(Node, Node)>, p: Node): seq<Node> {
    if pairs == [] then []
    else
      var last := pairs[|pairs| - 1];
      ChildrenOf(pairs[..|pairs| - 1], p) + if last.0 == p then [last.1] else []
  }

  /** Each pair adds its child behind those of the pairs before it. */
  lemma {:induction false} ChildrenInOrder(a: seq<(Node, Node)>, b: seq<(Node, Node)>, p: Node, c: Node)
    ensures ChildrenOf(a + b, p) == ChildrenOf(a, p) + ChildrenOf(b, p)
    ensures ChildrenOf([(p, c)], p) == [c] && forall q :: q != p ==> ChildrenOf([(p, c)], q) == []
  {
    assert [(p, c)][..0] == [];
    if b == [] {
      assert a + b == a;
    } else {
      var n := |b| - 1;
      assert (a + b)[..|a| + n] == a + b[..n];
      ChildrenInOrder(a, b[..n], p, c);
    }
  }

  ghost function AdjacencyOf(pairs: seq<(Node, Node)>): Adjacency {
    map p | p in Parents(pairs) :: ChildrenOf(pairs, p)
  }

  /** The dictionary has exactly the given pairs as its edges. */
  lemma {:induction false} EdgeIffPair(pairs: seq<(Node, Node)>, p: Node, c: Node)
    ensures c in ChildrenOf(pairs, p) <==> (p, c) in pairs
    ensures Edge(AdjacencyOf(pairs), p, c) <==> (p, c) in pairs
  {
    if pairs != [] {
      var n := |pairs| - 1;
      EdgeIffPair(pairs[..n], p, c);
      assert pairs == pairs[..n] + [pairs[n]];
    }
  }

  lemma NodesAreMentioned(pairs: seq<(Node, Node)>)
    ensures Nodes(AdjacencyOf(pairs)) == Mentioned(pairs)
  {
    var g := AdjacencyOf(pairs);
    forall x
      ensures x in Nodes(g) <==> x in Mentioned(pairs)
    {
      if x in Mentioned(pairs) {
        var pair :| pair in pairs && (x == pair.0 || x == pair.1);
        EdgeIffPair(pairs, pair.0, pair.1);
      }
      if x in Nodes(g) && x !in g.Keys {
        var p :| p in g && x in g[p];
        EdgeIffPair(pairs, p, x);
        assert (p, x) in pairs;
      }
    }
  }

  lemma InSlots(g: Adjacency, x: Node, p: Node, i: int)
    ensures (p, i) in Slots(g, x) <==> p in g && 0 <= i < |g[p]| && g[p][i] == x
  {
  }

  lemma SlotAfterAppend(g: Adjacency, g': Adjacency, p: Node, c: Node, x: Node, slot: (Node, int))
    requires g' == g[p := (if p in g then g[p] else []) + [c]]
    ensures var n := if p in g then |g[p]| else 0;
      slot in Slots(g', x) <==> slot in Slots(g, x) || (x == c && slot == (p, n))
  {
    InSlots(g, x, slot.0, slot.1);
    InSlots(g', x, slot.0, slot.1);
  }

  /** Appending one child adds one slot, for that child only. */
  lemma SlotsAfterAppend(g: Adjacency, g': Adjacency, p: Node, c: Node, x: Node)
    requires g' == g[p := (if p in g then g[p] else []) + [c]]
    ensures |Slots(g', x)| == |Slots(g, x)| + if x == c then 1 else 0
  {
    var n := if p in g then |g[p]| else 0;
    var added := if x == c then {(p, n)} else {};
    forall slot
      ensures slot in Slots(g', x) <==> slot in Slots(g, x) + added
    {
      SlotAfterAppend(g, g', p, c, x, slot);
    }
    InSlots(g, x, p, n);
    assert Slots(g', x) == Slots(g, x) + added;
  }

  /** The tables agree on every node, whether or not it is a key yet. */
  ghost predicate Tallied(numParents: Counts, children: Adjacency) {
    forall x {:trigger Slots(children, x)} ::
      |Slots(children, x)| == if x in numParents then numParents[x] else 0
  }

  ghost predicate TablesOf(pairs: seq<(Node, Node)>, numParents: Counts, children: Adjacency) {
    && numParents.Keys == Mentioned(pairs)
    && children == AdjacencyOf(pairs)
    && Tallied(numParents, children)
  }

  lemma TablesAfterPair(pairs: seq<(Node, Node)>, pair: (Node, Node),
                        np: Counts, np': Counts, g: Adjacency, g': Adjacency)
    requires TablesOf(pairs, np, g)
    requires g' == g[pair.0 := (if pair.0 in g then g[pair.0] else []) + [pair.1]]
    requires np'.Keys == np.Keys + {pair.0, pair.1}
    requires forall x :: x in np' ==>
      np'[x] == (if x in np then np[x] else 0) + if x == pair.1 then 1 else 0
    ensures TablesOf(pairs + [pair], np', g')
  {
    MentionedAfterAppend(pairs, pair);
    AdjacencyAfterAppend(pairs, pair);
    forall x
      ensures |Slots(g', x)| == if x in np' then np'[x] else 0
    {
      SlotsAfterAppend(g, g', pair.0, pair.1, x);
    }
  }

  lemma TablesAreCounted(pairs: seq<(Node, Node)>, numParents: Counts, children: Adjacency)
    requires TablesOf(pairs, numParents, children)
    ensures Counted(numParents, children)
  {
    NodesAreMentioned(pairs);
    forall p, c | Edge(children, p, c)
      ensures c in numParents
    {
      assert c in Nodes(children);
    }
  }

  method BuildTables(pairs: seq<(Node, Node)>) returns (numParents: Counts, children: Adjacency)
    ensures numParents.Keys == Mentioned(pairs)
    ensures children == AdjacencyOf(pairs)
    ensures Counted(numParents, children)
  {
    numParents, children := map[], map[];
    assert TablesOf(pairs[..0], numParents, children);
    for k := 0 to |pairs|
      invariant TablesOf(pairs[..k], numParents, children)
    {
      var parent, child := pairs[k].0, pairs[k].1;
      ghost var np0, children0 := numParents, children;
      if parent !in numParents {
        numParents := numParents[parent := 0];
      }
      if child !in numParents {
        numParents := numParents[child := 0];
      }
      numParents := numParents[child := numParents[child] + 1];
      if parent !in children {
        children := children[parent := []];
      }
      children := children[parent := children[parent] + [child]];
      TablesAfterPair(pairs[..k], pairs[k], np0, numParents, children0, children);
      assert pairs[..k + 1] == pairs[..k] + [pairs[k]];
    }
    assert pairs[..|pairs|] == pairs;
    TablesAreCounted(pairs, numParents, children);
  }

  lemma MentionedAfterAppend(pairs: seq<(Node, Node)>, pair: (Node, Node))
    ensures Parents(pairs + [pair]) == Parents(pairs) + {pair.0}
    ensures Mentioned(pairs + [pair]) == Mentioned(pairs) + {pair.0, pair.1}
  {
    var more := pairs + [pair];
    assert forall q :: q in more <==> q in pairs || q == pair;
  }

  lemma AdjacencyAfterAppend(pairs: seq<(Node, Node)>, pair: (Node, Node))
    ensures var g := AdjacencyOf(pairs);
      AdjacencyOf(pairs + [pair]) == g[pair.0 := (if pair.0 in g then g[pair.0] else []) + [pair.1]]
  {
    var more := pairs + [pair];
    assert more[..|pairs|] == pairs;
    MentionedAfterAppend(pairs, pair);
    var g, g' := AdjacencyOf(pairs), AdjacencyOf(more);
    if pair.0 !in g {
      NoChildren(pairs, pair.0);
    }
    forall p | p in g' && p != pair.0
      ensures p in g && g'[p] == g[p]
    {
      assert ChildrenOf(more, p) == ChildrenOf(pairs, p) + [];
    }
  }

  lemma {:induction false} NoChildren(pairs: seq<(Node, Node)>, p: Node)
    requires forall q :: q in pairs ==> q.0 != p
    ensures ChildrenOf(pairs, p) == []
  {
    if pairs != [] {
      assert pairs[|pairs| - 1] in pairs;
      NoChildren(pairs[..|pairs| - 1], p);
    }
  }

  /** The items whose count is zero, in whatever order the dictionary yields them. */
  method Parentless(numParents: Counts) returns (found: seq<Node>)
    ensures Sequences.Distinct(found)
    ensures forall x :: x in found <==> x in numParents && numParents[x] == 0
  {
    found := [];
    var todo := numParents.Keys;
    while todo != {}
      invariant todo <= numParents.Keys
      invariant Sequences.Distinct(found)
      invariant forall x :: x in found <==> x in numParents.Keys - todo && numParents[x] == 0
    {
      var x :| x in todo;
      todo := todo - {x};
      if numParents[x] == 0 {
        found := found + [x];
      }
    }
  }

  // ----- releasing the children of a placed item

  lemma InTaken(parent: Node, n: int, p: Node, i: int)
    ensures (p, i) in Taken(parent, n) <==> p == parent && 0 <= i < n
  {
  }

  /** Knocking down one more child takes one slot from that child and none from the others. */
  lemma TakeSlot(g: Adjacency, parent: Node, n: nat, x: Node)
    requires parent in g && n < |g[parent]|
    ensures |Slots(g, x) - Taken(parent, n)|
         == |Slots(g, x) - Taken(parent, n + 1)| + if g[parent][n] == x then 1 else 0
  {
    var slot := (parent, n);
    assert Taken(parent, n + 1) == Taken(parent, n) + {slot};
    InTaken(parent, n, parent, n);
    InSlots(g, x, parent, n);
    var rest := Slots(g, x) - Taken(parent, n + 1);
    if g[parent][n] == x {
      assert Slots(g, x) - Taken(parent, n) == rest + {slot};
    } else {
      assert Slots(g, x) - Taken(parent, n) == rest;
    }
  }

  /** Once its count is down to zero, a child has no parent left but the one at hand. */
  lemma LastParent(g: Adjacency, parent: Node, n: int, x: Node, p: Node)
    requires |Slots(g, x) - Taken(parent, n)| == 0
    requires Edge(g, p, x)
    ensures p == parent
  {
    var i :| 0 <= i < |g[p]| && g[p][i] == x;
    InSlots(g, x, p, i);
    InTaken(parent, n, p, i);
    assert Slots(g, x) - Taken(parent, n) == {};
    assert (p, i) !in Slots(g, x) - Taken(parent, n);
  }

  /** A child whose count is down to zero does not come again in the list at hand. */
  lemma LastSlot(g: Adjacency, parent: Node, n: int, x: Node, m: int)
    requires |Slots(g, x) - Taken(parent, n)| == 0
    requires parent in g && n <= m < |g[parent]| && 0 <= m
    ensures g[parent][m] != x
  {
    assert g[parent][m] == x ==> (parent, m) in Slots(g, x) - Taken(parent, n);
  }

  lemma SlotsAfterDelete(g: Adjacency, parent: Node, x: Node)
    ensures Slots(g - {parent}, x)
         == Slots(g, x) - Taken(parent, if parent in g then |g[parent]| else 0)
  {
    var n := if parent in g then |g[parent]| else 0;
    forall slot
      ensures slot in Slots(g - {parent}, x) <==> slot in Slots(g, x) - Taken(parent, n)
    {
      InSlots(g, x, slot.0, slot.1);
      InSlots(g - {parent}, x, slot.0, slot.1);
      InTaken(parent, n, slot.0, slot.1);
    }
  }

  /** The counts while the first n children of parent have been knocked down. */
  ghost predicate CountedBut(numParents: Counts, children: Adjacency, parent: Node, n: int) {
    forall x {:trigger Slots(children, x)} ::
      x in numParents ==> numParents[x] == |Slots(children, x) - Taken(parent, n)|
  }

  lemma CountedButNone(numParents: Counts, children: Adjacency, parent: Node)
    requires Counted(numParents, children) && parent in numParents
    requires numParents[parent] == 0
    ensures CountedBut(numParents - {parent}, children, parent, 0)
    ensures forall p :: !Edge(children, p, parent)
  {
    NoSlotsIffNoParent(children, parent);
    assert Taken(parent, 0) == {};
    forall x | x in numParents
      ensures Slots(children, x) - Taken(parent, 0) == Slots(children, x)
    {
    }
  }

  lemma CountedAfterDelete(numParents: Counts, children: Adjacency, parent: Node)
    requires CountedBut(numParents, children, parent, if parent in children then |children[parent]| else 0)
    requires children.Keys <= numParents.Keys + {parent}
    requires forall p, c :: Edge(children, p, c) ==> c in numParents || c == parent
    requires forall p :: !Edge(children, p, parent)
    ensures Counted(numParents, children - {parent})
  {
    forall x | x in numParents
      ensures numParents[x] == |Slots(children - {parent}, x)|
    {
      SlotsAfterDelete(children, parent, x);
    }
    forall p, c | Edge(children - {parent}, p, c)
      ensures c in numParents
    {
      assert Edge(children, p, c);
    }
  }

  // ----- the dictionaries between two placed items

  lemma ElementsAppend<T>(s: seq<T>, x: T)
    ensures Sequences.Elements(s + [x]) == Sequences.Elements(s) + {x}
  {
  }

  /** The dictionaries after the items of done have been deleted and their children released. */
  ghost predicate Peeled(g: Adjacency, items: set<Node>, numParents: Counts, children: Adjacency,
                         done: seq<Node>)
  {
    && numParents.Keys == items - Sequences.Elements(done)
    && children == g - Sequences.Elements(done)
    && Counted(numParents, children)
  }

  /** The same, where queue holds the items that have no parent left. */
  ghost predicate Placing(g: Adjacency, items: set<Node>, numParents: Counts, children: Adjacency,
                          done: seq<Node>, queue: seq<Node>)
  {
    && Peeled(g, items, numParents, children, done)
    && (forall x :: x in queue <==> x in numParents && numParents[x] == 0)
  }

  /** The same while parent is being released, with n of its children knocked down. */
  ghost predicate Releasing(g: Adjacency, items: set<Node>, numParents: Counts, children: Adjacency,
                            done: seq<Node>, parent: Node, queue: seq<Node>, n: int)
  {
    && numParents.Keys == items - Sequences.Elements(done) - {parent}
    && parent in items
    && children == g - Sequences.Elements(done)
    && children.Keys <= numParents.Keys + {parent}
    && (forall p, c :: Edge(children, p, c) ==> c in numParents)
    && CountedBut(numParents, children, parent, n)
    && (forall x :: x in queue <==> x in numParents && numParents[x] == 0)
  }

  lemma StartRelease(g: Adjacency, items: set<Node>, numParents: Counts, children: Adjacency,
                     done: seq<Node>, parent: Node, queue: seq<Node>)
    requires Placing(g, items, numParents, children, done, [parent] + queue)
    requires parent !in queue
    ensures parent in numParents
    ensures Releasing(g, items, numParents - {parent}, children, done, parent, queue, 0)
  {
    assert forall x :: x in [parent] + queue <==> x == parent || x in queue;
    CountedButNone(numParents, children, parent);
  }

  lemma CountsStep(numParents: Counts, counts: Counts, children: Adjacency, parent: Node, n: nat)
    requires parent in children && n < |children[parent]|
    requires children[parent][n] in numParents
    requires counts == numParents[children[parent][n] := numParents[children[parent][n]] - 1]
    requires CountedBut(numParents, children, parent, n)
    ensures CountedBut(counts, children, parent, n + 1)
    ensures numParents[children[parent][n]] > 0
  {
    TakeSlot(children, parent, n, children[parent][n]);
    forall x | x in counts
      ensures counts[x] == |Slots(children, x) - Taken(parent, n + 1)|
    {
      TakeSlot(children, parent, n, x);
    }
  }

  lemma StepRelease(g: Adjacency, items: set<Node>, numParents: Counts, children: Adjacency,
                    done: seq<Node>, parent: Node, queue: seq<Node>, n: nat,
                    child: Node, counts: Counts, queue': seq<Node>)
    requires Releasing(g, items, numParents, children, done, parent, queue, n)
    requires parent in children && n < |children[parent]| && child == children[parent][n]
    requires child in numParents && counts == numParents[child := numParents[child] - 1]
    requires queue' == if counts[child] == 0 then queue + [child] else queue
    ensures Releasing(g, items, counts, children, done, parent, queue', n + 1)
    ensures child !in queue
  {
    CountsStep(numParents, counts, children, parent, n);
    assert numParents[child] > 0;
    forall x
      ensures x in queue' <==> x in counts && counts[x] == 0
    {
      if x != child {
        assert x in queue' <==> x in queue;
      }
    }
  }

  lemma FreedParents(g: Adjacency, items: set<Node>, numParents: Counts, children: Adjacency,
                     done: seq<Node>, parent: Node, queue: seq<Node>, n: nat, child: Node, p: Node)
    requires Releasing(g, items, numParents, children, done, parent, queue, n)
    requires child in numParents && numParents[child] == 0
    requires Edge(g, p, child)
    ensures p in done + [parent]
  {
    if p in children {
      LastParent(children, parent, n, child, p);
    } else {
      assert p in Sequences.Elements(done);
    }
  }

  lemma EndRelease(g: Adjacency, items: set<Node>, numParents: Counts, children: Adjacency,
                   done: seq<Node>, parent: Node, queue: seq<Node>)
    requires Releasing(g, items, numParents, children, done, parent, queue,
                       if parent in children then |children[parent]| else 0)
    ensures Placing(g, items, numParents, children - {parent}, done + [parent], queue)
  {
    ElementsAppend(done, parent);
    CountedAfterDelete(numParents, children, parent);
  }

  // ----- what is left when the sort fails

  /**
    What a cycle error carries: exactly the items on or below a cycle, their own
    lists of children, and for each of them the positive number of its remaining
    parent pairs.
   */
  ghost predicate CycleResidue(g: Adjacency, items: set<Node>, numParents: Counts, children: Adjacency) {
    && (forall x :: x in numParents <==> x in items && OnOrBelowCycle(g, x))
    && children == (map p | p in g && p in numParents :: g[p])
    && Counted(numParents, children)
    && (forall x :: x in numParents ==> numParents[x] > 0)
  }

  /** With no parentless item left, every remaining item has a remaining parent. */
  lemma StuckItemsUnbounded(g: Adjacency, items: set<Node>, numParents: Counts, children: Adjacency,
                            done: seq<Node>, x: Node)
    requires Placing(g, items, numParents, children, done, [])
    requires x in numParents
    ensures OnOrBelowCycle(g, x)
  {
    forall y {:trigger HasParentIn(g, numParents.Keys, y)} | y in numParents
      ensures HasParentIn(g, numParents.Keys, y)
    {
      NoSlotsIffNoParent(children, y);
      var p :| Edge(children, p, y);
      assert Edge(g, p, y);
    }
    forall k: nat
      ensures !ChainBound(g, x, k)
    {
      ParentedSetUnbounded(g, numParents.Keys, x, k);
    }
    UnboundedIffCycle(g, x);
  }

  /** The items that remain are those on or below a cycle. */
  lemma StuckExactly(g: Adjacency, items: set<Node>, numParents: Counts, children: Adjacency,
                     done: seq<Node>, x: Node)
    requires g.Keys <= items && x in items
    requires Placing(g, items, numParents, children, done, [])
    requires x !in numParents ==> Ranked(g, x)
    ensures x in numParents <==> OnOrBelowCycle(g, x)
  {
    if x in numParents {
      StuckItemsUnbounded(g, items, numParents, children, done, x);
    } else {
      RankedIffNotBelowCycle(g, x);
    }
  }

  lemma NoneParentless(g: Adjacency, items: set<Node>, numParents: Counts, children: Adjacency, done: seq<Node>)
    requires Placing(g, items, numParents, children, done, [])
    ensures forall x :: x in numParents ==> numParents[x] > 0
  {
    forall x | x in numParents
      ensures numParents[x] > 0
    {
      assert numParents[x] == |Slots(children, x)|;
      assert x !in [];
    }
  }

  lemma ChildrenLeft(g: Adjacency, items: set<Node>, numParents: Counts, children: Adjacency, done: seq<Node>)
    requires g.Keys <= items && Placing(g, items, numParents, children, done, [])
    ensures children == (map p | p in g && p in numParents :: g[p]) && Counted(numParents, children)
    ensures numParents.Keys <= items
  {
    assert forall p :: p in children <==> p in g && p in numParents;
  }

  lemma ResidueIsCyclic(g: Adjacency, items: set<Node>, numParents: Counts, children: Adjacency,
                        done: seq<Node>)
    requires g.Keys <= items
    requires Placing(g, items, numParents, children, done, [])
    requires forall x :: x in items && x !in numParents ==> Ranked(g, x)
    ensures CycleResidue(g, items, numParents, children)
  {
    forall x | x in items
      ensures x in numParents <==> OnOrBelowCycle(g, x)
    {
      StuckExactly(g, items, numParents, children, done, x);
    }
    NoneParentless(g, items, numParents, children, done);
    ChildrenLeft(g, items, numParents, children, done);
  }

  /** Nothing in the residue depends on the order in which items were placed. */
  lemma ResidueUnique(g: Adjacency, items: set<Node>,
                      np: Counts, ch: Adjacency, np': Counts, ch': Adjacency)
    requires CycleResidue(g, items, np, ch) && CycleResidue(g, items, np', ch')
    ensures np == np' && ch == ch'
  {
    assert np.Keys == np'.Keys;
    assert ch == ch';
    forall x | x in np
      ensures np[x] == np'[x]
    {
      assert np[x] == |Slots(ch, x)|;
    }
  }
}
