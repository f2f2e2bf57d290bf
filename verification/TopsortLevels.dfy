/**
  The level sort: round after round it yields every item without a remaining
  parent and takes those items out of the two dictionaries.
 */
module TopsortLevels {
  import Sequences
  import opened Graph
  import opened ParentCounts
  import Topsort

  /** What a consumer of the generator sees: the levels, then possibly an error. */
  datatype LevelsResult =
    | AllLevels(levels: seq<seq<Node>>)
    | LevelsThenCycleError(levels: seq<seq<Node>>, numParents: Counts, children: Adjacency)
    | LevelsThenKeyError(levels: seq<seq<Node>>)

  /** Level k lists, once each, the items whose longest chain of parents has k steps. */
  ghost predicate IsLevel(g: Adjacency, items: set<Node>, level: seq<Node>, k: nat) {
    && level != []
    && Sequences.Distinct(level)
    && (forall x :: x in level <==> x in items && LongestChain(g, x, k))
  }

  ghost predicate AreLevels(g: Adjacency, items: set<Node>, levels: seq<seq<Node>>) {
    forall k {:trigger IsLevel(g, items, levels[k], k)} :: 0 <= k < |levels| ==> IsLevel(g, items, levels[k], k)
  }

  /** The levels are right, and no ranked item is beyond the last one. */
  ghost predicate LevelsOf(g: Adjacency, items: set<Node>, levels: seq<seq<Node>>) {
    && AreLevels(g, items, levels)
    && (forall x :: x in items && Ranked(g, x) ==> ChainBound(g, x, |levels|))
  }

  /** After k rounds the dictionaries hold the items with chains of more than k nodes. */
  ghost predicate Deeper(g: Adjacency, items: set<Node>, numParents: Counts, k: nat) {
    forall x {:trigger ChainBound(g, x, k)} :: x in numParents <==> x in items && !ChainBound(g, x, k)
  }

  lemma ParentlessAreLevel(g: Adjacency, items: set<Node>, numParents: Counts, children: Adjacency,
                           done: seq<Node>, level: seq<Node>, k: nat)
    requires g.Keys <= items && Deeper(g, items, numParents, k)
    requires Placing(g, items, numParents, children, done, level)
    ensures forall x :: x in level <==> x in items && LongestChain(g, x, k)
  {
    forall x
      ensures x in level <==> x in items && LongestChain(g, x, k)
    {
      RankFromBounds(g, x, k);
      ChainBoundStep(g, x, k);
      if x in numParents {
        NoSlotsIffNoParent(children, x);
        forall p | Edge(g, p, x)
          ensures Edge(children, p, x) <==> !ChainBound(g, p, k)
        {
          assert p in items;
        }
      }
    }
  }

  lemma NextRound(g: Adjacency, items: set<Node>, numParents: Counts, numParents': Counts,
                  level: seq<Node>, k: nat)
    requires Deeper(g, items, numParents, k)
    requires forall x :: x in level <==> x in items && LongestChain(g, x, k)
    requires numParents'.Keys == numParents.Keys - Sequences.Elements(level)
    ensures Deeper(g, items, numParents', k + 1)
  {
    forall x
      ensures x in numParents' <==> x in items && !ChainBound(g, x, k + 1)
    {
      RankFromBounds(g, x, k);
      assert x in Sequences.Elements(level) <==> x in level;
      if ChainBound(g, x, k) {
        assert ChainBound(g, x, k + 1);
      }
    }
  }

  // ----- on any dictionaries

  /** The dictionaries after the items of placed have been taken out. */
  ghost predicate Without(counts: Counts, g: Adjacency, numParents: Counts, children: Adjacency, placed: seq<Node>) {
    && Sequences.Distinct(placed) && Sequences.Elements(placed) <= counts.Keys
    && numParents.Keys == counts.Keys - Sequences.Elements(placed)
    && children == g - Sequences.Elements(placed)
  }

  /** Item p of placed lists a child that is no key of the counts, or no longer one. */
  ghost predicate Misses(counts: Counts, g: Adjacency, placed: seq<Node>, p: int)
    requires 0 <= p < |placed|
  {
    placed[p] in g && exists c :: c in g[placed[p]] && (c !in counts || c in placed[..p + 1])
  }

  ghost predicate NoneMisses(counts: Counts, g: Adjacency, placed: seq<Node>) {
    forall p :: 0 <= p < |placed| ==> !Misses(counts, g, placed, p)
  }

  lemma MissesEarlier(counts: Counts, g: Adjacency, placed: seq<Node>, more: seq<Node>, p: int)
    requires 0 <= p < |placed|
    ensures Misses(counts, g, placed + more, p) <==> Misses(counts, g, placed, p)
  {
    assert (placed + more)[..p + 1] == placed[..p + 1];
  }

  lemma NoneMissesNext(counts: Counts, g: Adjacency, placed: seq<Node>, x: Node)
    requires NoneMisses(counts, g, placed) && !Misses(counts, g, placed + [x], |placed|)
    ensures NoneMisses(counts, g, placed + [x])
  {
    forall p | 0 <= p < |placed|
      ensures !Misses(counts, g, placed + [x], p)
    {
      MissesEarlier(counts, g, placed, [x], p);
    }
  }

  lemma MissesNow(counts: Counts, g: Adjacency, numParents: Counts, children: Adjacency, placed: seq<Node>, x: Node)
    requires Without(counts, g, numParents, children, placed) && x in numParents
    ensures Misses(counts, g, placed + [x], |placed|)
       <==> x in children && exists c :: c in children[x] && c !in numParents - {x}
  {
    var next := placed + [x];
    assert next[..|placed| + 1] == next;
    assert forall c :: c in next <==> c in Sequences.Elements(placed) || c == x;
  }

  lemma WithoutNext(counts: Counts, g: Adjacency, numParents: Counts, children: Adjacency, placed: seq<Node>,
                    x: Node, numParents': Counts)
    requires Without(counts, g, numParents, children, placed) && x in numParents
    requires numParents'.Keys == numParents.Keys - {x}
    ensures Without(counts, g, numParents', children - {x}, placed + [x])
  {
    ElementsAppend(placed, x);
  }

  // ----- taking a level out, on any dictionaries; with more known when they fit together

  /** Everything the queue sort keeps about dictionaries whose counts fit the lists. */
  ghost predicate Fitting(fits: bool, g: Adjacency, items: set<Node>, numParents: Counts, children: Adjacency,
                          done: seq<Node>, queue: seq<Node>)
  {
    fits ==> Placing(g, items, numParents, children, done, queue) && Sequences.Distinct(queue)
  }

  /** The counts when the first n of the listed children have lost a parent. */
  ghost function Decremented(numParents: Counts, listed: seq<Node>, n: nat): (counts: Counts)
    requires n <= |listed| && forall m :: 0 <= m < n ==> listed[m] in numParents
    ensures counts.Keys == numParents.Keys
  {
    if n == 0 then numParents
    else
      var counts := Decremented(numParents, listed, n - 1);
      counts[listed[n - 1] := counts[listed[n - 1]] - 1]
  }

  /** Decrements the counts of the children, up to the first child without a count. */
  method KnockDownChildren(numParents: Counts, listed: seq<Node>) returns (missing: bool, numParents': Counts)
    ensures missing <==> exists c :: c in listed && c !in numParents
    ensures !missing ==> numParents' == Decremented(numParents, listed, |listed|)
  {
    numParents' := numParents;
    for n := 0 to |listed|
      invariant forall m :: 0 <= m < n ==> listed[m] in numParents
      invariant numParents' == Decremented(numParents, listed, n)
    {
      if listed[n] !in numParents' {
        return true, numParents';
      }
      numParents' := numParents'[listed[n] := numParents'[listed[n]] - 1];
    }
    missing := false;
  }

  /** One child of parent loses a parent; it joins the queue if that was its last. */
  lemma OneReleased(g: Adjacency, items: set<Node>, numParents: Counts, children: Adjacency, done: seq<Node>,
                    parent: Node, queue: seq<Node>, n: nat, counts: Counts) returns (queue': seq<Node>)
    requires parent in children && n < |children[parent]| && children[parent][n] in numParents
    requires Releasing(g, items, numParents, children, done, parent, queue, n) && Sequences.Distinct(queue)
    requires counts == numParents[children[parent][n] := numParents[children[parent][n]] - 1]
    ensures Sequences.Distinct(queue') && queue <= queue'
    ensures Releasing(g, items, counts, children, done, parent, queue', n + 1)
  {
    var child := children[parent][n];
    queue' := if counts[child] == 0 then queue + [child] else queue;
    StepRelease(g, items, numParents, children, done, parent, queue, n, child, counts, queue');
  }

  lemma ChildrenCounted(g: Adjacency, items: set<Node>, numParents: Counts, children: Adjacency,
                        done: seq<Node>, parent: Node, queue: seq<Node>)
    requires parent in children && Releasing(g, items, numParents, children, done, parent, queue, 0)
    ensures forall c :: c in children[parent] ==> c in numParents
  {
    forall c | c in children[parent]
      ensures c in numParents
    {
      assert Edge(children, parent, c);
    }
  }

  lemma LongerStill(a: seq<Node>, b: seq<Node>, c: seq<Node>)
    requires a <= b <= c
    ensures a <= c
  {
  }

  /** On fitting dictionaries the children that lose their last parent join the queue. */
  lemma AllReleased(g: Adjacency, items: set<Node>, numParents: Counts, children: Adjacency,
                    done: seq<Node>, parent: Node, queue: seq<Node>)
      returns (queue': seq<Node>)
    requires parent in children && forall c :: c in children[parent] ==> c in numParents
    requires Releasing(g, items, numParents, children, done, parent, queue, 0) && Sequences.Distinct(queue)
    ensures Sequences.Distinct(queue') && queue <= queue'
    ensures Releasing(g, items, Decremented(numParents, children[parent], |children[parent]|), children,
                      done, parent, queue', |children[parent]|)
  {
    queue' := queue;
    var counts := numParents;
    for n := 0 to |children[parent]|
      invariant counts == Decremented(numParents, children[parent], n)
      invariant Sequences.Distinct(queue') && queue <= queue'
      invariant Releasing(g, items, counts, children, done, parent, queue', n)
    {
      var queue0, next := queue', Decremented(numParents, children[parent], n + 1);
      queue' := OneReleased(g, items, counts, children, done, parent, queue0, n, next);
      LongerStill(queue, queue0, queue');
      counts := next;
    }
  }

  /** One item of the level leaves the dictionaries. */
  method ReleaseItem(numParents: Counts, children: Adjacency, parent: Node, ghost fits: bool,
                     ghost counts: Counts, ghost g: Adjacency, ghost placed: seq<Node>, ghost queue: seq<Node>)
      returns (missing: bool, numParents': Counts, children': Adjacency, ghost queue': seq<Node>)
    requires Without(counts, g, numParents, children, placed) && parent in numParents
    requires Fitting(fits, g, counts.Keys, numParents, children, placed, [parent] + queue)
    ensures missing <==> Misses(counts, g, placed + [parent], |placed|)
    ensures missing ==> !fits
    ensures !missing ==> Without(counts, g, numParents', children', placed + [parent])
    ensures !missing ==> Fitting(fits, g, counts.Keys, numParents', children', placed + [parent], queue')
    ensures !missing && fits ==> queue <= queue'
  {
    ghost var items := counts.Keys;
    MissesNow(counts, g, numParents, children, placed, parent);
    if fits {
      HeadApart(parent, queue);
      StartRelease(g, items, numParents, children, placed, parent, queue);
    }
    missing, numParents', children', queue' := false, numParents - {parent}, children, queue;
    if parent in children {
      if fits {
        ChildrenCounted(g, items, numParents', children, placed, parent, queue);
        queue' := AllReleased(g, items, numParents', children, placed, parent, queue);
      }
      missing, numParents' := KnockDownChildren(numParents', children[parent]);
      if missing {
        return;
      }
      children' := children - {parent};
    }
    assert children' == children - {parent};
    WithoutNext(counts, g, numParents, children, placed, parent, numParents');
    if fits {
      EndRelease(g, items, numParents', children, placed, parent, queue');
    }
  }

  lemma HeadApart(x: Node, queue: seq<Node>)
    requires Sequences.Distinct([x] + queue)
    ensures Sequences.Distinct(queue) && x !in queue
  {
    Sequences.DistinctConcat([x], queue);
    assert forall j :: 0 <= j < |queue| ==> [x][0] != queue[j];
  }

  method ReleaseLevel(numParents: Counts, children: Adjacency, level: seq<Node>, ghost fits: bool,
                      ghost counts: Counts, ghost g: Adjacency, ghost placed: seq<Node>)
      returns (missing: bool, numParents': Counts, children': Adjacency)
    requires Without(counts, g, numParents, children, placed) && NoneMisses(counts, g, placed)
    requires Sequences.Distinct(level) && forall x :: x in level ==> x in numParents
    requires Fitting(fits, g, counts.Keys, numParents, children, placed, level)
    ensures missing <==> !NoneMisses(counts, g, placed + level)
    ensures missing ==> !fits
    ensures !missing ==> Without(counts, g, numParents', children', placed + level)
    ensures !missing && fits ==> Peeled(g, counts.Keys, numParents', children', placed + level)
  {
    missing, numParents', children' := false, numParents, children;
    ghost var queue := level;
    assert placed + level[..0] == placed;
    for i := 0 to |level|
      invariant Without(counts, g, numParents', children', placed + level[..i])
      invariant NoneMisses(counts, g, placed + level[..i])
      invariant Fitting(fits, g, counts.Keys, numParents', children', placed + level[..i], queue)
      invariant fits ==> level[i..] <= queue
    {
      ghost var before, rest := placed + level[..i], if fits then queue[1..] else [];
      StillCounted(numParents, numParents', counts, g, children', placed, level, i);
      if fits {
        HeadOfLevel(level, queue, i);
      }
      missing, numParents', children', queue :=
        ReleaseItem(numParents', children', level[i], fits, counts, g, before, rest);
      LevelNext(placed, level, i);
      if missing {
        MissesInLevel(counts, g, placed, level, i);
        return;
      }
      NoneMissesNext(counts, g, before, level[i]);
    }
    assert level[..|level|] == level;
  }

  lemma StillCounted(numParents: Counts, numParents': Counts, counts: Counts, g: Adjacency, children': Adjacency,
                     placed: seq<Node>, level: seq<Node>, i: nat)
    requires i < |level| && Sequences.Distinct(level) && level[i] in numParents
    requires numParents.Keys == counts.Keys - Sequences.Elements(placed)
    requires Without(counts, g, numParents', children', placed + level[..i])
    ensures level[i] in numParents'
  {
    assert level[i] !in level[..i];
    assert level[i] !in Sequences.Elements(placed);
  }

  lemma HeadOfLevel(level: seq<Node>, queue: seq<Node>, i: nat)
    requires i < |level| && level[i..] <= queue
    ensures queue == [level[i]] + queue[1..] && level[i + 1..] <= queue[1..]
  {
    assert level[i..][0] == level[i] == queue[0] && level[i..][1..] == level[i + 1..];
  }

  lemma LevelNext(placed: seq<Node>, level: seq<Node>, i: nat)
    requires i < |level|
    ensures placed + level[..i] + [level[i]] == placed + level[..i + 1]
  {
  }

  lemma MissesInLevel(counts: Counts, g: Adjacency, placed: seq<Node>, level: seq<Node>, i: nat)
    requires i < |level|
    requires Misses(counts, g, placed + level[..i + 1], |placed| + i)
    ensures !NoneMisses(counts, g, placed + level)
  {
    MissesEarlier(counts, g, placed + level[..i + 1], level[i + 1..], |placed| + i);
    assert placed + level[..i + 1] + level[i + 1..] == placed + level;
  }

  lemma AppendLevel(g: Adjacency, items: set<Node>, levels: seq<seq<Node>>, level: seq<Node>)
    requires AreLevels(g, items, levels) && IsLevel(g, items, level, |levels|)
    ensures AreLevels(g, items, levels + [level])
  {
    forall k | 0 <= k < |levels| + 1
      ensures IsLevel(g, items, (levels + [level])[k], k)
    {
      if k < |levels| {
        assert IsLevel(g, items, levels[k], k);
      }
    }
  }

  lemma StartLevels(counts: Counts, g: Adjacency)
    requires Counted(counts, g)
    ensures Peeled(g, counts.Keys, counts, g, [])
    ensures Deeper(g, counts.Keys, counts, 0)
    ensures Nodes(g) <= counts.Keys
  {
    forall x
      ensures !ChainBound(g, x, 0)
    {
      ChainBoundPositive(g, x);
    }
    assert g - Sequences.Elements<Node>([]) == g;
    forall x | x in Nodes(g)
      ensures x in counts
    {
      if x !in g.Keys {
        var p :| p in g && x in g[p];
        assert Edge(g, p, x);
      }
    }
  }

  lemma LevelsOutcome(g: Adjacency, items: set<Node>, numParents: Counts, children: Adjacency,
                      done: seq<Node>, levels: seq<seq<Node>>)
    requires Nodes(g) <= items
    requires Placing(g, items, numParents, children, done, [])
    requires Deeper(g, items, numParents, |levels|)
    requires AreLevels(g, items, levels)
    ensures LevelsOf(g, items, levels)
    ensures CycleResidue(g, items, numParents, children)
    ensures numParents == map[] <==> Acyclic(g)
  {
    forall x | x in items && x !in numParents
      ensures Ranked(g, x)
    {
      assert ChainBound(g, x, |levels|);
      BoundedHasRank(g, x, |levels|);
    }
    ResidueIsCyclic(g, items, numParents, children, done);
    AcyclicIffNoneBelow(g, items);
    forall x | x in items && Ranked(g, x)
      ensures ChainBound(g, x, |levels|)
    {
      RankedIffNotBelowCycle(g, x);
    }
  }

  /** The levels are right, and an error follows them exactly when g has a cycle. */
  ghost predicate IsLevelSort(g: Adjacency, items: set<Node>, result: LevelsResult) {
    && LevelsOf(g, items, result.levels)
    && !result.LevelsThenKeyError?
    && (result.AllLevels? <==> Acyclic(g))
    && (result.LevelsThenCycleError? ==> CycleResidue(g, items, result.numParents, result.children))
  }

  ghost function Flat(levels: seq<seq<Node>>): seq<Node> {
    if levels == [] then [] else Flat(levels[..|levels| - 1]) + levels[|levels| - 1]
  }

  /**
    On any dictionaries: every key comes in at most one level; the missing-key
    error comes exactly when a placed item lists a child that is no key or is
    placed already; otherwise all keys are placed, or none of those left has
    count zero.
   */
  ghost predicate IsPeeling(counts: Counts, g: Adjacency, result: LevelsResult) {
    var placed := Flat(result.levels);
    && Sequences.Distinct(placed) && Sequences.Elements(placed) <= counts.Keys
    && (result.LevelsThenKeyError? <==> !NoneMisses(counts, g, placed))
    && (result.AllLevels? ==> Sequences.Elements(placed) == counts.Keys)
    && (result.LevelsThenCycleError? ==>
          && Without(counts, g, result.numParents, result.children, placed) && result.numParents != map[]
          && forall x :: x in result.numParents ==> result.numParents[x] != 0)
  }

  /** Between two rounds, on dictionaries that fit together. */
  ghost predicate LevelsSoFar(fits: bool, g: Adjacency, items: set<Node>, numParents: Counts, children: Adjacency,
                              levels: seq<seq<Node>>)
  {
    fits ==>
      && Nodes(g) <= items && Peeled(g, items, numParents, children, Flat(levels))
      && Deeper(g, items, numParents, |levels|) && AreLevels(g, items, levels)
  }

  lemma LevelDistinct(counts: Counts, g: Adjacency, numParents: Counts, children: Adjacency, placed: seq<Node>,
                      level: seq<Node>)
    requires Without(counts, g, numParents, children, placed)
    requires Sequences.Distinct(level) && forall x :: x in level ==> x in numParents
    ensures Sequences.Distinct(placed + level) && Sequences.Elements(placed + level) <= counts.Keys
  {
    Sequences.ApartFrom(placed, level);
    Sequences.DistinctConcat(placed, level);
  }

  lemma FlatNext(levels: seq<seq<Node>>, level: seq<Node>)
    ensures Flat(levels + [level]) == Flat(levels) + level
  {
    assert (levels + [level])[..|levels|] == levels;
  }

  /** The levels of dictionaries that fit together grow by the right level. */
  lemma RoundFits(g: Adjacency, items: set<Node>, numParents: Counts, children: Adjacency, levels: seq<seq<Node>>,
                  level: seq<Node>, numParents': Counts, children': Adjacency)
    requires LevelsSoFar(true, g, items, numParents, children, levels) && level != [] && Sequences.Distinct(level)
    requires Placing(g, items, numParents, children, Flat(levels), level)
    requires Peeled(g, items, numParents', children', Flat(levels) + level)
    ensures LevelsSoFar(true, g, items, numParents', children', levels + [level])
  {
    var done := Flat(levels);
    ParentlessAreLevel(g, items, numParents, children, done, level, |levels|);
    assert Sequences.Elements(done + level) == Sequences.Elements(done) + Sequences.Elements(level);
    NextRound(g, items, numParents, numParents', level, |levels|);
    AppendLevel(g, items, levels, level);
    FlatNext(levels, level);
  }

  /**
    Yields the levels. Dictionaries whose counts fit the lists give the items of
    each rank, level by level; others may run into a missing key.
   */
  method TopsortLevelsCore(counts: Counts, g: Adjacency) returns (result: LevelsResult)
    ensures IsPeeling(counts, g, result)
    ensures Counted(counts, g) ==> IsLevelSort(g, counts.Keys, result)
  {
    var numParents, children, levels := counts, g, [];
    ghost var items, fits := counts.Keys, Counted(counts, g);
    if fits {
      StartLevels(counts, g);
    }
    assert g - Sequences.Elements<Node>([]) == g;
    while true
      invariant Without(counts, g, numParents, children, Flat(levels)) && NoneMisses(counts, g, Flat(levels))
      invariant LevelsSoFar(fits, g, items, numParents, children, levels)
      decreases numParents.Keys
    {
      var level := Parentless(numParents);
      if level == [] {
        if fits {
          LevelsOutcome(g, items, numParents, children, Flat(levels), levels);
        }
        break;
      }
      assert level[0] in level;
      ghost var numParents0, children0, placed := numParents, children, Flat(levels);
      LevelDistinct(counts, g, numParents, children, placed, level);
      FlatNext(levels, level);
      var missing;
      missing, numParents, children := ReleaseLevel(numParents, children, level, fits, counts, g, placed);
      if missing {
        return LevelsThenKeyError(levels + [level]);
      }
      if fits {
        RoundFits(g, items, numParents0, children0, levels, level, numParents, children);
      }
      levels := levels + [level];
    }
    if numParents == map[] {
      return AllLevels(levels);
    }
    return LevelsThenCycleError(levels, numParents, children);
  }

  method TopsortLevels(pairs: seq<(Node, Node)>) returns (result: LevelsResult)
    ensures IsLevelSort(AdjacencyOf(pairs), Mentioned(pairs), result)
  {
    var numParents, children := BuildTables(pairs);
    result := TopsortLevelsCore(numParents, children);
  }

  // ----- the queue sort refines the level sort

  /** The answer is the levels one after the other, each permuted within itself. */
  ghost predicate InBlocks(answer: seq<Node>, levels: seq<seq<Node>>)
    decreases |levels|
  {
    if levels == [] then answer == []
    else
      && |levels[0]| <= |answer|
      && multiset(answer[..|levels[0]|]) == multiset(levels[0])
      && InBlocks(answer[|levels[0]|..], levels[1..])
  }

  /** Distinct items by rank, from rank k on: what is left of an answer behind its first k levels. */
  ghost predicate TailFrom(g: Adjacency, items: set<Node>, answer: seq<Node>, k: nat) {
    && Sequences.Distinct(answer)
    && (forall x :: x in answer <==> x in items && Ranked(g, x) && Rank(g, x) >= k)
    && (forall i, j {:trigger Rank(g, answer[i]), Rank(g, answer[j])} :: 0 <= i < j < |answer| ==>
          answer[i] in answer && answer[j] in answer && Rank(g, answer[i]) <= Rank(g, answer[j]))
  }

  lemma {:induction false} DistinctMultiset<T>(s: seq<T>, x: T)
    requires Sequences.Distinct(s)
    ensures multiset(s)[x] == if x in s then 1 else 0
  {
    if s != [] {
      var n := |s| - 1;
      DistinctMultiset(s[..n], x);
      assert s == s[..n] + [s[n]];
    }
  }

  lemma SameElements<T>(s: seq<T>, t: seq<T>)
    requires Sequences.Distinct(s) && Sequences.Distinct(t)
    requires forall x :: x in s <==> x in t
    ensures multiset(s) == multiset(t) && |s| == |t|
  {
    forall x
      ensures multiset(s)[x] == multiset(t)[x]
    {
      DistinctMultiset(s, x);
      DistinctMultiset(t, x);
    }
    assert multiset(s) == multiset(t);
    assert |multiset(s)| == |s|;
  }

  /** The items of rank k come first in a tail from rank k. */
  lemma LowestRankFirst(g: Adjacency, items: set<Node>, answer: seq<Node>, k: nat) returns (m: nat)
    requires TailFrom(g, items, answer, k)
    ensures m <= |answer|
    ensures forall i :: 0 <= i < |answer| ==> answer[i] in answer && (Rank(g, answer[i]) == k <==> i < m)
  {
    m := 0;
    while m < |answer| && Rank(g, answer[m]) == k
      invariant m <= |answer|
      invariant forall i :: 0 <= i < m ==> answer[i] in answer && Rank(g, answer[i]) == k
    {
      m := m + 1;
    }
  }

  lemma RankedPart(g: Adjacency, items: set<Node>, answer: seq<Node>, k: nat, m: nat, x: Node)
    requires TailFrom(g, items, answer, k) && m <= |answer|
    requires forall i :: 0 <= i < |answer| ==> answer[i] in answer && (Rank(g, answer[i]) == k <==> i < m)
    ensures x in answer[..m] <==> x in items && LongestChain(g, x, k)
    ensures x in answer[m..] <==> x in items && Ranked(g, x) && Rank(g, x) >= k + 1
  {
    if LongestChain(g, x, k) {
      RankUnique(g, x, k);
    }
    if x in answer {
      var i :| 0 <= i < |answer| && answer[i] == x;
      assert i < m ==> answer[..m][i] == x;
      assert i >= m ==> answer[m..][i - m] == x;
    }
  }

  lemma NextTail(g: Adjacency, items: set<Node>, answer: seq<Node>, k: nat, m: nat, level: seq<Node>)
    requires TailFrom(g, items, answer, k) && m <= |answer| && IsLevel(g, items, level, k)
    requires forall i :: 0 <= i < |answer| ==> answer[i] in answer && (Rank(g, answer[i]) == k <==> i < m)
    ensures multiset(answer[..m]) == multiset(level) && m == |level|
    ensures TailFrom(g, items, answer[m..], k + 1)
  {
    forall x
      ensures x in answer[..m] <==> x in level
      ensures x in answer[m..] <==> x in items && Ranked(g, x) && Rank(g, x) >= k + 1
    {
      RankedPart(g, items, answer, k, m, x);
    }
    SameElements(answer[..m], level);
  }

  lemma {:induction false} TailInBlocks(g: Adjacency, items: set<Node>, answer: seq<Node>,
                                        levels: seq<seq<Node>>, k: nat)
    requires k <= |levels| && LevelsOf(g, items, levels)
    requires TailFrom(g, items, answer, k)
    ensures InBlocks(answer, levels[k..])
    decreases |levels| - k
  {
    if k == |levels| {
      if answer != [] {
        assert answer[0] in answer;
        RankBelow(g, answer[0], k);
      }
    } else {
      var m := LowestRankFirst(g, items, answer, k);
      assert IsLevel(g, items, levels[k], k);
      NextTail(g, items, answer, k, m, levels[k]);
      TailInBlocks(g, items, answer[m..], levels, k + 1);
      Topsort.SplitHead([], levels[k..]);
      assert levels[k..][1..] == levels[k + 1..];
    }
  }

  /**
    Whatever order the dictionaries are walked in, and with or without a cycle,
    the queue sort's answer is the concatenation of the level sort's levels up to
    the order inside each level.
   */
  lemma QueueRefinesLevels(g: Adjacency, items: set<Node>, answer: seq<Node>, levels: seq<seq<Node>>)
    requires Topsort.SortedPart(g, items, answer)
    requires LevelsOf(g, items, levels)
    ensures InBlocks(answer, levels)
  {
    forall x
      ensures x in answer <==> x in items && Ranked(g, x) && Rank(g, x) >= 0
    {
      RankedIffNotBelowCycle(g, x);
    }
    TailInBlocks(g, items, answer, levels, 0);
    assert levels[0..] == levels;
  }

  /** Run on the same pairs, the two sorts agree on failure, on the residue and on the order. */
  lemma SortsAgree(g: Adjacency, items: set<Node>, queue: Topsort.SortResult, levels: LevelsResult)
    requires Topsort.IsSort(g, items, queue) && IsLevelSort(g, items, levels)
    ensures queue.Sorted? <==> levels.AllLevels?
    ensures InBlocks(queue.answer, levels.levels)
    ensures queue.CycleError? ==>
      queue.numParents == levels.numParents && queue.children == levels.children
  {
    QueueRefinesLevels(g, items, queue.answer, levels.levels);
    if queue.CycleError? {
      ResidueUnique(g, items, queue.numParents, queue.children, levels.numParents, levels.children);
    }
  }
}
