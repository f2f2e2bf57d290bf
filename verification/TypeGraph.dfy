/**
  Walks in a graph with named, parallel steps: from every node a list of steps,
  each with a name and a target.  The module gives the order in which a
  depth-first search comes to the simple walks from a node, and proves that it
  comes to each of them exactly once.
 */
module TypeGraph {
  import Sequences

  type TypeId(==, !new)

  datatype Step = Step(name: string, target: TypeId)

  type Graph = map<TypeId, seq<Step>>

  /** Every step leads to a node of the graph. */
  ghost predicate Closed(g: Graph) {
    forall t, i {:trigger g[t][i]} :: t in g && 0 <= i < |g[t]| ==> g[t][i].target in g
  }

  // ----- walks: the numbers of the steps taken one after the other

  ghost predicate IsWalk(g: Graph, t: TypeId, w: seq<nat>)
    requires Closed(g)
  {
    t in g &&
    (w == [] || (w[0] < |g[t]| && IsWalk(g, g[t][w[0]].target, w[1..])))
  }

  /** The types a walk visits, its start included. */
  ghost function Visited(g: Graph, t: TypeId, w: seq<nat>): seq<TypeId>
    requires Closed(g) && IsWalk(g, t, w)
  {
    [t] + if w == [] then [] else Visited(g, g[t][w[0]].target, w[1..])
  }

  ghost function Labels(g: Graph, t: TypeId, w: seq<nat>): seq<string>
    requires Closed(g) && IsWalk(g, t, w)
  {
    if w == [] then [] else [g[t][w[0]].name] + Labels(g, g[t][w[0]].target, w[1..])
  }

  /** A walk through distinct types, none of them in the given list. */
  ghost predicate SimpleWalk(g: Graph, onPath: seq<TypeId>, t: TypeId, w: seq<nat>)
    requires Closed(g)
  {
    && IsWalk(g, t, w)
    && Sequences.Distinct(Visited(g, t, w))
    && forall x :: x in Visited(g, t, w) ==> x !in onPath
  }

  // ----- the walks in the order the generator finds them

  ghost function Free(g: Graph, onPath: seq<TypeId>): set<TypeId> {
    g.Keys - set x | x in onPath
  }

  ghost function Prefixed(i: nat, ws: seq<seq<nat>>): seq<seq<nat>> {
    seq(|ws|, k requires 0 <= k < |ws| => [i] + ws[k])
  }

  /** All walks from t that avoid onPath and themselves, each before its extensions. */
  ghost function Walks(g: Graph, onPath: seq<TypeId>, t: TypeId): (ws: seq<seq<nat>>)
    requires Closed(g) && t in g
    ensures forall w :: w in ws ==> IsWalk(g, t, w)
    decreases Free(g, onPath), 1, 0
  {
    if t in onPath then []
    else
      assert t in Free(g, onPath) && t !in Free(g, onPath + [t]);
      assert Free(g, onPath + [t]) <= Free(g, onPath);
      [[]] + WalksUpTo(g, onPath + [t], t, |g[t]|)
  }

  /** The walks from t through one of its first n steps. */
  ghost function WalksUpTo(g: Graph, onPath: seq<TypeId>, t: TypeId, n: nat): (ws: seq<seq<nat>>)
    requires Closed(g) && t in g && n <= |g[t]|
    ensures forall w :: w in ws ==> IsWalk(g, t, w)
    decreases Free(g, onPath), 2, n
  {
    if n == 0 then []
    else
      var target := g[t][n - 1].target;
      WalksUpTo(g, onPath, t, n - 1) + Prefixed(n - 1, Walks(g, onPath, target))
  }

  lemma InPrefixed(i: nat, ws: seq<seq<nat>>, w: seq<nat>)
    ensures w in Prefixed(i, ws) <==> w != [] && w[0] == i && w[1..] in ws
  {
    if w in Prefixed(i, ws) {
      var k :| 0 <= k < |ws| && Prefixed(i, ws)[k] == w;
      assert w[1..] == ws[k];
    }
    if w != [] && w[0] == i && w[1..] in ws {
      var k :| 0 <= k < |ws| && ws[k] == w[1..];
      assert Prefixed(i, ws)[k] == w;
    }
  }

  lemma PrefixedDistinct(i: nat, ws: seq<seq<nat>>)
    requires Sequences.Distinct(ws)
    ensures Sequences.Distinct(Prefixed(i, ws))
  {
    forall j, k | 0 <= j < k < |ws|
      ensures Prefixed(i, ws)[j] != Prefixed(i, ws)[k]
    {
      assert Prefixed(i, ws)[j][1..] == ws[j] && Prefixed(i, ws)[k][1..] == ws[k];
    }
  }

  /** A walk is simple when its first step leaves t for good. */
  lemma SimpleWalkStep(g: Graph, onPath: seq<TypeId>, t: TypeId, w: seq<nat>)
    requires Closed(g) && t in g && t !in onPath
    requires w != [] && w[0] < |g[t]|
    ensures SimpleWalk(g, onPath, t, w)
       <==> SimpleWalk(g, onPath + [t], g[t][w[0]].target, w[1..])
  {
    var target := g[t][w[0]].target;
    if IsWalk(g, target, w[1..]) {
      var rest := Visited(g, target, w[1..]);
      var all := Visited(g, t, w);
      assert all == [t] + rest;
      assert forall x :: x in onPath + [t] <==> x in onPath || x == t;
      if SimpleWalk(g, onPath, t, w) {
        forall i | 0 <= i < |rest|
          ensures rest[i] != t && rest[i] !in onPath
        {
          assert rest[i] == all[i + 1] && all[0] != all[i + 1];
          assert all[i + 1] in all;
        }
        forall i, j | 0 <= i < j < |rest|
          ensures rest[i] != rest[j]
        {
          assert rest[i] == all[i + 1] && rest[j] == all[j + 1];
        }
      }
      if SimpleWalk(g, onPath + [t], target, w[1..]) {
        Sequences.ApartFrom([t], rest);
        Sequences.DistinctConcat([t], rest);
      }
    }
  }

  /**
    The generator's order lists every simple walk exactly once: soundness,
    completeness and the absence of repetitions in one.
   */
  lemma {:induction false} WalksAreSimpleWalks(g: Graph, onPath: seq<TypeId>, t: TypeId)
    requires Closed(g) && t in g
    ensures forall w :: w in Walks(g, onPath, t) <==> SimpleWalk(g, onPath, t, w)
    ensures Sequences.Distinct(Walks(g, onPath, t))
    decreases Free(g, onPath), 1, 0
  {
    if t in onPath {
      forall w
        ensures !SimpleWalk(g, onPath, t, w)
      {
        assert IsWalk(g, t, w) ==> t == Visited(g, t, w)[0];
      }
    } else {
      assert t in Free(g, onPath) && t !in Free(g, onPath + [t]);
      assert Free(g, onPath + [t]) <= Free(g, onPath);
      var n := |g[t]|;
      WalksThroughSteps(g, onPath + [t], t, n);
      forall w
        ensures w in Walks(g, onPath, t) <==> SimpleWalk(g, onPath, t, w)
      {
        if w == [] {
          assert Visited(g, t, w) == [t];
        } else if w[0] < n {
          SimpleWalkStep(g, onPath, t, w);
        }
      }
      Sequences.ApartFrom([[]], WalksUpTo(g, onPath + [t], t, n));
      Sequences.DistinctConcat([[]], WalksUpTo(g, onPath + [t], t, n));
    }
  }

  lemma {:induction false} WalksThroughSteps(g: Graph, onPath: seq<TypeId>, t: TypeId, n: nat)
    requires Closed(g) && t in g && n <= |g[t]|
    ensures forall w :: w in WalksUpTo(g, onPath, t, n) <==>
      w != [] && w[0] < n && SimpleWalk(g, onPath, g[t][w[0]].target, w[1..])
    ensures Sequences.Distinct(WalksUpTo(g, onPath, t, n))
    decreases Free(g, onPath), 2, n
  {
    if n > 0 {
      var target := g[t][n - 1].target;
      WalksThroughSteps(g, onPath, t, n - 1);
      WalksAreSimpleWalks(g, onPath, target);
      var ws := Walks(g, onPath, target);
      var before, added := WalksUpTo(g, onPath, t, n - 1), Prefixed(n - 1, ws);
      forall w
        ensures w in before + added <==>
          w != [] && w[0] < n && SimpleWalk(g, onPath, g[t][w[0]].target, w[1..])
        ensures w in added ==> w !in before
      {
        InPrefixed(n - 1, ws, w);
      }
      PrefixedDistinct(n - 1, ws);
      Sequences.ApartFrom(before, added);
      Sequences.DistinctConcat(before, added);
      assert WalksUpTo(g, onPath, t, n) == before + added;
    }
  }

  // ----- what the generator records for a walk

  /** Every name of the path behind a slash. */
  function PathString(path: seq<string>): string {
    if path == [] then "" else PathString(path[..|path| - 1]) + "/" + path[|path| - 1]
  }

  /** The type a walk ends at, and the configuration path that leads there. */
  ghost function Entry(g: Graph, t: TypeId, path: seq<string>, w: seq<nat>): (TypeId, string)
    requires Closed(g) && IsWalk(g, t, w)
  {
    var visited := Visited(g, t, w);
    (visited[|visited| - 1], PathString(path + Labels(g, t, w)))
  }

  ghost function Entries(g: Graph, t: TypeId, path: seq<string>, ws: seq<seq<nat>>): (es: seq<(TypeId, string)>)
    requires Closed(g) && forall w :: w in ws ==> IsWalk(g, t, w)
    ensures |es| == |ws| && forall k :: 0 <= k < |ws| ==> es[k] == Entry(g, t, path, ws[k])
  {
    seq(|ws|, k requires 0 <= k < |ws| => assert ws[k] in ws; Entry(g, t, path, ws[k]))
  }

  lemma EntriesConcat(g: Graph, t: TypeId, path: seq<string>, v: seq<seq<nat>>, w: seq<seq<nat>>)
    requires Closed(g) && forall x :: x in v || x in w ==> IsWalk(g, t, x)
    ensures Entries(g, t, path, v + w) == Entries(g, t, path, v) + Entries(g, t, path, w)
  {
  }

  lemma EntriesPrefixed(g: Graph, t: TypeId, path: seq<string>, i: nat, ws: seq<seq<nat>>)
    requires Closed(g) && t in g && i < |g[t]|
    requires forall w :: w in ws ==> IsWalk(g, g[t][i].target, w)
    ensures forall w :: w in Prefixed(i, ws) ==> IsWalk(g, t, w)
    ensures Entries(g, t, path, Prefixed(i, ws))
         == Entries(g, g[t][i].target, path + [g[t][i].name], ws)
  {
    var step := g[t][i];
    forall w | w in Prefixed(i, ws)
      ensures IsWalk(g, t, w)
    {
      InPrefixed(i, ws, w);
    }
    forall k | 0 <= k < |ws|
      ensures Entry(g, t, path, Prefixed(i, ws)[k]) == Entry(g, step.target, path + [step.name], ws[k])
    {
      assert ws[k] in ws && Prefixed(i, ws)[k] in Prefixed(i, ws);
      assert ([i] + ws[k])[1..] == ws[k];
      var rest := Labels(g, step.target, ws[k]);
      assert path + ([step.name] + rest) == path + [step.name] + rest;
    }
  }

  /** The entries for t itself and for the walks through its first n steps. */
  ghost function FirstEntries(g: Graph, t: TypeId, path: seq<string>, onPath: seq<TypeId>, n: nat)
      : (es: seq<(TypeId, string)>)
    requires Closed(g) && t in g && n <= |g[t]|
    ensures n == 0 ==> es == [(t, PathString(path))]
  {
    var ws := [[]] + WalksUpTo(g, onPath + [t], t, n);
    var es := Entries(g, t, path, ws);
    assert n == 0 ==> es == [(t, PathString(path))] by {
      if n == 0 {
        assert ws == [[]] && es[0] == Entry(g, t, path, []);
        assert path + [] == path;
      }
    }
    es
  }

  lemma FreeShrinks(g: Graph, onPath: seq<TypeId>, t: TypeId)
    requires t in g && t !in onPath
    ensures Free(g, onPath + [t]) < Free(g, onPath)
  {
    assert t in Free(g, onPath) && t !in Free(g, onPath + [t]);
  }

  lemma FirstEntriesNext(g: Graph, t: TypeId, path: seq<string>, onPath: seq<TypeId>, n: nat)
    requires Closed(g) && t in g && n < |g[t]|
    ensures FirstEntries(g, t, path, onPath, n + 1)
         == FirstEntries(g, t, path, onPath, n)
            + Entries(g, g[t][n].target, path + [g[t][n].name], Walks(g, onPath + [t], g[t][n].target))
  {
    var before := [[]] + WalksUpTo(g, onPath + [t], t, n);
    var ws := Walks(g, onPath + [t], g[t][n].target);
    EntriesPrefixed(g, t, path, n, ws);
    EntriesConcat(g, t, path, before, Prefixed(n, ws));
    Sequences.ConcatAssociative([[]], WalksUpTo(g, onPath + [t], t, n), Prefixed(n, ws));
  }

  lemma AllEntries(g: Graph, t: TypeId, path: seq<string>, onPath: seq<TypeId>)
    requires Closed(g) && t in g && t !in onPath
    ensures FirstEntries(g, t, path, onPath, |g[t]|) == Entries(g, t, path, Walks(g, onPath, t))
  {
  }
}
