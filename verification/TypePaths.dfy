/**
  What is recorded for a walk: the type it ends at, and the names of its steps,
  each behind a slash.  The walks come in depth-first order.
 */
module TypePaths {
  import Sequences
  import opened TypeGraph

  // ----- path strings

  /** A path string is put together name by name, from the first to the last. */
  lemma {:induction false} PathLaws(a: seq<string>, b: seq<string>, name: string)
    ensures PathString([]) == "" && PathString([name]) == "/" + name
    ensures PathString(a + b) == PathString(a) + PathString(b)
  {
    assert [name][..0] == [];
    if b == [] {
      assert a + b == a;
    } else {
      var n := |b| - 1;
      assert (a + b)[..|a| + n] == a + b[..n];
      PathLaws(a, b[..n], name);
    }
  }

  ghost predicate NoSlash(path: seq<string>) {
    forall i :: 0 <= i < |path| ==> '/' !in path[i]
  }

  lemma LastName(s: string, name: string, s': string, name': string)
    requires '/' !in name && '/' !in name' && s + "/" + name == s' + "/" + name'
    ensures s == s' && name == name'
  {
    var t := s + "/" + name;
    assert t[|s|] == '/' && t[|s'|] == '/';
    assert forall i :: |s| < i < |t| ==> t[i] == name[i - |s| - 1];
    assert forall i :: |s'| < i < |t| ==> t[i] == name'[i - |s'| - 1];
    assert s == t[..|s|] && s' == t[..|s'|];
    assert name == t[|s| + 1..] && name' == t[|s'| + 1..];
  }

  /** As long as no name holds a slash, different paths have different strings. */
  lemma {:induction false} PathInjective(a: seq<string>, b: seq<string>)
    requires NoSlash(a) && NoSlash(b) && PathString(a) == PathString(b)
    ensures a == b
    decreases |a|
  {
    if a != [] && b != [] {
      var m, n := |a| - 1, |b| - 1;
      LastName(PathString(a[..m]), a[m], PathString(b[..n]), b[n]);
      PathInjective(a[..m], b[..n]);
      assert a == a[..m] + [a[m]] && b == b[..n] + [b[n]];
    }
  }

  // ----- entries

  /** The types a walk comes to and the names it collects, step by step. */
  lemma {:induction false} WalkAt(g: Graph, t: TypeId, w: seq<nat>, k: nat)
    requires Closed(g) && IsWalk(g, t, w) && k < |w|
    ensures |Visited(g, t, w)| == |w| + 1 && |Labels(g, t, w)| == |w| && Visited(g, t, w)[0] == t
    ensures var u := Visited(g, t, w)[k];
      && u in g && w[k] < |g[u]|
      && Visited(g, t, w)[k + 1] == g[u][w[k]].target && Labels(g, t, w)[k] == g[u][w[k]].name
    decreases |w|
  {
    var target := g[t][w[0]].target;
    WalkSizes(g, target, w[1..]);
    if k > 0 {
      WalkAt(g, target, w[1..], k - 1);
    }
  }

  lemma {:induction false} WalkSizes(g: Graph, t: TypeId, w: seq<nat>)
    requires Closed(g) && IsWalk(g, t, w)
    ensures |Visited(g, t, w)| == |w| + 1 && |Labels(g, t, w)| == |w| && Visited(g, t, w)[0] == t
    decreases |w|
  {
    if w != [] {
      WalkSizes(g, g[t][w[0]].target, w[1..]);
    }
  }

  /** An entry holds the last type of its walk, and the path so far followed by the walk's own. */
  lemma EntryAlong(g: Graph, t: TypeId, path: seq<string>, w: seq<nat>)
    requires Closed(g) && IsWalk(g, t, w)
    ensures |Visited(g, t, w)| == |w| + 1
    ensures Entry(g, t, path, w)
         == (Visited(g, t, w)[|w|], PathString(path) + PathString(Labels(g, t, w)))
  {
    WalkSizes(g, t, w);
    PathLaws(path, Labels(g, t, w), "");
  }

  // ----- depth-first order

  /** A walk comes before its extensions, and before those that leave it by a later step. */
  ghost predicate Precedes(v: seq<nat>, w: seq<nat>)
    decreases |v|
  {
    w != [] && (v == [] || v[0] < w[0] || (v[0] == w[0] && Precedes(v[1..], w[1..])))
  }

  ghost predicate DepthFirst(ws: seq<seq<nat>>) {
    forall i, j :: 0 <= i < j < |ws| ==> Precedes(ws[i], ws[j])
  }

  lemma PrefixedOrder(i: nat, ws: seq<seq<nat>>)
    requires DepthFirst(ws)
    ensures DepthFirst(Prefixed(i, ws))
  {
    forall j, k | 0 <= j < k < |ws|
      ensures Precedes(Prefixed(i, ws)[j], Prefixed(i, ws)[k])
    {
      assert Prefixed(i, ws)[j][1..] == ws[j] && Prefixed(i, ws)[k][1..] == ws[k];
    }
  }

  lemma OrderConcat(a: seq<seq<nat>>, b: seq<seq<nat>>)
    requires DepthFirst(a) && DepthFirst(b)
    requires forall i, j :: 0 <= i < |a| && 0 <= j < |b| ==> Precedes(a[i], b[j])
    ensures DepthFirst(a + b)
  {
  }

  /** The walks are found in depth-first order. */
  lemma {:induction false} WalksInOrder(g: Graph, onPath: seq<TypeId>, t: TypeId)
    requires Closed(g) && t in g
    ensures DepthFirst(Walks(g, onPath, t))
    decreases Free(g, onPath), 1, 0
  {
    if t !in onPath {
      FreeShrinks(g, onPath, t);
      WalksOfStepsInOrder(g, onPath + [t], t, |g[t]|);
      var rest := WalksUpTo(g, onPath + [t], t, |g[t]|);
      WalksThroughSteps(g, onPath + [t], t, |g[t]|);
      assert forall j :: 0 <= j < |rest| ==> rest[j] in rest;
      OrderConcat([[]], rest);
    }
  }

  lemma {:induction false} WalksOfStepsInOrder(g: Graph, onPath: seq<TypeId>, t: TypeId, n: nat)
    requires Closed(g) && t in g && n <= |g[t]|
    ensures DepthFirst(WalksUpTo(g, onPath, t, n))
    decreases Free(g, onPath), 2, n
  {
    if n > 0 {
      var target := g[t][n - 1].target;
      var before, added := WalksUpTo(g, onPath, t, n - 1), Prefixed(n - 1, Walks(g, onPath, target));
      WalksOfStepsInOrder(g, onPath, t, n - 1);
      WalksInOrder(g, onPath, target);
      PrefixedOrder(n - 1, Walks(g, onPath, target));
      WalksThroughSteps(g, onPath, t, n - 1);
      assert forall i :: 0 <= i < |before| ==> before[i] in before;
      OrderConcat(before, added);
    }
  }

  lemma {:induction false} PrecedesOneWay(v: seq<nat>, w: seq<nat>)
    requires Precedes(v, w)
    ensures !Precedes(w, v)
    decreases |v|
  {
    if v != [] && v[0] == w[0] {
      PrecedesOneWay(v[1..], w[1..]);
    }
  }

  lemma SameHead(a: seq<seq<nat>>, b: seq<seq<nat>>)
    requires DepthFirst(a) && DepthFirst(b) && a != [] && b != []
    requires a[0] in b && b[0] in a
    ensures a[0] == b[0]
  {
    if a[0] != b[0] {
      var i :| 0 <= i < |a| && a[i] == b[0];
      var j :| 0 <= j < |b| && b[j] == a[0];
      PrecedesOneWay(a[0], b[0]);
    }
  }

  lemma HeadOnce(a: seq<seq<nat>>)
    requires DepthFirst(a) && a != []
    ensures DepthFirst(a[1..]) && forall w :: w in a[1..] <==> w in a && w != a[0]
  {
    if a[0] in a[1..] {
      var i :| 0 <= i < |a| - 1 && a[1..][i] == a[0];
      PrecedesOneWay(a[0], a[i + 1]);
    }
    assert a == [a[0]] + a[1..];
  }

  lemma Members(a: seq<seq<nat>>)
    ensures a != [] <==> exists w :: w in a
  {
    assert a != [] ==> a[0] in a;
  }

  /** The order leaves one list only for a set of walks. */
  lemma {:induction false} OrderDetermines(a: seq<seq<nat>>, b: seq<seq<nat>>)
    requires DepthFirst(a) && DepthFirst(b) && forall w :: w in a <==> w in b
    ensures a == b
  {
    Members(b);
    if a != [] {
      assert a[0] in a && a[0] in b;
      SameHead(a, b);
      HeadOnce(a);
      HeadOnce(b);
      OrderDetermines(a[1..], b[1..]);
      assert a == [a[0]] + a[1..] && b == [b[0]] + b[1..];
    }
  }
}
