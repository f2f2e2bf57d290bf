/**
  The gatherer of configuration paths.  It walks the type graph by recursion,
  with the current path and the types on it kept on two stacks in place, and
  records one entry for every type it comes to.
 */
module StaticInformation {
  import Sequences
  import opened TypeGraph
  import opened TypeSystem
  import TypePaths

  class StaticInformation {
    const registry: Registry
    const names: map<string, TypeId>
    var output: seq<(TypeId, string)>
    var currentPath: seq<string>
    var alreadyProcessed: seq<TypeId>
    var aggregates: seq<(TypeId, TypeId)>
    var noTids: seq<string>
    ghost var types: Graph

    ghost function System(): TypeSystem
      reads this`aggregates
    {
      TypeSystem(registry, aggregates)
    }

    ghost predicate Valid()
      reads this`aggregates, this`types
    {
      && Known(System()) && Closed(types) && Tabled(types, System())
      && forall name :: name in names ==> names[name] in registry.info
    }

    constructor (r: Registry, n: map<string, TypeId>)
      requires Known(TypeSystem(r, []))
      requires forall name :: name in n ==> n[name] in r.info
      ensures Valid() && registry == r && names == n
      ensures output == [] && currentPath == [] && alreadyProcessed == []
      ensures aggregates == [] && noTids == []
    {
      registry, names := r, n;
      output, currentPath, alreadyProcessed, aggregates, noTids := [], [], [], [], [];
      types := GraphOf(TypeSystem(r, []));
      new;
      GraphIsTabled(System());
    }

    /** Records that a and b are aggregated, or the first of the two names that is unknown. */
    method RecordAggregationInfo(a: string, b: string)
      requires Valid()
      modifies this`aggregates, this`noTids, this`types
      ensures Valid()
      ensures aggregates == old(aggregates) + if a in names && b in names then [(names[a], names[b])] else []
      ensures noTids == old(noTids) + if a !in names then [a] else if b !in names then [b] else []
    {
      if a !in names {
        noTids := noTids + [a];
        return;
      }
      if b !in names {
        noTids := noTids + [b];
        return;
      }
      KnownMore(System(), (names[a], names[b]));
      aggregates := aggregates + [(names[a], names[b])];
      GraphIsTabled(System());
      types := GraphOf(System());
    }

    method HasAlreadyBeenProcessed(tid: TypeId) returns (found: bool)
      ensures found <==> tid in alreadyProcessed
    {
      for i := 0 to |alreadyProcessed|
        invariant tid !in alreadyProcessed[..i]
      {
        if alreadyProcessed[i] == tid {
          return true;
        }
      }
      return false;
    }

    method GetCurrentPath() returns (path: string)
      ensures path == PathString(currentPath)
    {
      path := "";
      for i := 0 to |currentPath|
        invariant path == PathString(currentPath[..i])
      {
        path := path + "/" + currentPath[i];
        assert currentPath[..i + 1][..i] == currentPath[..i];
      }
      assert currentPath[..|currentPath|] == currentPath;
    }

    method RecordOutput(tid: TypeId)
      modifies this`output
      ensures output == old(output) + [(tid, PathString(currentPath))]
    {
      var path := GetCurrentPath();
      output := output + [(tid, path)];
    }

    /** The recorded paths of one type, in the order of recording. */
    method Get(tid: TypeId) returns (paths: seq<string>)
      ensures paths == PathsOf(output, tid) && |paths| == |PlacesOf(output, tid, |output|)|
      ensures forall k :: 0 <= k < |output| && output[k].0 == tid ==>
        var i := |PlacesOf(output, tid, k)|; i < |paths| && paths[i] == output[k].1
    {
      PathsExactly(output, tid);
      paths := [];
      for i := 0 to |output|
        invariant paths == PathsOf(output[..i], tid)
      {
        if output[i].0 == tid {
          paths := paths + [output[i].1];
        }
        assert output[..i + 1][..i] == output[..i];
      }
      assert output[..|output|] == output;
    }

    /** Between two steps of tid: the stacks are as they were and the first n steps are recorded. */
    ghost predicate Gathered(g: Graph, tid: TypeId, path: seq<string>, onPath: seq<TypeId>,
                             output0: seq<(TypeId, string)>, n: nat)
      requires Closed(g) && tid in g
      reads this
    {
      && currentPath == path && alreadyProcessed == onPath && n <= |g[tid]|
      && output == output0 + FirstEntries(g, tid, path, onPath, n)
    }

    /** Goes down one step of tid: the stacks are pushed, and popped on the way back. */
    method Descend(tid: TypeId, name: string, target: TypeId, ghost n: nat, ghost output0: seq<(TypeId, string)>)
      requires Valid() && tid in registry.info && tid !in alreadyProcessed
      requires StepAt(types, tid, n, Step(name, target))
      requires Gathered(types, tid, currentPath, alreadyProcessed, output0, n)
      modifies this`output, this`currentPath, this`alreadyProcessed
      ensures n < |types[tid]|
      ensures Gathered(types, tid, old(currentPath), old(alreadyProcessed), output0, n + 1)
      decreases Free(types, alreadyProcessed), 0
    {
      ghost var g, path, onPath := types, currentPath, alreadyProcessed;
      FreeShrinks(g, onPath, tid);
      FirstEntriesNext(g, tid, path, onPath, n);
      currentPath := currentPath + [name];
      alreadyProcessed := alreadyProcessed + [tid];
      DoGather(target);
      Sequences.ConcatAssociative(output0, FirstEntries(g, tid, path, onPath, n),
                        Entries(g, target, path + [name], Walks(g, onPath + [tid], target)));
      Popped(onPath, tid);
      Popped(path, name);
      alreadyProcessed := alreadyProcessed[..|alreadyProcessed| - 1];
      currentPath := currentPath[..|currentPath| - 1];
    }

    /** Records one entry for every simple walk from tid that avoids the types on the path. */
    method DoGather(tid: TypeId)
      requires Valid() && tid in registry.info
      modifies this`output, this`currentPath, this`alreadyProcessed
      ensures currentPath == old(currentPath) && alreadyProcessed == old(alreadyProcessed)
      ensures output == old(output) + Entries(types, tid, currentPath, Walks(types, alreadyProcessed, tid))
      decreases Free(types, alreadyProcessed), 2
    {
      ghost var g, path, onPath, output0 := types, currentPath, alreadyProcessed, output;
      var processed := HasAlreadyBeenProcessed(tid);
      if processed {
        return;
      }
      RecordOutput(tid);
      NoStepsBeyond(types, System(), tid);
      GatherAttributes(tid, output0);
      GatherChildren(tid, output0);
      GatherAggregates(tid, output0);
      AllEntries(g, tid, path, onPath);
    }

    /**
      From empty stacks: the output grows by one entry for every simple walk from
      tid, each walk once, with its end and its path.  (The sorting that the
      program applies afterwards works on a copy and leaves the output as it is.)
     */
    method Gather(tid: TypeId) returns (ghost walks: seq<seq<nat>>)
      requires Valid() && tid in registry.info
      requires currentPath == [] && alreadyProcessed == []
      modifies this`output, this`currentPath, this`alreadyProcessed
      ensures currentPath == [] && alreadyProcessed == []
      ensures walks == Walks(types, [], tid) && Sequences.Distinct(walks)
      ensures forall w :: w in walks <==> SimpleWalk(types, [], tid, w)
      ensures TypePaths.DepthFirst(walks)
      ensures output == old(output) + Entries(types, tid, [], walks)
    {
      WalksAreSimpleWalks(types, [], tid);
      TypePaths.WalksInOrder(types, [], tid);
      walks := Walks(types, [], tid);
      DoGather(tid);
    }

    method GatherAttributes(tid: TypeId, ghost output0: seq<(TypeId, string)>)
      requires Valid() && tid in registry.info && tid !in alreadyProcessed
      requires Gathered(types, tid, currentPath, alreadyProcessed, output0, BeforeAttribute(System(), tid, 0))
      modifies this`output, this`currentPath, this`alreadyProcessed
      ensures Gathered(types, tid, old(currentPath), old(alreadyProcessed), output0,
                       BeforeAttribute(System(), tid, |registry.info[tid].attributes|))
      decreases Free(types, alreadyProcessed), 1, 1
    {
      ghost var g, n := System(), BeforeAttribute(System(), tid, 0);
      for i := 0 to |registry.info[tid].attributes|
        invariant n == BeforeAttribute(g, tid, i)
        invariant Gathered(types, tid, old(currentPath), old(alreadyProcessed), output0, n)
      {
        n := GatherAttribute(tid, i, n, output0);
      }
    }

    /** Goes down to what an attribute points to or contains, if that is not just any object. */
    method GatherAttribute(tid: TypeId, i: nat, ghost n: nat, ghost output0: seq<(TypeId, string)>)
        returns (ghost m: nat)
      requires Valid() && tid in registry.info && tid !in alreadyProcessed
      requires i < |registry.info[tid].attributes| && n == BeforeAttribute(System(), tid, i)
      requires Gathered(types, tid, currentPath, alreadyProcessed, output0, n)
      modifies this`output, this`currentPath, this`alreadyProcessed
      ensures m == BeforeAttribute(System(), tid, i + 1)
      ensures Gathered(types, tid, old(currentPath), old(alreadyProcessed), output0, m)
      decreases Free(types, alreadyProcessed), 1, 0
    {
      var info := registry.info[tid].attributes[i];
      AttributeStepAt(types, System(), tid, i);
      m := n;
      match info.checker {
        case PointerTo(pointee) =>
          if pointee == registry.objectType {
            return;
          }
          Descend(tid, info.name, pointee, n, output0);
          m := n + 1;
        case ContainerOf(item) =>
          Descend(tid, info.name + "/[i]", item, n, output0);
          m := n + 1;
        case OtherChecker =>
      }
    }

    method GatherChildren(tid: TypeId, ghost output0: seq<(TypeId, string)>)
      requires Valid() && tid in registry.info && tid !in alreadyProcessed
      requires Gathered(types, tid, currentPath, alreadyProcessed, output0, BeforeChild(System(), tid, 0))
      modifies this`output, this`currentPath, this`alreadyProcessed
      ensures Gathered(types, tid, old(currentPath), old(alreadyProcessed), output0,
                       BeforeChild(System(), tid, |registry.registered|))
      decreases Free(types, alreadyProcessed), 1
    {
      ghost var g, n := System(), BeforeChild(System(), tid, 0);
      for j := 0 to |registry.registered|
        invariant n == BeforeChild(g, tid, j)
        invariant Gathered(types, tid, old(currentPath), old(alreadyProcessed), output0, n)
      {
        var child := registry.registered[j];
        ChildStepAt(types, g, tid, j);
        if (child, tid) in registry.childOf {
          Descend(tid, "$" + registry.info[child].name, child, n, output0);
          n := n + 1;
        }
      }
    }

    method GatherAggregates(tid: TypeId, ghost output0: seq<(TypeId, string)>)
      requires Valid() && tid in registry.info && tid !in alreadyProcessed
      requires Gathered(types, tid, currentPath, alreadyProcessed, output0, BeforeAggregate(System(), tid, 0))
      modifies this`output, this`currentPath, this`alreadyProcessed
      ensures Gathered(types, tid, old(currentPath), old(alreadyProcessed), output0,
                       BeforeAggregate(System(), tid, |aggregates|))
      decreases Free(types, alreadyProcessed), 1, 1
    {
      ghost var g, n := System(), BeforeAggregate(System(), tid, 0);
      for k := 0 to |aggregates|
        invariant n == BeforeAggregate(g, tid, k)
        invariant Gathered(types, tid, old(currentPath), old(alreadyProcessed), output0, n)
      {
        n := GatherAggregate(tid, aggregates[k], k, n, output0);
      }
    }

    /** Goes down to the other side of one aggregation, if the type is on either. */
    method GatherAggregate(tid: TypeId, item: (TypeId, TypeId), ghost k: nat, ghost n: nat,
                           ghost output0: seq<(TypeId, string)>)
        returns (ghost m: nat)
      requires Valid() && tid in registry.info && tid !in alreadyProcessed
      requires k < |aggregates| && item == aggregates[k] && n == BeforeAggregate(System(), tid, k)
      requires Gathered(types, tid, currentPath, alreadyProcessed, output0, n)
      modifies this`output, this`currentPath, this`alreadyProcessed
      ensures m == BeforeAggregate(System(), tid, k + 1)
      ensures Gathered(types, tid, old(currentPath), old(alreadyProcessed), output0, m)
      decreases Free(types, alreadyProcessed), 1, 0
    {
      AggregateStepAt(types, System(), tid, k);
      m := n;
      if item.0 == tid || item.1 == tid {
        var other := tid;
        if item.0 == tid {
          other := item.1;
        }
        if item.1 == tid {
          other := item.0;
        }
        Descend(tid, "$" + registry.info[other].name, other, n, output0);
        m := n + 1;
      }
    }
  }

  lemma Popped<T>(s: seq<T>, x: T)
    ensures (s + [x])[..|s + [x]| - 1] == s
  {
  }

  function PathsOf(output: seq<(TypeId, string)>, tid: TypeId): seq<string> {
    if output == [] then []
    else
      var last := output[|output| - 1];
      PathsOf(output[..|output| - 1], tid) + if last.0 == tid then [last.1] else []
  }

  /** The places at which a type is recorded, before place n. */
  ghost function PlacesOf(output: seq<(TypeId, string)>, tid: TypeId, n: nat): set<int>
    requires n <= |output|
  {
    set k | 0 <= k < n && output[k].0 == tid
  }

  lemma PlacesNext(output: seq<(TypeId, string)>, tid: TypeId, n: nat)
    requires n < |output|
    ensures |PlacesOf(output, tid, n + 1)|
         == |PlacesOf(output, tid, n)| + if output[n].0 == tid then 1 else 0
  {
    var before := PlacesOf(output, tid, n);
    assert PlacesOf(output, tid, n + 1) == before + if output[n].0 == tid then {n} else {};
    assert n !in before;
  }

  lemma {:induction false} PathsCount(output: seq<(TypeId, string)>, tid: TypeId, n: nat)
    requires n <= |output|
    ensures |PathsOf(output[..n], tid)| == |PlacesOf(output, tid, n)|
  {
    if n > 0 {
      assert output[..n][..n - 1] == output[..n - 1];
      PathsCount(output, tid, n - 1);
      PlacesNext(output, tid, n - 1);
    }
  }

  lemma {:induction false} PathsGrow(output: seq<(TypeId, string)>, tid: TypeId, m: nat, n: nat)
    requires m <= n <= |output|
    ensures PathsOf(output[..m], tid) <= PathsOf(output[..n], tid)
  {
    if m < n {
      assert output[..n][..n - 1] == output[..n - 1];
      PathsGrow(output, tid, m, n - 1);
    }
  }

  /** Each record of the type gives one path, at the place that the records before it leave. */
  lemma PathsExactly(output: seq<(TypeId, string)>, tid: TypeId)
    ensures |PathsOf(output, tid)| == |PlacesOf(output, tid, |output|)|
    ensures forall k :: 0 <= k < |output| && output[k].0 == tid ==>
      var i := |PlacesOf(output, tid, k)|;
      i < |PathsOf(output, tid)| && PathsOf(output, tid)[i] == output[k].1
  {
    assert output[..|output|] == output;
    PathsCount(output, tid, |output|);
    forall k | 0 <= k < |output| && output[k].0 == tid
      ensures |PlacesOf(output, tid, k)| < |PathsOf(output, tid)|
      ensures PathsOf(output, tid)[|PlacesOf(output, tid, k)|] == output[k].1
    {
      PathAt(output, tid, k);
      PathsGrow(output, tid, k + 1, |output|);
    }
  }

  lemma PathAt(output: seq<(TypeId, string)>, tid: TypeId, k: nat)
    requires k < |output| && output[k].0 == tid
    ensures PathsOf(output[..k + 1], tid) == PathsOf(output[..k], tid) + [output[k].1]
    ensures |PathsOf(output[..k], tid)| == |PlacesOf(output, tid, k)|
  {
    PathsCount(output, tid, k);
    assert output[..k + 1][..k] == output[..k];
  }
}
