/**
  The types of the simulator as the documentation generator sees them: attributes
  with their checkers, the list of registered types, the child relation and the
  recorded aggregations.  A type has a step for every pointer attribute, every
  object container attribute, every registered child type and every aggregation,
  in this order; parallel steps are kept apart.
 */
module TypeSystem {
  import opened TypeGraph

  /** What an attribute's checker says about its value. */
  datatype Checker =
    | PointerTo(pointee: TypeId)
    | ContainerOf(item: TypeId)
    | OtherChecker

  datatype Attribute = Attribute(name: string, checker: Checker)

  datatype TypeInfo = TypeInfo(name: string, attributes: seq<Attribute>)

  /** childOf holds (child, ancestor); objectType is the base type of all objects. */
  datatype Registry = Registry(info: map<TypeId, TypeInfo>, registered: seq<TypeId>,
                               childOf: set<(TypeId, TypeId)>, objectType: TypeId)

  datatype TypeSystem = TypeSystem(registry: Registry, aggregates: seq<(TypeId, TypeId)>)

  /** Every type mentioned is a known type. */
  ghost predicate Known(g: TypeSystem) {
    var info := g.registry.info;
    && (forall t, a :: t in info && a in info[t].attributes ==>
          (a.checker.PointerTo? ==> a.checker.pointee in info) && (a.checker.ContainerOf? ==> a.checker.item in info))
    && (forall t :: t in g.registry.registered ==> t in info)
    && (forall pair :: pair in g.aggregates ==> pair.0 in info && pair.1 in info)
  }

  // ----- steps

  function NameOf(r: Registry, t: TypeId): string {
    if t in r.info then r.info[t].name else ""
  }

  /** A pointer to a plain object leads nowhere: any object could be there. */
  function AttributeStep(r: Registry): Attribute -> seq<Step> {
    (a: Attribute) =>
      match a.checker
      case PointerTo(pointee) => if pointee == r.objectType then [] else [Step(a.name, pointee)]
      case ContainerOf(item) => [Step(a.name + "/[i]", item)]
      case OtherChecker => []
  }

  function ChildStep(r: Registry, t: TypeId): TypeId -> seq<Step> {
    (child: TypeId) => if (child, t) in r.childOf then [Step("$" + NameOf(r, child), child)] else []
  }

  function AggregateStep(r: Registry, t: TypeId): ((TypeId, TypeId)) -> seq<Step> {
    (pair: (TypeId, TypeId)) =>
      if pair.1 == t then [Step("$" + NameOf(r, pair.0), pair.0)]
      else if pair.0 == t then [Step("$" + NameOf(r, pair.1), pair.1)]
      else []
  }

  /** The steps found at the first n places of a list, in order. */
  ghost function Flat<A>(f: A -> seq<Step>, s: seq<A>, n: nat): seq<Step>
    requires n <= |s|
  {
    if n == 0 then [] else Flat(f, s, n - 1) + f(s[n - 1])
  }

  ghost function Steps(g: TypeSystem, t: TypeId): seq<Step>
    requires t in g.registry.info
  {
    var r := g.registry;
    Flat(AttributeStep(r), r.info[t].attributes, |r.info[t].attributes|)
    + Flat(ChildStep(r, t), r.registered, |r.registered|)
    + Flat(AggregateStep(r, t), g.aggregates, |g.aggregates|)
  }

  lemma {:induction false} FlatPrefix<A>(f: A -> seq<Step>, s: seq<A>, i: nat, n: nat)
    requires i <= n <= |s|
    ensures Flat(f, s, i) <= Flat(f, s, n)
  {
    if i < n {
      FlatPrefix(f, s, i, n - 1);
    }
  }

  /** The step found at place i stands behind those found before it. */
  lemma FlatAt<A>(f: A -> seq<Step>, s: seq<A>, i: nat)
    requires i < |s|
    ensures |Flat(f, s, i + 1)| == |Flat(f, s, i)| + |f(s[i])| <= |Flat(f, s, |s|)|
    ensures f(s[i]) != [] ==> Flat(f, s, |s|)[|Flat(f, s, i)|] == f(s[i])[0]
  {
    FlatPrefix(f, s, i + 1, |s|);
    if f(s[i]) != [] {
      assert Flat(f, s, i + 1)[|Flat(f, s, i)|] == f(s[i])[0];
    }
  }

  lemma {:induction false} FlatKnown<A>(f: A -> seq<Step>, s: seq<A>, n: nat, known: set<TypeId>)
    requires n <= |s|
    requires forall a :: a in s ==> forall step :: step in f(a) ==> step.target in known
    ensures forall step :: step in Flat(f, s, n) ==> step.target in known
  {
    if n > 0 {
      FlatKnown(f, s, n - 1, known);
      assert s[n - 1] in s;
    }
  }

  lemma StepsKnown(g: TypeSystem, t: TypeId)
    requires Known(g) && t in g.registry.info
    ensures forall s :: s in Steps(g, t) ==> s.target in g.registry.info
  {
    var r := g.registry;
    FlatKnown(AttributeStep(r), r.info[t].attributes, |r.info[t].attributes|, r.info.Keys);
    FlatKnown(ChildStep(r, t), r.registered, |r.registered|, r.info.Keys);
    FlatKnown(AggregateStep(r, t), g.aggregates, |g.aggregates|, r.info.Keys);
  }

  ghost function GraphOf(g: TypeSystem): Graph {
    map t | t in g.registry.info :: Steps(g, t)
  }

  lemma GraphIsClosed(g: TypeSystem)
    requires Known(g)
    ensures Closed(GraphOf(g))
  {
    forall t | t in g.registry.info
      ensures forall s :: s in Steps(g, t) ==> s.target in g.registry.info
    {
      StepsKnown(g, t);
    }
    var graph: Graph := GraphOf(g);
    forall t: TypeId, i: int | t in graph && 0 <= i < |graph[t]|
      ensures graph[t][i].target in graph
    {
      assert graph[t][i] in Steps(g, t);
    }
  }

  // ----- the place of a step in the list

  /** How many steps come before attribute i, before registered type j, before aggregation k. */
  ghost function BeforeAttribute(g: TypeSystem, t: TypeId, i: nat): nat
    requires t in g.registry.info && i <= |g.registry.info[t].attributes|
  {
    |Flat(AttributeStep(g.registry), g.registry.info[t].attributes, i)|
  }

  ghost function BeforeChild(g: TypeSystem, t: TypeId, j: nat): nat
    requires t in g.registry.info && j <= |g.registry.registered|
  {
    BeforeAttribute(g, t, |g.registry.info[t].attributes|) + |Flat(ChildStep(g.registry, t), g.registry.registered, j)|
  }

  ghost function BeforeAggregate(g: TypeSystem, t: TypeId, k: nat): nat
    requires t in g.registry.info && k <= |g.aggregates|
  {
    BeforeChild(g, t, |g.registry.registered|) + |Flat(AggregateStep(g.registry, t), g.aggregates, k)|
  }

  ghost predicate StepAt(graph: Graph, t: TypeId, n: nat, step: Step) {
    t in graph && n < |graph[t]| && graph[t][n] == step
  }

  ghost predicate StepsOf(graph: Graph, g: TypeSystem, t: TypeId) {
    t in graph && t in g.registry.info && graph[t] == Steps(g, t)
  }

  /** The graph is the one of the type system. */
  ghost predicate Tabled(graph: Graph, g: TypeSystem) {
    && graph.Keys == g.registry.info.Keys
    && forall t {:trigger StepsOf(graph, g, t)} :: t in graph ==> StepsOf(graph, g, t)
  }

  lemma GraphIsTabled(g: TypeSystem)
    requires Known(g)
    ensures Tabled(GraphOf(g), g) && Closed(GraphOf(g))
  {
    GraphIsClosed(g);
  }

  /** Between n and m the type t has exactly this step. */
  ghost predicate OneStep(graph: Graph, t: TypeId, n: nat, m: nat, name: string, target: TypeId) {
    m == n + 1 && StepAt(graph, t, n, Step(name, target))
  }

  ghost predicate AttributeContributes(graph: Graph, objectType: TypeId, t: TypeId, a: Attribute, n: nat, m: nat) {
    match a.checker
    case PointerTo(pointee) =>
      if pointee == objectType then m == n else OneStep(graph, t, n, m, a.name, pointee)
    case ContainerOf(item) => OneStep(graph, t, n, m, a.name + "/[i]", item)
    case OtherChecker => m == n
  }

  lemma AttributeStepAt(graph: Graph, g: TypeSystem, t: TypeId, i: nat)
    requires Tabled(graph, g) && t in graph && i < |g.registry.info[t].attributes|
    ensures var a, n, m := g.registry.info[t].attributes[i], BeforeAttribute(g, t, i), BeforeAttribute(g, t, i + 1);
      AttributeContributes(graph, g.registry.objectType, t, a, n, m)
  {
    assert StepsOf(graph, g, t);
    FlatAt(AttributeStep(g.registry), g.registry.info[t].attributes, i);
  }

  lemma ChildStepAt(graph: Graph, g: TypeSystem, t: TypeId, j: nat)
    requires Known(g) && Tabled(graph, g) && t in graph && j < |g.registry.registered|
    ensures var child, n, m := g.registry.registered[j], BeforeChild(g, t, j), BeforeChild(g, t, j + 1);
      && child in g.registry.info
      && (if (child, t) in g.registry.childOf then OneStep(graph, t, n, m, "$" + g.registry.info[child].name, child)
          else m == n)
  {
    assert StepsOf(graph, g, t);
    FlatAt(ChildStep(g.registry, t), g.registry.registered, j);
  }

  /** With the type on both sides of an aggregation, the first side counts as the other one. */
  lemma AggregateStepAt(graph: Graph, g: TypeSystem, t: TypeId, k: nat)
    requires Known(g) && Tabled(graph, g) && t in graph && k < |g.aggregates|
    ensures var pair, n, m := g.aggregates[k], BeforeAggregate(g, t, k), BeforeAggregate(g, t, k + 1);
      var other := if pair.1 == t then pair.0 else pair.1;
      && other in g.registry.info
      && (if pair.0 == t || pair.1 == t then OneStep(graph, t, n, m, "$" + g.registry.info[other].name, other)
          else m == n)
  {
    assert StepsOf(graph, g, t);
    assert g.aggregates[k] in g.aggregates;
    FlatAt(AggregateStep(g.registry, t), g.aggregates, k);
  }

  lemma NoStepsBeyond(graph: Graph, g: TypeSystem, t: TypeId)
    requires Tabled(graph, g) && t in graph
    ensures BeforeAttribute(g, t, 0) == 0
    ensures BeforeChild(g, t, 0) == BeforeAttribute(g, t, |g.registry.info[t].attributes|)
    ensures BeforeAggregate(g, t, 0) == BeforeChild(g, t, |g.registry.registered|)
    ensures BeforeAggregate(g, t, |g.aggregates|) == |graph[t]|
  {
    assert StepsOf(graph, g, t);
  }

  lemma KnownMore(g: TypeSystem, pair: (TypeId, TypeId))
    requires Known(g) && pair.0 in g.registry.info && pair.1 in g.registry.info
    ensures Known(g.(aggregates := g.aggregates + [pair]))
  {
    forall p | p in g.aggregates + [pair]
      ensures p.0 in g.registry.info && p.1 in g.registry.info
    {
      assert p in g.aggregates || p == pair;
    }
  }
}
