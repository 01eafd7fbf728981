// The dependency queries of pkg/dependencies/handlers.go: each builds the graph of one module and
// asks it about that same module.  A query returns the list that the response carries.
module DependencyQueries {
  import opened Wrappers
  import opened Reachability
  import opened DependencyGraphs
  import opened Resolver
  import opened Closures

  /** The keys listed are those of the coordinates in cs. */
  ghost predicate Lists(deps: seq<Dependency>, cs: iset<Coordinate>) {
    && (forall k | k in KeysOf(deps) :: exists c :: c in cs && KeyAt(c) == k)
    && (forall c | c in cs :: KeyAt(c) in KeysOf(deps))
  }

  /** What the module depends on, directly or not. */
  ghost function Dependencies(storage: Storage, root: Coordinate): iset<Coordinate> {
    iset c | ReachesPlus(StoreGraph(storage), root, c)
  }

  /** What lies on a cycle through the module. */
  ghost function OnCycleWith(storage: Storage, root: Coordinate): iset<Coordinate> {
    iset c | Reaches(StoreGraph(storage), root, c) && ReachesPlus(StoreGraph(storage), c, root)
  }

  /** The end of such a cycle. */
  ghost function ClosingCycleWith(storage: Storage, root: Coordinate): iset<Coordinate> {
    iset c | Reaches(StoreGraph(storage), root, c) && Edge(StoreGraph(storage), c, root)
  }

  method GetTransitiveDependencies(storage: Storage, moduleName: string, version: string)
    returns (r: Result<seq<Dependency>, ResolveError>)
    ensures r.Failure? ==> SomeUnresolvable(storage, Coordinate(moduleName, version), r.error)
    ensures var root := Coordinate(moduleName, version);
            RootKeyUnshared(storage, root) ==>
              && (r.Success? <==> AllResolve(storage, root))
              && (r.Success? ==> Lists(r.value, Dependencies(storage, root)))
  {
    hide RootKeyUnshared, AllResolve, StoreGraph, IsBuiltFrom, Lists, Dependencies, ReachesPlus;
    ghost var root := Coordinate(moduleName, version);
    var built := BuildDependencyGraph(storage, moduleName, version);
    if built.Failure? {
      return Failure(built.error);
    }
    var graph := built.value;
    var deps, reached, arcs := Closures.GetTransitiveDependencies(graph, moduleName, version);
    if RootKeyUnshared(storage, root) {
      ForwardKeys(storage, root, graph.nodes, graph.edges, deps);
    }
    return Success(deps);
  }

  method GetDependents(storage: Storage, moduleName: string, version: string)
    returns (r: Result<seq<Dependency>, ResolveError>)
    ensures r.Failure? ==> SomeUnresolvable(storage, Coordinate(moduleName, version), r.error)
    ensures var root := Coordinate(moduleName, version);
            RootKeyUnshared(storage, root) ==>
              && (r.Success? <==> AllResolve(storage, root))
              && (r.Success? ==> Lists(r.value, ClosingCycleWith(storage, root)))
  {
    hide RootKeyUnshared, AllResolve, StoreGraph, IsBuiltFrom, Lists, ClosingCycleWith;
    ghost var root := Coordinate(moduleName, version);
    var built := BuildDependencyGraph(storage, moduleName, version);
    if built.Failure? {
      return Failure(built.error);
    }
    var graph := built.value;
    var dependents := graph.GetDependents(moduleName, version);
    if RootKeyUnshared(storage, root) {
      ClosingKeys(storage, root, graph.nodes, graph.edges, dependents);
    }
    return Success(dependents);
  }

  /** The impact of a module on its own graph: what lies on a cycle with it, so nothing at all unless
      the module is circular or its key is shared. */
  method GetImpact(storage: Storage, moduleName: string, version: string)
    returns (r: Result<ImpactAnalysis, ResolveError>)
    ensures r.Failure? ==> SomeUnresolvable(storage, Coordinate(moduleName, version), r.error)
    ensures var root := Coordinate(moduleName, version);
            RootKeyUnshared(storage, root) ==>
              && (r.Success? <==> AllResolve(storage, root))
              && (r.Success? ==> Lists(r.value.directDependents + r.value.transitiveDependents,
                                       OnCycleWith(storage, root)))
    ensures var root := Coordinate(moduleName, version);
            r.Success? ==>
              (r.value.totalImpact != 0
               <==> !RootKeyUnshared(storage, root) || ReachesPlus(StoreGraph(storage), root, root))
  {
    hide RootKeyUnshared, AllResolve, StoreGraph, IsBuiltFrom, Lists, OnCycleWith, ReachesPlus, ImpactArcs;
    hide Distinct, Edge;
    ghost var root := Coordinate(moduleName, version);
    var built := BuildDependencyGraph(storage, moduleName, version);
    if built.Failure? {
      return Failure(built.error);
    }
    var graph := built.value;
    var impact, arcs := GetImpactAnalysis(graph, moduleName, version);
    ghost var all := impact.directDependents + impact.transitiveDependents;
    KeysOfBoth(impact.directDependents, impact.transitiveDependents);
    ImpactKeys(storage, root, graph.nodes, graph.edges, all);
    return Success(impact);
  }

  lemma KeysOfBoth(a: seq<Dependency>, b: seq<Dependency>)
    ensures KeysOf(a + b) == KeysOf(a) + KeysOf(b)
  {
  }

  lemma BuiltCoordinate(storage: Storage, root: Coordinate, nodes: map<string, Node>, edges: map<string, seq<string>>,
                        k: string)
    returns (c: Coordinate)
    requires EdgesMatch(nodes, edges) && IsBuiltFrom(storage, root, nodes) && k in nodes
    ensures KeyAt(c) == k && HasNodeOf(nodes, c) && Reaches(StoreGraph(storage), root, c)
  {
    NodeIsOwn(nodes, edges, k);
    c := CoordinateAt(nodes, k);
  }

  lemma ForwardKeys(storage: Storage, root: Coordinate, nodes: map<string, Node>, edges: map<string, seq<string>>,
                    deps: seq<Dependency>)
    requires EdgesMatch(nodes, edges) && IsBuiltFrom(storage, root, nodes) && RootKeyUnshared(storage, root)
    requires forall k :: k in KeysOf(deps) <==> ReachesPlus(AdjOf(edges), KeyAt(root), k)
    ensures Lists(deps, Dependencies(storage, root))
  {
    hide EdgesMatch, AdjOf, StoreGraph, RootKeyUnshared, ReachesPlus, Reaches, ModuleVersionKey, Agrees;
    forall k | k in KeysOf(deps) ensures exists c :: c in Dependencies(storage, root) && KeyAt(c) == k {
      var before := LastStep(AdjOf(edges), KeyAt(root), k);
      EndsAreNodes(storage, root, nodes, edges, before, k);
      var c := BuiltCoordinate(storage, root, nodes, edges, k);
      WalksCorrespond(storage, root, nodes, edges, root, c);
    }
    forall c | c in Dependencies(storage, root) ensures KeyAt(c) in KeysOf(deps) {
      PlusIsReached(StoreGraph(storage), root, c);
      ReachedHasNode(storage, root, nodes, c);
      WalksCorrespond(storage, root, nodes, edges, root, c);
    }
  }

  lemma PlusIsReached<T(!new)>(g: Digraph<T>, u: T, v: T)
    requires ReachesPlus(g, u, v)
    ensures Reaches(g, u, v)
  {
    var x := LastStep(g, u, v);
    ReachesThenEdge(g, u, x, v);
  }

  lemma EndsAreNodes(storage: Storage, root: Coordinate, nodes: map<string, Node>, edges: map<string, seq<string>>,
                     k: string, x: string)
    requires EdgesMatch(nodes, edges) && IsBuiltFrom(storage, root, nodes) && Edge(AdjOf(edges), k, x)
    ensures k in nodes && x in nodes
  {
    var d := DependencyOfEdge(nodes, edges, k, x);
  }

  lemma ClosingKeys(storage: Storage, root: Coordinate, nodes: map<string, Node>, edges: map<string, seq<string>>,
                    dependents: seq<Dependency>)
    requires EdgesMatch(nodes, edges) && IsBuiltFrom(storage, root, nodes) && RootKeyUnshared(storage, root)
    requires forall k :: k in KeysOf(dependents) <==> Edge(AdjOf(edges), k, KeyAt(root))
    ensures Lists(dependents, ClosingCycleWith(storage, root))
  {
    hide EdgesMatch, AdjOf, StoreGraph, RootKeyUnshared, Edge, Reaches, ModuleVersionKey, Agrees;
    forall k | k in KeysOf(dependents) ensures exists c :: c in ClosingCycleWith(storage, root) && KeyAt(c) == k {
      EndsAreNodes(storage, root, nodes, edges, k, KeyAt(root));
      var c := BuiltCoordinate(storage, root, nodes, edges, k);
      EdgesCorrespond(storage, root, nodes, edges, c, root);
    }
    forall c | c in ClosingCycleWith(storage, root) ensures KeyAt(c) in KeysOf(dependents) {
      ReachedHasNode(storage, root, nodes, c);
      EdgesCorrespond(storage, root, nodes, edges, c, root);
    }
  }

  lemma ImpactKeys(storage: Storage, root: Coordinate, nodes: map<string, Node>, edges: map<string, seq<string>>,
                   all: seq<Dependency>)
    requires EdgesMatch(nodes, edges) && IsBuiltFrom(storage, root, nodes)
    requires forall k :: k in KeysOf(all) <==> ReachesPlus(AdjOf(edges), k, KeyAt(root))
    ensures RootKeyUnshared(storage, root) ==> Lists(all, OnCycleWith(storage, root))
    ensures all != [] <==> !RootKeyUnshared(storage, root) || ReachesPlus(StoreGraph(storage), root, root)
  {
    hide EdgesMatch, AdjOf, StoreGraph, RootKeyUnshared, ReachesPlus, Reaches, ModuleVersionKey, IsBuiltFrom;
    LeadsToRootIff(storage, root, nodes, edges);
    if all != [] {
      assert KeysOf(all)[0] in KeysOf(all);
    }
    if RootKeyUnshared(storage, root) {
      CycleKeys(storage, root, nodes, edges, all);
    } else {
      SharedRootClosesCycle(storage, root, nodes, edges);
    }
  }

  lemma CycleKeys(storage: Storage, root: Coordinate, nodes: map<string, Node>, edges: map<string, seq<string>>,
                  all: seq<Dependency>)
    requires EdgesMatch(nodes, edges) && IsBuiltFrom(storage, root, nodes) && RootKeyUnshared(storage, root)
    requires forall k :: k in KeysOf(all) <==> ReachesPlus(AdjOf(edges), k, KeyAt(root))
    ensures Lists(all, OnCycleWith(storage, root))
  {
    hide EdgesMatch, AdjOf, StoreGraph, RootKeyUnshared, ReachesPlus, Reaches, ModuleVersionKey, Agrees;
    forall k | k in KeysOf(all) ensures exists c :: c in OnCycleWith(storage, root) && KeyAt(c) == k {
      var next := FirstStep(AdjOf(edges), k, KeyAt(root));
      EndsAreNodes(storage, root, nodes, edges, k, next);
      var c := BuiltCoordinate(storage, root, nodes, edges, k);
      WalksCorrespond(storage, root, nodes, edges, c, root);
    }
    forall c | c in OnCycleWith(storage, root) ensures KeyAt(c) in KeysOf(all) {
      ReachedHasNode(storage, root, nodes, c);
      WalksCorrespond(storage, root, nodes, edges, c, root);
    }
  }
}
