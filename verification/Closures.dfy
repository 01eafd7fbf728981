// The forward and reverse closures of pkg/dependencies/graph.go: GetTransitiveDependencies and
// GetImpactAnalysis.  The fields of the two visit classes are the variables captured by the
// recursive closures of the source; arcs is ghost and remembers the source of every listed entry.
module Closures {
  import opened Reachability
  import opened DependencyGraphs

  datatype Arc = Arc(source: string, target: string)

  /** The list holds the edges that leave the vertices of s, with their multiplicities, and no other. */
  ghost predicate ArcsOf(edges: map<string, seq<string>>, s: set<string>, arcs: seq<Arc>) {
    forall a ::
      multiset(arcs)[a] == if a.source in s && a.source in edges then multiset(edges[a.source])[a.target] else 0
  }

  /** Two complete edge lists of the same vertices are permutations of each other. */
  lemma ArcsDetermined(edges: map<string, seq<string>>, s: set<string>, a: seq<Arc>, b: seq<Arc>)
    requires ArcsOf(edges, s, a) && ArcsOf(edges, s, b)
    ensures multiset(a) == multiset(b) && |a| == |b|
  {
    assert forall x :: multiset(a)[x] == multiset(b)[x];
    assert multiset(a) == multiset(b);
    assert |multiset(a)| == |a| && |multiset(b)| == |b|;
  }

  /** What a search from key adds to the visited set and to the listed edges: exactly the unvisited
      part of the graph that it can get to, with all of its outgoing edges. */
  ghost predicate Complete(edges: map<string, seq<string>>, key: string,
                           before: set<string>, after: set<string>, added: seq<Arc>)
  {
    && before <= after && key in after
    && (forall k | k in after - before :: Reaches(AdjOf(edges), key, k))
    && (forall k, d | k in after - before && Edge(AdjOf(edges), k, d) :: d in after)
    && ArcsOf(edges, after - before, added)
  }

  /** The same, while the edges of key itself have been followed only as far as the list done. */
  ghost predicate Partial(edges: map<string, seq<string>>, key: string, done: seq<string>,
                          before: set<string>, after: set<string>, added: seq<Arc>)
  {
    && before <= after && key in after - before && key in edges
    && (forall k | k in after - before :: Reaches(AdjOf(edges), key, k))
    && (forall k, d | k in after - before && k != key && Edge(AdjOf(edges), k, d) :: d in after)
    && (forall d | d in done :: d in after)
    && ArcsOf(edges[key := done], after - before, added)
  }

  lemma AlreadyVisited(edges: map<string, seq<string>>, key: string, before: set<string>)
    requires key in before
    ensures Complete(edges, key, before, before, [])
  {
  }

  lemma MissingNode(edges: map<string, seq<string>>, key: string, before: set<string>)
    requires key !in edges
    ensures Complete(edges, key, before, before + {key}, [])
  {
    ReachesSelf(AdjOf(edges), key);
  }

  lemma BeginPartial(edges: map<string, seq<string>>, key: string, before: set<string>)
    requires key in edges && key !in before
    ensures Partial(edges, key, [], before, before + {key}, [])
  {
    ReachesSelf(AdjOf(edges), key);
  }

  lemma ExtendPartial(edges: map<string, seq<string>>, key: string, done: seq<string>, d: string, before: set<string>,
                      mid: set<string>, after: set<string>, a: seq<Arc>, b: seq<Arc>, added: seq<Arc>)
    requires Partial(edges, key, done, before, mid, a) && d in edges[key]
    requires Complete(edges, d, mid, after, b)
    requires multiset(added) == multiset(a) + multiset(b) + multiset{Arc(key, d)}
    ensures Partial(edges, key, done + [d], before, after, added)
  {
    var g := AdjOf(edges);
    assert Edge(g, key, d);
    forall k | k in after - before ensures Reaches(g, key, k) {
      if k !in mid {
        EdgeThenReaches(g, key, d, k);
      }
    }
  }

  lemma FinishPartial(edges: map<string, seq<string>>, key: string, before: set<string>, after: set<string>,
                      added: seq<Arc>)
    requires key in edges && Partial(edges, key, edges[key], before, after, added)
    ensures Complete(edges, key, before, after, added)
  {
    assert edges[key := edges[key]] == edges;
  }

  lemma PartialGrew(edges: map<string, seq<string>>, key: string, done: seq<string>,
                    before: set<string>, after: set<string>, added: seq<Arc>)
    requires Partial(edges, key, done, before, after, added)
    ensures before + {key} <= after
  {
  }

  /** Each entry of the list stands for one arc. */
  ghost predicate Recorded(entries: seq<Dependency>, arcs: seq<Arc>) {
    && |arcs| == |entries|
    && forall i | 0 <= i < |arcs| :: arcs[i].target == KeyOf(entries[i]) && entries[i].kind == Transitive
  }

  lemma RecordMore(entries: seq<Dependency>, arcs: seq<Arc>, d: Dependency, source: string)
    requires Recorded(entries, arcs) && d.kind == Transitive
    ensures Recorded(entries + [d], arcs + [Arc(source, KeyOf(d))])
  {
    hide ModuleVersionKey;
  }

  /** edges are those of the graph, which the search does not change. */
  class ClosureVisit {
    const graph: DependencyGraph
    ghost const edges: map<string, seq<string>>
    var visited: set<string>
    var result: seq<Dependency>
    ghost var arcs: seq<Arc>

    constructor (graph: DependencyGraph)
      requires graph.Valid()
      ensures this.graph == graph && edges == graph.edges
      ensures Inv() && visited == {} && result == [] && arcs == []
    {
      this.graph, edges := graph, graph.edges;
      visited, result, arcs := {}, [], [];
    }

    ghost predicate Fits()
      reads graph
    {
      graph.Valid() && edges == graph.edges
    }

    ghost predicate Inv()
      reads this, graph
    {
      Fits() && Recorded(result, arcs)
    }

    lemma EdgesOf(key: string)
      requires Fits()
      ensures edges == graph.edges && graph.edges.Keys == graph.nodes.Keys
      ensures key in edges ==> edges[key] == KeysOf(graph.nodes[key].dependencies)
    {
    }

    method Traverse(moduleName: string, version: string) returns (ghost added: seq<Arc>)
      requires Inv()
      modifies this
      decreases graph.edges.Keys - visited
      ensures Inv() && old(visited) <= visited && arcs == old(arcs) + added
      ensures Complete(edges, ModuleVersionKey(moduleName, version), old(visited), visited, added)
    {
      hide Complete, Partial, Recorded, Fits, ModuleVersionKey;
      var key := ModuleVersionKey(moduleName, version);
      EdgesOf(key);
      added := [];
      if key in visited {
        AlreadyVisited(edges, key, visited);
        return;
      }
      visited := visited + {key};
      if key !in graph.nodes {
        MissingNode(edges, key, old(visited));
        return;
      }
      var deps := graph.nodes[key].dependencies;
      ghost var keys := edges[key];
      BeginPartial(edges, key, old(visited));
      assert keys[..0] == [];
      for i := 0 to |deps|
        invariant Inv() && arcs == old(arcs) + added
        invariant Partial(edges, key, keys[..i], old(visited), visited, added)
      {
        var dep := deps[i];
        ghost var seen, known := visited, added;
        PartialGrew(edges, key, keys[..i], old(visited), visited, added);
        RecordMore(result, arcs, Dependency(dep.moduleName, dep.version, Transitive), key);
        result := result + [Dependency(dep.moduleName, dep.version, Transitive)];
        arcs := arcs + [Arc(key, keys[i])];
        ghost var deeper := Traverse(dep.moduleName, dep.version);
        added := known + [Arc(key, keys[i])] + deeper;
        ExtendPartial(edges, key, keys[..i], keys[i], old(visited), seen, visited, known, deeper, added);
        assert keys[..i] + [keys[i]] == keys[..i + 1];
      }
      assert keys[..|deps|] == keys;
      FinishPartial(edges, key, old(visited), visited, added);
      PartialGrew(edges, key, keys, old(visited), visited, added);
    }
  }

  /** Lists one entry for every edge that leaves a vertex reached from the start. */
  method GetTransitiveDependencies(graph: DependencyGraph, moduleName: string, version: string)
    returns (result: seq<Dependency>, ghost reached: set<string>, ghost arcs: seq<Arc>)
    requires graph.Valid()
    ensures forall k :: k in KeysOf(result) <==> ReachesPlus(graph.Adj(), ModuleVersionKey(moduleName, version), k)
    ensures forall d | d in result :: d.kind == Transitive
    ensures forall k :: k in reached <==> Reaches(graph.Adj(), ModuleVersionKey(moduleName, version), k)
    ensures |arcs| == |result| && forall i | 0 <= i < |arcs| :: arcs[i].target == KeyOf(result[i])
    ensures ArcsOf(graph.edges, reached, arcs)
  {
    hide Reaches, ReachesPlus, Complete, ArcsOf, Recorded, ModuleVersionKey;
    var visit := new ClosureVisit(graph);
    arcs := visit.Traverse(moduleName, version);
    result, reached := visit.result, visit.visited;
    ghost var g, start := graph.Adj(), ModuleVersionKey(moduleName, version);
    assert visit.arcs == arcs;
    CompleteFromNothing(graph.edges, start, reached, arcs);
    TargetsAreProper(graph, start, reached, arcs);
    RecordedKeys(result, arcs);
  }

  lemma CompleteFromNothing(edges: map<string, seq<string>>, start: string, reached: set<string>, arcs: seq<Arc>)
    requires Complete(edges, start, {}, reached, arcs)
    ensures ArcsOf(edges, reached, arcs) && forall k :: k in reached <==> Reaches(AdjOf(edges), start, k)
  {
    hide Reaches, ArcsOf;
    assert reached - {} == reached;
    ReachableSet(AdjOf(edges), reached, start);
  }

  lemma RecordedKeys(entries: seq<Dependency>, arcs: seq<Arc>)
    requires Recorded(entries, arcs)
    ensures |arcs| == |entries| && forall i | 0 <= i < |arcs| :: arcs[i].target == KeyOf(entries[i])
    ensures forall d | d in entries :: d.kind == Transitive
    ensures forall k :: k in KeysOf(entries) <==> exists i | 0 <= i < |arcs| :: arcs[i].target == k
  {
    hide ModuleVersionKey;
  }

  lemma TargetsAreProper(graph: DependencyGraph, start: string, reached: set<string>, arcs: seq<Arc>)
    requires graph.Valid() && ArcsOf(graph.edges, reached, arcs)
    requires forall k :: k in reached <==> Reaches(graph.Adj(), start, k)
    ensures forall k :: (exists i | 0 <= i < |arcs| :: arcs[i].target == k) <==> ReachesPlus(graph.Adj(), start, k)
  {
    var g := graph.Adj();
    forall i | 0 <= i < |arcs| ensures ReachesPlus(g, start, arcs[i].target) {
      assert arcs[i] in multiset(arcs);
      assert arcs[i].target in graph.edges[arcs[i].source];
      ReachesThenEdge(g, start, arcs[i].source, arcs[i].target);
    }
    forall k | ReachesPlus(g, start, k) ensures exists i | 0 <= i < |arcs| :: arcs[i].target == k {
      var u := LastStep(g, start, k);
      assert Arc(u, k) in multiset(arcs);
      var i :| 0 <= i < |arcs| && arcs[i] == Arc(u, k);
    }
  }

  datatype ImpactAnalysis = ImpactAnalysis(moduleName: string, version: string,
                                           directDependents: seq<Dependency>, transitiveDependents: seq<Dependency>,
                                           totalImpact: nat)

  ghost function Listing(s: set<string>): (l: seq<string>)
    ensures Distinct(l) && forall k :: k in l <==> k in s
  {
    if s == {} then []
    else
      var x :| x in s;
      Listing(s - {x}) + [x]
  }

  ghost function Mentioned(edges: map<string, seq<string>>): (ks: set<string>)
    ensures edges.Keys <= ks
    ensures forall u, v | u in edges && v in edges[u] :: v in ks
  {
    edges.Keys + set u, v | u in edges && v in edges[u] :: v
  }

  ghost function KeysInto(edges: map<string, seq<string>>, k: string): (ks: set<string>)
    ensures forall u :: u in ks <==> u in edges && k in edges[u]
  {
    set u | u in edges && k in edges[u]
  }

  /** The edge lists of the reversed graph: for each key, the keys with an edge to it, each once. */
  ghost function DependentLists(edges: map<string, seq<string>>): (rev: map<string, seq<string>>)
    ensures edges.Keys <= rev.Keys
    ensures forall k | k in rev :: Distinct(rev[k])
    ensures forall u, v :: Edge(AdjOf(rev), v, u) <==> Edge(AdjOf(edges), u, v)
  {
    var rev := map k | k in Mentioned(edges) :: Listing(KeysInto(edges, k));
    assert forall v | v in rev :: (forall u :: u in rev[v] <==> u in KeysInto(edges, v));
    rev
  }

  /** The same members, each once, perhaps in another order. */
  ghost predicate Reordered(a: seq<string>, b: seq<string>) {
    Distinct(a) && Distinct(b) && forall d :: d in a <==> d in b
  }

  lemma ReorderedMember(a: seq<string>, b: seq<string>, i: nat)
    requires Reordered(a, b) && i < |a|
    ensures a[i] in b
  {
  }

  /** The edges of key may be followed in another order than they are listed. */
  lemma FinishReordered(edges: map<string, seq<string>>, key: string, keys: seq<string>,
                        before: set<string>, after: set<string>, added: seq<Arc>)
    requires Partial(edges, key, keys, before, after, added)
    requires Reordered(keys, edges[key])
    ensures Complete(edges, key, before, after, added)
  {
    forall d ensures multiset(keys)[d] == multiset(edges[key])[d] {
      DistinctCount(keys, d);
      DistinctCount(edges[key], d);
    }
    assert Partial(edges, key, edges[key], before, after, added);
    FinishPartial(edges, key, before, after, added);
  }

  /** rev holds the edges of the graph turned round. */
  class ImpactVisit {
    const graph: DependencyGraph
    ghost const rev: map<string, seq<string>>
    var visited: set<string>
    var allDependents: seq<Dependency>
    ghost var arcs: seq<Arc>

    constructor (graph: DependencyGraph)
      requires graph.Valid()
      ensures this.graph == graph && rev == DependentLists(graph.edges)
      ensures Inv() && visited == {} && allDependents == [] && arcs == []
    {
      this.graph, rev := graph, DependentLists(graph.edges);
      visited, allDependents, arcs := {}, [], [];
    }

    ghost predicate Fits()
      reads graph
    {
      graph.Valid() && rev == DependentLists(graph.edges)
    }

    ghost predicate Inv()
      reads this, graph
    {
      Fits() && Recorded(allDependents, arcs)
    }

    /** GetDependents lists the edges of rev, in some order. */
    method Dependents(moduleName: string, version: string) returns (deps: seq<Dependency>)
      requires Fits() && ModuleVersionKey(moduleName, version) in graph.nodes
      ensures ModuleVersionKey(moduleName, version) in rev
      ensures Reordered(KeysOf(deps), rev[ModuleVersionKey(moduleName, version)])
      ensures forall i | 0 <= i < |deps| :: KeyOf(deps[i]) in graph.nodes
    {
      hide DependentLists, Distinct, Edge, AdjOf;
      deps := graph.GetDependents(moduleName, version);
      DependentsListed(graph, ModuleVersionKey(moduleName, version), KeysOf(deps));
    }

    /** The body of the loop: lists one dependent of key, then those of the dependent. */
    method Follow(dep: Dependency, ghost key: string) returns (ghost deeper: seq<Arc>)
      requires Inv() && KeyOf(dep) in graph.nodes
      modifies this
      decreases graph.nodes.Keys - visited, 1
      ensures Inv() && old(visited) <= visited && arcs == old(arcs) + [Arc(key, KeyOf(dep))] + deeper
      ensures Complete(rev, KeyOf(dep), old(visited), visited, deeper)
    {
      hide Complete, Recorded, Fits, ModuleVersionKey;
      RecordMore(allDependents, arcs, Dependency(dep.moduleName, dep.version, Transitive), key);
      allDependents := allDependents + [Dependency(dep.moduleName, dep.version, Transitive)];
      arcs := arcs + [Arc(key, KeyOf(dep))];
      deeper := Traverse(dep.moduleName, dep.version);
    }

    method Traverse(moduleName: string, version: string) returns (ghost added: seq<Arc>)
      requires Inv() && ModuleVersionKey(moduleName, version) in graph.nodes
      modifies this
      decreases graph.nodes.Keys - visited, 0
      ensures Inv() && old(visited) <= visited && arcs == old(arcs) + added
      ensures Complete(rev, ModuleVersionKey(moduleName, version), old(visited), visited, added)
    {
      hide Complete, Partial, Recorded, Fits, Reordered, ModuleVersionKey, KeysOf;
      var key := ModuleVersionKey(moduleName, version);
      added := [];
      if key in visited {
        AlreadyVisited(rev, key, visited);
        return;
      }
      visited := visited + {key};
      var deps := Dependents(moduleName, version);
      ghost var keys := KeysOf(deps);
      BeginPartial(rev, key, old(visited));
      assert keys[..0] == [];
      for i := 0 to |deps|
        invariant Inv() && arcs == old(arcs) + added
        invariant Partial(rev, key, keys[..i], old(visited), visited, added)
      {
        var dep := deps[i];
        ReorderedMember(keys, rev[key], i);
        ghost var seen, known := visited, added;
        PartialGrew(rev, key, keys[..i], old(visited), visited, added);
        ghost var deeper := Follow(dep, key);
        added := known + [Arc(key, keys[i])] + deeper;
        ExtendPartial(rev, key, keys[..i], keys[i], old(visited), seen, visited, known, deeper, added);
        assert keys[..i] + [keys[i]] == keys[..i + 1];
      }
      assert keys[..|deps|] == keys;
      PartialGrew(rev, key, keys, old(visited), visited, added);
      FinishReordered(rev, key, keys, old(visited), visited, added);
    }
  }

  lemma DependentsListed(graph: DependencyGraph, key: string, keys: seq<string>)
    requires graph.Valid() && key in graph.nodes
    requires forall k :: k in keys <==> Edge(graph.Adj(), k, key)
    ensures key in DependentLists(graph.edges) && Distinct(DependentLists(graph.edges)[key])
    ensures forall k :: k in keys <==> k in DependentLists(graph.edges)[key]
  {
    var rev := DependentLists(graph.edges);
    assert forall k :: k in rev[key] <==> Edge(AdjOf(rev), key, k);
  }

  /** The state of the analysis once the first dependents of the target have been followed. */
  ghost predicate Gathered(rev: map<string, seq<string>>, target: string, done: seq<string>, visited: set<string>,
                           arcs: seq<Arc>)
  {
    && (forall k | k in done :: k in visited)
    && (forall k | k in visited :: ReachesPlus(AdjOf(rev), target, k))
    && (forall k, d | k in visited && Edge(AdjOf(rev), k, d) :: d in visited)
    && ArcsOf(rev, visited, arcs)
  }

  lemma GatherMore(rev: map<string, seq<string>>, target: string, done: seq<string>, d: string,
                   before: set<string>, a: seq<Arc>, visited: set<string>, b: seq<Arc>)
    requires Gathered(rev, target, done, before, a) && Complete(rev, d, before, visited, b)
    requires Edge(AdjOf(rev), target, d)
    ensures Gathered(rev, target, done + [d], visited, a + b)
  {
    forall k | k in visited ensures ReachesPlus(AdjOf(rev), target, k) {
      if k !in before {
        EdgeThenReaches(AdjOf(rev), target, d, k);
      }
    }
  }

  /** The entry of a list of dependents: one for each edge into an affected module. */
  ghost predicate ImpactArcs(g: Digraph<string>, target: string, arcs: seq<Arc>) {
    forall a :: multiset(arcs)[a] == if ReachesPlus(g, a.source, target) && Edge(g, a.target, a.source) then 1 else 0
  }

  lemma GatheredIsImpact(edges: map<string, seq<string>>, target: string, direct: seq<string>, visited: set<string>,
                         arcs: seq<Arc>)
    requires Gathered(DependentLists(edges), target, direct, visited, arcs)
    requires forall k :: k in direct <==> Edge(AdjOf(edges), k, target)
    ensures ImpactArcs(AdjOf(edges), target, arcs)
  {
    var rev, g := DependentLists(edges), AdjOf(edges);
    var h := AdjOf(rev);
    forall k ensures k in visited <==> ReachesPlus(g, k, target) {
      InverseReaches(g, h, k, target);
      if ReachesPlus(h, target, k) {
        var d := FirstStep(h, target, k);
        ClosedKeepsReachable(h, visited, d, k);
      }
    }
    forall a: Arc
      ensures multiset(arcs)[a] == if ReachesPlus(g, a.source, target) && Edge(g, a.target, a.source) then 1 else 0
    {
      assert Edge(h, a.source, a.target) <==> a.source in rev && a.target in rev[a.source];
      if a.source in rev {
        DistinctCount(rev[a.source], a.target);
      }
    }
  }

  lemma TargetsOfImpact(g: Digraph<string>, target: string, direct: seq<string>, listed: seq<string>, arcs: seq<Arc>)
    requires ImpactArcs(g, target, arcs) && (forall k :: k in direct <==> Edge(g, k, target))
    requires |arcs| == |listed| && forall i | 0 <= i < |arcs| :: arcs[i].target == listed[i]
    ensures forall k :: k in direct || k in listed <==> ReachesPlus(g, k, target)
  {
    forall k ensures k in direct || k in listed <==> ReachesPlus(g, k, target) {
      if k in direct {
        ReachesSelf(g, target);
        EdgeThenReaches(g, k, target, target);
      }
      if k in listed {
        var i :| 0 <= i < |listed| && listed[i] == k;
        assert arcs[i] in multiset(arcs);
        AnyStep(g, k, arcs[i].source, target);
      }
      if ReachesPlus(g, k, target) {
        var v := FirstStep(g, k, target);
        if v != target {
          PlusWhenDistinct(g, v, target);
          assert Arc(v, k) in multiset(arcs);
          var i :| 0 <= i < |arcs| && arcs[i] == Arc(v, k);
        }
      }
    }
  }

  lemma AnyStep(g: Digraph<string>, u: string, v: string, w: string)
    requires Edge(g, u, v) && ReachesPlus(g, v, w)
    ensures ReachesPlus(g, u, w)
  {
    var p :| WalkFromTo(g, p, v, w) && |p| >= 2;
    EdgeThenReaches(g, u, v, w);
  }

  /** arcs tells for each transitive entry which affected module it was listed for. */
  method GetImpactAnalysis(graph: DependencyGraph, moduleName: string, version: string)
    returns (impact: ImpactAnalysis, ghost arcs: seq<Arc>)
    requires graph.Valid()
    ensures impact.moduleName == moduleName && impact.version == version
    ensures Distinct(KeysOf(impact.directDependents)) && forall d | d in impact.directDependents :: d.kind == Direct
    ensures forall k :: k in KeysOf(impact.directDependents)
                        <==> Edge(graph.Adj(), k, ModuleVersionKey(moduleName, version))
    ensures forall d | d in impact.transitiveDependents :: d.kind == Transitive
    ensures |arcs| == |impact.transitiveDependents|
    ensures forall i | 0 <= i < |arcs| :: arcs[i].target == KeyOf(impact.transitiveDependents[i])
    ensures ImpactArcs(graph.Adj(), ModuleVersionKey(moduleName, version), arcs)
    ensures forall k :: k in KeysOf(impact.directDependents) || k in KeysOf(impact.transitiveDependents)
                        <==> ReachesPlus(graph.Adj(), k, ModuleVersionKey(moduleName, version))
    ensures impact.totalImpact == |impact.directDependents| + |impact.transitiveDependents|
    ensures impact.totalImpact
         >= |set k | k in KeysOf(impact.directDependents) + KeysOf(impact.transitiveDependents)|
  {
    hide Reaches, ReachesPlus, DependentLists, Distinct, Gathered, Complete, ImpactArcs, ModuleVersionKey;
    ghost var target := ModuleVersionKey(moduleName, version);
    var directDependents := graph.GetDependents(moduleName, version);
    var visit := new ImpactVisit(graph);
    ghost var direct := KeysOf(directDependents);
    FollowDirect(visit, directDependents, target);
    arcs := visit.arcs;
    impact := ImpactAnalysis(moduleName, version, directDependents, visit.allDependents,
                             |directDependents| + |visit.allDependents|);
    GatheredIsImpact(graph.edges, target, direct, visit.visited, arcs);
    TargetsOfImpact(graph.Adj(), target, direct, KeysOf(visit.allDependents), arcs);
    DistinctAtMostLength(direct + KeysOf(visit.allDependents));
  }

  /** The loop of GetImpactAnalysis over the direct dependents. */
  method FollowDirect(visit: ImpactVisit, directDependents: seq<Dependency>, ghost target: string)
    requires visit.Inv() && visit.visited == {} && visit.arcs == []
    requires forall d | d in directDependents :: KeyOf(d) in visit.graph.nodes
    requires forall k | k in KeysOf(directDependents) :: Edge(AdjOf(visit.rev), target, k)
    modifies visit
    ensures visit.Inv()
    ensures Gathered(visit.rev, target, KeysOf(directDependents), visit.visited, visit.arcs)
  {
    hide Gathered, Complete, ModuleVersionKey, Edge, AdjOf, DependentLists, Recorded;
    ghost var direct := KeysOf(directDependents);
    assert direct[..0] == [];
    GatherNone(visit.rev, target);
    for i := 0 to |directDependents|
      invariant visit.Inv() && Gathered(visit.rev, target, direct[..i], visit.visited, visit.arcs)
    {
      var dep := directDependents[i];
      assert direct[i] in direct && dep in directDependents;
      ghost var before, known := visit.visited, visit.arcs;
      ghost var added := visit.Traverse(dep.moduleName, dep.version);
      GatherMore(visit.rev, target, direct[..i], direct[i], before, known, visit.visited, added);
      assert direct[..i] + [direct[i]] == direct[..i + 1];
    }
    assert direct[..|directDependents|] == direct;
  }

  lemma GatherNone(rev: map<string, seq<string>>, target: string)
    ensures Gathered(rev, target, [], {}, [])
  {
  }

  lemma PlusWhenDistinct(h: Digraph<string>, u: string, v: string)
    requires Reaches(h, u, v) && u != v
    ensures ReachesPlus(h, u, v)
  {
  }

  lemma {:induction false} DistinctAtMostLength<T>(s: seq<T>)
    ensures |set k | k in s| <= |s|
  {
    if s != [] {
      var n := |s| - 1;
      assert s == s[..n] + [s[n]];
      assert (set k | k in s) == (set k | k in s[..n]) + {s[n]};
      DistinctAtMostLength(s[..n]);
    }
  }
}
