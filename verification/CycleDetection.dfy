// DetectCircularDependencies of pkg/dependencies/graph.go.  The fields of CycleSearch are the
// variables its recursive closure captures; order is ghost and lists the vertices already left.
module CycleDetection {
  import opened Wrappers
  import opened Reachability
  import opened DependencyGraphs
  import opened DepthFirst

  /** A simple walk whose last vertex has an edge back into the walk. */
  ghost predicate ClosesOnItself(g: Digraph<string>, path: seq<string>) {
    && IsWalk(g, path) && Distinct(path)
    && exists k | k in path :: Edge(g, path[|path| - 1], k)
  }

  lemma ClosingWalkIsCycle(g: Digraph<string>, path: seq<string>)
    requires ClosesOnItself(g, path)
    ensures CycleReachable(g, path[0])
  {
    var k :| k in path && Edge(g, path[|path| - 1], k);
    BackEdgeClosesCycle(g, path, k);
    assert WalkFromTo(g, path, path[0], path[|path| - 1]);
    ReachesThenEdge(g, path[0], path[|path| - 1], k);
  }

  lemma BackEdgeFound(g: Digraph<string>, key: string, deps: seq<string>, i: nat, s0: Search<string>, s: Search<string>)
    requires Open(g, key, deps, i, s0, s) && i < |deps| && Edge(g, key, deps[i]) && deps[i] in s.recStack
    ensures ClosesOnItself(g, s.stack) && s0.stack + [key] <= s.stack
  {
    hide GrewFrom;
  }

  lemma DeeperCycle(g: Digraph<string>, key: string, deps: seq<string>, i: nat, s0: Search<string>, s: Search<string>,
                    path: seq<string>)
    requires Open(g, key, deps, i, s0, s) && s.stack <= path
    ensures s0.stack + [key] <= path
  {
    hide Coloured, GrewFrom;
  }

  /** g holds the edges of the graph, which the search does not change. */
  class CycleSearch {
    const graph: DependencyGraph
    ghost const g: Digraph<string>
    var path: seq<string>
    var visited: set<string>
    var recStack: set<string>
    ghost var order: seq<string>

    constructor (graph: DependencyGraph)
      requires graph.Valid()
      ensures this.graph == graph && g == graph.Adj() && Inv() && State() == Search({}, {}, [], [])
    {
      this.graph, g := graph, graph.Adj();
      path, visited, recStack, order := [], {}, {}, [];
    }

    ghost predicate Fits()
      reads graph
    {
      graph.Valid() && g == graph.Adj()
    }

    ghost function State(): Search<string>
      reads this
    {
      Search(visited, recStack, path, order)
    }

    ghost predicate Inv()
      reads this, graph
    {
      Fits() && Coloured(g, State())
    }

    lemma EdgesOf(key: string)
      requires Fits()
      ensures forall d :: d in (if key in graph.edges then graph.edges[key] else []) <==> Edge(g, key, d)
    {
    }

    method HasCycle(key: string) returns (found: bool)
      requires Inv() && key !in visited && Next(g, State(), key)
      modifies this
      decreases graph.edges.Keys - visited
      ensures found ==> ClosesOnItself(g, path) && old(path) + [key] <= path
      ensures !found ==> Inv() && Done(g, key, old(State()), State()) && old(visited) <= visited
    {
      hide Coloured, Next, Done, Open, ClosesOnItself, Fits, Edge;
      EdgesOf(key);
      var deps := if key in graph.edges then graph.edges[key] else [];
      OpenStarts(g, key, deps, State());
      visited := visited + {key};
      recStack := recStack + {key};
      path := path + [key];
      for i := 0 to |deps|
        invariant Fits() && Open(g, key, deps, i, old(State()), State())
      {
        var dep := deps[i];
        assert dep in deps;
        OpenHolds(g, key, deps, i, old(State()), State());
        ghost var before := State();
        if dep !in visited {
          var deeper := HasCycle(dep);
          if deeper {
            DeeperCycle(g, key, deps, i, old(State()), before, path);
            return true;
          }
        } else if dep in recStack {
          BackEdgeFound(g, key, deps, i, old(State()), State());
          return true;
        } else {
          AlreadyDone(g, dep, State());
        }
        OpenContinues(g, key, deps, i, old(State()), before, State());
      }
      OpenEnds(g, key, deps, old(State()), State());
      recStack := recStack - {key};
      path := path[..|path| - 1];
      order := order + [key];
      return false;
    }
  }

  /** None when no cycle is reachable, otherwise the search path on which one was closed. */
  method DetectCircularDependencies(graph: DependencyGraph, moduleName: string, version: string)
    returns (r: Option<seq<string>>)
    requires graph.Valid()
    ensures r.Some? <==> CycleReachable(graph.Adj(), ModuleVersionKey(moduleName, version))
    ensures r.Some? ==> ClosesOnItself(graph.Adj(), r.value)
                        && r.value[0] == ModuleVersionKey(moduleName, version)
  {
    hide Coloured, Done, Reaches, CycleReachable;
    var search := new CycleSearch(graph);
    var key := ModuleVersionKey(moduleName, version);
    var found := search.HasCycle(key);
    if found {
      assert search.path[0] == key;
      ClosingWalkIsCycle(graph.Adj(), search.path);
      return Some(search.path);
    }
    DoneFromStart(graph.Adj(), key, search.State());
    return None;
  }
}
