// GetDependentsTree of cmd/sprocket/compiler.go: the recursive collection of all dependents.
module SprocketDependents {
  import opened Reachability
  import opened DependencyGraphs
  import opened SprocketGraphs
  import opened SprocketLaws

  ghost function DependentEdges(g: View): Digraph<string> {
    map n | n in g :: g[n].dependents
  }

  ghost function DependencyEdges(g: View): Digraph<string> {
    map n | n in g :: g[n].dependencies
  }

  /** The transitive dependents of a key. */
  ghost function Tree(g: View, key: string): (t: set<string>)
    ensures forall k :: k in t <==> ReachesPlus(DependentEdges(g), key, k)
  {
    Beyond(DependentEdges(g), key)
  }

  /** What the collection from a key has added: it has visited the reachable part that was unvisited,
      and listed the dependents of exactly the keys it visited. */
  ghost predicate Collected(h: Digraph<string>, key: string, v0: set<string>, r0: set<string>, v1: set<string>,
                            r1: set<string>)
  {
    && v0 <= v1 && r0 <= r1 && key in v1
    && (forall k | k in v1 - v0 :: Reaches(h, key, k))
    && (forall k, d | k in v1 - v0 && Edge(h, k, d) :: d in v1 && d in r1)
    && (forall d | d in r1 - r0 :: exists k :: k in v1 - v0 && Edge(h, k, d))
  }

  /** The same while the dependents in todo have not been followed. */
  ghost predicate Collecting(h: Digraph<string>, key: string, todo: set<string>, v0: set<string>, r0: set<string>,
                             v1: set<string>, r1: set<string>)
  {
    && v0 <= v1 && r0 <= r1 && key in v1 - v0 && key in h && todo <= h[key]
    && (forall k | k in v1 - v0 :: Reaches(h, key, k))
    && (forall k, d | k in v1 - v0 && Edge(h, k, d) && !(k == key && d in todo) :: d in v1 && d in r1)
    && (forall d | d in r1 - r0 :: exists k :: k in v1 - v0 && Edge(h, k, d))
  }

  lemma CollectNothing(h: Digraph<string>, key: string, v: set<string>, r: set<string>)
    requires key in v
    ensures Collected(h, key, v, r, v, r)
  {
  }

  lemma CollectMissing(h: Digraph<string>, key: string, v: set<string>, r: set<string>)
    requires key !in h
    ensures Collected(h, key, v, r, v + {key}, r)
  {
    ReachesSelf(h, key);
  }

  lemma CollectStart(h: Digraph<string>, key: string, v: set<string>, r: set<string>)
    requires key in h && key !in v
    ensures Collecting(h, key, h[key], v, r, v + {key}, r)
  {
    ReachesSelf(h, key);
  }

  lemma StillCollecting(h: Digraph<string>, key: string, todo: set<string>, v0: set<string>, r0: set<string>,
                        v1: set<string>, r1: set<string>)
    requires Collecting(h, key, todo, v0, r0, v1, r1)
    ensures v0 + {key} <= v1 && forall d | d in todo :: Edge(h, key, d)
  {
  }

  lemma CollectStep(h: Digraph<string>, key: string, todo: set<string>, d: string, v0: set<string>, r0: set<string>,
                    v1: set<string>, r1: set<string>, v2: set<string>, r2: set<string>)
    requires Collecting(h, key, todo, v0, r0, v1, r1) && Edge(h, key, d)
    requires Collected(h, d, v1, r1 + {d}, v2, r2)
    ensures Collecting(h, key, todo - {d}, v0, r0, v2, r2)
  {
    forall k | k in v2 - v0 ensures Reaches(h, key, k) {
      if k !in v1 {
        EdgeThenReaches(h, key, d, k);
      }
    }
    forall x | x in r2 - r0 ensures exists k :: k in v2 - v0 && Edge(h, k, x) {
      if x in r1 {
        assert x in r1 - r0;
        var k :| k in v1 - v0 && Edge(h, k, x);
        assert k in v2 - v0;
      } else if x == d {
        assert key in v2 - v0;
      } else {
        assert x in r2 - (r1 + {d});
        var k :| k in v2 - v1 && Edge(h, k, x);
        assert k in v2 - v0;
      }
    }
  }

  lemma CollectEnd(h: Digraph<string>, key: string, v0: set<string>, r0: set<string>, v1: set<string>, r1: set<string>)
    requires Collecting(h, key, {}, v0, r0, v1, r1)
    ensures Collected(h, key, v0, r0, v1, r1)
  {
  }

  lemma CollectedIsTree(g: View, key: string, v: set<string>, r: set<string>)
    requires Collected(DependentEdges(g), key, {}, {}, v, r)
    ensures r == Tree(g, key)
  {
    var h := DependentEdges(g);
    forall k ensures k in r <==> ReachesPlus(h, key, k) {
      if k in r {
        assert k in r - {};
        var n :| n in v - {} && Edge(h, n, k);
        ReachesThenEdge(h, key, n, k);
      }
      if ReachesPlus(h, key, k) {
        var n := LastStep(h, key, k);
        assert forall x | x in v :: x in v - {};
        ClosedKeepsReachable(h, v, key, n);
        assert n in v - {};
      }
    }
  }

  /** h is the graph of dependents that the search runs over. */
  class DependentsSearch {
    const graph: SprocketGraph
    ghost const h: Digraph<string>
    var result: set<string>
    var visited: set<string>

    constructor (graph: SprocketGraph)
      ensures this.graph == graph && h == DependentEdges(graph.View()) && result == {} && visited == {}
    {
      this.graph, h := graph, DependentEdges(graph.View());
      result, visited := {}, {};
    }

    ghost predicate Inv()
      reads graph, graph.nodes.Values
    {
      h == DependentEdges(graph.View())
    }

    lemma EdgesOf(key: string)
      requires Inv()
      ensures key in graph.nodes <==> key in h
      ensures key in h ==> h[key] == graph.nodes[key].dependents
    {
    }

    method CollectDependents(key: string)
      requires Inv()
      modifies this
      decreases graph.nodes.Keys - visited
      ensures Inv() && old(visited) <= visited
      ensures Collected(h, key, old(visited), old(result), visited, result)
    {
      hide Collected, Collecting, Edge, Inv;
      EdgesOf(key);
      if key in visited {
        CollectNothing(h, key, visited, result);
        return;
      }
      visited := visited + {key};
      if key !in graph.nodes {
        CollectMissing(h, key, old(visited), result);
        return;
      }
      var todo := graph.nodes[key].dependents;
      CollectStart(h, key, old(visited), result);
      while todo != {}
        invariant Inv() && Collecting(h, key, todo, old(visited), old(result), visited, result)
      {
        StillCollecting(h, key, todo, old(visited), old(result), visited, result);
        var dependent :| dependent in todo;
        ghost var v, r := visited, result;
        result := result + {dependent};
        CollectDependents(dependent);
        CollectStep(h, key, todo, dependent, old(visited), old(result), v, r, visited, result);
        todo := todo - {dependent};
      }
      CollectEnd(h, key, old(visited), old(result), visited, result);
    }
  }

  /** All transitive dependents, each once, in the arbitrary order of a map traversal. */
  method GetDependentsTree(graph: SprocketGraph, moduleName: string, version: string) returns (dependents: seq<string>)
    requires graph.Valid()
    ensures Distinct(dependents)
    ensures forall k :: k in dependents <==> k in Tree(graph.View(), ModuleVersionKey(moduleName, version))
    ensures DependentsInverse(graph.View()) && ModuleVersionKey(moduleName, version) in graph.View() ==>
              forall k :: k in dependents
                 <==> ReachesPlus(DependencyEdges(graph.View()), k, ModuleVersionKey(moduleName, version))
  {
    hide Collected, ReachesPlus;
    var key := ModuleVersionKey(moduleName, version);
    var search := new DependentsSearch(graph);
    search.CollectDependents(key);
    CollectedIsTree(graph.View(), key, search.visited, search.result);
    dependents := [];
    var todo := search.result;
    while todo != {}
      invariant todo <= search.result && Distinct(dependents)
      invariant forall k :: k in dependents <==> k in search.result - todo
    {
      var dependent :| dependent in todo;
      assert dependent !in dependents;
      todo := todo - {dependent};
      dependents := dependents + [dependent];
    }
    if DependentsInverse(graph.View()) && key in graph.View() {
      forall k ensures k in dependents <==> ReachesPlus(DependencyEdges(graph.View()), k, key) {
        TreeByDependencies(graph.View(), key, k);
      }
    }
  }

  /** The transitive dependents of a node are the keys that reach it by dependencies. */
  lemma TreeByDependencies(g: View, key: string, k: string)
    requires DependentsInverse(g) && key in g
    ensures ReachesPlus(DependentEdges(g), key, k) <==> ReachesPlus(DependencyEdges(g), k, key)
  {
    var inner := map n | n in g :: set d | d in g[n].dependencies && d in g;
    forall u, v ensures Edge(inner, u, v) <==> Edge(DependentEdges(g), v, u) {
      assert v in g ==> (u in g[v].dependents <==> v in DependenciesIn(g, u));
    }
    InverseReaches(inner, DependentEdges(g), k, key);
    if ReachesPlus(DependencyEdges(g), k, key) {
      var p :| WalkFromTo(DependencyEdges(g), p, k, key) && |p| >= 2;
      forall i | 0 <= i < |p| - 1 ensures Edge(inner, p[i], p[i + 1]) {
        assert Edge(DependencyEdges(g), p[i], p[i + 1]);
        assert i + 1 < |p| - 1 ==> Edge(DependencyEdges(g), p[i + 1], p[i + 1 + 1]);
      }
      assert WalkFromTo(inner, p, k, key);
    }
    if ReachesPlus(inner, k, key) {
      var p :| WalkFromTo(inner, p, k, key) && |p| >= 2;
      forall i | 0 <= i < |p| - 1 ensures Edge(DependencyEdges(g), p[i], p[i + 1]) {
        assert Edge(inner, p[i], p[i + 1]);
      }
      assert WalkFromTo(DependencyEdges(g), p, k, key);
    }
  }
}
