// TopologicalSort of pkg/dependencies/graph.go.  The fields of TopologicalVisit are the variables
// that the recursive closure of the source captures; stack and order are ghost: the chain of open
// calls, and the keys in the order in which their calls return.
module TopologicalSorting {
  import opened Wrappers
  import opened Reachability
  import opened DependencyGraphs
  import opened DepthFirst

  /** The entries reported for a list of keys; keys without a node are skipped. */
  function Entries(nodes: map<string, Node>, order: seq<string>): seq<Dependency> {
    if order == [] then []
    else
      var k := order[|order| - 1];
      Entries(nodes, order[..|order| - 1])
      + (if k in nodes then [Dependency(nodes[k].moduleName, nodes[k].version, Direct)] else [])
  }

  lemma EntriesAppend(nodes: map<string, Node>, order: seq<string>, k: string)
    ensures Entries(nodes, order + [k])
         == Entries(nodes, order)
            + (if k in nodes then [Dependency(nodes[k].moduleName, nodes[k].version, Direct)] else [])
  {
    assert (order + [k])[..|order|] == order;
  }

  /** g and nodes are the edges and the nodes of the graph, which the search does not change. */
  class TopologicalVisit {
    const graph: DependencyGraph
    ghost const g: Digraph<string>
    ghost const nodes: map<string, Node>
    var visited: set<string>
    var recStack: set<string>
    var result: seq<Dependency>
    ghost var stack: seq<string>
    ghost var order: seq<string>

    constructor (graph: DependencyGraph)
      requires graph.Valid()
      ensures this.graph == graph && g == graph.Adj() && nodes == graph.nodes
      ensures Inv() && State() == Search({}, {}, [], [])
    {
      this.graph, g, nodes := graph, graph.Adj(), graph.nodes;
      visited, recStack, result := {}, {}, [];
      stack, order := [], [];
    }

    ghost predicate Fits()
      reads graph
    {
      graph.Valid() && g == graph.Adj() && nodes == graph.nodes
    }

    ghost function State(): Search<string>
      reads this
    {
      Search(visited, recStack, stack, order)
    }

    ghost predicate Inv()
      reads this, graph
    {
      Fits() && Coloured(g, State()) && result == Entries(nodes, order)
    }

    lemma EdgesOf(key: string)
      requires Fits()
      ensures graph.nodes == nodes
      ensures forall d :: d in (if key in graph.edges then graph.edges[key] else []) <==> Edge(g, key, d)
    {
    }

    method Visit(key: string) returns (r: Result<(), string>)
      requires Inv() && Next(g, State(), key)
      modifies this
      decreases graph.edges.Keys - visited
      ensures r.Success? ==> Inv() && Done(g, key, old(State()), State()) && old(visited) <= visited
      ensures r.Success? && key !in old(visited) ==> order != [] && order[|order| - 1] == key
      ensures r.Failure? ==> Reaches(g, key, r.error) && ReachesPlus(g, r.error, r.error)
    {
      hide Reaches, ReachesPlus, Entries, Coloured, Next, Done, Open, Fits, Edge;
      EdgesOf(key);
      if key in recStack {
        BackEdgeFromTop(g, State(), key);
        return Failure(key);
      }
      if key in visited {
        AlreadyDone(g, key, State());
        return Success(());
      }
      var deps := if key in graph.edges then graph.edges[key] else [];
      OpenStarts(g, key, deps, State());
      visited := visited + {key};
      recStack := recStack + {key};
      stack := stack + [key];
      for i := 0 to |deps|
        invariant Fits() && result == Entries(nodes, order)
        invariant Open(g, key, deps, i, old(State()), State())
      {
        assert deps[i] in deps;
        OpenHolds(g, key, deps, i, old(State()), State());
        ghost var before := State();
        r := Visit(deps[i]);
        if r.Failure? {
          EdgeThenReaches(g, key, deps[i], r.error);
          return;
        }
        OpenContinues(g, key, deps, i, old(State()), before, State());
      }
      OpenEnds(g, key, deps, old(State()), State());
      Leave(key, old(stack));
      return Success(());
    }

    /** What visit does after its loop: the key is finished and listed if it has a node. */
    method Leave(key: string, ghost below: seq<string>)
      requires Fits() && result == Entries(nodes, order)
      modifies this
      ensures Fits() && result == Entries(nodes, order)
      ensures State() == Search(old(visited), old(recStack) - {key}, below, old(order) + [key])
    {
      hide EdgesMatch, AdjOf, ModuleVersionKey, KeysOf, Entries, Colours, Reaches;
      recStack := recStack - {key};
      stack := below;
      EntriesAppend(nodes, order, key);
      order := order + [key];
      if key in graph.nodes {
        var node := graph.nodes[key];
        result := result + [Dependency(node.moduleName, node.version, Direct)];
      }
    }
  }

  /** The keys of a list that have a node, in the order of the list. */
  ghost function WithNode(nodes: map<string, Node>, order: seq<string>): seq<string> {
    if order == [] then []
    else
      WithNode(nodes, order[..|order| - 1])
      + (if order[|order| - 1] in nodes then [order[|order| - 1]] else [])
  }

  lemma {:induction false} EntriesKeys(nodes: map<string, Node>, order: seq<string>)
    requires forall k | k in nodes :: ModuleVersionKey(nodes[k].moduleName, nodes[k].version) == k
    ensures KeysOf(Entries(nodes, order)) == WithNode(nodes, order)
    ensures forall d | d in Entries(nodes, order) :: IsEntryOf(nodes, d)
  {
    if order != [] {
      EntriesKeys(nodes, order[..|order| - 1]);
    }
  }

  predicate IsEntryOf(nodes: map<string, Node>, d: Dependency) {
    KeyOf(d) in nodes && d == Dependency(nodes[KeyOf(d)].moduleName, nodes[KeyOf(d)].version, Direct)
  }

  /** Dropping keys without a node keeps a duplicate-free, successors-first order so among nodes. */
  lemma {:induction false} WithNodeKeepsOrder(g: Digraph<string>, nodes: map<string, Node>, order: seq<string>)
    requires Distinct(order) && SuccessorsFirst(g, order)
    ensures Distinct(WithNode(nodes, order))
    ensures forall k :: k in WithNode(nodes, order) <==> k in order && k in nodes
    ensures NodesFirst(g, nodes, WithNode(nodes, order))
  {
    if order != [] {
      var n := |order| - 1;
      var k := order[n];
      var rest := order[..n];
      assert SuccessorsFirst(g, rest) by {
        forall i, v | 0 <= i < |rest| && Edge(g, rest[i], v) ensures v in rest[..i] {
          assert rest[..i] == order[..i] && rest[i] == order[i];
        }
      }
      WithNodeKeepsOrder(g, nodes, rest);
      var before, after := WithNode(nodes, rest), WithNode(nodes, order);
      forall i, v | 0 <= i < |after| && Edge(g, after[i], v) && v in nodes ensures v in after[..i] {
        if i < |before| {
          assert after[..i] == before[..i];
        } else {
          assert after[..i] == before && v in order[..n];
        }
      }
    }
  }

  /** Each dependency of a listed node that is itself a node stands before it. */
  ghost predicate NodesFirst(g: Digraph<string>, nodes: map<string, Node>, ks: seq<string>) {
    forall i, v | 0 <= i < |ks| && Edge(g, ks[i], v) && v in nodes :: v in ks[..i]
  }

  /** What a topological sort from start must return: every reachable node once, dependencies first. */
  ghost predicate SortedFrom(g: Digraph<string>, nodes: map<string, Node>, start: string, ds: seq<Dependency>) {
    && (forall d | d in ds :: IsEntryOf(nodes, d))
    && Distinct(KeysOf(ds))
    && (forall k :: k in KeysOf(ds) <==> k in nodes && Reaches(g, start, k))
    && NodesFirst(g, nodes, KeysOf(ds))
    && (start in nodes ==> ds != [] && KeyOf(ds[|ds| - 1]) == start)
  }

  method TopologicalSort(graph: DependencyGraph, moduleName: string, version: string)
    returns (r: Result<seq<Dependency>, string>)
    requires graph.Valid()
    ensures r.Success? <==> !CycleReachable(graph.Adj(), ModuleVersionKey(moduleName, version))
    ensures r.Success? ==> SortedFrom(graph.Adj(), graph.nodes, ModuleVersionKey(moduleName, version), r.value)
    ensures r.Failure? ==> Reaches(graph.Adj(), ModuleVersionKey(moduleName, version), r.error)
                           && ReachesPlus(graph.Adj(), r.error, r.error)
  {
    hide Reaches, ReachesPlus, CycleReachable, Coloured, Next, Done, Entries, WithNode, SuccessorsFirst;
    var key := ModuleVersionKey(moduleName, version);
    ghost var g := graph.Adj();
    var visit := new TopologicalVisit(graph);
    VisitMayStart(g, visit.State(), key);
    var outcome := visit.Visit(key);
    if outcome.Failure? {
      ReachesThenCycle(g, key, outcome.error);
      return Failure(outcome.error);
    }
    DoneFromStart(g, key, visit.State());
    EntriesKeys(graph.nodes, visit.order);
    WithNodeKeepsOrder(g, graph.nodes, visit.order);
    if key in graph.nodes {
      StartIsLast(graph.nodes, visit.order, key);
    }
    return Success(visit.result);
  }

  lemma VisitMayStart(g: Digraph<string>, s: Search<string>, key: string)
    requires s.stack == []
    ensures Next(g, s, key)
  {
  }

  lemma ReachesThenCycle(g: Digraph<string>, start: string, c: string)
    requires Reaches(g, start, c) && ReachesPlus(g, c, c)
    ensures CycleReachable(g, start)
  {
  }

  lemma StartIsLast(nodes: map<string, Node>, order: seq<string>, start: string)
    requires order != [] && order[|order| - 1] == start && start in nodes
    ensures WithNode(nodes, order) != [] && WithNode(nodes, order)[|WithNode(nodes, order)| - 1] == start
  {
  }
}
