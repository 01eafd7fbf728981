// The Cytoscape export of pkg/dependencies/graph_visualization.go.  CytoscapeBuild holds the graph
// under construction and the visited set that the builder functions share.
module Cytoscape {
  import opened Reachability
  import opened DependencyGraphs
  import opened Closures

  datatype NodeKind = CurrentNode | DependencyNode | DependentNode

  datatype EdgeKind = DirectEdge | TransitiveEdge | DependsOnEdge

  datatype CytoscapeNode = CytoscapeNode(id: string, name: string, version: string, kind: NodeKind)

  datatype CytoscapeEdge = CytoscapeEdge(id: string, source: string, target: string, kind: EdgeKind)

  datatype CytoscapeGraph = CytoscapeGraph(nodes: seq<CytoscapeNode>, edges: seq<CytoscapeEdge>)

  function IdsOf(nodes: seq<CytoscapeNode>): (ids: seq<string>)
    ensures |ids| == |nodes| && forall i | 0 <= i < |nodes| :: ids[i] == nodes[i].id
  {
    seq(|nodes|, i requires 0 <= i < |nodes| => nodes[i].id)
  }

  function ArcsAlong(edges: seq<CytoscapeEdge>): (arcs: seq<Arc>)
    ensures |arcs| == |edges| && forall i | 0 <= i < |edges| :: arcs[i] == Arc(edges[i].source, edges[i].target)
  {
    seq(|edges|, i requires 0 <= i < |edges| => Arc(edges[i].source, edges[i].target))
  }

  /** A dependency edge is marked direct exactly when it leaves the root. */
  predicate KindFits(e: CytoscapeEdge, root: string) {
    e.kind == DependsOnEdge || e.kind == if e.source == root then DirectEdge else TransitiveEdge
  }

  /** Node ids are unique and are the visited keys; no edge dangles. */
  ghost predicate Consistent(nodes: seq<CytoscapeNode>, edges: seq<CytoscapeEdge>, visited: set<string>, root: string) {
    && nodes != [] && nodes[0].id == root && nodes[0].kind == CurrentNode
    && Distinct(IdsOf(nodes))
    && (forall k :: k in IdsOf(nodes) <==> k in visited)
    && (forall n | n in nodes :: n.id == ModuleVersionKey(n.name, n.version))
    && (forall e | e in edges :: e.source in visited && e.target in visited && e.id == e.source + "->" + e.target)
    && (forall e | e in edges :: KindFits(e, root))
  }

  lemma ListNode(nodes: seq<CytoscapeNode>, edges: seq<CytoscapeEdge>, visited: set<string>, root: string,
                 n: CytoscapeNode)
    requires Consistent(nodes, edges, visited, root) && n.id !in visited && n.id == ModuleVersionKey(n.name, n.version)
    ensures Consistent(nodes + [n], edges, visited + {n.id}, root)
  {
    assert IdsOf(nodes + [n]) == IdsOf(nodes) + [n.id];
  }

  lemma ListEdge(nodes: seq<CytoscapeNode>, edges: seq<CytoscapeEdge>, visited: set<string>, root: string,
                 e: CytoscapeEdge)
    requires Consistent(nodes, edges, visited, root) && KindFits(e, root)
    requires e.source in visited && e.target in visited && e.id == e.source + "->" + e.target
    ensures Consistent(nodes, edges + [e], visited, root)
    ensures ArcsAlong(edges + [e]) == ArcsAlong(edges) + [Arc(e.source, e.target)]
  {
  }

  /** The dependencies that are followed: those of the vertices that were met above the limit. */
  function Cut(edges: map<string, seq<string>>, maxDepth: int, levels: map<string, nat>): map<string, seq<string>> {
    map k | k in edges && k in levels && (maxDepth < 0 || levels[k] < maxDepth) :: edges[k]
  }

  ghost predicate HasParent(edges: map<string, seq<string>>, levels: map<string, nat>, k: string)
    requires k in levels
  {
    exists u :: u in levels && levels[u] + 1 == levels[k] && Edge(AdjOf(edges), u, k)
  }

  /** More edges to follow, but none from what has been added: the search stays complete. */
  lemma CompleteWider(e: map<string, seq<string>>, f: map<string, seq<string>>, key: string,
                      before: set<string>, after: set<string>, added: seq<Arc>)
    requires Complete(e, key, before, after, added)
    requires forall k | k in e :: k in f && f[k] == e[k]
    requires forall k | k in f && k in after - before :: k in e
    ensures Complete(f, key, before, after, added)
  {
    SubgraphOf(e, f);
    forall k | k in after - before ensures Reaches(AdjOf(f), key, k) {
      WiderReaches(AdjOf(e), AdjOf(f), key, k);
    }
  }

  lemma PartialWider(e: map<string, seq<string>>, f: map<string, seq<string>>, key: string, done: seq<string>,
                     before: set<string>, after: set<string>, added: seq<Arc>)
    requires Partial(e, key, done, before, after, added)
    requires forall k | k in e :: k in f && f[k] == e[k]
    requires forall k | k in f && k in after - before :: k in e
    ensures Partial(f, key, done, before, after, added)
  {
    SubgraphOf(e, f);
    forall k | k in after - before ensures Reaches(AdjOf(f), key, k) {
      WiderReaches(AdjOf(e), AdjOf(f), key, k);
    }
  }

  lemma SubgraphOf(e: map<string, seq<string>>, f: map<string, seq<string>>)
    requires forall k | k in e :: k in f && f[k] == e[k]
    ensures forall u, v | Edge(AdjOf(e), u, v) :: Edge(AdjOf(f), u, v)
  {
  }

  lemma WiderReaches(g: Digraph<string>, h: Digraph<string>, u: string, v: string)
    requires (forall x, y | Edge(g, x, y) :: Edge(h, x, y)) && Reaches(g, u, v)
    ensures Reaches(h, u, v)
  {
    hide Edge;
    var p :| WalkFromTo(g, p, u, v);
    assert WalkFromTo(h, p, u, v);
  }

  /** What the builder functions add: nodes and edges of their kind, and no edge that the graph does not have. */
  ghost predicate Extends(g: Digraph<string>, dependents: bool, nodes0: seq<CytoscapeNode>, edges0: seq<CytoscapeEdge>,
                          nodes: seq<CytoscapeNode>, edges: seq<CytoscapeEdge>)
  {
    && nodes0 <= nodes && edges0 <= edges
    && (forall n | n in nodes[|nodes0|..] :: n.kind == if dependents then DependentNode else DependencyNode)
    && (forall e | e in edges[|edges0|..] :: Edge(g, e.source, e.target) && (e.kind == DependsOnEdge <==> dependents))
  }

  lemma ExtendsItself(g: Digraph<string>, dependents: bool, nodes: seq<CytoscapeNode>, edges: seq<CytoscapeEdge>)
    ensures Extends(g, dependents, nodes, edges, nodes, edges)
  {
  }

  lemma ExtendsFurther(g: Digraph<string>, dependents: bool, nodes0: seq<CytoscapeNode>, edges0: seq<CytoscapeEdge>,
                       nodes1: seq<CytoscapeNode>, edges1: seq<CytoscapeEdge>,
                       nodes: seq<CytoscapeNode>, edges: seq<CytoscapeEdge>)
    requires Extends(g, dependents, nodes0, edges0, nodes1, edges1)
             && Extends(g, dependents, nodes1, edges1, nodes, edges)
    ensures Extends(g, dependents, nodes0, edges0, nodes, edges)
  {
    assert nodes[|nodes0|..] == nodes1[|nodes0|..] + nodes[|nodes1|..];
    assert edges[|edges0|..] == edges1[|edges0|..] + edges[|edges1|..];
  }

  lemma ExtendsByNode(g: Digraph<string>, nodes: seq<CytoscapeNode>, edges: seq<CytoscapeEdge>, n: CytoscapeNode)
    requires n.kind == DependencyNode || n.kind == DependentNode
    ensures Extends(g, n.kind == DependentNode, nodes, edges, nodes + [n], edges)
  {
  }

  lemma ExtendsByEdge(g: Digraph<string>, nodes: seq<CytoscapeNode>, edges: seq<CytoscapeEdge>, e: CytoscapeEdge)
    requires Edge(g, e.source, e.target)
    ensures Extends(g, e.kind == DependsOnEdge, nodes, edges, nodes, edges + [e])
  {
  }

  /** levels tells at what depth the search for dependencies met a vertex. */
  datatype Snapshot = Snapshot(nodes: seq<CytoscapeNode>, edges: seq<CytoscapeEdge>, visited: set<string>,
                               levels: map<string, nat>)

  /** Each vertex that has been added lies within the limit, one level below a vertex with an edge to it. */
  ghost predicate Levelled(edges: map<string, seq<string>>, maxDepth: int, s0: Snapshot, s: Snapshot) {
    && s0.visited <= s.visited && s.levels.Keys == s.visited
    && (forall k | k in s0.levels :: k in s.levels && s.levels[k] == s0.levels[k])
    && (forall k | k in s.visited - s0.visited ::
          (maxDepth >= 0 ==> s.levels[k] <= maxDepth) && HasParent(edges, s.levels, k))
  }

  /** What addTransitiveDependencies does from key: it completes the search of the edges that are followed. */
  ghost predicate Grew(edges: map<string, seq<string>>, maxDepth: int, key: string, s0: Snapshot, s: Snapshot) {
    && Extends(AdjOf(edges), false, s0.nodes, s0.edges, s.nodes, s.edges)
    && Levelled(edges, maxDepth, s0, s)
    && Complete(Cut(edges, maxDepth, s.levels), key, s0.visited - {key}, s.visited, ArcsAlong(s.edges[|s0.edges|..]))
  }

  /** The same, while the dependencies of key have been followed only as far as the list done. */
  ghost predicate Growing(edges: map<string, seq<string>>, maxDepth: int, key: string, done: seq<string>,
                          s0: Snapshot, s: Snapshot)
  {
    && Extends(AdjOf(edges), false, s0.nodes, s0.edges, s.nodes, s.edges)
    && Levelled(edges, maxDepth, s0, s)
    && Partial(Cut(edges, maxDepth, s.levels), key, done, s0.visited - {key}, s.visited,
               ArcsAlong(s.edges[|s0.edges|..]))
  }

  lemma NoArcs()
    ensures ArcsAlong([]) == []
  {
  }

  lemma GrewNot(edges: map<string, seq<string>>, maxDepth: int, key: string, s: Snapshot)
    requires key in s.visited && s.levels.Keys == s.visited && (0 <= maxDepth <= s.levels[key] || key !in edges)
    ensures Grew(edges, maxDepth, key, s, s)
  {
    hide Complete;
    ExtendsItself(AdjOf(edges), false, s.nodes, s.edges);
    NoArcs();
    MissingNode(Cut(edges, maxDepth, s.levels), key, s.visited - {key});
    assert s.visited - {key} + {key} == s.visited;
  }

  lemma GrowingStarts(edges: map<string, seq<string>>, maxDepth: int, key: string, s: Snapshot)
    requires key in s.visited && s.levels.Keys == s.visited
    requires key in edges && (maxDepth < 0 || s.levels[key] < maxDepth)
    ensures Growing(edges, maxDepth, key, [], s, s)
  {
    hide Partial;
    ExtendsItself(AdjOf(edges), false, s.nodes, s.edges);
    NoArcs();
    BeginPartial(Cut(edges, maxDepth, s.levels), key, s.visited - {key});
    assert s.visited - {key} + {key} == s.visited;
  }

  lemma ArcsAfter(a: seq<CytoscapeEdge>, b: seq<CytoscapeEdge>, c: seq<CytoscapeEdge>)
    requires a <= b <= c
    ensures ArcsAlong(c[|a|..]) == ArcsAlong(b[|a|..]) + ArcsAlong(c[|b|..])
  {
  }

  lemma KeyIsFollowed(edges: map<string, seq<string>>, maxDepth: int, key: string, done: seq<string>, s0: Snapshot,
                      s: Snapshot, d: string)
    requires Growing(edges, maxDepth, key, done, s0, s) && Edge(AdjOf(edges), key, d)
    ensures var cut := Cut(edges, maxDepth, s.levels); key in cut && d in cut[key]
  {
  }

  lemma GrowingOld(edges: map<string, seq<string>>, maxDepth: int, key: string, done: seq<string>,
                   s0: Snapshot, s: Snapshot, e: CytoscapeEdge)
    requires Growing(edges, maxDepth, key, done, s0, s) && e.source == key && e.target in s.visited
    requires Edge(AdjOf(edges), key, e.target) && e.kind != DependsOnEdge
    ensures Growing(edges, maxDepth, key, done + [e.target], s0, WithEdge(s, e))
  {
    KeyIsFollowed(edges, maxDepth, key, done, s0, s, e.target);
    hide Cut, ArcsAlong, Partial, Complete, Levelled;
    var cut, a := Cut(edges, maxDepth, s.levels), ArcsAlong(s.edges[|s0.edges|..]);
    AlreadyVisited(cut, e.target, s.visited);
    ExtendPartial(cut, key, done, e.target, s0.visited - {key}, s.visited, s.visited, a, [], a + [Arc(key, e.target)]);
    EdgeAfter(AdjOf(edges), s0, s, e);
    SameLevels(edges, maxDepth, s0, s, e);
  }

  lemma SameLevels(edges: map<string, seq<string>>, maxDepth: int, s0: Snapshot, s: Snapshot, e: CytoscapeEdge)
    requires Levelled(edges, maxDepth, s0, s)
    ensures Levelled(edges, maxDepth, s0, WithEdge(s, e))
  {
    hide HasParent;
  }

  lemma EdgeAfter(g: Digraph<string>, s0: Snapshot, s: Snapshot, e: CytoscapeEdge)
    requires Extends(g, false, s0.nodes, s0.edges, s.nodes, s.edges) && Edge(g, e.source, e.target)
             && e.kind != DependsOnEdge
    ensures Extends(g, false, s0.nodes, s0.edges, s.nodes, s.edges + [e])
    ensures ArcsAlong((s.edges + [e])[|s0.edges|..]) == ArcsAlong(s.edges[|s0.edges|..]) + [Arc(e.source, e.target)]
  {
    assert (s.edges + [e])[|s0.edges|..] == s.edges[|s0.edges|..] + [e];
  }

  /** The search goes one level down to a new vertex. */
  function Entered(s: Snapshot, n: CytoscapeNode, level: nat): Snapshot {
    WithNode(s, n).(levels := s.levels[n.id := level])
  }

  lemma LevelsGrow(edges: map<string, seq<string>>, maxDepth: int, key: string, s0: Snapshot, s: Snapshot,
                   n: CytoscapeNode, s2: Snapshot)
    requires Levelled(edges, maxDepth, s0, s) && n.id !in s.visited && key in s.visited
    requires Edge(AdjOf(edges), key, n.id) && (maxDepth >= 0 ==> s.levels[key] < maxDepth)
    requires Levelled(edges, maxDepth, Entered(s, n, s.levels[key] + 1), s2)
    ensures Levelled(edges, maxDepth, s0, s2)
  {
    hide AdjOf, Edge, HasParent;
    forall k | k in s2.visited - s0.visited
      ensures (maxDepth >= 0 ==> s2.levels[k] <= maxDepth) && HasParent(edges, s2.levels, k)
    {
      if k == n.id {
        ParentIs(edges, s2.levels, key, k);
      } else if k in s.visited {
        ParentKept(edges, s.levels, s2.levels, k);
      }
    }
  }

  lemma ParentIs(edges: map<string, seq<string>>, levels: map<string, nat>, u: string, k: string)
    requires u in levels && k in levels && levels[u] + 1 == levels[k] && Edge(AdjOf(edges), u, k)
    ensures HasParent(edges, levels, k)
  {
  }

  lemma ParentKept(edges: map<string, seq<string>>, before: map<string, nat>, after: map<string, nat>, k: string)
    requires k in before && HasParent(edges, before, k)
    requires forall x | x in before :: x in after && after[x] == before[x]
    ensures HasParent(edges, after, k)
  {
    hide AdjOf, Edge;
    var u :| u in before && before[u] + 1 == before[k] && Edge(AdjOf(edges), u, k);
    ParentIs(edges, after, u, k);
  }

  lemma LevelKept(edges: map<string, seq<string>>, maxDepth: int, key: string, s0: Snapshot, s: Snapshot, k: string)
    requires Grew(edges, maxDepth, key, s0, s) && k in s0.levels
    ensures k in s.levels && s.levels[k] == s0.levels[k]
  {
  }

  lemma CutGrows(edges: map<string, seq<string>>, maxDepth: int, s: Snapshot, n: CytoscapeNode, level: nat,
                 s2: Snapshot)
    requires n.id !in s.visited && s.levels.Keys == s.visited && Levelled(edges, maxDepth, Entered(s, n, level), s2)
    ensures var c, d := Cut(edges, maxDepth, s.levels), Cut(edges, maxDepth, s2.levels);
            && (forall k | k in c :: k in d && d[k] == c[k])
            && (forall k | k in d && k in s.visited :: k in c)
            && s.visited <= s2.visited
  {
    hide HasParent;
  }

  lemma GrowingNew(edges: map<string, seq<string>>, maxDepth: int, key: string, done: seq<string>,
                   s0: Snapshot, s: Snapshot, n: CytoscapeNode, s2: Snapshot, e: CytoscapeEdge)
    requires Growing(edges, maxDepth, key, done, s0, s) && n.kind == DependencyNode && n.id !in s.visited
    requires key in s.visited && key in s.levels && Grew(edges, maxDepth, n.id, Entered(s, n, s.levels[key] + 1), s2)
    requires e.source == key && e.target == n.id && e.kind != DependsOnEdge && Edge(AdjOf(edges), key, n.id)
    requires maxDepth >= 0 ==> s.levels[key] < maxDepth
    ensures Growing(edges, maxDepth, key, done + [n.id], s0, WithEdge(s2, e))
  {
    hide Cut, ArcsAlong, Partial, Complete, Levelled, Extends, Edge, AdjOf;
    LevelsGrow(edges, maxDepth, key, s0, s, n, s2);
    SameLevels(edges, maxDepth, s0, s2, e);
    GrowingNewSearch(edges, maxDepth, key, done, s0, s, n, s2);
    GrowingNewLists(edges, maxDepth, key, done, s0, s, n, s2, e);
  }

  lemma GrowingNewSearch(edges: map<string, seq<string>>, maxDepth: int, key: string, done: seq<string>,
                         s0: Snapshot, s: Snapshot, n: CytoscapeNode, s2: Snapshot)
    requires Growing(edges, maxDepth, key, done, s0, s) && n.id !in s.visited
    requires key in s.visited && key in s.levels && Grew(edges, maxDepth, n.id, Entered(s, n, s.levels[key] + 1), s2)
    requires Edge(AdjOf(edges), key, n.id)
    ensures Partial(Cut(edges, maxDepth, s2.levels), key, done + [n.id], s0.visited - {key}, s2.visited,
                    ArcsAlong(s.edges[|s0.edges|..]) + ArcsAlong(s2.edges[|s.edges|..]) + [Arc(key, n.id)])
  {
    hide Cut, ArcsAlong, Partial, Complete, Edge, AdjOf, HasParent;
    assert s0.edges <= s.edges <= s2.edges;
    hide Extends;
    KeyIsFollowed(edges, maxDepth, key, done, s0, s, n.id);
    CutGrows(edges, maxDepth, s, n, s.levels[key] + 1, s2);
    hide Levelled;
    var a, b := ArcsAlong(s.edges[|s0.edges|..]), ArcsAlong(s2.edges[|s.edges|..]);
    var c, d := Cut(edges, maxDepth, s.levels), Cut(edges, maxDepth, s2.levels);
    assert s.visited + {n.id} - {n.id} == s.visited;
    PartialWider(c, d, key, done, s0.visited - {key}, s.visited, a);
    ExtendPartial(d, key, done, n.id, s0.visited - {key}, s.visited, s2.visited, a, b, a + b + [Arc(key, n.id)]);
  }

  lemma GrowingNewLists(edges: map<string, seq<string>>, maxDepth: int, key: string, done: seq<string>,
                        s0: Snapshot, s: Snapshot, n: CytoscapeNode, s2: Snapshot, e: CytoscapeEdge)
    requires Growing(edges, maxDepth, key, done, s0, s) && n.kind == DependencyNode && n.id !in s.visited
    requires key in s.visited && key in s.levels && Grew(edges, maxDepth, n.id, Entered(s, n, s.levels[key] + 1), s2)
    requires e.source == key && e.target == n.id && e.kind != DependsOnEdge && Edge(AdjOf(edges), key, n.id)
    ensures Extends(AdjOf(edges), false, s0.nodes, s0.edges, s2.nodes, s2.edges + [e])
    ensures ArcsAlong((s2.edges + [e])[|s0.edges|..])
         == ArcsAlong(s.edges[|s0.edges|..]) + ArcsAlong(s2.edges[|s.edges|..]) + [Arc(key, n.id)]
  {
    hide Cut, ArcsAlong, Partial, Complete, Levelled;
    var g := AdjOf(edges);
    ExtendsByNode(g, s.nodes, s.edges, n);
    ExtendsFurther(g, false, s.nodes, s.edges, s.nodes + [n], s.edges, s2.nodes, s2.edges);
    ExtendsFurther(g, false, s0.nodes, s0.edges, s.nodes, s.edges, s2.nodes, s2.edges);
    ArcsAfter(s0.edges, s.edges, s2.edges);
    EdgeAfter(g, s0, s2, e);
  }

  lemma GrowingEnds(edges: map<string, seq<string>>, maxDepth: int, key: string, s0: Snapshot, s: Snapshot)
    requires key in edges && key in s.levels && (maxDepth < 0 || s.levels[key] < maxDepth)
    requires Growing(edges, maxDepth, key, edges[key], s0, s)
    ensures Grew(edges, maxDepth, key, s0, s)
  {
    hide Partial, Complete, Levelled;
    FinishPartial(Cut(edges, maxDepth, s.levels), key, s0.visited - {key}, s.visited,
                  ArcsAlong(s.edges[|s0.edges|..]));
  }

  function SourcesOf(edges: seq<CytoscapeEdge>): (ks: seq<string>)
    ensures |ks| == |edges| && forall i | 0 <= i < |edges| :: ks[i] == edges[i].source
  {
    seq(|edges|, i requires 0 <= i < |edges| => edges[i].source)
  }

  function ArcsFrom(u: string, targets: seq<string>): seq<Arc> {
    seq(|targets|, i requires 0 <= i < |targets| => Arc(u, targets[i]))
  }

  function WithNode(s: Snapshot, n: CytoscapeNode): Snapshot {
    if n.id in s.visited then s else Snapshot(s.nodes + [n], s.edges, s.visited + {n.id}, s.levels)
  }

  function WithEdge(s: Snapshot, e: CytoscapeEdge): Snapshot {
    s.(edges := s.edges + [e])
  }

  lemma ExtendsByBoth(g: Digraph<string>, s0: Snapshot, s: Snapshot, n: CytoscapeNode, e: CytoscapeEdge)
    requires Extends(g, e.kind == DependsOnEdge, s0.nodes, s0.edges, s.nodes, s.edges) && Edge(g, e.source, e.target)
    requires n.kind == if e.kind == DependsOnEdge then DependentNode else DependencyNode
    ensures var s' := WithEdge(WithNode(s, n), e);
            && Extends(g, e.kind == DependsOnEdge, s0.nodes, s0.edges, s'.nodes, s'.edges)
            && s'.edges[|s0.edges|..] == s.edges[|s0.edges|..] + [e]
  {
    hide Edge;
    var dependents, s' := e.kind == DependsOnEdge, WithEdge(WithNode(s, n), e);
    ExtendsByNode(g, s.nodes, s.edges, n);
    ExtendsByEdge(g, s'.nodes, s.edges, e);
    ExtendsItself(g, dependents, s.nodes, s.edges);
    ExtendsFurther(g, dependents, s.nodes, s.edges, s'.nodes, s.edges, s'.nodes, s'.edges);
    ExtendsFurther(g, dependents, s0.nodes, s0.edges, s.nodes, s.edges, s'.nodes, s'.edges);
  }

  /** The direct dependencies in done have been added. */
  ghost predicate DirectlyGrew(g: Digraph<string>, root: string, done: seq<string>, s0: Snapshot, s: Snapshot) {
    && Extends(g, false, s0.nodes, s0.edges, s.nodes, s.edges)
    && (forall k :: k in s.visited <==> k in s0.visited || k in done)
    && ArcsAlong(s.edges[|s0.edges|..]) == ArcsFrom(root, done)
  }

  lemma DirectStarts(g: Digraph<string>, root: string, s: Snapshot)
    ensures DirectlyGrew(g, root, [], s, s)
  {
  }

  lemma DirectStep(g: Digraph<string>, root: string, done: seq<string>, s0: Snapshot, s: Snapshot,
                   n: CytoscapeNode, e: CytoscapeEdge)
    requires DirectlyGrew(g, root, done, s0, s) && Edge(g, root, n.id)
    requires n.kind == DependencyNode && e.source == root && e.target == n.id && e.kind != DependsOnEdge
    ensures DirectlyGrew(g, root, done + [n.id], s0, WithEdge(WithNode(s, n), e))
  {
    ExtendsByBoth(g, s0, s, n, e);
    hide Extends, Edge;
    assert ArcsFrom(root, done + [n.id]) == ArcsFrom(root, done) + [Arc(root, n.id)];
  }

  /** The direct dependents in done have been added. */
  ghost predicate DependentsGrew(g: Digraph<string>, root: string, done: seq<string>, s0: Snapshot, s: Snapshot) {
    && Extends(g, true, s0.nodes, s0.edges, s.nodes, s.edges)
    && (forall k :: k in s.visited <==> k in s0.visited || k in done)
    && SourcesOf(s.edges[|s0.edges|..]) == done
    && (forall e | e in s.edges[|s0.edges|..] :: e.target == root)
  }

  lemma DependentsStart(g: Digraph<string>, root: string, s: Snapshot)
    ensures DependentsGrew(g, root, [], s, s)
  {
  }

  lemma DependentStep(g: Digraph<string>, root: string, done: seq<string>, s0: Snapshot, s: Snapshot,
                      n: CytoscapeNode, e: CytoscapeEdge)
    requires DependentsGrew(g, root, done, s0, s) && Edge(g, n.id, root)
    requires n.kind == DependentNode && e.source == n.id && e.target == root && e.kind == DependsOnEdge
    ensures DependentsGrew(g, root, done + [n.id], s0, WithEdge(WithNode(s, n), e))
  {
    ExtendsByBoth(g, s0, s, n, e);
    hide Extends, Edge;
  }

  /** links are the edges of the dependency graph, which the export does not change. */
  class CytoscapeBuild {
    const graph: DependencyGraph
    const root: string
    ghost const links: map<string, seq<string>>
    var nodes: seq<CytoscapeNode>
    var edges: seq<CytoscapeEdge>
    var visited: set<string>
    ghost var levels: map<string, nat>

    ghost predicate Fits()
      reads graph
    {
      graph.Valid() && links == graph.edges
    }

    ghost predicate Inv()
      reads this, graph
    {
      Fits() && root in visited && Consistent(nodes, edges, visited, root)
    }

    constructor (graph: DependencyGraph, moduleName: string, version: string)
      requires graph.Valid()
      ensures this.graph == graph && links == graph.edges && root == ModuleVersionKey(moduleName, version)
      ensures Inv() && visited == {root} && edges == [] && |nodes| == 1 && levels == map[root := 0]
    {
      this.graph, links := graph, graph.edges;
      root := ModuleVersionKey(moduleName, version);
      nodes := [CytoscapeNode(ModuleVersionKey(moduleName, version), moduleName, version, CurrentNode)];
      edges := [];
      visited := {ModuleVersionKey(moduleName, version)};
      levels := map[ModuleVersionKey(moduleName, version) := 0];
      new;
      assert IdsOf(nodes) == [root];
    }

    ghost function State(): Snapshot
      reads this
    {
      Snapshot(nodes, edges, visited, levels)
    }

    ghost function Targets(): set<string> {
      set u, v | u in links && v in links[u] :: v
    }

    lemma LinksOf(moduleName: string, version: string)
      requires Fits()
      ensures var key, deps := ModuleVersionKey(moduleName, version), graph.GetDependencies(moduleName, version);
              && (key in graph.nodes <==> key in links)
              && KeysOf(deps) == (if key in links then links[key] else [])
              && forall k | k in KeysOf(deps) :: Edge(AdjOf(links), key, k) && k in Targets()
    {
      NoKeys();
    }

    /** Adds a node unless there is one with its id. */
    method AppendNode(name: string, version: string, kind: NodeKind)
      requires Inv()
      modifies this`nodes, this`visited
      ensures Inv()
      ensures State() == WithNode(old(State()), CytoscapeNode(ModuleVersionKey(name, version), name, version, kind))
    {
      hide Consistent, Fits, ModuleVersionKey;
      var key := ModuleVersionKey(name, version);
      if key !in visited {
        ListNode(nodes, edges, visited, root, CytoscapeNode(key, name, version, kind));
        nodes := nodes + [CytoscapeNode(key, name, version, kind)];
        visited := visited + {key};
      }
    }

    /** Adds the node of a dependency met for the first time, at this level. */
    method Enter(name: string, version: string, ghost level: nat)
      requires Inv() && levels.Keys == visited && ModuleVersionKey(name, version) !in visited
      modifies this`nodes, this`visited, this`levels
      ensures Inv() && levels.Keys == visited && visited == old(visited) + {ModuleVersionKey(name, version)}
      ensures levels == old(levels)[ModuleVersionKey(name, version) := level]
      ensures State() == Entered(old(State()), CytoscapeNode(ModuleVersionKey(name, version), name, version,
                                                             DependencyNode), level)
    {
      hide Consistent, Fits, ModuleVersionKey;
      AppendNode(name, version, DependencyNode);
      levels := levels[ModuleVersionKey(name, version) := level];
    }

    method AppendEdge(source: string, target: string, kind: EdgeKind)
      requires Inv() && source in visited && target in visited
      requires kind == DependsOnEdge || kind == if source == root then DirectEdge else TransitiveEdge
      modifies this`edges
      ensures Inv()
      ensures State() == WithEdge(old(State()), CytoscapeEdge(source + "->" + target, source, target, kind))
    {
      hide Consistent, Fits;
      var edge := CytoscapeEdge(source + "->" + target, source, target, kind);
      ListEdge(nodes, edges, visited, root, edge);
      edges := edges + [edge];
    }

    method AddTransitiveDependencies(moduleName: string, version: string, maxDepth: int, currentDepth: nat)
      requires Inv() && levels.Keys == visited && ModuleVersionKey(moduleName, version) in levels
      requires levels[ModuleVersionKey(moduleName, version)] == currentDepth
      requires currentDepth == 0 <==> ModuleVersionKey(moduleName, version) == root
      modifies this
      decreases Targets() - visited
      ensures Inv() && old(visited) <= visited && levels.Keys == visited
      ensures Grew(links, maxDepth, ModuleVersionKey(moduleName, version), old(State()), State())
    {
      hide Consistent, Grew, Growing, Fits, ModuleVersionKey, AdjOf, Edge, KeysOf, Targets, Entered;
      var currentKey := ModuleVersionKey(moduleName, version);
      LinksOf(moduleName, version);
      if maxDepth >= 0 && currentDepth >= maxDepth {
        GrewNot(links, maxDepth, currentKey, State());
        return;
      }
      if currentKey !in graph.nodes {
        GrewNot(links, maxDepth, currentKey, State());
        return;
      }
      var deps := graph.GetDependencies(moduleName, version);
      ghost var keys := links[currentKey];
      GrowingStarts(links, maxDepth, currentKey, State());
      assert keys[..0] == [];
      for i := 0 to |deps|
        invariant Inv() && old(visited) <= visited && levels.Keys == visited
        invariant currentKey in levels && levels[currentKey] == currentDepth
        invariant Growing(links, maxDepth, currentKey, keys[..i], old(State()), State())
      {
        var dep := deps[i];
        var depKey := ModuleVersionKey(dep.moduleName, dep.version);
        assert keys[i] == depKey && keys[i] in keys;
        assert keys[..i] + [depKey] == keys[..i + 1];
        var kind := if currentDepth > 0 then TransitiveEdge else DirectEdge;
        ghost var e := CytoscapeEdge(currentKey + "->" + depKey, currentKey, depKey, kind);
        ghost var s := State();
        if depKey !in visited {
          Enter(dep.moduleName, dep.version, currentDepth + 1);
          ghost var s1 := State();
          AddTransitiveDependencies(dep.moduleName, dep.version, maxDepth, currentDepth + 1);
          LevelKept(links, maxDepth, depKey, s1, State(), currentKey);
          GrowingNew(links, maxDepth, currentKey, keys[..i], old(State()), s,
                     CytoscapeNode(depKey, dep.moduleName, dep.version, DependencyNode), State(), e);
        } else {
          GrowingOld(links, maxDepth, currentKey, keys[..i], old(State()), s, e);
        }
        AppendEdge(currentKey, depKey, kind);
      }
      assert keys[..|deps|] == keys;
      GrowingEnds(links, maxDepth, currentKey, old(State()), State());
    }

    method AddDirectDependencies(moduleName: string, version: string)
      requires Inv() && ModuleVersionKey(moduleName, version) == root
      modifies this
      ensures Inv()
      ensures DirectlyGrew(AdjOf(links), root, if root in links then links[root] else [], old(State()), State())
    {
      hide Consistent, DirectlyGrew, Fits, ModuleVersionKey, AdjOf, Edge, KeysOf;
      LinksOf(moduleName, version);
      var deps := graph.GetDependencies(moduleName, version);
      ghost var keys := KeysOf(deps);
      DirectStarts(AdjOf(links), root, State());
      assert keys[..0] == [];
      for i := 0 to |deps|
        invariant Inv() && DirectlyGrew(AdjOf(links), root, keys[..i], old(State()), State())
      {
        var dep := deps[i];
        var depKey := ModuleVersionKey(dep.moduleName, dep.version);
        assert keys[i] == depKey && keys[i] in keys;
        assert keys[..i] + [depKey] == keys[..i + 1];
        DirectStep(AdjOf(links), root, keys[..i], old(State()), State(),
                   CytoscapeNode(depKey, dep.moduleName, dep.version, DependencyNode),
                   CytoscapeEdge(root + "->" + depKey, root, depKey, DirectEdge));
        AppendNode(dep.moduleName, dep.version, DependencyNode);
        AppendEdge(root, depKey, DirectEdge);
      }
      assert keys[..|deps|] == keys;
    }

    method AddDependents(moduleName: string, version: string)
      requires Inv() && ModuleVersionKey(moduleName, version) == root
      modifies this
      ensures Inv()
      ensures AllDependentsGrew(AdjOf(links), root, old(State()), State())
    {
      hide Consistent, DependentsGrew, ModuleVersionKey, AdjOf, Edge, KeysOf, Distinct;
      var dependents := graph.GetDependents(moduleName, version);
      ghost var keys := KeysOf(dependents);
      DependentsStart(AdjOf(links), root, State());
      assert keys[..0] == [];
      hide Fits;
      for i := 0 to |dependents|
        invariant Inv() && DependentsGrew(AdjOf(links), root, keys[..i], old(State()), State())
      {
        var dependent := dependents[i];
        var depKey := ModuleVersionKey(dependent.moduleName, dependent.version);
        assert keys[i] == depKey && keys[i] in keys;
        assert keys[..i] + [depKey] == keys[..i + 1];
        DependentStep(AdjOf(links), root, keys[..i], old(State()), State(),
                      CytoscapeNode(depKey, dependent.moduleName, dependent.version, DependentNode),
                      CytoscapeEdge(depKey + "->" + root, depKey, root, DependsOnEdge));
        AppendNode(dependent.moduleName, dependent.version, DependentNode);
        AppendEdge(depKey, root, DependsOnEdge);
      }
      assert keys[..|dependents|] == keys;
    }
  }

  /** One edge from each direct dependent has been added, and the missing nodes. */
  ghost predicate AllDependentsGrew(g: Digraph<string>, root: string, s0: Snapshot, s: Snapshot) {
    exists done ::
        Distinct(done) && (forall k :: k in done <==> Edge(g, k, root)) && DependentsGrew(g, root, done, s0, s)
  }

  /** Ids are unique, the root is listed first, and every edge joins listed nodes and is an edge of the graph. */
  ghost predicate WellFormed(cyto: CytoscapeGraph, g: Digraph<string>, root: string) {
    && cyto.nodes != [] && cyto.nodes[0].id == root && cyto.nodes[0].kind == CurrentNode
    && Distinct(IdsOf(cyto.nodes))
    && (forall n | n in cyto.nodes :: n.id == ModuleVersionKey(n.name, n.version))
    && (forall e | e in cyto.edges ::
        e.source in IdsOf(cyto.nodes) && e.target in IdsOf(cyto.nodes) && Edge(g, e.source, e.target))
    && (forall e | e in cyto.edges :: e.id == e.source + "->" + e.target && KindFits(e, root))
  }

  ghost function IdSet(nodes: seq<CytoscapeNode>): set<string> {
    set k | k in IdsOf(nodes)
  }

  /** What is exported up to a depth limit.  Each vertex but the root was met one level below a vertex with
      an edge to it, none below the limit; the dependencies of a vertex above the limit are all listed, with
      each of its edges as often as its node lists it, and those of a vertex at the limit are not. */
  ghost predicate LimitedExport(edges: map<string, seq<string>>, root: string, maxDepth: nat, ids: set<string>,
                                arcs: seq<Arc>, levels: map<string, nat>)
  {
    && levels.Keys == ids && root in ids && levels[root] == 0
    && (forall k | k in ids :: levels[k] <= maxDepth && (k != root ==> HasParent(edges, levels, k)))
    && (forall k, d | k in ids && levels[k] < maxDepth && Edge(AdjOf(edges), k, d) :: d in ids)
    && ArcsOf(edges, AboveLimit(levels, maxDepth), arcs)
  }

  function AboveLimit(levels: map<string, nat>, maxDepth: nat): set<string> {
    set k | k in levels && levels[k] < maxDepth
  }

  /** So nothing beyond the limit is listed. */
  lemma {:induction false} ListedWithinLimit(edges: map<string, seq<string>>, root: string, maxDepth: nat,
                                             ids: set<string>, arcs: seq<Arc>, levels: map<string, nat>, k: string)
    requires LimitedExport(edges, root, maxDepth, ids, arcs, levels) && k in ids
    ensures Within(AdjOf(edges), root, k, levels[k])
    decreases levels[k]
  {
    if k == root {
      assert WalkFromTo(AdjOf(edges), [root], root, root);
    } else {
      var u :| u in levels && levels[u] + 1 == levels[k] && Edge(AdjOf(edges), u, k);
      ListedWithinLimit(edges, root, maxDepth, ids, arcs, levels, u);
      hide Within, ArcsOf;
      WithinStep(AdjOf(edges), root, u, k, levels[u]);
    }
  }

  /** The first half of an export: the root and what its dependencies add.  Without a depth limit it
      is the whole forward closure, each edge as often as the nodes list it. */
  ghost predicate ForwardHalf(edges: map<string, seq<string>>, root: string, wanted: bool, transitive: bool,
                              maxDepth: int, half: CytoscapeGraph)
  {
    && half.nodes != []
    && (forall n | n in half.nodes[1..] :: n.kind == DependencyNode)
    && (forall e | e in half.edges :: e.kind != DependsOnEdge)
    && (!wanted ==> IdSet(half.nodes) == {root} && half.edges == [])
    && (wanted && !transitive ==>
          && (forall k :: k in IdSet(half.nodes) <==> k == root || Edge(AdjOf(edges), root, k))
          && ArcsAlong(half.edges) == ArcsFrom(root, if root in edges then edges[root] else []))
    && (wanted && transitive && maxDepth < 0 ==>
          && (forall k :: k in IdSet(half.nodes) <==> Reaches(AdjOf(edges), root, k))
          && ArcsOf(edges, IdSet(half.nodes), ArcsAlong(half.edges)))
    && (wanted && transitive && maxDepth >= 0 ==>
          exists levels :: LimitedExport(edges, root, maxDepth, IdSet(half.nodes), ArcsAlong(half.edges), levels))
  }

  /** The second half: an edge from each direct dependent, and the dependents that were not listed. */
  ghost predicate DependentHalf(g: Digraph<string>, root: string, wanted: bool, half: CytoscapeGraph,
                                whole: CytoscapeGraph)
  {
    && half.nodes <= whole.nodes && half.edges <= whole.edges
    && (!wanted ==> half == whole)
    && (wanted ==>
          var added := whole.edges[|half.edges|..];
          && (forall n | n in whole.nodes[|half.nodes|..] :: n.kind == DependentNode)
          && (forall k :: k in IdSet(whole.nodes) <==> k in IdSet(half.nodes) || Edge(g, k, root))
          && (forall e | e in added :: e.kind == DependsOnEdge && e.target == root)
          && Distinct(SourcesOf(added)) && forall k :: k in SourcesOf(added) <==> Edge(g, k, root))
  }

  method BuildCytoscapeGraph(graph: DependencyGraph, moduleName: string, version: string,
                             transitive: bool, maxDepth: int, direction: string)
    returns (cyto: CytoscapeGraph, ghost half: CytoscapeGraph)
    requires graph.Valid()
    ensures WellFormed(cyto, graph.Adj(), ModuleVersionKey(moduleName, version))
    ensures ForwardHalf(graph.edges, ModuleVersionKey(moduleName, version),
                        direction == "dependencies" || direction == "both", transitive, maxDepth, half)
    ensures DependentHalf(graph.Adj(), ModuleVersionKey(moduleName, version),
                          direction == "dependents" || direction == "both", half, cyto)
  {
    hide Consistent, Reaches, WellFormed, Extends, ForwardHalf, DependentHalf, DirectlyGrew, Grew;
    hide AllDependentsGrew, ModuleVersionKey, IdSet;
    var build := new CytoscapeBuild(graph, moduleName, version);
    ghost var root, g := ModuleVersionKey(moduleName, version), graph.Adj();
    ghost var start := build.State();
    ghost var forward, backward := direction == "dependencies" || direction == "both",
                                   direction == "dependents" || direction == "both";
    StartsSingle(g, root, build.edges);
    ExtendsItself(g, false, build.nodes, build.edges);
    if direction == "dependencies" || direction == "both" {
      if transitive {
        build.AddTransitiveDependencies(moduleName, version, maxDepth, 0);
      } else {
        build.AddDirectDependencies(moduleName, version);
      }
    }
    half := CytoscapeGraph(build.nodes, build.edges);
    ghost var middle := build.State();
    ConsistentIds(half, build.visited, root);
    ForwardHalfMade(graph.edges, root, forward, transitive, maxDepth, start, middle);
    if direction == "dependents" || direction == "both" {
      build.AddDependents(moduleName, version);
    }
    cyto := CytoscapeGraph(build.nodes, build.edges);
    ConsistentIds(cyto, build.visited, root);
    DependentHalfMade(g, root, backward, middle, build.State());
    ConsistentIsWellFormed(g, start.nodes, half, cyto, backward, build.visited, root);
  }

  lemma ForwardHalfMade(edges: map<string, seq<string>>, root: string, wanted: bool, transitive: bool, maxDepth: int,
                        start: Snapshot, s: Snapshot)
    requires |start.nodes| == 1 && start.edges == [] && start.visited == {root} && IdSet(s.nodes) == s.visited
    requires !wanted ==> s == start
    requires wanted && !transitive ==>
               DirectlyGrew(AdjOf(edges), root, if root in edges then edges[root] else [], start, s)
    requires wanted && transitive ==> start.levels == map[root := 0] && Grew(edges, maxDepth, root, start, s)
    ensures ForwardHalf(edges, root, wanted, transitive, maxDepth, CytoscapeGraph(s.nodes, s.edges))
    ensures Extends(AdjOf(edges), false, start.nodes, [], s.nodes, s.edges)
  {
    hide IdSet, ArcsAlong, ArcsFrom, ArcsOf, Complete, Levelled;
    ExtendsItself(AdjOf(edges), false, start.nodes, []);
    assert s.edges[0..] == s.edges;
    if wanted && transitive {
      GrownFromRoot(edges, root, maxDepth, start, s);
    }
  }

  lemma DependentHalfMade(g: Digraph<string>, root: string, wanted: bool, s0: Snapshot, s: Snapshot)
    requires IdSet(s0.nodes) == s0.visited && IdSet(s.nodes) == s.visited
    requires if wanted then AllDependentsGrew(g, root, s0, s) else s == s0
    ensures DependentHalf(g, root, wanted, CytoscapeGraph(s0.nodes, s0.edges), CytoscapeGraph(s.nodes, s.edges))
    ensures wanted ==> Extends(g, true, s0.nodes, s0.edges, s.nodes, s.edges)
  {
    hide IdSet, Distinct, Edge;
    if wanted {
      var done :| Distinct(done) && (forall k :: k in done <==> Edge(g, k, root))
          && DependentsGrew(g, root, done, s0, s);
    }
  }

  lemma StartsSingle(g: Digraph<string>, root: string, edges: seq<CytoscapeEdge>)
    requires edges == []
    ensures ArcsAlong(edges) == []
  {
  }

  lemma GrownFromRoot(edges: map<string, seq<string>>, root: string, maxDepth: int, start: Snapshot, s: Snapshot)
    requires start.edges == [] && start.visited == {root} && start.levels == map[root := 0]
    requires Levelled(edges, maxDepth, start, s)
    requires Complete(Cut(edges, maxDepth, s.levels), root, start.visited - {root}, s.visited, ArcsAlong(s.edges))
    ensures maxDepth < 0 ==>
              && ArcsOf(edges, s.visited, ArcsAlong(s.edges))
              && forall k :: k in s.visited <==> Reaches(AdjOf(edges), root, k)
    ensures maxDepth >= 0 ==> LimitedExport(edges, root, maxDepth, s.visited, ArcsAlong(s.edges), s.levels)
  {
    hide ArcsAlong, HasParent;
    var cut, arcs := Cut(edges, maxDepth, s.levels), ArcsAlong(s.edges);
    assert {root} - {root} == {} && s.visited - {} == s.visited;
    if maxDepth < 0 {
      CompleteWider(cut, edges, root, {}, s.visited, arcs);
      ReachableSet(AdjOf(edges), s.visited, root);
    } else {
      LimitedArcs(edges, maxDepth, s.levels, arcs);
    }
  }

  lemma LimitedArcs(edges: map<string, seq<string>>, maxDepth: nat, levels: map<string, nat>, arcs: seq<Arc>)
    requires ArcsOf(Cut(edges, maxDepth, levels), levels.Keys, arcs)
    ensures ArcsOf(edges, AboveLimit(levels, maxDepth), arcs)
  {
  }

  lemma ConsistentIds(cyto: CytoscapeGraph, visited: set<string>, root: string)
    requires Consistent(cyto.nodes, cyto.edges, visited, root)
    ensures IdSet(cyto.nodes) == visited
  {
  }

  lemma ConsistentIsWellFormed(g: Digraph<string>, start: seq<CytoscapeNode>, half: CytoscapeGraph,
                               cyto: CytoscapeGraph, wanted: bool, visited: set<string>, root: string)
    requires Consistent(cyto.nodes, cyto.edges, visited, root)
    requires Extends(g, false, start, [], half.nodes, half.edges)
    requires if wanted then Extends(g, true, half.nodes, half.edges, cyto.nodes, cyto.edges) else half == cyto
    ensures WellFormed(cyto, g, root)
  {
    assert half.edges[0..] == half.edges;
    forall e | e in cyto.edges ensures Edge(g, e.source, e.target) {
      assert e in half.edges || e in cyto.edges[|half.edges|..];
    }
  }

  /** The unlimited export of dependencies and GetTransitiveDependencies describe the same subgraph:
      the root and the listed keys are the nodes, and there are as many edges as list entries. */
  lemma ExportMatchesTransitiveDependencies(edges: map<string, seq<string>>, root: string, ids: set<string>,
                                            exported: seq<Arc>,
                                            listed: seq<string>, reached: set<string>, arcs: seq<Arc>)
    requires (forall k :: k in ids <==> Reaches(AdjOf(edges), root, k)) && ArcsOf(edges, ids, exported)
    requires (forall k :: k in reached <==> Reaches(AdjOf(edges), root, k)) && ArcsOf(edges, reached, arcs)
    requires (forall k :: k in listed <==> ReachesPlus(AdjOf(edges), root, k)) && |arcs| == |listed|
    ensures forall k :: k in ids <==> k == root || k in listed
    ensures |exported| == |listed|
  {
    assert ids == reached;
    ArcsDetermined(edges, ids, exported, arcs);
    forall k ensures k in ids <==> k == root || k in listed {
      ReachesSelf(AdjOf(edges), root);
      if Reaches(AdjOf(edges), root, k) && k != root {
        PlusWhenDistinct(AdjOf(edges), root, k);
      }
    }
  }
}
