// The resolver of pkg/dependencies/graph.go: direct dependencies read from the imports of a stored
// module version, and the graph built from them by a recursive search.  The proto parser is
// replaced by its outcome: the list of import paths of the first file, or a failure.
module Resolver {
  import opened Wrappers
  import opened Reachability
  import opened DependencyGraphs
  import opened ImportPaths

  datatype Coordinate = Coordinate(moduleName: string, version: string)

  datatype Stored = NoFiles | Unparsable | Imports(paths: seq<string>)

  type Storage = map<Coordinate, Stored>

  datatype ResolveError = NotFound | ParseFailed

  function KeyAt(c: Coordinate): string {
    ModuleVersionKey(c.moduleName, c.version)
  }

  function CoordinateOf(d: Dependency): Coordinate {
    Coordinate(d.moduleName, d.version)
  }

  /** The list with one more dependency, unless it has no name or is listed already. */
  function Extended(deps: seq<Dependency>, named: (string, string)): seq<Dependency> {
    if named.0 == "" || ModuleVersionKey(named.0, named.1) in KeysOf(deps) then deps
    else deps + [Dependency(named.0, named.1, Direct)]
  }

  /** The dependencies named by a list of imports, without repetition, in order of first mention. */
  function DirectDependencies(paths: seq<string>): (deps: seq<Dependency>)
    ensures Distinct(KeysOf(deps))
    ensures forall d | d in deps :: d.kind == Direct && d.moduleName != "" && '@' !in d.moduleName
    ensures forall d | d in deps :: exists p | p in paths :: Parsed(p) == (d.moduleName, d.version)
    ensures forall p | p in paths && Parsed(p).0 != "" :: Dependency(Parsed(p).0, Parsed(p).1, Direct) in deps
  {
    if paths == [] then []
    else
      var rest := DirectDependencies(paths[..|paths| - 1]);
      var named := Parsed(paths[|paths| - 1]);
      ParsedModuleHasNoAt(paths[|paths| - 1]);
      AlreadyListed(rest, named.0, named.1);
      Extended(rest, named)
  }

  lemma AlreadyListed(deps: seq<Dependency>, m: string, v: string)
    requires forall d | d in deps :: d.kind == Direct && '@' !in d.moduleName
    requires '@' !in m
    ensures ModuleVersionKey(m, v) in KeysOf(deps) <==> Dependency(m, v, Direct) in deps
  {
    if ModuleVersionKey(m, v) in KeysOf(deps) {
      var i :| 0 <= i < |deps| && KeysOf(deps)[i] == ModuleVersionKey(m, v);
      assert deps[i] in deps;
      KeyInjective(deps[i].moduleName, deps[i].version, m, v);
    }
    if Dependency(m, v, Direct) in deps {
      KeyMembership(deps, Dependency(m, v, Direct));
    }
  }

  function NameOf(d: Dependency): (string, string) {
    (d.moduleName, d.version)
  }

  /** The dependencies come in the order in which the imports mention them first. */
  lemma {:induction false} OrderOfMention(paths: seq<string>, i: nat, j: nat)
    requires i < j < |DirectDependencies(paths)|
    ensures var deps := DirectDependencies(paths);
            exists p :: 0 <= p < |paths| && Parsed(paths[p]) == NameOf(deps[i])
                        && forall q | 0 <= q <= p :: Parsed(paths[q]) != NameOf(deps[j])
  {
    hide Parsed, ModuleVersionKey, Distinct;
    var n, deps := |paths| - 1, DirectDependencies(paths);
    var rest := DirectDependencies(paths[..n]);
    assert deps == Extended(rest, Parsed(paths[n]));
    var p;
    if j < |rest| {
      OrderOfMention(paths[..n], i, j);
      p :| 0 <= p < n && Parsed(paths[..n][p]) == NameOf(rest[i])
           && forall q | 0 <= q <= p :: Parsed(paths[..n][q]) != NameOf(rest[j]);
      assert forall q | 0 <= q <= p :: paths[..n][q] == paths[q];
    } else {
      p := NewlyMentioned(paths, n, i);
    }
    assert deps[i] == rest[i] && Parsed(paths[p]) == NameOf(deps[i]);
  }

  lemma NewlyMentioned(paths: seq<string>, n: nat, i: nat) returns (p: nat)
    requires n < |paths| && i < |DirectDependencies(paths[..n])|
    requires var rest, named := DirectDependencies(paths[..n]), Parsed(paths[n]);
             Extended(rest, named) == rest + [Dependency(named.0, named.1, Direct)]
    ensures p < n && Parsed(paths[p]) == NameOf(DirectDependencies(paths[..n])[i])
    ensures forall q | 0 <= q <= p :: Parsed(paths[q]) != Parsed(paths[n])
  {
    hide Parsed, ModuleVersionKey, Distinct;
    var rest, named := DirectDependencies(paths[..n]), Parsed(paths[n]);
    var path :| path in paths[..n] && Parsed(path) == (rest[i].moduleName, rest[i].version);
    p :| 0 <= p < n && paths[p] == path;
    forall q | 0 <= q <= p ensures Parsed(paths[q]) != named {
      assert paths[q] in paths[..n];
      if Parsed(paths[q]) == named {
        KeyMembership(rest, Dependency(named.0, named.1, Direct));
      }
    }
  }

  lemma DirectNone()
    ensures DirectDependencies([]) == []
  {
  }

  lemma DirectStep(paths: seq<string>, i: nat)
    requires i < |paths|
    ensures DirectDependencies(paths[..i + 1]) == Extended(DirectDependencies(paths[..i]), Parsed(paths[i]))
  {
    assert paths[..i + 1][..i] == paths[..i];
  }

  function Resolved(storage: Storage, c: Coordinate): Result<seq<Dependency>, ResolveError> {
    if c !in storage then Failure(NotFound)
    else
      match storage[c]
      case NoFiles => Success([])
      case Unparsable => Failure(ParseFailed)
      case Imports(paths) => Success(DirectDependencies(paths))
  }

  /** The coordinate has no dependencies, for the reason given: it is not stored, or its first file does not parse. */
  predicate Unresolvable(storage: Storage, c: Coordinate, e: ResolveError) {
    (c !in storage && e == NotFound) || (c in storage && storage[c].Unparsable? && e == ParseFailed)
  }

  lemma FailsIff(storage: Storage, c: Coordinate)
    ensures Resolved(storage, c).Success? <==> c in storage && !storage[c].Unparsable?
    ensures Resolved(storage, c).Success? <==> forall e :: !Unresolvable(storage, c, e)
    ensures forall e :: Resolved(storage, c) == Failure(e) <==> Unresolvable(storage, c, e)
  {
    hide DirectDependencies;
    assert c !in storage ==> Unresolvable(storage, c, NotFound);
    assert c in storage && storage[c].Unparsable? ==> Unresolvable(storage, c, ParseFailed);
  }

  method ResolveDependencies(storage: Storage, moduleName: string, version: string)
    returns (r: Result<seq<Dependency>, ResolveError>)
    ensures r == Resolved(storage, Coordinate(moduleName, version))
    ensures forall e :: r == Failure(e) <==> Unresolvable(storage, Coordinate(moduleName, version), e)
    ensures var c := Coordinate(moduleName, version);
            && (c in storage && storage[c].NoFiles? ==> r == Success([]))
            && (c in storage && storage[c].Imports? ==> r == Success(DirectDependencies(storage[c].paths)))
  {
    var c := Coordinate(moduleName, version);
    if c !in storage {
      return Failure(NotFound);
    }
    if storage[c].NoFiles? {
      return Success([]);
    }
    if storage[c].Unparsable? {
      return Failure(ParseFailed);
    }
    hide Parsed, DirectDependencies, ModuleVersionKey, Distinct, KeyOf, KeysOf;
    var paths := storage[c].paths;
    var deps: seq<Dependency> := [];
    var seen: set<string> := {};
    DirectNone();
    NoKeys();
    assert paths[..0] == [];
    for i := 0 to |paths|
      invariant deps == DirectDependencies(paths[..i])
      invariant forall k :: k in seen <==> k in KeysOf(deps)
    {
      DirectStep(paths, i);
      var m, v := ParseImportPath(paths[i]);
      if m != "" {
        var key := ModuleVersionKey(m, v);
        if key !in seen {
          seen := seen + {key};
          deps := deps + [Dependency(m, v, Direct)];
          KeysAppend(DirectDependencies(paths[..i]), Dependency(m, v, Direct));
        }
      }
    }
    assert paths[..|paths|] == paths;
    return Success(deps);
  }

  /** The stored dependencies as a relation between coordinates. */
  ghost function StoreGraph(storage: Storage): Digraph<Coordinate> {
    map c | c in storage && Resolved(storage, c).Success? ::
      set d | d in Resolved(storage, c).value :: CoordinateOf(d)
  }

  /** No other coordinate reached from the root shares the root's key. */
  ghost predicate RootKeyUnshared(storage: Storage, root: Coordinate) {
    forall c :: Reaches(StoreGraph(storage), root, c) && KeyAt(c) == KeyAt(root) ==> c == root
  }

  lemma ReachedHasNoAt(storage: Storage, root: Coordinate, c: Coordinate)
    requires Reaches(StoreGraph(storage), root, c) && c != root
    ensures '@' !in c.moduleName
  {
    var p :| WalkFromTo(StoreGraph(storage), p, root, c);
    assert Edge(StoreGraph(storage), p[|p| - 2], p[|p| - 2 + 1]);
  }

  /** A root whose module name has no '@' never shares its key. */
  lemma PlainRootUnshared(storage: Storage, root: Coordinate)
    requires '@' !in root.moduleName
    ensures RootKeyUnshared(storage, root)
  {
    forall c | Reaches(StoreGraph(storage), root, c) && KeyAt(c) == KeyAt(root) ensures c == root {
      if c != root {
        ReachedHasNoAt(storage, root, c);
        KeyInjective(c.moduleName, c.version, root.moduleName, root.version);
      }
    }
  }

  /** No import path has an '@': the parser replaces each by a dash. */
  predicate AtFree(storage: Storage) {
    forall c | c in storage && storage[c].Imports? :: forall p | p in storage[c].paths :: '@' !in p
  }

  /** Then what is reached has no '@' in either name, nor a dash in its module name: a module whose name
      has a dash is nobody's dependency. */
  lemma ReachedIsPlain(storage: Storage, root: Coordinate, c: Coordinate)
    requires AtFree(storage) && Reaches(StoreGraph(storage), root, c) && c != root
    ensures '@' !in c.moduleName && '@' !in c.version && '-' !in c.moduleName
  {
    var p :| WalkFromTo(StoreGraph(storage), p, root, c);
    var b := p[|p| - 2];
    assert Edge(StoreGraph(storage), b, p[|p| - 2 + 1]);
    hide Parsed;
    var d :| d in Resolved(storage, b).value && CoordinateOf(d) == c;
    assert storage[b].Imports? && d in DirectDependencies(storage[b].paths);
    var path :| path in storage[b].paths && Parsed(path) == (d.moduleName, d.version);
    ParsedWithoutAt(path);
  }

  lemma PlainKeyHasOneAt(c: Coordinate, root: Coordinate)
    requires '@' !in c.moduleName && '@' !in c.version && KeyAt(c) == KeyAt(root)
    ensures c == root
  {
    var key := KeyAt(c);
    assert key[|root.moduleName|] == '@';
    assert forall i | 0 <= i < |key| && key[i] == '@' :: i == |c.moduleName|;
    assert key[..|c.moduleName|] == c.moduleName && key[|c.moduleName| + 1..] == c.version;
    assert key[..|root.moduleName|] == root.moduleName && key[|root.moduleName| + 1..] == root.version;
  }

  /** From such a storage no root shares its key, whatever its own name. */
  lemma AtFreeIsUnshared(storage: Storage, root: Coordinate)
    requires AtFree(storage)
    ensures RootKeyUnshared(storage, root)
  {
    hide AtFree, StoreGraph, Reaches, ModuleVersionKey;
    forall c | Reaches(StoreGraph(storage), root, c) && KeyAt(c) == KeyAt(root) ensures c == root {
      if c != root {
        ReachedIsPlain(storage, root, c);
        PlainKeyHasOneAt(c, root);
      }
    }
  }

  function CoordinateAt(nodes: map<string, Node>, k: string): Coordinate
    requires k in nodes
  {
    Coordinate(nodes[k].moduleName, nodes[k].version)
  }

  /** The node stored under the key of c is the node of c itself. */
  predicate HasNodeOf(nodes: map<string, Node>, c: Coordinate) {
    KeyAt(c) in nodes && CoordinateAt(nodes, KeyAt(c)) == c
  }

  /** Every node carries what the storage resolves for it. */
  ghost predicate Agrees(storage: Storage, nodes: map<string, Node>) {
    forall k | k in nodes ::
      && KeyAt(CoordinateAt(nodes, k)) == k
      && Resolved(storage, CoordinateAt(nodes, k)) == Success(nodes[k].dependencies)
  }

  ghost predicate AllReachedFrom(storage: Storage, root: Coordinate, nodes: map<string, Node>) {
    forall k | k in nodes :: Reaches(StoreGraph(storage), root, CoordinateAt(nodes, k))
  }

  /** What the search from c adds to the nodes. */
  ghost predicate Built(storage: Storage, c: Coordinate, before: map<string, Node>, after: map<string, Node>,
                        visited: set<string>)
  {
    && before.Keys <= after.Keys && (forall k | k in before :: after[k] == before[k])
    && Agrees(storage, after)
    && (forall k | k in after && k !in before :: Reaches(StoreGraph(storage), c, CoordinateAt(after, k)))
    && (forall k, d | k in after && k !in before && d in after[k].dependencies :: KeyOf(d) in visited)
  }

  /** The same while only the first i dependencies of c have been followed. */
  ghost predicate Building(storage: Storage, c: Coordinate, i: nat, before: map<string, Node>, after: map<string, Node>,
                           visited: set<string>)
  {
    && before.Keys <= after.Keys && (forall k | k in before :: after[k] == before[k])
    && Agrees(storage, after) && HasNodeOf(after, c) && KeyAt(c) !in before
    && i <= |after[KeyAt(c)].dependencies|
    && (forall k | k in after && k !in before :: Reaches(StoreGraph(storage), c, CoordinateAt(after, k)))
    && (forall k, d | k in after && k !in before && k != KeyAt(c) && d in after[k].dependencies :: KeyOf(d) in visited)
    && (forall j | 0 <= j < i :: KeyOf(after[KeyAt(c)].dependencies[j]) in visited)
  }

  lemma BuildingStarts(storage: Storage, c: Coordinate, deps: seq<Dependency>, before: map<string, Node>,
                       visited: set<string>)
    requires Agrees(storage, before) && KeyAt(c) !in before && Resolved(storage, c) == Success(deps)
    ensures Building(storage, c, 0, before, before[KeyAt(c) := Node(c.moduleName, c.version, deps)], visited)
    ensures Agrees(storage, before[KeyAt(c) := Node(c.moduleName, c.version, deps)])
  {
    ReachesSelf(StoreGraph(storage), c);
  }

  lemma BuildingStep(storage: Storage, c: Coordinate, i: nat, before: map<string, Node>, mid: map<string, Node>,
                     seen: set<string>, after: map<string, Node>, visited: set<string>)
    requires Building(storage, c, i, before, mid, seen) && i < |mid[KeyAt(c)].dependencies| && seen <= visited
    requires Built(storage, CoordinateOf(mid[KeyAt(c)].dependencies[i]), mid, after, visited)
    requires KeyOf(mid[KeyAt(c)].dependencies[i]) in visited
    ensures Building(storage, c, i + 1, before, after, visited)
  {
    var d := CoordinateOf(mid[KeyAt(c)].dependencies[i]);
    assert Edge(StoreGraph(storage), c, d);
    forall k | k in after && k !in before ensures Reaches(StoreGraph(storage), c, CoordinateAt(after, k)) {
      if k !in mid {
        EdgeThenReaches(StoreGraph(storage), c, d, CoordinateAt(after, k));
      }
    }
  }

  lemma BuildingEnds(storage: Storage, c: Coordinate, before: map<string, Node>, after: map<string, Node>,
                     visited: set<string>)
    requires KeyAt(c) in after && Building(storage, c, |after[KeyAt(c)].dependencies|, before, after, visited)
    ensures Built(storage, c, before, after, visited)
  {
  }

  function StorageKeys(storage: Storage): set<string> {
    set c | c in storage :: KeyAt(c)
  }

  /** The variables captured by the recursive closure of BuildDependencyGraph. */
  class BuildSearch {
    const storage: Storage
    const graph: DependencyGraph
    var visited: set<string>

    constructor (storage: Storage)
      ensures this.storage == storage && fresh(graph)
      ensures graph.Valid() && graph.nodes == map[] && visited == {}
    {
      this.storage := storage;
      graph := new DependencyGraph();
      visited := {};
    }

    method Build(c: Coordinate) returns (r: Result<(), ResolveError>, ghost culprit: Coordinate)
      requires graph.Valid() && visited == graph.nodes.Keys && Agrees(storage, graph.nodes)
      modifies this, graph
      decreases StorageKeys(storage) - visited
      ensures r.Success? ==> graph.Valid() && visited == graph.nodes.Keys && old(visited) <= visited
      ensures r.Success? ==> KeyAt(c) in visited && Built(storage, c, old(graph.nodes), graph.nodes, visited)
      ensures r.Success? && KeyAt(c) !in old(visited) ==> HasNodeOf(graph.nodes, c)
      ensures r.Failure? ==> Reaches(StoreGraph(storage), c, culprit) && Resolved(storage, culprit) == Failure(r.error)
    {
      hide Built, Building, StoreGraph, Reaches, Resolved, StorageKeys, ModuleVersionKey, Agrees, KeysOf, Unresolvable;
      var key := KeyAt(c);
      culprit := c;
      ReachesSelf(StoreGraph(storage), c);
      if key in visited {
        NothingBuilt(storage, c, graph.nodes, visited);
        return Success(()), c;
      }
      visited := visited + {key};
      var outcome := ResolveDependencies(storage, c.moduleName, c.version);
      if outcome.Failure? {
        return Failure(outcome.error), c;
      }
      var deps := outcome.value;
      BuildingStarts(storage, c, deps, graph.nodes, visited);
      KnownToStorage(storage, c);
      graph.AddNode(c.moduleName, c.version, deps);
      for i := 0 to |deps|
        invariant graph.Valid() && visited == graph.nodes.Keys && old(visited) + {key} <= visited
        invariant HasNodeOf(graph.nodes, c) && graph.nodes[key].dependencies == deps && Agrees(storage, graph.nodes)
        invariant Building(storage, c, i, old(graph.nodes), graph.nodes, visited)
      {
        ghost var mid, seen := graph.nodes, visited;
        r, culprit := Build(CoordinateOf(deps[i]));
        if r.Failure? {
          StepInStore(storage, c, deps, i, culprit);
          return;
        }
        BuiltKeeps(storage, CoordinateOf(deps[i]), mid, graph.nodes, visited, key);
        BuildingStep(storage, c, i, old(graph.nodes), mid, seen, graph.nodes, visited);
      }
      BuildingEnds(storage, c, old(graph.nodes), graph.nodes, visited);
      return Success(()), c;
    }
  }

  lemma NothingBuilt(storage: Storage, c: Coordinate, nodes: map<string, Node>, visited: set<string>)
    requires Agrees(storage, nodes)
    ensures Built(storage, c, nodes, nodes, visited)
  {
  }

  lemma BuiltKeeps(storage: Storage, c: Coordinate, before: map<string, Node>, after: map<string, Node>,
                   visited: set<string>, key: string)
    requires Built(storage, c, before, after, visited) && key in before
    ensures key in after && after[key] == before[key] && Agrees(storage, after)
  {
  }

  lemma KnownToStorage(storage: Storage, c: Coordinate)
    requires Resolved(storage, c).Success?
    ensures KeyAt(c) in StorageKeys(storage)
  {
    assert c in storage;
  }

  lemma StepInStore(storage: Storage, c: Coordinate, deps: seq<Dependency>, i: nat, x: Coordinate)
    requires Resolved(storage, c) == Success(deps) && i < |deps|
    requires Reaches(StoreGraph(storage), CoordinateOf(deps[i]), x)
    ensures Reaches(StoreGraph(storage), c, x)
  {
    assert Edge(StoreGraph(storage), c, CoordinateOf(deps[i]));
    EdgeThenReaches(StoreGraph(storage), c, CoordinateOf(deps[i]), x);
  }

  /** The graph holds exactly what the search reached from the root, and leads nowhere else. */
  ghost predicate IsBuiltFrom(storage: Storage, root: Coordinate, nodes: map<string, Node>) {
    && Agrees(storage, nodes)
    && HasNodeOf(nodes, root)
    && AllReachedFrom(storage, root, nodes)
    && (forall k, d | k in nodes && d in nodes[k].dependencies :: KeyOf(d) in nodes)
  }

  /** Something reached from the root has no dependencies for that reason. */
  ghost predicate SomeUnresolvable(storage: Storage, root: Coordinate, e: ResolveError) {
    exists c :: Reaches(StoreGraph(storage), root, c) && Unresolvable(storage, c, e)
  }

  method BuildDependencyGraph(storage: Storage, moduleName: string, version: string)
    returns (r: Result<DependencyGraph, ResolveError>)
    ensures r.Success? ==> fresh(r.value) && r.value.Valid()
                           && IsBuiltFrom(storage, Coordinate(moduleName, version), r.value.nodes)
    ensures r.Failure? ==> SomeUnresolvable(storage, Coordinate(moduleName, version), r.error)
    ensures forall e | Unresolvable(storage, Coordinate(moduleName, version), e) :: r == Failure(e)
    ensures RootKeyUnshared(storage, Coordinate(moduleName, version)) ==>
              (r.Success? <==> AllResolve(storage, Coordinate(moduleName, version)))
  {
    var root := Coordinate(moduleName, version);
    var search := new BuildSearch(storage);
    NothingBuilt(storage, root, map[], {});
    ghost var culprit;
    var outcome;
    outcome, culprit := search.Build(root);
    FailsIff(storage, root);
    if outcome.Failure? {
      FailsIff(storage, culprit);
      UnresolvedIsAlone(storage, root, culprit);
      return Failure(outcome.error);
    }
    assert IsBuiltFrom(storage, root, search.graph.nodes);
    if RootKeyUnshared(storage, root) {
      UnsharedRootBuildsAll(storage, root, search.graph.nodes);
    }
    return Success(search.graph);
  }

  lemma UnresolvedIsAlone(storage: Storage, root: Coordinate, c: Coordinate)
    requires Reaches(StoreGraph(storage), root, c)
    ensures Resolved(storage, root).Failure? ==> c == root
  {
    hide Resolved;
    var p :| WalkFromTo(StoreGraph(storage), p, root, c);
    if |p| >= 2 {
      assert Edge(StoreGraph(storage), p[0], p[0 + 1]);
    }
  }

  /** Everything reached from the root resolves. */
  ghost predicate AllResolve(storage: Storage, root: Coordinate) {
    forall c :: Reaches(StoreGraph(storage), root, c) ==> c in storage && !storage[c].Unparsable?
  }

  lemma OwnNodesClosed(storage: Storage, root: Coordinate, nodes: map<string, Node>, c: Coordinate, d: Coordinate)
    requires IsBuiltFrom(storage, root, nodes) && (KeyAt(d) == KeyAt(root) ==> d == root)
    requires HasNodeOf(nodes, c) && Edge(StoreGraph(storage), c, d)
    ensures HasNodeOf(nodes, d)
  {
    var dep :| dep in nodes[KeyAt(c)].dependencies && CoordinateOf(dep) == d;
    assert KeyOf(dep) == KeyAt(d);
    var q := CoordinateAt(nodes, KeyAt(d));
    assert KeyAt(q) == KeyAt(d);
    hide ModuleVersionKey, Reaches, StoreGraph;
    if d != root {
      ReachesThenEdge(StoreGraph(storage), root, c, d);
      ReachedHasNoAt(storage, root, q);
      ReachedHasNoAt(storage, root, d);
      KeyInjective(q.moduleName, q.version, d.moduleName, d.version);
    }
  }

  lemma UnsharedOwnNodesClosed(storage: Storage, root: Coordinate, nodes: map<string, Node>, c: Coordinate,
                               d: Coordinate)
    requires IsBuiltFrom(storage, root, nodes) && RootKeyUnshared(storage, root)
    requires HasNodeOf(nodes, c) && Edge(StoreGraph(storage), c, d)
    ensures HasNodeOf(nodes, d)
  {
    hide StoreGraph, Agrees, ModuleVersionKey;
    ReachesThenEdge(StoreGraph(storage), root, c, d);
    OwnNodesClosed(storage, root, nodes, c, d);
  }

  lemma UnsharedRootBuildsAll(storage: Storage, root: Coordinate, nodes: map<string, Node>)
    requires IsBuiltFrom(storage, root, nodes) && RootKeyUnshared(storage, root)
    ensures forall c :: Reaches(StoreGraph(storage), root, c) ==> HasNodeOf(nodes, c)
    ensures AllResolve(storage, root)
  {
    var own := set k | k in nodes :: CoordinateAt(nodes, k);
    assert CoordinateAt(nodes, KeyAt(root)) in own;
    forall c, d | c in own && Edge(StoreGraph(storage), c, d) ensures d in own {
      UnsharedOwnNodesClosed(storage, root, nodes, c, d);
      assert CoordinateAt(nodes, KeyAt(d)) in own;
    }
    forall c | Reaches(StoreGraph(storage), root, c) ensures HasNodeOf(nodes, c) && Resolved(storage, c).Success? {
      ClosedKeepsReachable(StoreGraph(storage), own, root, c);
      FailsIff(storage, c);
    }
  }

  lemma ReachedHasNode(storage: Storage, root: Coordinate, nodes: map<string, Node>, c: Coordinate)
    requires IsBuiltFrom(storage, root, nodes) && RootKeyUnshared(storage, root)
    requires Reaches(StoreGraph(storage), root, c)
    ensures HasNodeOf(nodes, c)
  {
    UnsharedRootBuildsAll(storage, root, nodes);
  }

  /** A built graph has a node for every coordinate the root reaches exactly when no coordinate
      reached shares the root's key. */
  lemma BuildIsCompleteIff(storage: Storage, root: Coordinate, nodes: map<string, Node>)
    requires IsBuiltFrom(storage, root, nodes)
    ensures (forall c :: Reaches(StoreGraph(storage), root, c) ==> HasNodeOf(nodes, c))
       <==> RootKeyUnshared(storage, root)
  {
    if RootKeyUnshared(storage, root) {
      UnsharedRootBuildsAll(storage, root, nodes);
    }
    if forall c :: Reaches(StoreGraph(storage), root, c) ==> HasNodeOf(nodes, c) {
      forall c | Reaches(StoreGraph(storage), root, c) && KeyAt(c) == KeyAt(root) ensures c == root {
        assert HasNodeOf(nodes, c) && HasNodeOf(nodes, root);
      }
    }
  }

  function KeysAlong(p: seq<Coordinate>): (ks: seq<string>)
    ensures |ks| == |p| && forall i | 0 <= i < |p| :: ks[i] == KeyAt(p[i])
  {
    seq(|p|, i requires 0 <= i < |p| => KeyAt(p[i]))
  }

  function CoordinatesAlong(nodes: map<string, Node>, ks: seq<string>): (p: seq<Coordinate>)
    requires forall k | k in ks :: k in nodes
    ensures |p| == |ks| && forall i | 0 <= i < |ks| :: p[i] == CoordinateAt(nodes, ks[i])
  {
    seq(|ks|, i requires 0 <= i < |ks| => CoordinateAt(nodes, ks[i]))
  }

  lemma EdgeOfDependency(nodes: map<string, Node>, edges: map<string, seq<string>>, k: string, d: Dependency)
    requires EdgesMatch(nodes, edges) && k in nodes && d in nodes[k].dependencies
    ensures Edge(AdjOf(edges), k, KeyOf(d))
  {
    KeyMembership(nodes[k].dependencies, d);
    hide KeyOf;
  }

  lemma DependencyOfEdge(nodes: map<string, Node>, edges: map<string, seq<string>>, k: string, x: string)
    returns (d: Dependency)
    requires EdgesMatch(nodes, edges) && Edge(AdjOf(edges), k, x)
    ensures k in nodes && d in nodes[k].dependencies && KeyOf(d) == x
  {
    hide KeyOf;
    var deps := nodes[k].dependencies;
    var i :| 0 <= i < |deps| && KeysOf(deps)[i] == x;
    d := deps[i];
  }

  /** A step in the storage from a node of its own is an edge between keys. */
  lemma EdgeOfStep(storage: Storage, nodes: map<string, Node>, edges: map<string, seq<string>>, c: Coordinate,
                   d: Coordinate)
    requires EdgesMatch(nodes, edges) && Agrees(storage, nodes) && HasNodeOf(nodes, c)
             && Edge(StoreGraph(storage), c, d)
    ensures Edge(AdjOf(edges), KeyAt(c), KeyAt(d))
  {
    var dep :| dep in nodes[KeyAt(c)].dependencies && CoordinateOf(dep) == d;
    EdgeOfDependency(nodes, edges, KeyAt(c), dep);
  }

  /** Walks in the storage and walks between the keys of the built graph correspond. */
  lemma EdgesCorrespond(storage: Storage, root: Coordinate, nodes: map<string, Node>, edges: map<string, seq<string>>,
                        c: Coordinate, d: Coordinate)
    requires EdgesMatch(nodes, edges) && IsBuiltFrom(storage, root, nodes) && RootKeyUnshared(storage, root)
    requires HasNodeOf(nodes, c) && HasNodeOf(nodes, d)
    ensures Edge(StoreGraph(storage), c, d) <==> Edge(AdjOf(edges), KeyAt(c), KeyAt(d))
  {
    if Edge(StoreGraph(storage), c, d) {
      EdgeOfStep(storage, nodes, edges, c, d);
    }
    if Edge(AdjOf(edges), KeyAt(c), KeyAt(d)) {
      var dep := DependencyOfEdge(nodes, edges, KeyAt(c), KeyAt(d));
      assert Edge(StoreGraph(storage), c, CoordinateOf(dep));
      hide StoreGraph, AdjOf, ModuleVersionKey, EdgesMatch;
      UnsharedOwnNodesClosed(storage, root, nodes, c, CoordinateOf(dep));
      assert KeyAt(CoordinateOf(dep)) == KeyOf(dep);
    }
  }

  lemma StoreWalk(storage: Storage, root: Coordinate, nodes: map<string, Node>, edges: map<string, seq<string>>,
                  p: seq<Coordinate>)
    requires EdgesMatch(nodes, edges) && IsBuiltFrom(storage, root, nodes) && RootKeyUnshared(storage, root)
    requires IsWalk(StoreGraph(storage), p) && HasNodeOf(nodes, p[0])
    ensures IsWalk(AdjOf(edges), KeysAlong(p))
  {
    hide EdgesMatch, IsBuiltFrom, RootKeyUnshared, Edge, HasNodeOf, KeyAt;
    StoreWalkHasNodes(storage, root, nodes, p);
    forall i | 0 <= i < |p| - 1 ensures Edge(AdjOf(edges), KeysAlong(p)[i], KeysAlong(p)[i + 1]) {
      assert Edge(StoreGraph(storage), p[i], p[i + 1]);
      EdgesCorrespond(storage, root, nodes, edges, p[i], p[i + 1]);
    }
  }

  lemma KeyWalk(storage: Storage, root: Coordinate, nodes: map<string, Node>, edges: map<string, seq<string>>,
                ks: seq<string>)
    requires EdgesMatch(nodes, edges) && IsBuiltFrom(storage, root, nodes) && RootKeyUnshared(storage, root)
    requires IsWalk(AdjOf(edges), ks) && ks[0] in nodes
    ensures (forall k | k in ks :: k in nodes) && IsWalk(StoreGraph(storage), CoordinatesAlong(nodes, ks))
  {
    KeyWalkHasNodes(storage, root, nodes, edges, ks);
    var p := CoordinatesAlong(nodes, ks);
    forall i | 0 <= i < |ks| - 1 ensures Edge(StoreGraph(storage), p[i], p[i + 1]) {
      assert Edge(AdjOf(edges), ks[i], ks[i + 1]);
      assert ks[i] in ks && ks[i + 1] in ks;
      NodeIsOwn(nodes, edges, ks[i]);
      NodeIsOwn(nodes, edges, ks[i + 1]);
      EdgesCorrespond(storage, root, nodes, edges, p[i], p[i + 1]);
    }
  }

  lemma NodeIsOwn(nodes: map<string, Node>, edges: map<string, seq<string>>, k: string)
    requires EdgesMatch(nodes, edges) && k in nodes
    ensures KeyAt(CoordinateAt(nodes, k)) == k && HasNodeOf(nodes, CoordinateAt(nodes, k))
  {
  }

  lemma WalksCorrespond(storage: Storage, root: Coordinate, nodes: map<string, Node>, edges: map<string, seq<string>>,
                        c: Coordinate, d: Coordinate)
    requires EdgesMatch(nodes, edges) && IsBuiltFrom(storage, root, nodes) && RootKeyUnshared(storage, root)
    requires HasNodeOf(nodes, c) && HasNodeOf(nodes, d)
    ensures Reaches(StoreGraph(storage), c, d) <==> Reaches(AdjOf(edges), KeyAt(c), KeyAt(d))
    ensures ReachesPlus(StoreGraph(storage), c, d) <==> ReachesPlus(AdjOf(edges), KeyAt(c), KeyAt(d))
  {
    hide EdgesMatch, IsBuiltFrom, RootKeyUnshared, IsWalk, StoreGraph, AdjOf, ModuleVersionKey;
    forall p | WalkFromTo(StoreGraph(storage), p, c, d)
      ensures WalkFromTo(AdjOf(edges), KeysAlong(p), KeyAt(c), KeyAt(d))
    {
      WalkNotEmpty(StoreGraph(storage), p);
      StoreWalk(storage, root, nodes, edges, p);
    }
    forall ks | WalkFromTo(AdjOf(edges), ks, KeyAt(c), KeyAt(d))
      ensures (forall k | k in ks :: k in nodes)
      ensures WalkFromTo(StoreGraph(storage), CoordinatesAlong(nodes, ks), c, d)
    {
      WalkNotEmpty(AdjOf(edges), ks);
      KeyWalk(storage, root, nodes, edges, ks);
    }
    if ReachesPlus(StoreGraph(storage), c, d) {
      var p :| WalkFromTo(StoreGraph(storage), p, c, d) && |p| >= 2;
      assert WalkFromTo(AdjOf(edges), KeysAlong(p), KeyAt(c), KeyAt(d)) && |KeysAlong(p)| >= 2;
    }
    if ReachesPlus(AdjOf(edges), KeyAt(c), KeyAt(d)) {
      var ks :| WalkFromTo(AdjOf(edges), ks, KeyAt(c), KeyAt(d)) && |ks| >= 2;
      assert WalkFromTo(StoreGraph(storage), CoordinatesAlong(nodes, ks), c, d);
    }
  }

  lemma WalkNotEmpty<T(!new)>(g: Digraph<T>, p: seq<T>)
    requires IsWalk(g, p)
    ensures p != []
  {
  }

  lemma StoreWalkHasNodes(storage: Storage, root: Coordinate, nodes: map<string, Node>, p: seq<Coordinate>)
    requires IsBuiltFrom(storage, root, nodes) && RootKeyUnshared(storage, root)
    requires IsWalk(StoreGraph(storage), p) && HasNodeOf(nodes, p[0])
    ensures forall c | c in p :: HasNodeOf(nodes, c)
  {
    hide IsBuiltFrom, RootKeyUnshared, HasNodeOf, Edge;
    for i := 0 to |p| - 1
      invariant forall j | 0 <= j <= i :: HasNodeOf(nodes, p[j])
    {
      assert Edge(StoreGraph(storage), p[i], p[i + 1]);
      UnsharedOwnNodesClosed(storage, root, nodes, p[i], p[i + 1]);
    }
  }

  lemma KeyWalkHasNodes(storage: Storage, root: Coordinate, nodes: map<string, Node>, edges: map<string, seq<string>>,
                        ks: seq<string>)
    requires EdgesMatch(nodes, edges) && IsBuiltFrom(storage, root, nodes)
    requires IsWalk(AdjOf(edges), ks) && ks[0] in nodes
    ensures forall k | k in ks :: k in nodes
  {
    hide EdgesMatch, KeyOf, AdjOf;
    for i := 0 to |ks| - 1
      invariant forall j | 0 <= j <= i :: ks[j] in nodes
    {
      assert Edge(AdjOf(edges), ks[i], ks[i + 1]);
      var d := DependencyOfEdge(nodes, edges, ks[i], ks[i + 1]);
    }
  }

  /** If a coordinate reached shares the root's key, the search leads back to the root's own node, so
      that the root lies on a cycle of the built graph. */
  lemma SharedRootClosesCycle(storage: Storage, root: Coordinate, nodes: map<string, Node>,
                              edges: map<string, seq<string>>)
    requires EdgesMatch(nodes, edges) && IsBuiltFrom(storage, root, nodes) && !RootKeyUnshared(storage, root)
    ensures ReachesPlus(AdjOf(edges), KeyAt(root), KeyAt(root)) && CycleReachable(AdjOf(edges), KeyAt(root))
  {
    var g := AdjOf(edges);
    var c :| Reaches(StoreGraph(storage), root, c) && KeyAt(c) == KeyAt(root) && c != root;
    var p :| WalkFromTo(StoreGraph(storage), p, root, c);
    hide EdgesMatch, AdjOf, HasNodeOf, StoreGraph, ModuleVersionKey, RootKeyUnshared;
    hide Agrees, Edge, ReachesPlus, Reaches;
    ReachesSelf(g, KeyAt(root));
    for i := 0 to |p| - 1
      invariant HasNodeOf(nodes, p[i]) && Reaches(g, KeyAt(root), KeyAt(p[i]))
      invariant !ReachesPlus(g, KeyAt(root), KeyAt(root)) ==> i == 0 || KeyAt(p[i]) != KeyAt(root)
    {
      assert Edge(StoreGraph(storage), p[i], p[i + 1]);
      EdgeOfStep(storage, nodes, edges, p[i], p[i + 1]);
      ReachesThenEdge(g, KeyAt(root), KeyAt(p[i]), KeyAt(p[i + 1]));
      if KeyAt(p[i + 1]) == KeyAt(root) {
        return;
      }
      OwnNodesClosed(storage, root, nodes, p[i], p[i + 1]);
    }
  }

  /** Something in a graph built from a root leads to the root only if the root lies on a cycle. */
  lemma LeadsToRootIff(storage: Storage, root: Coordinate, nodes: map<string, Node>, edges: map<string, seq<string>>)
    requires EdgesMatch(nodes, edges) && IsBuiltFrom(storage, root, nodes)
    ensures (exists k :: ReachesPlus(AdjOf(edges), k, KeyAt(root)))
       <==> ReachesPlus(AdjOf(edges), KeyAt(root), KeyAt(root))
    ensures RootKeyUnshared(storage, root) ==>
              (ReachesPlus(AdjOf(edges), KeyAt(root), KeyAt(root)) <==> ReachesPlus(StoreGraph(storage), root, root))
  {
    var g, top := AdjOf(edges), KeyAt(root);
    if !RootKeyUnshared(storage, root) {
      SharedRootClosesCycle(storage, root, nodes, edges);
    } else {
      WalksCorrespond(storage, root, nodes, edges, root, root);
      hide StoreGraph, ReachesPlus, Reaches, AdjOf, RootKeyUnshared, ModuleVersionKey;
      if k :| ReachesPlus(g, k, top) {
        var next := FirstStep(g, k, top);
        KeyIsReached(storage, root, nodes, edges, k, next);
        ReachesThenEdge(g, top, k, next);
        PlusThenReaches(g, top, next, top);
      }
    }
  }

  lemma KeyIsReached(storage: Storage, root: Coordinate, nodes: map<string, Node>, edges: map<string, seq<string>>,
                     k: string, next: string)
    requires EdgesMatch(nodes, edges) && IsBuiltFrom(storage, root, nodes) && RootKeyUnshared(storage, root)
    requires Edge(AdjOf(edges), k, next)
    ensures Reaches(AdjOf(edges), KeyAt(root), k)
  {
    var d := DependencyOfEdge(nodes, edges, k, next);
    NodeIsOwn(nodes, edges, k);
    hide StoreGraph, Reaches, ReachesPlus, AdjOf, RootKeyUnshared, ModuleVersionKey, EdgesMatch, Edge;
    WalksCorrespond(storage, root, nodes, edges, root, CoordinateAt(nodes, k));
  }
}
