// GenerateLockfile and ValidateLockfile of pkg/dependencies/graph.go.
module Lockfiles {
  import opened Wrappers
  import opened Reachability
  import opened DependencyGraphs
  import opened ByteStrings
  import opened Counting
  import opened ImportPaths
  import opened Resolver
  import opened TopologicalSorting

  datatype Lockfile = Lockfile(moduleName: string, version: string, dependencies: seq<Dependency>)

  datatype LockError = Unresolved(cause: ResolveError) | Circular(key: string)

  function Entry(c: Coordinate): Dependency {
    Dependency(c.moduleName, c.version, Direct)
  }

  function RootOf(lockfile: Lockfile): Coordinate {
    Coordinate(lockfile.moduleName, lockfile.version)
  }

  /** Every coordinate the root reaches in the storage, once, each after its own dependencies, the root last. */
  ghost predicate Locks(storage: Storage, root: Coordinate, entries: seq<Dependency>) {
    && Distinct(entries)
    && (forall d :: d in entries <==> d.kind == Direct && Reaches(StoreGraph(storage), root, CoordinateOf(d)))
    && (forall i, c | 0 <= i < |entries| && Edge(StoreGraph(storage), CoordinateOf(entries[i]), c) ::
        Entry(c) in entries[..i])
    && entries != [] && entries[|entries| - 1] == Entry(root)
  }

  /** The roots for which there is a lockfile. */
  ghost predicate Lockable(storage: Storage, root: Coordinate) {
    RootKeyUnshared(storage, root) && AllResolve(storage, root) && !CycleReachable(StoreGraph(storage), root)
  }

  method GenerateLockfile(storage: Storage, moduleName: string, version: string)
    returns (r: Result<Lockfile, LockError>)
    ensures r.Success? <==> Lockable(storage, Coordinate(moduleName, version))
    ensures forall e | r == Failure(Unresolved(e)) :: SomeUnresolvable(storage, Coordinate(moduleName, version), e)
    ensures forall e | Unresolvable(storage, Coordinate(moduleName, version), e) :: r == Failure(Unresolved(e))
    ensures r.Failure? && r.error.Circular? && RootKeyUnshared(storage, Coordinate(moduleName, version)) ==>
              OnReachableCycle(storage, Coordinate(moduleName, version), r.error.key)
    ensures var root := Coordinate(moduleName, version);
            AtFree(storage) ==>
              (r.Success? <==> AllResolve(storage, root) && !CycleReachable(StoreGraph(storage), root))
    ensures r.Success? ==> RootOf(r.value) == Coordinate(moduleName, version)
                           && Locks(storage, RootOf(r.value), r.value.dependencies)
  {
    hide IsBuiltFrom, AllResolve, CycleReachable, RootKeyUnshared, SortedFrom, StoreGraph, Locks, EdgesMatch, AdjOf;
    hide AtFree;
    ghost var root := Coordinate(moduleName, version);
    if AtFree(storage) {
      AtFreeIsUnshared(storage, root);
    }
    var built := BuildDependencyGraph(storage, moduleName, version);
    if built.Failure? {
      return Failure(Unresolved(built.error));
    }
    var graph := built.value;
    var sorted := TopologicalSort(graph, moduleName, version);
    CyclesCorrespond(storage, root, graph.nodes, graph.edges);
    if sorted.Failure? {
      if RootKeyUnshared(storage, root) {
        CyclicKeyIsStored(storage, root, graph.nodes, graph.edges, sorted.error);
      }
      return Failure(Circular(sorted.error));
    }
    SortedIsLocked(storage, root, graph.nodes, graph.edges, sorted.value);
    return Success(Lockfile(moduleName, version, sorted.value));
  }

  /** The key is that of a coordinate on a cycle that the root reaches. */
  ghost predicate OnReachableCycle(storage: Storage, root: Coordinate, key: string) {
    exists c :: KeyAt(c) == key && Reaches(StoreGraph(storage), root, c) && ReachesPlus(StoreGraph(storage), c, c)
  }

  lemma CyclicKeyIsStored(storage: Storage, root: Coordinate, nodes: map<string, Node>, edges: map<string, seq<string>>,
                          k: string)
    requires EdgesMatch(nodes, edges) && IsBuiltFrom(storage, root, nodes) && RootKeyUnshared(storage, root)
    requires Reaches(AdjOf(edges), KeyAt(root), k) && ReachesPlus(AdjOf(edges), k, k)
    ensures OnReachableCycle(storage, root, k)
  {
    hide RootKeyUnshared, Reaches, ReachesPlus, StoreGraph;
    var l := FirstStep(AdjOf(edges), k, k);
    NodeIsOwn(nodes, edges, k);
    hide EdgesMatch, AdjOf;
    var c := CoordinateAt(nodes, k);
    WalksCorrespond(storage, root, nodes, edges, root, c);
    WalksCorrespond(storage, root, nodes, edges, c, c);
  }

  /** The built graph has a cycle in reach if the storage has, or if the root's key is shared. */
  lemma CyclesCorrespond(storage: Storage, root: Coordinate, nodes: map<string, Node>, edges: map<string, seq<string>>)
    requires EdgesMatch(nodes, edges) && IsBuiltFrom(storage, root, nodes)
    ensures CycleReachable(AdjOf(edges), KeyAt(root))
       <==> !RootKeyUnshared(storage, root) || CycleReachable(StoreGraph(storage), root)
  {
    hide EdgesMatch, AdjOf, StoreGraph, IsBuiltFrom, CycleReachable;
    if !RootKeyUnshared(storage, root) {
      SharedRootClosesCycle(storage, root, nodes, edges);
    } else {
      hide RootKeyUnshared;
      StoreCycleIsKeyCycle(storage, root, nodes, edges);
      KeyCycleIsStoreCycle(storage, root, nodes, edges);
    }
  }

  lemma StoreCycleIsKeyCycle(storage: Storage, root: Coordinate, nodes: map<string, Node>,
                             edges: map<string, seq<string>>)
    requires EdgesMatch(nodes, edges) && IsBuiltFrom(storage, root, nodes) && RootKeyUnshared(storage, root)
    ensures CycleReachable(StoreGraph(storage), root) ==> CycleReachable(AdjOf(edges), KeyAt(root))
  {
    UnsharedRootBuildsAll(storage, root, nodes);
    hide EdgesMatch, AdjOf, StoreGraph, RootKeyUnshared, Reaches, ReachesPlus, ModuleVersionKey;
    if CycleReachable(StoreGraph(storage), root) {
      var c :| Reaches(StoreGraph(storage), root, c) && ReachesPlus(StoreGraph(storage), c, c);
      WalksCorrespond(storage, root, nodes, edges, root, c);
      WalksCorrespond(storage, root, nodes, edges, c, c);
    }
  }

  lemma KeyCycleIsStoreCycle(storage: Storage, root: Coordinate, nodes: map<string, Node>,
                             edges: map<string, seq<string>>)
    requires EdgesMatch(nodes, edges) && IsBuiltFrom(storage, root, nodes) && RootKeyUnshared(storage, root)
    ensures CycleReachable(AdjOf(edges), KeyAt(root)) ==> CycleReachable(StoreGraph(storage), root)
  {
    hide RootKeyUnshared, Reaches, ReachesPlus, StoreGraph;
    if CycleReachable(AdjOf(edges), KeyAt(root)) {
      var k :| Reaches(AdjOf(edges), KeyAt(root), k) && ReachesPlus(AdjOf(edges), k, k);
      CyclicKeyIsStored(storage, root, nodes, edges, k);
    }
  }

  lemma SortedIsLocked(storage: Storage, root: Coordinate, nodes: map<string, Node>, edges: map<string, seq<string>>,
                       sorted: seq<Dependency>)
    requires EdgesMatch(nodes, edges) && IsBuiltFrom(storage, root, nodes) && RootKeyUnshared(storage, root)
    requires SortedFrom(AdjOf(edges), nodes, KeyAt(root), sorted)
    ensures Locks(storage, root, sorted)
  {
    hide Reaches, StoreGraph, RootKeyUnshared, NodesFirst, IsBuiltFrom, SortedFrom, Distinct, EdgesMatch, AdjOf;
    SortedEnds(storage, root, nodes, edges, sorted);
    forall d ensures d in sorted <==> d.kind == Direct && Reaches(StoreGraph(storage), root, CoordinateOf(d)) {
      LockedIffReached(storage, root, nodes, edges, sorted, d);
    }
    forall i, c | 0 <= i < |sorted| && Edge(StoreGraph(storage), CoordinateOf(sorted[i]), c)
      ensures Entry(c) in sorted[..i]
    {
      LockedInOrder(storage, root, nodes, edges, sorted, i, c);
    }
  }

  lemma SortedEnds(storage: Storage, root: Coordinate, nodes: map<string, Node>, edges: map<string, seq<string>>,
                   sorted: seq<Dependency>)
    requires EdgesMatch(nodes, edges) && IsBuiltFrom(storage, root, nodes)
    requires SortedFrom(AdjOf(edges), nodes, KeyAt(root), sorted)
    ensures Distinct(sorted) && sorted != [] && sorted[|sorted| - 1] == Entry(root)
  {
    assert forall i | 0 <= i < |sorted| :: KeysOf(sorted)[i] == KeyOf(sorted[i]);
    assert IsEntryOf(nodes, sorted[|sorted| - 1]);
  }

  lemma LockedIffReached(storage: Storage, root: Coordinate, nodes: map<string, Node>, edges: map<string, seq<string>>,
                         sorted: seq<Dependency>, d: Dependency)
    requires EdgesMatch(nodes, edges) && IsBuiltFrom(storage, root, nodes) && RootKeyUnshared(storage, root)
    requires SortedFrom(AdjOf(edges), nodes, KeyAt(root), sorted)
    ensures d in sorted <==> d.kind == Direct && Reaches(StoreGraph(storage), root, CoordinateOf(d))
  {
    hide Reaches, ReachesPlus, StoreGraph, RootKeyUnshared, NodesFirst, Agrees;
    hide AllReachedFrom, Distinct, EdgesMatch, AdjOf;
    if d in sorted {
      KeyMembership(sorted, d);
      assert IsEntryOf(nodes, d);
      WalksCorrespond(storage, root, nodes, edges, root, CoordinateOf(d));
    }
    if d.kind == Direct && Reaches(StoreGraph(storage), root, CoordinateOf(d)) {
      ReachedHasNode(storage, root, nodes, CoordinateOf(d));
      WalksCorrespond(storage, root, nodes, edges, root, CoordinateOf(d));
      var i :| 0 <= i < |sorted| && KeysOf(sorted)[i] == KeyOf(d);
      assert sorted[i] in sorted && IsEntryOf(nodes, sorted[i]);
      assert KeyOf(sorted[i]) == KeyOf(d) == KeyAt(CoordinateOf(d));
      assert sorted[i] == d;
    }
  }

  lemma LockedInOrder(storage: Storage, root: Coordinate, nodes: map<string, Node>, edges: map<string, seq<string>>,
                      sorted: seq<Dependency>, i: nat, c: Coordinate)
    requires EdgesMatch(nodes, edges) && IsBuiltFrom(storage, root, nodes) && RootKeyUnshared(storage, root)
    requires SortedFrom(AdjOf(edges), nodes, KeyAt(root), sorted)
    requires i < |sorted| && Edge(StoreGraph(storage), CoordinateOf(sorted[i]), c)
    ensures Entry(c) in sorted[..i]
  {
    hide Reaches, RootKeyUnshared, StoreGraph, AdjOf, EdgesMatch, Agrees, AllReachedFrom, Edge;
    var s, ks := CoordinateOf(sorted[i]), KeysOf(sorted);
    assert IsEntryOf(nodes, sorted[i]) && HasNodeOf(nodes, s);
    UnsharedOwnNodesClosed(storage, root, nodes, s, c);
    EdgesCorrespond(storage, root, nodes, edges, s, c);
    assert KeyAt(c) in ks[..i];
    var j :| 0 <= j < i && ks[j] == KeyAt(c);
    assert IsEntryOf(nodes, sorted[j]) && sorted[j] in sorted[..i];
  }

  datatype Difference =
    | Changed(moduleName: string, locked: string, current: string)
    | OnlyLocked(moduleName: string, version: string)
    | OnlyCurrent(moduleName: string, version: string)

  /** The version listed last for each module. */
  function VersionMap(deps: seq<Dependency>): map<string, string> {
    if deps == [] then map[]
    else VersionMap(deps[..|deps| - 1])[deps[|deps| - 1].moduleName := deps[|deps| - 1].version]
  }

  /** The differences that the entries themselves show, and the current versions no entry named. */
  function Compared(entries: seq<Dependency>, current: map<string, string>): (seq<Difference>, map<string, string>) {
    if entries == [] then ([], current)
    else
      var (shown, left) := Compared(entries[..|entries| - 1], current);
      var e := entries[|entries| - 1];
      if e.moduleName in left then
        (if left[e.moduleName] != e.version then shown + [Changed(e.moduleName, e.version, left[e.moduleName])]
            else shown,
         left - {e.moduleName})
      else (shown + [OnlyLocked(e.moduleName, e.version)], left)
  }

  /** No entry names the module. */
  ghost predicate Unnamed(entries: seq<Dependency>, m: string) {
    forall e | e in entries :: e.moduleName != m
  }

  /** No two entries name the same module, and each gives the current version of its module. */
  ghost predicate Matching(entries: seq<Dependency>, current: map<string, string>) {
    && (forall i, j | 0 <= i < j < |entries| :: entries[i].moduleName != entries[j].moduleName)
    && (forall e | e in entries :: e.moduleName in current && current[e.moduleName] == e.version)
  }

  /** The entries name each current module once, with its current version, and no other module. */
  ghost predicate Enumerates(entries: seq<Dependency>, current: map<string, string>) {
    Matching(entries, current) && forall m | m in current :: !Unnamed(entries, m)
  }

  lemma MatchingStep(entries: seq<Dependency>, e: Dependency, current: map<string, string>)
    ensures Matching(entries + [e], current)
       <==> Matching(entries, current) && Unnamed(entries, e.moduleName)
            && e.moduleName in current && current[e.moduleName] == e.version
    ensures forall m :: Unnamed(entries + [e], m) <==> Unnamed(entries, m) && e.moduleName != m
  {
    var all := entries + [e];
    assert all[|entries|] == e && forall i | 0 <= i < |entries| :: all[i] == entries[i];
    if Matching(all, current) {
      forall x | x in entries ensures x.moduleName != e.moduleName && x in all {
        var i :| 0 <= i < |entries| && all[i] == x;
      }
    }
  }

  lemma {:induction false} ComparedState(entries: seq<Dependency>, current: map<string, string>)
    ensures forall m :: m in Compared(entries, current).1 <==> m in current && Unnamed(entries, m)
    ensures forall m | m in Compared(entries, current).1 :: Compared(entries, current).1[m] == current[m]
    ensures Compared(entries, current).0 == [] <==> Matching(entries, current)
  {
    hide Matching, Unnamed;
    if entries == [] {
      NothingNamed(current);
    } else {
      var n := |entries| - 1;
      ComparedState(entries[..n], current);
      MatchingStep(entries[..n], entries[n], current);
      assert entries == entries[..n] + [entries[n]];
    }
  }

  lemma NothingNamed(current: map<string, string>)
    ensures Matching([], current) && forall m :: Unnamed([], m)
  {
  }

  /** No difference is found exactly when the lockfile enumerates the current versions. */
  lemma NoDifferenceIff(entries: seq<Dependency>, current: map<string, string>)
    ensures Compared(entries, current) == ([], map[]) <==> Enumerates(entries, current)
  {
    ComparedState(entries, current);
    var (shown, left) := Compared(entries, current);
    assert left == map[] <==> forall m :: m !in left;
  }

  ghost predicate Named(deps: seq<Dependency>, m: string) {
    exists i :: 0 <= i < |deps| && deps[i].moduleName == m
  }

  /** The last of the dependencies that name m gives it version v. */
  ghost predicate IsCurrent(deps: seq<Dependency>, m: string, v: string) {
    exists i :: 0 <= i < |deps| && deps[i].moduleName == m && deps[i].version == v
                && forall j | i < j < |deps| :: deps[j].moduleName != m
  }

  /** The map has exactly the modules that the list names, each with the version that the list gives last. */
  lemma {:induction false} VersionMapIs(deps: seq<Dependency>)
    ensures forall m :: m in VersionMap(deps) <==> Named(deps, m)
    ensures forall m, v :: m in VersionMap(deps) && VersionMap(deps)[m] == v <==> IsCurrent(deps, m, v)
  {
    if deps != [] {
      var n := |deps| - 1;
      VersionMapIs(deps[..n]);
      assert VersionMap(deps) == VersionMap(deps[..n])[deps[n].moduleName := deps[n].version];
      hide VersionMap, IsCurrent;
      forall m, v ensures IsCurrent(deps, m, v)
                     <==> if m == deps[n].moduleName then v == deps[n].version else IsCurrent(deps[..n], m, v)
      {
        CurrentStep(deps, m, v);
      }
      forall m ensures Named(deps, m) <==> m == deps[n].moduleName || Named(deps[..n], m) {
        if i :| 0 <= i < |deps| && deps[i].moduleName == m && i < n {
          assert deps[..n][i].moduleName == m;
        }
        if m == deps[n].moduleName {
          assert deps[n].moduleName == m;
        } else if i :| 0 <= i < n && deps[..n][i].moduleName == m {
          assert deps[i].moduleName == m;
        }
      }
    }
  }

  lemma CurrentStep(deps: seq<Dependency>, m: string, v: string)
    requires deps != []
    ensures var n := |deps| - 1;
            IsCurrent(deps, m, v)
            <==> if m == deps[n].moduleName then v == deps[n].version else IsCurrent(deps[..n], m, v)
  {
    var n := |deps| - 1;
    if i :| 0 <= i < |deps| && deps[i].moduleName == m && deps[i].version == v
            && forall j | i < j < |deps| :: deps[j].moduleName != m
    {
      if i < n {
        assert deps[..n][i].moduleName == m;
      }
    }
    if i :| 0 <= i < n && deps[..n][i].moduleName == m && deps[..n][i].version == v
            && forall j | i < j < n :: deps[..n][j].moduleName != m
    {
      assert deps[i].moduleName == m;
      assert forall j | i < j < n :: deps[j] == deps[..n][j];
    }
  }

  /** The entries name each of the current modules once, with its current version, and no other. */
  ghost predicate UpToDate(entries: seq<Dependency>, current: seq<Dependency>) {
    && (forall i, j | 0 <= i < j < |entries| :: entries[i].moduleName != entries[j].moduleName)
    && (forall e | e in entries :: IsCurrent(current, e.moduleName, e.version))
    && (forall d | d in current :: exists e :: e in entries && e.moduleName == d.moduleName)
  }

  lemma UpToDateIff(entries: seq<Dependency>, current: seq<Dependency>)
    ensures Enumerates(entries, VersionMap(current)) <==> UpToDate(entries, current)
  {
    VersionMapIs(current);
    hide VersionMap, IsCurrent;
    forall d | d in current ensures d.moduleName in VersionMap(current) {
      var i :| 0 <= i < |current| && current[i] == d;
    }
    forall m | m in VersionMap(current) ensures exists d :: d in current && d.moduleName == m {
      var i :| 0 <= i < |current| && current[i].moduleName == m;
      assert current[i] in current;
    }
  }

  /** The first loop of ValidateLockfile. */
  method CurrentVersions(current: seq<Dependency>) returns (currentMap: map<string, string>)
    ensures currentMap == VersionMap(current)
  {
    currentMap := map[];
    for i := 0 to |current|
      invariant currentMap == VersionMap(current[..i])
    {
      assert current[..i + 1][..i] == current[..i];
      currentMap := currentMap[current[i].moduleName := current[i].version];
    }
    assert current[..|current|] == current;
  }

  lemma ComparedMore(entries: seq<Dependency>, i: nat, current: map<string, string>)
    requires i < |entries|
    ensures Compared(entries[..i + 1], current)
         == var (shown, left) := Compared(entries[..i], current);
            var e := entries[i];
            if e.moduleName in left then
              (if left[e.moduleName] != e.version then shown + [Changed(e.moduleName, e.version, left[e.moduleName])]
                  else shown,
               left - {e.moduleName})
            else (shown + [OnlyLocked(e.moduleName, e.version)], left)
  {
    assert entries[..i + 1][..i] == entries[..i];
  }

  lemma ComparedNone(entries: seq<Dependency>, current: map<string, string>)
    ensures Compared(entries[..0], current) == ([], current) && entries[..|entries|] == entries
  {
  }

  /** Its second loop: compares the entries, and leaves the current versions that none of them named. */
  method CompareEntries(entries: seq<Dependency>, current: map<string, string>)
    returns (differences: seq<Difference>, currentMap: map<string, string>)
    ensures (differences, currentMap) == Compared(entries, current)
  {
    hide Compared;
    differences, currentMap := [], current;
    ComparedNone(entries, current);
    for i := 0 to |entries|
      invariant (differences, currentMap) == Compared(entries[..i], current)
    {
      ComparedMore(entries, i, current);
      var dep := entries[i];
      if dep.moduleName in currentMap {
        if currentMap[dep.moduleName] != dep.version {
          differences := differences + [Changed(dep.moduleName, dep.version, currentMap[dep.moduleName])];
        }
        currentMap := currentMap - {dep.moduleName};
      } else {
        differences := differences + [OnlyLocked(dep.moduleName, dep.version)];
      }
    }
  }

  /** What is reported for a difference. */
  function Text(d: Difference): string {
    match d
    case Changed(m, locked, current) => m + ": lockfile has " + locked + ", current has " + current
    case OnlyLocked(m, v) => m + "@" + v + ": in lockfile but not in current dependencies"
    case OnlyCurrent(m, v) => m + "@" + v + ": in current dependencies but not in lockfile"
  }

  function Texts(ds: seq<Difference>): (ts: seq<string>)
    ensures |ts| == |ds| && forall i | 0 <= i < |ds| :: ts[i] == Text(ds[i])
  {
    seq(|ds|, i requires 0 <= i < |ds| => Text(ds[i]))
  }

  /** Where a difference can be: at an entry of the lockfile, or at a module that no entry names. */
  datatype Finding = AtEntry(i: nat) | AtModule(m: string)

  /** What is said there: of an entry that is the first to name its module, that the current version is
      another or that there is none; of a later one, that there is none; of a module that no entry names,
      that it is missing. */
  ghost predicate Says(entries: seq<Dependency>, current: seq<Dependency>, at: Finding, text: string) {
    match at
    case AtEntry(i) =>
      && i < |entries|
      && var e := entries[i];
         if (exists v :: IsCurrent(current, e.moduleName, v))
            && forall j | 0 <= j < i :: entries[j].moduleName != e.moduleName
         then exists v :: IsCurrent(current, e.moduleName, v) && v != e.version
                          && text == e.moduleName + ": lockfile has " + e.version + ", current has " + v
         else text == e.moduleName + "@" + e.version + ": in lockfile but not in current dependencies"
    case AtModule(m) =>
      && (forall e | e in entries :: e.moduleName != m)
      && exists v :: IsCurrent(current, m, v) && text == m + "@" + v + ": in current dependencies but not in lockfile"
  }

  /** The text occurs as often as there is something of which it is said. */
  ghost predicate OccursAsSaid(texts: seq<string>, entries: seq<Dependency>, current: seq<Dependency>, text: string) {
    exists all :: AllSaying(all, entries, current, text) && |all| == multiset(texts)[text]
  }

  ghost predicate AllSaying(all: set<Finding>, entries: seq<Dependency>, current: seq<Dependency>, text: string) {
    forall at :: at in all <==> Says(entries, current, at, text)
  }

  ghost predicate IsReport(texts: seq<string>, entries: seq<Dependency>, current: seq<Dependency>) {
    Ascending(texts) && forall text :: OccursAsSaid(texts, entries, current, text)
  }

  method ValidateLockfile(storage: Storage, lockfile: Lockfile)
    returns (r: Result<(bool, seq<string>), ResolveError>)
    ensures r.Failure? <==> Resolved(storage, RootOf(lockfile)).Failure?
    ensures forall e :: r == Failure(e) <==> Unresolvable(storage, RootOf(lockfile), e)
    ensures r.Success? ==>
              var current := Resolved(storage, RootOf(lockfile)).value;
              && (r.value.0 <==> UpToDate(lockfile.dependencies, current))
              && (r.value.0 <==> r.value.1 == [])
              && IsReport(r.value.1, lockfile.dependencies, current)
  {
    hide Resolved, VersionMap, Compared, Enumerates, UpToDate, Distinct;
    hide ReportsLeft, Ascending, Text, Texts, OccursAsSaid;
    hide Unresolvable;
    var resolved := ResolveDependencies(storage, lockfile.moduleName, lockfile.version);
    FailsIff(storage, RootOf(lockfile));
    if resolved.Failure? {
      return Failure(resolved.error);
    }
    var currentMap := CurrentVersions(resolved.value);
    var differences, left := CompareEntries(lockfile.dependencies, currentMap);
    NoDifferenceIff(lockfile.dependencies, currentMap);
    UpToDateIff(lockfile.dependencies, resolved.value);
    var rest := ReportLeft(left);
    NoneLeftIff(rest, left);
    var sorted := SortStrings(Texts(differences + rest));
    assert |multiset(sorted)| == |sorted| && |multiset(Texts(differences + rest))| == |Texts(differences + rest)|;
    ReportOccurs(lockfile.dependencies, resolved.value, rest, sorted);
    return Success((sorted == [], sorted));
  }

  lemma NoneLeftIff(reports: seq<Difference>, left: map<string, string>)
    requires ReportsLeft(reports, left)
    ensures reports == [] <==> left == map[]
  {
  }

  lemma ReportOccurs(entries: seq<Dependency>, current: seq<Dependency>, rest: seq<Difference>, texts: seq<string>)
    requires var (shown, left) := Compared(entries, VersionMap(current));
             ReportsLeft(rest, left) && multiset(texts) == multiset(Texts(shown + rest))
    ensures forall text :: OccursAsSaid(texts, entries, current, text)
  {
    hide Compared, VersionMap, ReportsLeft, Says, Texts, EntriesSaying, ModulesSaying;
    var m := VersionMap(current);
    var (shown, left) := Compared(entries, m);
    forall text ensures OccursAsSaid(texts, entries, current, text) {
      TextsJoin(shown, rest);
      ShownCount(entries, m, text);
      LeftCount(rest, left, text);
      var e, l := EntriesSaying(entries, m, text), ModulesSaying(left, text);
      FindingsCount(e, l);
      var all := Findings(e, l);
      forall at ensures at in all <==> Says(entries, current, at, text) {
        SaidThere(entries, current, at, text);
      }
      hide Findings;
      assert AllSaying(all, entries, current, text);
      assert OccursAsSaid(texts, entries, current, text);
    }
  }

  function Findings(e: set<nat>, l: set<string>): (all: set<Finding>)
    ensures forall at :: at in all <==> match at case AtEntry(i) => i in e case AtModule(k) => k in l
  {
    (set i | i in e :: AtEntry(i)) + (set k | k in l :: AtModule(k))
  }

  lemma FindingsCount(e: set<nat>, l: set<string>)
    ensures |Findings(e, l)| == |e| + |l|
  {
    var a, b := set i | i in e :: AtEntry(i), set k | k in l :: AtModule(k);
    ImageSize(e, (i: nat) => AtEntry(i), a);
    ImageSize(l, (k: string) => AtModule(k), b);
    DisjointSize(a, b);
  }

  lemma TextsJoin(a: seq<Difference>, b: seq<Difference>)
    ensures multiset(Texts(a + b)) == multiset(Texts(a)) + multiset(Texts(b))
  {
    assert Texts(a + b) == Texts(a) + Texts(b);
  }

  /** The differences that the comparison finds at entry i. */
  function FoundAt(entries: seq<Dependency>, current: map<string, string>, i: nat): seq<Difference>
    requires i < |entries|
  {
    var e := entries[i];
    if e.moduleName !in current || exists j :: 0 <= j < i && entries[j].moduleName == e.moduleName
    then [OnlyLocked(e.moduleName, e.version)]
    else if current[e.moduleName] != e.version then [Changed(e.moduleName, e.version, current[e.moduleName])]
    else []
  }

  function EntriesSaying(entries: seq<Dependency>, current: map<string, string>, text: string): (at: set<nat>)
    ensures forall i | i in at :: i < |entries|
  {
    if entries == [] then {}
    else
      var n := |entries| - 1;
      EntriesSaying(entries[..n], current, text) + if text in Texts(FoundAt(entries, current, n)) then {n} else {}
  }

  lemma {:induction false} EntriesSayingIs(entries: seq<Dependency>, current: map<string, string>, text: string, i: nat)
    requires i < |entries|
    ensures i in EntriesSaying(entries, current, text) <==> text in Texts(FoundAt(entries, current, i))
  {
    hide FoundAt, Texts;
    var n := |entries| - 1;
    if i < n {
      EntriesSayingIs(entries[..n], current, text, i);
      FoundInPrefix(entries, current, n, i);
    }
  }

  lemma {:induction false} ShownCount(entries: seq<Dependency>, current: map<string, string>, text: string)
    ensures multiset(Texts(Compared(entries, current).0))[text] == |EntriesSaying(entries, current, text)|
  {
    if entries == [] {
      assert EntriesSaying(entries, current, text) == {};
    } else {
      var n := |entries| - 1;
      ShownCount(entries[..n], current, text);
      ShownStep(entries, current);
      TextsJoin(Compared(entries[..n], current).0, FoundAt(entries, current, n));
      AtMostOnce(Texts(FoundAt(entries, current, n)), text);
      hide Compared, FoundAt, Text, Texts;
    }
  }

  lemma ShownStep(entries: seq<Dependency>, current: map<string, string>)
    requires entries != []
    ensures Compared(entries, current).0
         == Compared(entries[..|entries| - 1], current).0 + FoundAt(entries, current, |entries| - 1)
  {
    var n := |entries| - 1;
    ComparedState(entries[..n], current);
    assert Unnamed(entries[..n], entries[n].moduleName)
      <==> !exists j :: 0 <= j < n && entries[j].moduleName == entries[n].moduleName by {
      if j :| 0 <= j < n && entries[j].moduleName == entries[n].moduleName {
        assert entries[j] in entries[..n];
      }
    }
    hide Unnamed, Matching;
  }

  lemma FoundInPrefix(entries: seq<Dependency>, current: map<string, string>, n: nat, i: nat)
    requires i < n <= |entries|
    ensures FoundAt(entries[..n], current, i) == FoundAt(entries, current, i)
  {
    assert forall j | 0 <= j < i :: entries[..n][j] == entries[j];
  }

  function ModulesSaying(left: map<string, string>, text: string): set<string> {
    set m | m in left && Text(OnlyCurrent(m, left[m])) == text
  }

  lemma LeftCount(rest: seq<Difference>, left: map<string, string>, text: string)
    requires ReportsLeft(rest, left)
    ensures multiset(Texts(rest))[text] == |ModulesSaying(left, text)|
  {
    hide Text;
    var saying := set x | x in rest && Text(x) == text;
    ImagesCount(rest, Texts(rest), (x: Difference) => Text(x), text, saying);
    forall m ensures m in ModulesSaying(left, text) <==> exists x :: x in saying && x.moduleName == m {
      if m in ModulesSaying(left, text) {
        assert OnlyCurrent(m, left[m]) in saying;
      }
    }
    ImageSize(saying, (x: Difference) => x.moduleName, ModulesSaying(left, text));
  }

  lemma SaidThere(entries: seq<Dependency>, current: seq<Dependency>, at: Finding, text: string)
    ensures var m := VersionMap(current);
            Says(entries, current, at, text)
            <==> match at
                 case AtEntry(i) => i in EntriesSaying(entries, m, text)
                 case AtModule(k) => k in ModulesSaying(Compared(entries, m).1, text)
  {
    var m := VersionMap(current);
    VersionMapIs(current);
    match at {
      case AtEntry(i) =>
        if i < |entries| {
          SaidAtEntry(entries, current, m, i, text);
        }
      case AtModule(k) =>
        ComparedState(entries, m);
        hide VersionMap, IsCurrent, Compared, Matching;
        assert k in m ==> IsCurrent(current, k, m[k]);
    }
  }

  lemma SaidAtEntry(entries: seq<Dependency>, current: seq<Dependency>, m: map<string, string>, i: nat, text: string)
    requires i < |entries| && forall k, v :: k in m && m[k] == v <==> IsCurrent(current, k, v)
    ensures Says(entries, current, AtEntry(i), text) <==> i in EntriesSaying(entries, m, text)
  {
    hide IsCurrent, EntriesSaying;
    EntriesSayingIs(entries, m, text, i);
    var e, found := entries[i], FoundAt(entries, m, i);
    if e.moduleName in m {
      assert IsCurrent(current, e.moduleName, m[e.moduleName]);
    }
    assert e.moduleName in m <==> exists v :: IsCurrent(current, e.moduleName, v);
    assert text in Texts(found) <==> found != [] && text == Text(found[0]);
  }

  /** The report is determined, whatever the order in which the map of current versions is traversed. */
  lemma ReportIsDetermined(t: seq<string>, u: seq<string>, entries: seq<Dependency>, current: seq<Dependency>)
    requires IsReport(t, entries, current) && IsReport(u, entries, current)
    ensures t == u
  {
    hide Ascending, Says;
    forall text ensures multiset(t)[text] == multiset(u)[text] {
      assert OccursAsSaid(t, entries, current, text) && OccursAsSaid(u, entries, current, text);
      var a :| AllSaying(a, entries, current, text) && |a| == multiset(t)[text];
      var b :| AllSaying(b, entries, current, text) && |b| == multiset(u)[text];
      assert a == b;
    }
    AscendingIsUnique(t, u);
  }

  /** One report for each current version that no entry named, in any order. */
  ghost predicate ReportsLeft(reports: seq<Difference>, left: map<string, string>) {
    && Distinct(reports) && (left == map[] <==> reports == [])
    && forall x :: x in reports <==> x.OnlyCurrent? && x.moduleName in left && left[x.moduleName] == x.version
  }

  method ReportLeft(left: map<string, string>) returns (reports: seq<Difference>)
    ensures ReportsLeft(reports, left)
  {
    reports := [];
    if left == map[] {
      return;
    }
    var todo := left.Keys;
    while todo != {}
      invariant todo <= left.Keys && Distinct(reports)
      invariant forall x :: x in reports
                            <==> x.OnlyCurrent? && x.moduleName in left.Keys - todo && left[x.moduleName] == x.version
    {
      var m :| m in todo;
      todo := todo - {m};
      reports := reports + [OnlyCurrent(m, left[m])];
    }
    var m :| m in left;
    assert OnlyCurrent(m, left[m]) in reports;
  }

  /** A generated lockfile lists its own root, so it never validates against the storage it came from. */
  lemma GeneratedNeverValidates(storage: Storage, lockfile: Lockfile)
    requires Resolved(storage, RootOf(lockfile)).Success?
    requires Locks(storage, RootOf(lockfile), lockfile.dependencies)
    ensures !UpToDate(lockfile.dependencies, Resolved(storage, RootOf(lockfile)).value)
  {
    var root, deps, entries := RootOf(lockfile), Resolved(storage, RootOf(lockfile)).value, lockfile.dependencies;
    hide Resolved, Reaches;
    if UpToDate(entries, deps) {
      assert Entry(root) in entries;
      assert IsCurrent(deps, root.moduleName, root.version);
      LockedRootIsNoCycle(storage, root, entries);
      RootDependsOnItself(storage, root, deps);
    }
  }

  lemma LastIsNotBefore<T>(s: seq<T>)
    requires Distinct(s) && s != []
    ensures s[|s| - 1] !in s[..|s| - 1]
  {
  }

  lemma LockedRootIsNoCycle(storage: Storage, root: Coordinate, entries: seq<Dependency>)
    requires Locks(storage, root, entries)
    ensures !Edge(StoreGraph(storage), root, root)
  {
    LastIsNotBefore(entries);
    assert CoordinateOf(entries[|entries| - 1]) == root;
    hide Distinct, StoreGraph, Reaches, Edge;
  }

  lemma RootDependsOnItself(storage: Storage, root: Coordinate, deps: seq<Dependency>)
    requires Resolved(storage, root) == Success(deps)
    requires exists d :: d in deps && d.moduleName == root.moduleName && d.version == root.version
    ensures Edge(StoreGraph(storage), root, root)
  {
    var d :| d in deps && d.moduleName == root.moduleName && d.version == root.version;
    assert CoordinateOf(d) == root;
  }

  // ---- a root that shares its key

  const AMBIGUOUS := Coordinate("a@b", "c")

  const NAMESAKE := Coordinate("a", "b@c")

  const SHARING: Storage := map[AMBIGUOUS := Imports(["a@b@c"]), NAMESAKE := NoFiles]

  lemma SharingKeys()
    ensures ModuleVersionKey("a", "b@c") == "a@b@c" == ModuleVersionKey("a@b", "c")
    ensures NAMESAKE != AMBIGUOUS
  {
    assert |"a"| != |"a@b"|;
  }

  lemma SharingParses()
    ensures Parsed("a@b@c") == ("a", "b@c")
  {
    hide Parsed, ModuleVersionKey;
    SharingKeys();
    ParseInvertsKey("a", "b@c");
  }

  lemma OneImport(path: string)
    requires Parsed(path).0 != ""
    ensures DirectDependencies([path]) == [Dependency(Parsed(path).0, Parsed(path).1, Direct)]
  {
    hide Parsed, ModuleVersionKey;
    NoKeys();
    DirectNone();
    DirectStep([path], 0);
    assert [path][..0] == [] && [path][..1] == [path];
  }

  lemma SharingResolves()
    ensures Resolved(SHARING, AMBIGUOUS) == Success([Entry(NAMESAKE)]) && Resolved(SHARING, NAMESAKE) == Success([])
    ensures KeyAt(AMBIGUOUS) == KeyAt(NAMESAKE) && NAMESAKE != AMBIGUOUS
  {
    hide Parsed, ModuleVersionKey, DirectDependencies;
    SharingKeys();
    SharingParses();
    OneImport("a@b@c");
    assert SHARING[AMBIGUOUS] == Imports(["a@b@c"]) && SHARING[NAMESAKE] == NoFiles;
  }

  /** A root with an '@' in its module name that imports the module its key can also be read as:
      everything resolves and nothing is circular, and yet there is no lockfile.  The import path holds
      an '@', so that the parser never yields it. */
  lemma SharedRootIsNotLocked()
    ensures AllResolve(SHARING, AMBIGUOUS) && !CycleReachable(StoreGraph(SHARING), AMBIGUOUS)
    ensures !RootKeyUnshared(SHARING, AMBIGUOUS) && !Lockable(SHARING, AMBIGUOUS)
  {
    SharingResolves();
    hide Resolved, Reaches, ReachesPlus, CycleReachable, ModuleVersionKey;
    var g, order := StoreGraph(SHARING), [NAMESAKE, AMBIGUOUS];
    assert Edge(g, AMBIGUOUS, NAMESAKE) by {
      assert CoordinateOf(Entry(NAMESAKE)) == NAMESAKE && Entry(NAMESAKE) in Resolved(SHARING, AMBIGUOUS).value;
    }
    assert SuccessorsFirst(g, order) by {
      assert order[..0] == [] && order[..1] == [NAMESAKE];
      assert forall c :: !Edge(g, NAMESAKE, c);
      assert forall c | Edge(g, AMBIGUOUS, c) :: c == NAMESAKE;
    }
    assert order[0] == NAMESAKE && order[1] == AMBIGUOUS;
    SuccessorsFirstAcyclic(g, order, AMBIGUOUS);
    ReachesSelf(g, NAMESAKE);
    EdgeThenReaches(g, AMBIGUOUS, NAMESAKE, NAMESAKE);
  }
}
