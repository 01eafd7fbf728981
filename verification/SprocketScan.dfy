// scanExistingModules of cmd/sprocket/main.go, which runs once when the program starts: it enters
// every stored module into the graph and queues those that nothing depends on.  The directories are
// given as a list; the clock is read once.
module SprocketScan {
  import opened Wrappers
  import opened Reachability
  import opened DependencyGraphs
  import opened SprocketGraphs
  import opened SprocketLaws
  import opened SprocketDependents
  import opened SprocketCompilers
  import opened SprocketRuns
  import opened SprocketDrain

  /** A version directory; dependencies is None where its version file cannot be read or parsed. */
  datatype VersionEntry = VersionEntry(moduleName: string, version: string, dependencies: Option<seq<string>>)

  function EntryKey(e: VersionEntry): string {
    ModuleVersionKey(e.moduleName, e.version)
  }

  function Readable(entries: seq<VersionEntry>): seq<Addition> {
    if entries == [] then []
    else
      var e := entries[|entries| - 1];
      Readable(entries[..|entries| - 1])
      + (match e.dependencies case Some(deps) => [Addition(e.moduleName, e.version, deps)] case None => [])
  }

  /** The keys of entries that nothing in the graph depends on. */
  ghost function Leaves(entries: seq<VersionEntry>, g: View): (ks: set<string>)
    ensures forall k :: k in ks <==> exists e :: e in entries && EntryKey(e) == k && Tree(g, k) == {}
  {
    set e | e in entries && Tree(g, EntryKey(e)) == {} :: EntryKey(e)
  }

  /** Requests for the keys, one after the other, each half a second more overdue. */
  function Staggered(delay: int, q: Queue, processed: map<string, int>, keys: seq<string>, now: int): Queue
    requires forall k | k in keys :: WellFormed(k)
  {
    if keys == [] then q
    else
      var n := |keys| - 1;
      assert keys[n] in keys && WellFormed(keys[n]);
      var parts := ParseDependencyKey(keys[n]);
      var before := Staggered(delay, q, processed, keys[..n], now);
      Requested(delay, before, processed, parts[0], parts[1], n * HALF_A_SECOND, now)
  }

  lemma StaggeredMore(delay: int, q: Queue, processed: map<string, int>, keys: seq<string>, k: string, now: int)
    requires WellFormed(k) && forall x | x in keys :: WellFormed(x)
    ensures forall x | x in keys + [k] :: WellFormed(x)
    ensures Staggered(delay, q, processed, keys + [k], now)
         == Requested(delay, Staggered(delay, q, processed, keys, now), processed,
                      ParseDependencyKey(k)[0], ParseDependencyKey(k)[1], |keys| * HALF_A_SECOND, now)
  {
    assert (keys + [k])[..|keys|] == keys;
    hide WellFormed, ParseDependencyKey, Requested;
  }

  lemma RequestedAnew(delay: int, q: Queue, k: string, additional: int, now: int)
    requires WellFormed(k) && k !in q
    ensures var parts := ParseDependencyKey(k);
            var r := CompilationRequest(parts[0], parts[1], now - additional);
            RequestKey(r) == k && Requested(delay, q, map[], parts[0], parts[1], additional, now) == q[k := r]
  {
    hide ModuleVersionKey, ParseDependencyKey;
    ParsedKeyRebuilds(k);
  }

  /** On a fresh queue the i-th of the keys is dated i half seconds back, and nothing else is queued. */
  lemma {:induction false} StaggeredTimes(delay: int, order: seq<string>, now: int, i: nat)
    requires Distinct(order) && i < |order| && forall k | k in order :: WellFormed(k)
    ensures var q := Staggered(delay, map[], map[], order, now);
            && q.Keys == Members(order) && q[order[i]].timestamp == now - i * 500_000_000
            && RequestKey(q[order[i]]) == order[i]
  {
    hide WellFormed, RequestKey, Requested, ParseDependencyKey;
    var n := |order| - 1;
    var before, k := order[..n], order[n];
    assert order == before + [k] && k !in before && k in order && WellFormed(k);
    StaggeredMore(delay, map[], map[], before, k, now);
    hide Staggered;
    if n == 0 {
      StaggeredNone(delay, map[], map[], now);
    } else {
      StaggeredTimes(delay, before, now, if i < n then i else 0);
    }
    hide Distinct;
    RequestedAnew(delay, Staggered(delay, map[], map[], before, now), k, n * HALF_A_SECOND, now);
  }

  lemma ReadableMore(entries: seq<VersionEntry>, i: nat)
    requires i < |entries|
    ensures Readable(entries[..i + 1])
         == Readable(entries[..i])
            + (match entries[i].dependencies
               case Some(deps) => [Addition(entries[i].moduleName, entries[i].version, deps)]
               case None => [])
  {
    assert entries[..i + 1][..i] == entries[..i];
  }

  /** The first loop of the scan. */
  method EnterAll(entries: seq<VersionEntry>, graph: SprocketGraph)
    requires graph.Valid()
    modifies graph, graph.nodes.Values
    ensures graph.Valid() && fresh(graph.nodes.Values - old(graph.nodes.Values))
    ensures graph.View() == AddedAll(old(graph.View()), Readable(entries))
  {
    hide AddedNode, Readable;
    ghost var g := graph.View();
    assert Readable(entries[..0]) == [] by {
      NothingReadable(entries);
    }
    for i := 0 to |entries|
      invariant graph.Valid() && fresh(graph.nodes.Values - old(graph.nodes.Values))
      invariant graph.View() == AddedAll(g, Readable(entries[..i]))
    {
      ReadableMore(entries, i);
      var e := entries[i];
      if e.dependencies.Some? {
        AddedAllMore(g, Readable(entries[..i]), Addition(e.moduleName, e.version, e.dependencies.value));
        graph.AddNode(e.moduleName, e.version, e.dependencies.value);
      } else {
        assert Readable(entries[..i]) + [] == Readable(entries[..i]);
      }
    }
    assert entries[..|entries|] == entries;
  }

  lemma NothingReadable(entries: seq<VersionEntry>)
    ensures Readable(entries[..0]) == []
  {
  }

  /** The second loop: the keys without dependents. */
  method FindLeaves(entries: seq<VersionEntry>, graph: SprocketGraph) returns (leaves: set<string>)
    requires graph.Valid()
    ensures leaves == Leaves(entries, graph.View())
  {
    hide Leaves, Tree, ModuleVersionKey;
    leaves := {};
    ghost var g := graph.View();
    LeavesNone(entries, g);
    for i := 0 to |entries|
      invariant leaves == Leaves(entries[..i], g)
    {
      var e := entries[i];
      var dependents := GetDependentsTree(graph, e.moduleName, e.version);
      LeavesMore(entries, i, g);
      NoneListed(dependents, Tree(g, EntryKey(e)));
      if |dependents| == 0 {
        leaves := leaves + {ModuleVersionKey(e.moduleName, e.version)};
      }
    }
  }

  lemma LeavesNone(entries: seq<VersionEntry>, g: View)
    ensures Leaves(entries[..0], g) == {} && entries[..|entries|] == entries
  {
  }

  lemma LeavesMore(entries: seq<VersionEntry>, i: nat, g: View)
    requires i < |entries|
    ensures Leaves(entries[..i + 1], g)
         == Leaves(entries[..i], g) + if Tree(g, EntryKey(entries[i])) == {} then {EntryKey(entries[i])} else {}
  {
    hide Tree, EntryKey;
    assert entries[..i + 1] == entries[..i] + [entries[i]];
  }

  lemma NoneListed(dependents: seq<string>, tree: set<string>)
    requires forall k :: k in dependents <==> k in tree
    ensures dependents == [] <==> tree == {}
  {
    if dependents != [] {
      assert dependents[0] in tree;
    }
  }

  /** The last loop: queues the leaves whose keys split in two, in any order. */
  method QueueLeaves(compiler: Compiler, leaves: set<string>, now: int) returns (ghost order: seq<string>)
    requires compiler.Valid()
    modifies compiler`queue
    ensures compiler.Valid()
    ensures Distinct(order) && forall k :: k in order <==> k in leaves && WellFormed(k)
    ensures compiler.queue == Staggered(compiler.delay, old(compiler.queue), compiler.processedSet, order, now)
  {
    hide Staggered, Requested, Distinct;
    order := [];
    ghost var q := compiler.queue;
    StaggeredNone(compiler.delay, q, compiler.processedSet, now);
    DistinctNone();
    var todo, i := leaves, 0;
    while todo != {}
      invariant todo <= leaves && i == |order| && compiler.Valid() && Distinct(order)
      invariant forall k :: k in order <==> k in leaves - todo && WellFormed(k)
      invariant compiler.queue == Staggered(compiler.delay, q, compiler.processedSet, order, now)
    {
      var key :| key in todo;
      todo := todo - {key};
      var parts := SplitKey(key);
      if |parts| == 2 {
        StaggeredMore(compiler.delay, q, compiler.processedSet, order, key, now);
        compiler.QueueRecompilationWithDelay(parts[0], parts[1], i * HALF_A_SECOND, now);
        i := i + 1;
        DistinctMore(order, key);
        order := order + [key];
      }
    }
  }

  /** The key split at every '@'; a leaf's key has at least one. */
  method SplitKey(key: string) returns (parts: seq<string>)
    ensures |parts| == 2 <==> WellFormed(key)
    ensures WellFormed(key) ==> parts == ParseDependencyKey(key)
  {
    hide Pieces;
    parts := Pieces(key);
    assert '@' !in "latest";
    PieceCount("latest");
  }

  lemma StaggeredNone(delay: int, q: Queue, processed: map<string, int>, now: int)
    ensures Staggered(delay, q, processed, [], now) == q
  {
  }

  lemma DistinctNone()
    ensures Distinct<string>([])
  {
  }

  lemma DistinctMore(keys: seq<string>, k: string)
    requires Distinct(keys) && k !in keys
    ensures Distinct(keys + [k])
  {
  }

  /** The scan: the whole new graph, and requests for exactly the leaves whose keys split in two. */
  method ScanExistingModules(entries: seq<VersionEntry>, compiler: Compiler, now: int)
    returns (ghost order: seq<string>)
    requires compiler.Valid()
    modifies compiler`queue, compiler.graph, compiler.graph.nodes.Values
    ensures compiler.Valid() && compiler.graph.View() == AddedAll(old(compiler.graph.View()), Readable(entries))
    ensures Distinct(order) && forall k :: k in order <==> k in Leaves(entries, compiler.graph.View()) && WellFormed(k)
    ensures compiler.queue == Staggered(compiler.delay, old(compiler.queue), compiler.processedSet, order, now)
  {
    hide Staggered, AddedAll, Leaves, Distinct, FiledByKey;
    EnterAll(entries, compiler.graph);
    var leaves := FindLeaves(entries, compiler.graph);
    order := QueueLeaves(compiler, leaves, now);
  }

  // ---- what the scan leads to

  /** The scan could read every stored module. */
  ghost predicate Scans(storage: ModuleStore, adds: seq<Addition>) {
    && PlainNames(adds) && FromStorage(storage, adds)
    && forall p | p in storage :: exists a :: a in adds && (a.moduleName, a.version) == p
  }

  /** The directories hold the storage: every stored module has an entry that could be read, and what
      could be read is what is stored. */
  ghost predicate ListsStorage(entries: seq<VersionEntry>, storage: ModuleStore) {
    && (forall e | e in entries && e.dependencies.Some? ::
          && '@' !in e.moduleName && '@' !in e.version && (e.moduleName, e.version) in storage
          && storage[(e.moduleName, e.version)] == e.dependencies.value)
    && (forall p | p in storage ::
          exists e :: e in entries && (e.moduleName, e.version) == p && e.dependencies.Some?)
  }

  lemma {:induction false} ReadableIs(entries: seq<VersionEntry>)
    ensures forall a :: a in Readable(entries) <==> EntryOf(a) in entries
  {
    if entries != [] {
      var n := |entries| - 1;
      assert entries == entries[..n] + [entries[n]];
      ReadableIs(entries[..n]);
      ReadableMore(entries, n);
      assert entries[..n + 1] == entries;
      hide Readable;
      forall a ensures a in Readable(entries) <==> EntryOf(a) in entries {
      }
    }
  }

  function EntryOf(a: Addition): VersionEntry {
    VersionEntry(a.moduleName, a.version, Some(a.dependencies))
  }

  /** Then the scan enters every stored module. */
  lemma ReadableScans(entries: seq<VersionEntry>, storage: ModuleStore)
    requires ListsStorage(entries, storage)
    ensures Scans(storage, Readable(entries))
  {
    ReadableIs(entries);
    hide Readable;
    forall p | p in storage ensures exists a :: a in Readable(entries) && (a.moduleName, a.version) == p {
      var e :| e in entries && (e.moduleName, e.version) == p && e.dependencies.Some?;
      var a := Addition(e.moduleName, e.version, e.dependencies.value);
      assert EntryOf(a) == e && a in Readable(entries);
    }
  }

  ghost predicate Leaf(g: View, k: string) {
    Tree(g, k) == {}
  }

  lemma {:induction false} ScannedModule(storage: ModuleStore, adds: seq<Addition>, a: Addition)
    requires PlainNames(adds) && FromStorage(storage, adds) && a in adds
    ensures var k, g := ModuleVersionKey(a.moduleName, a.version), BuiltBy(adds);
            k in g && g[k].dependencies == Members(a.dependencies)
  {
    hide AddedNode, WellFormed, ModuleVersionKey;
    var n := |adds| - 1;
    var b, g := adds[n], BuiltBy(adds[..n]);
    assert b in adds && forall x | x in adds[..n] :: x in adds;
    assert BuiltBy(adds) == AddedNode(g, b.moduleName, b.version, b.dependencies);
    hide AddedAll, BuiltBy;
    AddedNodeIs(g, b.moduleName, b.version, b.dependencies);
    if (a.moduleName, a.version) == (b.moduleName, b.version) {
      assert a.dependencies == b.dependencies;
    } else {
      PlainKeysDiffer(a, b);
      assert a in adds[..n];
      ScannedModule(storage, adds[..n], a);
    }
  }

  lemma PlainKeysDiffer(a: Addition, b: Addition)
    requires PlainNames([a, b]) && (a.moduleName, a.version) != (b.moduleName, b.version)
    ensures ModuleVersionKey(a.moduleName, a.version) != ModuleVersionKey(b.moduleName, b.version)
  {
    assert a in [a, b] && b in [a, b];
    PlainNamesParse(a.moduleName, a.version);
    PlainNamesParse(b.moduleName, b.version);
  }

  lemma StoredIsScanned(storage: ModuleStore, adds: seq<Addition>, k: string)
    requires Scans(storage, adds) && Stored(storage, k)
    ensures k in BuiltBy(adds) && BuiltBy(adds)[k].dependencies == StoredDependencies(storage, k)
  {
    hide BuiltBy, ParseDependencyKey, ModuleVersionKey;
    var a :| a in adds && (a.moduleName, a.version) == PairOf(k);
    ParsedKeyRebuilds(k);
    ScannedModule(storage, adds, a);
  }

  lemma AgreeingAddChangesNothing(g: View, m: string, v: string, deps: seq<string>)
    requires DependentsInverse(g) && DependenciesPresent(g)
    requires ModuleVersionKey(m, v) in g && g[ModuleVersionKey(m, v)].dependencies == Members(deps)
    ensures AddedNode(g, m, v, deps) == g
  {
    var key, r := ModuleVersionKey(m, v), AddedNode(g, m, v, deps);
    AddedNodeIs(g, m, v, deps);
    AddedNodeNames(g, m, v, deps);
    hide AddedNode, WellFormed, ModuleVersionKey;
    assert r.Keys == g.Keys;
    forall n | n in g ensures r[n] == g[n] {
      assert key in g[n].dependents <==> n in DependenciesIn(g, key);
      assert r[n].dependents == g[n].dependents;
    }
  }

  /** The graph is still that of the scan, and only leaves are pending or have been compiled. */
  ghost predicate OnlyLeaves(storage: ModuleStore, g: View, s: State) {
    && Orderly(s) && s.graph == g
    && (forall k | Pending(s, k) :: Leaf(g, k))
    && (forall k | k in s.log :: Leaf(g, k) && Stored(storage, k))
  }

  /** The compile of a leaf leaves the graph as it is and queues nothing. */
  lemma LeafCompile(delay: int, storage: ModuleStore, adds: seq<Addition>, s: State, found: Option<seq<string>>,
                    now: int)
    requires Scans(storage, adds) && Regular(s) && s.graph == BuiltBy(adds) && s.batch != []
    requires Leaf(s.graph, RequestKey(s.batch[0])) && found == Found(storage, s.batch[0])
    ensures var s' := Compiled(delay, s, found, now);
            s'.graph == s.graph && s'.queue == s.queue
    ensures found.Some? ==> Stored(storage, RequestKey(s.batch[0]))
  {
    hide Regular, Scans, BuiltBy, Stored, AddedNode, Requeued, Tree;
    HeadIsPlain(storage, s);
    if found.Some? {
      CompileAddsNothing(storage, adds, s);
      assert Tree(s.graph, RequestKey(s.batch[0])) == {};
      NothingRequeued(delay, s.queue, now);
    }
    hide RequestKey;
  }

  lemma NothingRequeued(delay: int, q: Queue, now: int)
    ensures Requeued(delay, q, {}, now) == q
  {
  }

  lemma CompiledIs(delay: int, s: State, found: Option<seq<string>>, now: int)
    requires s.batch != []
    ensures var r, s' := s.batch[0], Compiled(delay, s, found, now);
            match found
            case None => s'.graph == s.graph && s'.log == s.log
            case Some(deps) =>
              s'.graph == AddedNode(s.graph, r.moduleName, r.version, deps) && s'.log == s.log + [RequestKey(r)]
  {
    hide AddedNode, Requeued, Tree, RequestKey;
  }

  lemma CompileAddsNothing(storage: ModuleStore, adds: seq<Addition>, s: State)
    requires Scans(storage, adds) && Regular(s) && s.graph == BuiltBy(adds)
    requires s.batch != [] && Stored(storage, RequestKey(s.batch[0]))
    ensures var r, found := s.batch[0], Found(storage, s.batch[0]);
            found.Some? && AddedNode(s.graph, r.moduleName, r.version, found.value) == s.graph
  {
    HeadIsPlain(storage, s);
    hide BuiltBy, Scans, AddedNode, Stored, StoredDependencies, WellFormed, PlainQueue, ModuleVersionKey;
    var r := s.batch[0];
    StoredIsScanned(storage, adds, RequestKey(r));
    AgreeingAddChangesNothing(s.graph, r.moduleName, r.version, Found(storage, r).value);
  }

  lemma OnlyLeavesCompile(delay: int, storage: ModuleStore, adds: seq<Addition>, s: State, now: int)
    requires Scans(storage, adds) && OnlyLeaves(storage, BuiltBy(adds), s) && s.batch != [] && s.now <= now
    ensures OnlyLeaves(storage, BuiltBy(adds), Compiled(delay, s, Found(storage, s.batch[0]), now))
  {
    hide Leaf, Stored, RequestKey, RequestKeys, Compiled, Regular, Distinct, Scans, BuiltBy, Found;
    var found := Found(storage, s.batch[0]);
    var x, s' := RequestKey(s.batch[0]), Compiled(delay, s, found, now);
    HeadOfBatch(s);
    LeafCompile(delay, storage, adds, s, found, now);
    CompiledIs(delay, s, found, now);
    CompileShape(delay, storage, s, now);
    PendingShrinks(s, s', x);
  }

  lemma PendingShrinks(s: State, s': State, x: string)
    requires s'.queue.Keys == s.queue.Keys
    requires Members(RequestKeys(s.batch)) == Members(RequestKeys(s'.batch)) + {x}
    ensures forall k | Pending(s', k) :: Pending(s, k)
  {
    forall k | Pending(s', k) ensures Pending(s, k) {
      assert k in RequestKeys(s'.batch) <==> k in Members(RequestKeys(s'.batch));
      assert k in s'.queue <==> k in s.queue.Keys;
    }
  }

  ghost predicate LeafRequest(g: View, step: Step) {
    step.Request? ==> Leaf(g, ModuleVersionKey(step.moduleName, step.version))
  }

  lemma RequestPends(delay: int, s: State, m: string, v: string, additional: int, now: int, s': State)
    requires Next(delay, s, Request(m, v, additional, now), s')
    ensures s'.graph == s.graph && s'.log == s.log
    ensures forall k | Pending(s', k) :: Pending(s, k) || k == ModuleVersionKey(m, v)
  {
    hide ModuleVersionKey, RecentlyProcessed;
  }

  lemma OnlyLeavesStep(delay: int, storage: ModuleStore, adds: seq<Addition>,
                       s: State, step: Step, s': State)
    requires Scans(storage, adds) && OnlyLeaves(storage, BuiltBy(adds), s)
    requires Next(delay, s, step, s') && Fixed(storage, s, step) && PlainStep(step)
    requires LeafRequest(BuiltBy(adds), step)
    ensures OnlyLeaves(storage, BuiltBy(adds), s')
  {
    hide Stored, Pending, Compiled, IsBatch, Orderly, Leaf, Scans, BuiltBy;
    OrderlyStep(delay, s, step, s');
    match step {
      case Request(m, v, additional, now) => RequestPends(delay, s, m, v, additional, now, s');
      case CompileNext(found, now) => OnlyLeavesCompile(delay, storage, adds, s, now);
      case Take(batch, now) => TakeKeepsPending(delay, s, batch, now, s');
      case Clean(now) => CleanKeepsPending(s, s');
    }
  }

  lemma CleanKeepsPending(s: State, s': State)
    requires s'.queue == s.queue && s'.batch == s.batch
    ensures forall k :: Pending(s', k) <==> Pending(s, k)
  {
  }

  /** A run after the scan, with a fixed storage and no requests but those for the leaves. */
  ghost predicate StartUp(delay: int, storage: ModuleStore, adds: seq<Addition>, states: seq<State>, steps: seq<Step>)
  {
    && PlainRun(delay, adds, states, steps) && Scans(storage, adds)
    && forall j | 0 <= j < |steps| :: Fixed(storage, states[j], steps[j]) && LeafRequest(BuiltBy(adds), steps[j])
  }

  function Queued(delay: int, adds: seq<Addition>, order: seq<string>, now: int): State
    requires forall k | k in order :: WellFormed(k)
  {
    Scanned(adds).(queue := Staggered(delay, map[], map[], order, now), now := if order == [] then 0 else now)
  }

  /** What the scan does is the beginning of such a run, at whose end the queued leaves are pending. */
  lemma {:induction false} ScanStartsUp(delay: int, storage: ModuleStore, adds: seq<Addition>, order: seq<string>,
                                        now: int)
    returns (states: seq<State>, steps: seq<Step>)
    requires Scans(storage, adds) && now >= 0 && forall k | k in order :: WellFormed(k) && Leaf(BuiltBy(adds), k)
    ensures StartUp(delay, storage, adds, states, steps) && states[|steps|] == Queued(delay, adds, order, now)
    ensures forall k | k in order :: Pending(states[|steps|], k)
  {
    hide WellFormed, Leaf, BuiltBy, Scans, PlainNames, Next, PlainStep, Staggered;
    if order == [] {
      StartUpAtFirst(delay, storage, adds, now);
      return [Scanned(adds)], [];
    }
    var n := |order| - 1;
    var k := order[n];
    assert k in order && forall x | x in order[..n] :: x in order;
    states, steps := ScanStartsUp(delay, storage, adds, order[..n], now);
    var step, s' := QueueOne(delay, adds, order[..n], k, now);
    assert order == order[..n] + [k];
    hide Pending, Queued;
    StartUpMore(delay, storage, adds, states, steps, step, s');
    states, steps := states + [s'], steps + [step];
  }

  lemma StartUpAtFirst(delay: int, storage: ModuleStore, adds: seq<Addition>, now: int)
    requires Scans(storage, adds)
    ensures StartUp(delay, storage, adds, [Scanned(adds)], []) && Queued(delay, adds, [], now) == Scanned(adds)
  {
    hide BuiltBy;
  }

  lemma StartUpMore(delay: int, storage: ModuleStore, adds: seq<Addition>, states: seq<State>, steps: seq<Step>,
                    step: Step, s': State)
    requires StartUp(delay, storage, adds, states, steps) && step.Request? && Next(delay, states[|steps|], step, s')
    requires PlainStep(step) && LeafRequest(BuiltBy(adds), step)
    ensures StartUp(delay, storage, adds, states + [s'], steps + [step])
  {
    hide Next, LeafRequest, PlainStep, Scans, PlainNames, Scanned, BuiltBy;
    var longer, more := states + [s'], steps + [step];
    forall j | 0 <= j < |more|
      ensures Next(delay, longer[j], more[j], longer[j + 1]) && PlainStep(more[j])
      ensures Fixed(storage, longer[j], more[j]) && LeafRequest(BuiltBy(adds), more[j])
    {
      if j < |steps| {
        assert Next(delay, states[j], steps[j], states[j + 1]) && PlainStep(steps[j]);
        assert Fixed(storage, states[j], steps[j]) && LeafRequest(BuiltBy(adds), steps[j]);
      }
    }
  }

  lemma QueueOne(delay: int, adds: seq<Addition>, order: seq<string>, k: string, now: int)
    returns (step: Step, s': State)
    requires WellFormed(k) && now >= 0 && forall x | x in order :: WellFormed(x)
    ensures forall x | x in order + [k] :: WellFormed(x)
    ensures s' == Queued(delay, adds, order + [k], now) && step.Request?
    ensures Next(delay, Queued(delay, adds, order, now), step, s')
    ensures PlainStep(step) && ModuleVersionKey(step.moduleName, step.version) == k
    ensures Pending(s', k) && forall x | Pending(Queued(delay, adds, order, now), x) :: Pending(s', x)
  {
    ParsedKeyRebuilds(k);
    StaggeredMore(delay, map[], map[], order, k, now);
    hide WellFormed, BuiltBy, Staggered, ModuleVersionKey;
    s' := Queued(delay, adds, order + [k], now);
    var parts := ParseDependencyKey(k);
    step := Request(parts[0], parts[1], |order| * HALF_A_SECOND, now);
  }

  lemma ScannedHasOnlyLeaves(storage: ModuleStore, adds: seq<Addition>)
    requires PlainNames(adds)
    ensures OnlyLeaves(storage, BuiltBy(adds), Scanned(adds))
  {
    ScannedIsRegular(adds);
    hide BuiltBy, Regular, Leaf;
    assert RequestKeys([]) == [];
  }

  lemma {:induction false} OnlyLeavesInRun(delay: int, storage: ModuleStore, adds: seq<Addition>,
                                           states: seq<State>, steps: seq<Step>, i: nat)
    requires StartUp(delay, storage, adds, states, steps) && i < |states|
    ensures OnlyLeaves(storage, BuiltBy(adds), states[i])
  {
    hide Next, OnlyLeaves, BuiltBy, Fixed, LeafRequest, Scans;
    if i == 0 {
      assert PlainNames(adds);
      ScannedHasOnlyLeaves(storage, adds);
    } else {
      OnlyLeavesInRun(delay, storage, adds, states, steps, i - 1);
      assert Next(delay, states[i - 1], steps[i - 1], states[i - 1 + 1]) && PlainStep(steps[i - 1]);
      OnlyLeavesStep(delay, storage, adds, states[i - 1], steps[i - 1], states[i]);
    }
  }

  lemma LogGrows(delay: int, s: State, step: Step, s': State)
    requires Next(delay, s, step, s')
    ensures forall k | k in s.log :: k in s'.log
  {
    hide Requested, IsBatch, Requeued, AddedNode;
    if step.CompileNext? && step.found.Some? {
      assert s'.log == s.log + [RequestKey(s.batch[0])];
    }
  }

  lemma {:induction false} LogGrowsInRun(delay: int, states: seq<State>, steps: seq<Step>, i: nat, j: nat, k: string)
    requires IsRun(delay, states, steps) && i <= j < |states| && k in states[i].log
    ensures k in states[j].log
  {
    hide Next;
    if i < j {
      LogGrowsInRun(delay, states, steps, i, j - 1, k);
      assert Next(delay, states[j - 1], steps[j - 1], states[j - 1 + 1]);
      LogGrows(delay, states[j - 1], steps[j - 1], states[j]);
    }
  }

  lemma AttemptIsCompile(delay: int, storage: ModuleStore, s: State, step: Step, s': State)
    requires Next(delay, s, step, s') && Fixed(storage, s, step) && Regular(s)
    requires step.CompileNext? && Stored(storage, RequestKey(s.batch[0]))
    ensures RequestKey(s.batch[0]) in s'.log
  {
    HeadIsPlain(storage, s);
    hide Requeued, AddedNode, RequestKey, Stored, Regular;
    assert s'.log[|s.log|] == RequestKey(s.batch[0]);
  }

  /** A stored leaf that was ever pending is pending still or has been compiled. */
  lemma LeafFollows(delay: int, storage: ModuleStore, adds: seq<Addition>, states: seq<State>, steps: seq<Step>,
                    i: nat, j: nat, k: string)
    requires StartUp(delay, storage, adds, states, steps) && i <= j < |states|
    requires Pending(states[i], k) && Stored(storage, k)
    ensures Pending(states[j], k) || k in states[j].log
  {
    hide Next, Pending, Fixed, LeafRequest, BuiltBy, Stored, Scans, PlainNames, Regular;
    assert FiledByKey(states[0].queue) by {
      assert states[0].queue == map[];
    }
    PendingUntilAttempted(delay, states, steps, i, j, k);
    if !Pending(states[j], k) {
      var l :| i <= l < j && Attempts(states, steps, l, k);
      assert Next(delay, states[l], steps[l], states[l + 1]) && Fixed(storage, states[l], steps[l]);
      OnlyLeavesInRun(delay, storage, adds, states, steps, l);
      AttemptIsCompile(delay, storage, states[l], steps[l], states[l + 1]);
      LogGrowsInRun(delay, states, steps, l + 1, j, k);
    }
  }

  /** What the start-up compiles: once the requests for all stored leaves have come in and nothing is
      pending, exactly the stored modules that nothing depends on. */
  lemma StartUpCompilesLeaves(delay: int, storage: ModuleStore, adds: seq<Addition>,
                              states: seq<State>, steps: seq<Step>, i: nat)
    requires StartUp(delay, storage, adds, states, steps) && i < |states| && AtRest(states[i])
    requires forall k | Stored(storage, k) && Leaf(BuiltBy(adds), k) :: exists j :: 0 <= j <= i && Pending(states[j], k)
    ensures forall k :: k in states[i].log <==> Stored(storage, k) && Leaf(BuiltBy(adds), k)
  {
    OnlyLeavesInRun(delay, storage, adds, states, steps, i);
    hide Stored, Leaf, BuiltBy, StartUp, Orderly;
    assert RequestKeys([]) == [];
    forall k | Stored(storage, k) && Leaf(BuiltBy(adds), k) ensures k in states[i].log {
      var j :| 0 <= j <= i && Pending(states[j], k);
      LeafFollows(delay, storage, adds, states, steps, j, i, k);
    }
  }

  /** Nothing that a stored module depends on is ever compiled by it. */
  lemma DependencyIsNotCompiled(delay: int, storage: ModuleStore, adds: seq<Addition>,
                                states: seq<State>, steps: seq<Step>, i: nat, k: string, d: string)
    requires StartUp(delay, storage, adds, states, steps) && i < |states|
    requires Stored(storage, k) && d in StoredDependencies(storage, k)
    ensures d !in states[i].log
  {
    OnlyLeavesInRun(delay, storage, adds, states, steps, i);
    hide Stored, StoredDependencies, BuiltBy, Next, Fixed, LeafRequest, Pending;
    StoredIsScanned(storage, adds, k);
    if d in states[i].log {
      StoredIsScanned(storage, adds, d);
      ScannedIsRegular(adds);
      DependentInTree(BuiltBy(adds), d, k);
    }
  }
}
