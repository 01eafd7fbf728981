# Verified models of the dependency, recompilation, rate-limiting and compatibility cores

The project models four parts of the schema registry in Dafny and proves what they promise over all
inputs, all runs and all interleavings.

1. **Dependency graph, resolver and lockfile** (`pkg/dependencies/graph.go`,
   `pkg/dependencies/handlers.go`, `pkg/dependencies/graph_visualization.go`).  `DependencyGraphs.DependencyGraph` is the mutable graph;
   the recursive searches over it (topological sort, cycle detection, forward and reverse closure, the
   graph builder, the Cytoscape export) are methods of small classes whose fields are the variables the
   closures capture.  Each search is proved equal to a relational definition over walks
   (`Reachability`), so that the searches also agree with one another.
2. **The Sprocket recompiler** (`cmd/sprocket/compiler.go`, `cmd/sprocket/main.go`).  `SprocketGraphs` is the heap of node
   objects with both indexes, `SprocketCompilers` the queue; `SprocketRuns` and `SprocketDrain` treat
   outside requests, ticks of checkQueue, compiles and clean-ups as steps that interleave freely, built
   from the very functions that the methods are proved to compute.  `SprocketScan` is the scan of the
   storage with which the program starts; every run begins with the graph that it leaves.  `SprocketTiming`
   tells by the history of a run when a request is dropped and when it is taken up.
3. **Concurrency and rate protocols** (`pkg/async/goroutine.go`, `pkg/middleware/ratelimit.go`,
   `pkg/middleware/distributed_ratelimit.go`).  The worker pool is a state machine over the steps of
   submitters, workers, closers and readers, and Batch a main goroutine interleaved with it.  The token
   bucket uses whole nanoseconds and floor division.  The Redis limiter is any number of instances over
   one shared counter.
4. **Schema compatibility** (`pkg/compatibility/comparator.go`, `pkg/compatibility/schema.go`).
   `CompatibilityReports` says as a bag what must be reported, `Comparators` is the comparator that
   appends violations while it traverses maps in arbitrary order, `SchemaChanges` reads the report off the
   two schemas place by place, `CompatibilityLaws` and `CompatibilityChains` relate the outcomes of several
   checks.

Traversals of Go maps choose an arbitrary remaining key, so every result holds for every iteration
order.  `dafny verify dfyconfig.toml` checks everything.

## What the proofs bring to light

- A generated lockfile lists its own root, so validating it against the storage it was generated from
  always fails (`Lockfiles.GeneratedNeverValidates`).
- The parser replaces every `@` of an import path by a dash, and the resolver cuts the path at its first dash.
  An explicit import `module@version` is therefore read correctly only when the module has no dash:
  `my-common@v1.0.0` is read as module `my`, version `common-v1.0.0`.  The form `module/version/file` is read
  correctly only when neither `@` nor `-` occurs anywhere in it.  No module with a dash in its name is ever
  found to be a dependency (`ImportPaths.ParseImportedKey`, `ImportPaths.ParseImportedPath`,
  `ImportPaths.DashedImportIsMisread`, `Resolver.ReachedIsPlain`).
- As the imports that the parser yields have no `@`, a lockfile is generated exactly when everything reachable
  resolves and nothing is circular (`Lockfiles.GenerateLockfile`, `Resolver.AtFreeIsUnshared`).  For imports with
  an `@`, which the resolver's own code would accept but the parser never yields, the graph builder is complete
  exactly when no coordinate it reaches shares the root's key; otherwise the built graph leads back to the root and
  there is no lockfile (`Resolver.BuildIsCompleteIff`, `Resolver.SharedRootClosesCycle`,
  `Lockfiles.SharedRootIsNotLocked`).
- The impact query analyses a module on the graph built from that same module, and so does the query for its
  dependents: both find only what lies on a cycle with the module, and nothing at all for a module that is not
  circular (`DependencyQueries.GetImpact`, `DependencyQueries.GetDependents`).
- Sprocket's start-up enters every stored module into its graph but queues only those that nothing depends on.
  When it comes to rest it has compiled exactly these: a module that a stored module depends on is not compiled
  until it, or something that it depends on, is requested from outside (`SprocketScan.StartUpCompilesLeaves`,
  `SprocketScan.DependencyIsNotCompiled`).
- Sprocket's AddNode can leave the two indexes out of step: exactly when it creates the node of a key
  that is already listed as a dependency, which needs a key that is not of the form module@version
  (`SprocketLaws.AddNodeKeepsInverseIff`, `SprocketLaws.LateNodeBreaksInverse`).
- With the storage fixed and no outside requests, the compiles of all schedules together are bounded, and
  the recompiler can come to rest, in every reachable state exactly when no stored module lies on a dependency
  cycle among those stored modules that are pending and their transitive dependents; the cycle may run over
  dependencies that the graph has and over those that the storage has for these modules
  (`SprocketDrain.DrainsIff`, `SprocketDrain.RestsIff`, `SprocketDrain.CurrentInRun`).
  One request for a module that depends on itself keeps the recompiler busy for ever
  (`SprocketDrain.SelfDependencyNeverRests`).
- A request with an additional delay is taken up earlier, not later, than one without: the delay is subtracted
  from its date (`SprocketTiming.RequestWaits`).
- Evicting buckets is unobservable, and the bound on admissions holds, exactly when the requests earned in
  just over two windows fill a bucket; a burst no larger than the rate is enough
  (`RateLimitRuns.EvictionInvisibleIff`, `RateLimitRuns.WindowBoundIff`, `RateLimitRuns.SmallBurstIsSafe`).
- A key that asks without long gaps is admitted at about its rate, but truncation can cost it as much time as
  passes between two requests: with one request per 100 ns and a call every 99 ns, it gets about half of it
  (`RateLimitRuns.AskingRate`, `RateLimitRuns.GapHalvesTheRate`).
- The comment on the Redis limiter calls it a token bucket, but traffic without a pause of a whole window
  is admitted at most as often as one window allows, for as long as it lasts
  (`DistributedRateLimiting.SustainedTrafficIsCapped`).
- The table of field type names lacks the map type, so that a comparison panics exactly when some compared
  field changes between a map and another type.  Only a schema graph or a syntax tree made by hand has such a
  field: the repository's own parser gives a map field the name of its entry message, hence the message type
  (`Comparators.Comparator.Compare`, `CompatibilityChains.MapFieldPanics`).
- Compatibility does not compose in general: fixed32 to fixed64 to sfixed64, a nested message that is
  dropped and comes back changed, and a reused enum value name each pass both steps and fail as a whole
  (`CompatibilityChains`); `ChecksComposeIff` says exactly when two checks compose, in every mode.

## Model

| member | source | states |
|---|---|---|
| DependencyGraphs.KeyInjective | pkg/dependencies/graph.go:259-261 | Keys are unambiguous for module names without `@` |
| DependencyGraphs.DependencyGraph.constructor | pkg/dependencies/graph.go:32-37 | A new graph is empty and consistent |
| DependencyGraphs.DependencyGraph.AddNode | pkg/dependencies/graph.go:40-54 | Replaces node and edge list of one key, keeps all others, and keeps nodes and edges in agreement |
| DependencyGraphs.DependencyGraph.GetDependents | pkg/dependencies/graph.go:103-124 | Exactly the nodes with an edge to the target, each once, with their own names |
| TopologicalSorting.TopologicalVisit.Visit | pkg/dependencies/graph.go:163-208 | The depth-first invariant: on success the finished list stays dependencies-first, grows only by what the key reaches and ends with the key; a failure names a key on a reachable cycle |
| TopologicalSorting.WithNodeKeepsOrder | pkg/dependencies/graph.go:189-196 | Leaving out keys without a node keeps the order, and exactly the keys that are nodes |
| TopologicalSorting.TopologicalSort | pkg/dependencies/graph.go:163-208 | Succeeds exactly when no cycle is reachable; then lists every reachable node once, each after its dependencies, the start last |
| DepthFirst.CloseVertex | pkg/dependencies/graph.go:187-196 | Leaving a vertex whose successors are all finished keeps the colouring: the stack is a walk, the finished list is successors-first |
| DepthFirst.BackEdgeClosesCycle | pkg/dependencies/graph.go:141-144 | An edge from the top of the stack to a key on the stack puts that key on a cycle |
| DepthFirst.DoneFromStart | pkg/dependencies/graph.go:163-208 | A search that comes to its end has finished exactly what the start reaches, successors first, and there is no cycle in reach |
| Reachability.SuccessorsFirstAcyclic | pkg/dependencies/graph.go:206-207 | A duplicate-free order with successors first contains everything its members reach and admits no reachable cycle |
| CycleDetection.CycleSearch.HasCycle | pkg/dependencies/graph.go:127-160 | Reports a cycle only with a path that closes on itself and extends the path so far; otherwise restores the path and finishes the key |
| CycleDetection.ClosingWalkIsCycle | pkg/dependencies/graph.go:152-155 | A simple walk with an edge back into itself means that its start reaches a cycle |
| CycleDetection.DetectCircularDependencies | pkg/dependencies/graph.go:127-160 | Reports exactly when a cycle is reachable, hence exactly when TopologicalSort fails; the returned path starts at the start, is simple, and its last key has an edge back into it |
| Closures.ClosureVisit.Traverse | pkg/dependencies/graph.go:71-100 | A call visits exactly the unvisited part it can reach and lists each edge leaving it once |
| Closures.GetTransitiveDependencies | pkg/dependencies/graph.go:71-100 | The listed keys are those reached in one or more steps; there is one entry for each edge that leaves a reached key |
| Closures.ArcsDetermined | pkg/dependencies/graph.go:71-100 | Two complete edge lists of the same keys are permutations of each other |
| Closures.ImpactVisit.Traverse | pkg/dependencies/graph.go:211-248 | The same over reversed edges, whatever order the dependents come in |
| Closures.FinishReordered | pkg/dependencies/graph.go:225-233 | Following the dependents of a key in another order leaves the result complete |
| Closures.TargetsOfImpact | pkg/dependencies/graph.go:211-248 | Direct and transitive dependents together are exactly the keys that reach the target |
| Closures.GetImpactAnalysis | pkg/dependencies/graph.go:211-248 | Direct dependents each once; one transitive entry for each edge into an affected key; together the converse of the forward closure; TotalImpact is the number of entries and at least the number of affected keys |
| ImportPaths.IndexByte | pkg/dependencies/graph.go:402-409 | The first position of the byte, or -1 |
| ImportPaths.SplitPath | pkg/dependencies/graph.go:411-426 | The nonempty stretches between slashes |
| ImportPaths.PartsAtSlash | pkg/dependencies/graph.go:411-426 | The parts of a path are those before and those after any of its slashes |
| ImportPaths.ParseImportPath | pkg/dependencies/graph.go:362-400 | Computes the function that the laws below determine for every path: with `@`, with a dash only, and with neither |
| ImportPaths.ParsedModuleHasNoAt | pkg/dependencies/graph.go:362-400 | A parsed module never contains `@`, so keys of parsed dependencies are unambiguous |
| ImportPaths.ParseInvertsKey | pkg/dependencies/graph.go:362-383 | What the resolver makes of module@version itself: recovered exactly when the version has no slash and no strippable extension |
| ImportPaths.ParseInvertsKeyWithPath | pkg/dependencies/graph.go:362-383 | The same with /rest: recovered exactly when the version has no slash |
| ImportPaths.ParsePathForm | pkg/dependencies/graph.go:358-400 | module/version/file is recovered exactly when the path has neither `@` nor `-` |
| ImportPaths.PathNamesModuleIff | pkg/dependencies/graph.go:385-399 | A path without `@` and `-` names exactly the module and version that are its first two nonempty segments, if the second begins with v; otherwise it names nothing |
| ImportPaths.UnversionedNamesNothing | pkg/dependencies/graph.go:385-399 | So nothing is named by a single segment, or where the second segment begins otherwise |
| ImportPaths.ParseAtForm | pkg/dependencies/graph.go:362-383 | A path with `@` is cut at the first one |
| ImportPaths.StrippableIff | pkg/dependencies/graph.go:379-381 | Stripped is exactly what ends in .proto with something before it |
| ImportPaths.ParseKeyWithExtension | pkg/dependencies/graph.go:362-383 | module@version.proto names module and version, also as the parser hands it on |
| ImportPaths.DashedModuleIsMisread | pkg/dependencies/graph.go:358-368 | What a path with a dash in its module name is read as |
| ImportPaths.SanitizedJoin | pkg/api/protobuf/ast_descriptor.go:231-256 | The parser's replacement of `@` by a dash goes character by character |
| ImportPaths.ParseDashForm | pkg/dependencies/graph.go:362-383 | Without `@`, a path is cut at its first dash |
| ImportPaths.ParseImportedKey | pkg/dependencies/graph.go:358-383 | An import module@version, as the parser hands it on, is read as that exactly when the module has neither `@` nor `-`, and the version neither `@` nor `/` nor a strippable extension |
| ImportPaths.ParseImportedKeyWithPath | pkg/dependencies/graph.go:358-383 | The same for module@version/rest, whatever the extension |
| ImportPaths.ParseImportedPath | pkg/dependencies/graph.go:358-400 | The path form keeps its condition when it comes through the parser |
| ImportPaths.DashedImportIsMisread | pkg/dependencies/graph.go:358-383 | What an explicit import of a module with a dash in its name is read as |
| ImportPaths.ParsedWithoutAt | pkg/dependencies/graph.go:362-400 | From a path without `@`, neither name has an `@` and the module has no dash |
| Resolver.DirectDependencies | pkg/dependencies/graph.go:293-316 | Without repetition, exactly the dependencies that some import names, all with a nonempty module without `@` |
| Resolver.OrderOfMention | pkg/dependencies/graph.go:293-314 | They come in the order in which the imports mention them first |
| Resolver.ResolveDependencies | pkg/dependencies/graph.go:276-317 | Computes them; fails exactly for a version that is not stored, or whose first file does not parse, each with its own error; a version without files has none |
| Resolver.PlainRootUnshared | pkg/dependencies/graph.go:320-356 | A root without `@` in its module name shares its key with nothing it reaches |
| Resolver.ReachedIsPlain | pkg/dependencies/graph.go:276-356 | With import paths as the parser yields them, nothing that is reached has an `@` in its names or a dash in its module name |
| Resolver.AtFreeIsUnshared | pkg/dependencies/graph.go:320-356 | Then no root shares its key with anything it reaches |
| Resolver.BuildSearch.Build | pkg/dependencies/graph.go:325-349 | The recursive build adds only reachable nodes that agree with the storage, leaves no edge of them unvisited, and fails only with the error of a reachable coordinate |
| Resolver.BuildDependencyGraph | pkg/dependencies/graph.go:320-356 | A built graph holds only what the root reaches, agrees with the storage and has no dangling edge; unless the root's key is shared, it is built exactly when everything reachable is stored and parses; an error is that of something reachable, and of the root if the root has one |
| Resolver.BuildIsCompleteIff | pkg/dependencies/graph.go:320-356 | Every coordinate reached has its own node exactly when none shares the root's key |
| Resolver.SharedRootClosesCycle | pkg/dependencies/graph.go:320-356 | Otherwise the root lies on a cycle of the built graph |
| Resolver.WalksCorrespond | pkg/dependencies/graph.go:320-356 | Reachability between keys of a built graph is reachability between coordinates of the storage |
| Resolver.LeadsToRootIff | pkg/dependencies/graph.go:320-356 | Something in a built graph leads to the root exactly when the root lies on a cycle of it; unless its key is shared, exactly when it lies on one of the storage |
| DependencyQueries.GetTransitiveDependencies | pkg/dependencies/handlers.go:60-80 | On the graph built from the module itself, unless its key is shared: fails exactly when something reachable does not resolve, otherwise lists what the module reaches in the storage in one or more steps |
| DependencyQueries.GetDependents | pkg/dependencies/handlers.go:83-103 | Likewise, lists exactly the direct dependents that the module itself reaches |
| DependencyQueries.GetImpact | pkg/dependencies/handlers.go:106-120 | Likewise, lists exactly what lies on a cycle with the module; for every module the impact is empty exactly when the module is not circular and its key is not shared |
| Lockfiles.GenerateLockfile | pkg/dependencies/graph.go:429-448 | For every root: succeeds exactly when its key is not shared, everything reachable is stored and parses and no cycle is reachable; with import paths as the parser yields them the first condition falls away; then lists every reachable coordinate once, dependencies first, the root last; otherwise the error of something reachable, or a key on a reachable cycle |
| Lockfiles.SharedRootIsNotLocked | pkg/dependencies/graph.go:320-356 | A storage, with an import path that the parser never yields, where everything resolves, nothing is circular, and a root has no lockfile |
| Lockfiles.VersionMapIs | pkg/dependencies/graph.go:466-469 | The map of current versions has exactly the modules of the list, each with the version that the list gives last |
| Lockfiles.NoDifferenceIff | pkg/dependencies/graph.go:471-491 | The comparison finds nothing exactly when the entries name each current module once, with its current version, and no other |
| Lockfiles.ValidateLockfile | pkg/dependencies/graph.go:458-495 | Valid exactly when the entries name each of the resolved dependencies once, with the version given last, and no other; the report is sorted and holds each text as often as there is an entry, or a module that no entry names, of which it is said; fails exactly when the root does not resolve |
| Lockfiles.ReportOccurs | pkg/dependencies/graph.go:471-493 | Those counts: of the first entry for a module another current version or none, of a later entry none, of a module without entry that it is missing |
| Lockfiles.ReportIsDetermined | pkg/dependencies/graph.go:486-495 | The report does not depend on the order in which the map of current versions is traversed |
| Lockfiles.GeneratedNeverValidates | pkg/dependencies/graph.go:429-495 | A generated lockfile never validates against the storage it came from |
| Cytoscape.CytoscapeBuild.AddDirectDependencies | pkg/dependencies/graph_visualization.go:161-197 | One edge for each direct dependency in order, and the missing nodes |
| Cytoscape.CytoscapeBuild.AddTransitiveDependencies | pkg/dependencies/graph_visualization.go:200-250 | Completes the search of the dependencies of all keys met above the depth limit, if there is one, listing each of their edges; each key listed lies one level below one with an edge to it |
| Cytoscape.CytoscapeBuild.AddDependents | pkg/dependencies/graph_visualization.go:253-289 | One edge from each direct dependent, and the missing nodes |
| Cytoscape.BuildCytoscapeGraph | pkg/dependencies/graph_visualization.go:117-158 | For each direction by its name, and all settings: unique ids, root first, no dangling or invented edge, edge kinds right; and the nodes and edges of each half of the export, under a depth limit by the level at which the search met each node |
| Cytoscape.ListedWithinLimit | pkg/dependencies/graph_visualization.go:200-250 | Nothing beyond the depth limit is listed |
| Cytoscape.ExportMatchesTransitiveDependencies | pkg/dependencies/graph_visualization.go:200-250 | The unlimited export lists the root and the keys of GetTransitiveDependencies, with as many edges as that list has entries |
| SprocketGraphs.ParsedKeyRebuilds | cmd/sprocket/compiler.go:131-143 | A key that splits in two is rebuilt from its parts, which have no `@` |
| SprocketGraphs.PlainNamesParse | cmd/sprocket/compiler.go:131-143 | The key of names without `@` splits into those names |
| SprocketGraphs.SprocketGraph.Unlink | cmd/sprocket/compiler.go:59-66 | Withdraws the key from the dependents of its dependencies and clears these, in place |
| SprocketGraphs.SprocketGraph.Link | cmd/sprocket/compiler.go:68-89 | Adds one dependency in both indexes, creating its node where its key allows |
| SprocketGraphs.SprocketGraph.AddNode | cmd/sprocket/compiler.go:43-90 | The whole new state of the heap of nodes, without aliasing |
| SprocketLaws.AddedNodeIs | cmd/sprocket/compiler.go:43-90 | What that state is at each key: dependencies replaced at the added key only, dependents corrected at exactly the old and new dependencies |
| SprocketLaws.AddNodeKeepsInverseIff | cmd/sprocket/compiler.go:43-90 | The indexes stay inverse exactly when the key had a node or nobody listed it |
| SprocketLaws.LateNodeBreaksInverse | cmd/sprocket/compiler.go:43-90 | Two calls after which the indexes are not inverse |
| SprocketLaws.BuiltIsInverse | cmd/sprocket/compiler.go:43-90 | After any calls with names free of `@`, re-adding included, Dependents is the inverse of Dependencies |
| SprocketLaws.BuiltIsNamed | cmd/sprocket/compiler.go:43-90 | After any calls every node has the names that its key is made of |
| SprocketLaws.AddNodeIdempotent | cmd/sprocket/compiler.go:43-90 | Repeating a call changes nothing |
| SprocketDependents.DependentsSearch.CollectDependents | cmd/sprocket/compiler.go:113-128 | Visits the unvisited reachable part and collects the dependents of exactly the keys it visits |
| SprocketDependents.GetDependentsTree | cmd/sprocket/compiler.go:93-110 | All transitive dependents, each once; with inverse indexes, exactly the keys that reach the given key by dependencies |
| SprocketDependents.TreeByDependencies | cmd/sprocket/compiler.go:93-128 | With inverse indexes the two directions of reachability agree |
| SprocketCompilers.Compiler.QueueRecompilationWithDelay | cmd/sprocket/compiler.go:223-250 | The new queue: unchanged when recently processed, otherwise the request entered or its timestamp updated; RequestOutcome says when |
| SprocketCompilers.Compiler.TakeReady | cmd/sprocket/compiler.go:265-281 | Moves exactly the ready requests, each once, into the batch and marks them processed |
| SprocketCompilers.Compiler.Compile | cmd/sprocket/compiler.go:289-333 | Updates the graph and queues exactly the well-formed transitive dependents with a fresh timestamp; a failed lookup changes nothing |
| SprocketCompilers.Compiler.CleanProcessedSet | cmd/sprocket/compiler.go:204-211 | Keeps exactly the marks no older than two minutes |
| SprocketRuns.PendingStep | cmd/sprocket/compiler.go:223-333 | A step leaves every pending key pending unless it attempts its compile |
| SprocketRuns.PendingUntilAttempted | cmd/sprocket/compiler.go:265-333 | In every run a pending key stays pending until it is attempted |
| SprocketRuns.DependentsFollow | cmd/sprocket/compiler.go:265-333 | In every run each transitive dependent of a compiled module is pending or has been attempted since |
| SprocketRuns.FreshInRun | cmd/sprocket/compiler.go:265-333 | In every state of every run that starts after a scan, whatever it found, and whose lookups succeed: a module that depends on one compiled since the start was compiled after it or is pending, and a module not yet compiled has the dependencies that the scan found |
| SprocketRuns.QuiescentIsFresh | cmd/sprocket/compiler.go:265-333 | When nothing is pending, whatever depends on a module that has been compiled, directly or not, was compiled after it |
| SprocketRuns.UnscannedIsCompiled | cmd/sprocket/compiler.go:265-333 | In a run that started with an empty graph every module with dependencies has been compiled, so that this covers all of them |
| SprocketTiming.MarkIsRemembered | cmd/sprocket/compiler.go:195-281 | The processed set of every run by its history: a key is marked with the time when it was last taken from the queue, until a clean-up finds that more than two minutes old |
| SprocketTiming.RequestOutcome | cmd/sprocket/compiler.go:223-250 | A request is dropped exactly when its key was last taken less than twice the delay before and that mark is there; otherwise its key is pending, dated at the time of the request less the additional delay, and nothing else changes |
| SprocketTiming.HeldBackByAnyTake | cmd/sprocket/compiler.go:228-235 | For a delay of at most a minute: exactly when the key was taken at all less than twice the delay before |
| SprocketTiming.RequestWaits | cmd/sprocket/compiler.go:223-281 | A request that is not dropped is taken by the first look at the queue after the delay, the additional delay counted backwards, unless its key is requested or queued again before |
| SprocketTiming.DependentWaits | cmd/sprocket/compiler.go:265-331 | A dependent that a compile has queued is taken half a second later |
| SprocketScan.EnterAll | cmd/sprocket/main.go:140-183 | The first pass enters each readable stored module into the graph |
| SprocketScan.FindLeaves | cmd/sprocket/main.go:185-216 | The second finds exactly the keys without transitive dependents |
| SprocketScan.QueueLeaves | cmd/sprocket/main.go:218-233 | The last queues exactly those that split in two, each half a second earlier than the one before, in any order |
| SprocketScan.StaggeredTimes | cmd/sprocket/main.go:218-233 | On a fresh queue these are all that is queued, the i-th dated i half seconds back |
| SprocketScan.ScanExistingModules | cmd/sprocket/main.go:129-234 | All three: the new graph and the new queue |
| SprocketScan.ReadableScans | cmd/sprocket/main.go:140-183 | Where every stored module can be read, each is entered with its dependencies |
| SprocketScan.ScanStartsUp | cmd/sprocket/main.go:218-233 | What the scan does is the beginning of a run that starts with its graph, and each leaf is pending at its end |
| SprocketScan.AgreeingAddChangesNothing | cmd/sprocket/compiler.go:43-90 | AddNode with the dependencies that the graph has leaves the whole graph as it is |
| SprocketScan.OnlyLeavesInRun | cmd/sprocket/main.go:129-234 | Until there is another request, only leaves are pending, only stored leaves have been compiled, and the graph stays that of the scan |
| SprocketScan.StartUpCompilesLeaves | cmd/sprocket/main.go:185-234 | When the requests for all stored leaves have come in and nothing is pending, exactly the stored modules that nothing depends on have been compiled |
| SprocketScan.DependencyIsNotCompiled | cmd/sprocket/main.go:185-234 | No module that a stored module depends on has been |
| SprocketDrain.WeightPays | cmd/sprocket/compiler.go:313-331 | The weight of a stored module exceeds the weights of all that it leads to by one |
| SprocketDrain.PotentialFallsAtCompile | cmd/sprocket/compiler.go:289-333 | Each compile, found or not, lowers the weight of all that is pending, though it may change the graph |
| SprocketDrain.DrainBound | cmd/sprocket/compiler.go:265-333 | In every schedule the compiles are at most the weight of what was pending at the start, counted in any graph of dependents that covers what can come up |
| SprocketDrain.AcyclicDrains | cmd/sprocket/compiler.go:265-333 | From any state with inverse indexes, names free of `@` and a batch without duplicates, though with stale or missing edges in the graph: if no stored module lies on a cycle of graph and storage together, the compiles of all schedules are bounded and some schedule comes to rest |
| SprocketDrain.CurrentInRun | cmd/sprocket/compiler.go:265-333 | With a fixed storage the graph of every state reached from a scan has no stale edge and that shape, whatever is requested from outside |
| SprocketDrain.HotStep | cmd/sprocket/compiler.go:265-333 | A live cycle stays live under every step, though its modules leave and enter the queue |
| SprocketDrain.Diverges | cmd/sprocket/compiler.go:265-333 | A state with a live cycle allows runs with as many compiles as one likes |
| SprocketDrain.DrainsIff | cmd/sprocket/compiler.go:265-333 | From every such state: the compiles of all schedules are bounded exactly when no stored module that is pending, or a transitive dependent of one that is stored, lies on a cycle of the graph and of what these modules have in the storage |
| SprocketDrain.ComesToRest | cmd/sprocket/compiler.go:265-333 | Wherever that covering graph exists, going on leads to rest: there is a next step until nothing is pending |
| SprocketDrain.RestsIff | cmd/sprocket/compiler.go:265-333 | From every such state some schedule comes to rest exactly when no such cycle exists |
| SprocketDrain.SelfDependencyNeverRests | cmd/sprocket/compiler.go:265-333 | One request for a stored module that depends on itself leads to such a state |
| WorkerPools.PlaceKept | pkg/async/goroutine.go:120-227 | A step keeps each task, as often as it was accepted, in exactly one of queued, running and finished |
| WorkerPools.InvKept | pkg/async/goroutine.go:87-227 | Every step of every participant keeps that, the order in which tasks are taken, the bounds of both channels, the account of errors, and the conditions for a worker to leave and for doneCh to close |
| WorkerPools.InvInRun | pkg/async/goroutine.go:87-227 | They hold in every interleaving |
| WorkerPools.DoneMeansFinished | pkg/async/goroutine.go:102-113 | When doneCh closes without a cancellation every accepted task has been run to its end |
| WorkerPools.WorkersSurviveTasks | pkg/async/goroutine.go:181-227 | No worker leaves an open pool, whatever its tasks did, panics included |
| WorkerPools.ClosedPoolFinishes | pkg/async/goroutine.go:102-113 | A closed pool comes to its end, whatever submitters, readers and cancellers do in between: its own steps are bounded, and one is possible until doneCh is closed |
| Batches.BatchInvKept | pkg/async/goroutine.go:241-290 | Every move of the main goroutine or of the pool keeps the progress of Batch in step with the pool |
| Batches.BatchResult | pkg/async/goroutine.go:241-290 | In every interleaving no Submit fails or loses its task, each item is run exactly once, and the result is the list of the errors in the order in which the tasks ended, cut at 10·workers |
| Batches.SomeMovePossible | pkg/async/goroutine.go:241-290 | There is no deadlock before Batch returns |
| Batches.BatchReturns | pkg/async/goroutine.go:241-290 | Every schedule ends, within 4·items + workers + 4 moves, with Batch having returned |
| RateLimiting.Bucket.Take | pkg/middleware/ratelimit.go:117-140 | Refill and withdrawal under the lock of the bucket, in place |
| RateLimiting.RateLimiter.Allow | pkg/middleware/ratelimit.go:105-141 | The whole new state and the answer; other keys are untouched |
| RateLimiting.RateLimiter.Remaining | pkg/middleware/ratelimit.go:144-157 | The tokens of the bucket, or limit plus burst |
| RateLimiting.RateLimiter.Cleanup | pkg/middleware/ratelimit.go:168-180 | Removes exactly the buckets not updated for more than two windows |
| RateLimitRuns.SmallBurstIsSafe | pkg/middleware/ratelimit.go:168-180 | A burst no larger than the rate makes eviction safe |
| RateLimitRuns.BurstAfterRun | pkg/middleware/ratelimit.go:105-141 | Of requests made at one time after any run, as many are admitted as the refilled bucket has tokens |
| RateLimitRuns.FreshBurst | pkg/middleware/ratelimit.go:105-141 | Of n requests at once for a key without a bucket, the lesser of n and limit plus burst are admitted |
| RateLimitRuns.SecondBurst | pkg/middleware/ratelimit.go:105-141 | Of n more at once after a time t, the least of n, limit plus burst and ⌊t·R/W⌋ |
| RateLimitRuns.RefillWorth | pkg/middleware/ratelimit.go:117-129 | Neither truncation nor the time it leaves unspent makes a bucket worth more than before or than its capacity |
| RateLimitRuns.RefillLoss | pkg/middleware/ratelimit.go:117-129 | A refill below the capacity loses less than one token to truncation, and none when it adds nothing |
| RateLimitRuns.NeverAboveIdeal | pkg/middleware/ratelimit.go:105-141 | In every run the bucket is worth no more than an ideal continuous one fed the same admissions, which can pay for each of them |
| RateLimitRuns.WindowBound | pkg/middleware/ratelimit.go:105-141 | Between times s and t at most capacity + ⌊(t−s)·R/W⌋ requests of a key are admitted |
| RateLimitRuns.WindowBoundIff | pkg/middleware/ratelimit.go:105-180 | With clean-ups anywhere, that bound holds in all runs exactly when eviction is safe |
| RateLimitRuns.AskingIsServed | pkg/middleware/ratelimit.go:105-180 | Once a token's time has passed since a refusal, a later request of the key, the present one at the latest, has been admitted, clean-ups or not |
| RateLimitRuns.AskingRate | pkg/middleware/ratelimit.go:105-180 | A key whose requests are never more than d apart is admitted more than ((t−s)·R − W) / (W + d·R) times after a request at s and up to its last one at t, clean-ups or not |
| RateLimitRuns.GapHalvesTheRate | pkg/middleware/ratelimit.go:117-140 | One request per 100 ns, asked for every 99 ns: exactly every other request is admitted |
| RateLimitRuns.SameRun | pkg/middleware/ratelimit.go:105-180 | Simulation: the cleaned-up limiter answers alike and differs only by evictable buckets |
| RateLimitRuns.UnsafeIsVisible | pkg/middleware/ratelimit.go:105-180 | When eviction is not safe, a concrete run is answered differently after a clean-up |
| RateLimitRuns.EvictionInvisibleIff | pkg/middleware/ratelimit.go:105-180 | Eviction is invisible to Allow in all runs exactly when it is safe |
| DistributedRateLimiting.DistributedRateLimiter.constructor | pkg/middleware/distributed_ratelimit.go:21-34 | Keeps client and configuration; an empty prefix becomes the default |
| DistributedRateLimiting.DistributedRateLimiter.Allow | pkg/middleware/distributed_ratelimit.go:37-59 | Counts one request on the shared key, renews its expiry, and admits up to the limit; a failed call admits, with what Redis has carried out of it |
| DistributedRateLimiting.DistributedRateLimiter.Remaining | pkg/middleware/distributed_ratelimit.go:62-79 | The quota left, never negative; full for a missing or expired key; none and a failure on an error |
| DistributedRateLimiting.DistributedRateLimiter.Reset | pkg/middleware/distributed_ratelimit.go:88-91 | Removes exactly that key |
| DistributedRateLimiting.CounterIsPosition | pkg/middleware/distributed_ratelimit.go:37-59 | The counter of a key is the position of its last request in its run of gaps shorter than a window |
| DistributedRateLimiting.AdmittedByPosition | pkg/middleware/distributed_ratelimit.go:37-59 | A request is admitted exactly when that position is at most the limit of its instance |
| DistributedRateLimiting.SustainedTrafficIsCapped | pkg/middleware/distributed_ratelimit.go:36-59 | Traffic without a pause of a whole window is admitted at most as often as the most generous instance allows, in all |
| DistributedRateLimiting.WindowBound | pkg/middleware/distributed_ratelimit.go:37-59 | So is any half-open window no longer than that of any instance, over all instances together |
| Comparators.Comparator.ComparePackages | pkg/compatibility/comparator.go:151-166 | Reports a changed package |
| Comparators.Comparator.CompareField | pkg/compatibility/comparator.go:264-339 | Appends exactly the changes of a field, or panics exactly when an incompatible type has no name |
| Comparators.Comparator.CompareMessageFields | pkg/compatibility/comparator.go:210-262 | Adds the report on the fields of two messages, whatever the iteration order |
| Comparators.Comparator.CompareMessage | pkg/compatibility/comparator.go:190-192 | Fields and nested messages of one pair together add its report, or panic exactly when some compared field at some depth does |
| Comparators.Comparator.CompareNestedMessages | pkg/compatibility/comparator.go:341-349 | Adds the reports on the nested messages of both sides, at every depth |
| Comparators.Comparator.CompareMessages | pkg/compatibility/comparator.go:172-208 | Adds the report on all messages, removed and added ones included |
| Comparators.Comparator.CompareEnumValues | pkg/compatibility/comparator.go:421-476 | Adds the report on removed, renumbered and added values |
| Comparators.Comparator.CompareEnums | pkg/compatibility/comparator.go:384-419 | Adds the report on all enums |
| Comparators.Comparator.CompareServiceMethods | pkg/compatibility/comparator.go:515-550 | Adds the report on the methods of a service |
| Comparators.Comparator.CompareMethod | pkg/compatibility/comparator.go:552-617 | Appends exactly the changes of an RPC |
| Comparators.Comparator.CompareServices | pkg/compatibility/comparator.go:478-513 | Adds the report on all services |
| Comparators.Comparator.GenerateSummary | pkg/compatibility/comparator.go:623-647 | The numbers of violations of each level and of those with each flag; errors, warnings and infos add up to the total |
| Comparators.ErrorsCounted | pkg/compatibility/comparator.go:131-147 | No errors are counted exactly when no violation is an error |
| Comparators.Comparator.Compare | pkg/compatibility/comparator.go:111-149 | Holds each violation exactly as often as there are places where the two schemas differ in the way that it says, and no other; compatible exactly when it has no error, its counts; no result exactly when some compared field changes between a map and another type; nothing reported in mode NONE |
| Comparators.CheckCompatibility | pkg/compatibility/comparator.go:709-712 | The same for a fresh comparator |
| Comparators.SummaryTallies | pkg/compatibility/comparator.go:623-647 | The recursive counts are those numbers |
| SchemaChanges.FieldCount | pkg/compatibility/comparator.go:210-339 | Between two messages: each violation as often as fields, by number, are removed, added, renamed, retyped, relabelled or moved between oneofs in the way that it says |
| SchemaChanges.MessageCount | pkg/compatibility/comparator.go:190-349 | The same at every depth of nested messages that both sides have |
| SchemaChanges.EnumCount | pkg/compatibility/comparator.go:421-476 | The same for removed, added and renumbered enum values |
| SchemaChanges.ServiceCount | pkg/compatibility/comparator.go:515-617 | The same for removed, added and changed RPCs |
| SchemaChanges.ReportSaysWhatChanged | pkg/compatibility/comparator.go:111-149 | The same for whole schemas, with rule, level, category, location, values and both flags of each violation spelled out |
| Schemas.TypeNamesAre | pkg/compatibility/schema.go:77-83 | The name of each type, and the missing one |
| CompatibilityReports.DecimalReads | pkg/compatibility/comparator.go:449-450 | Numbers are written in decimal, without leading zeros |
| CompatibilityLaws.MessageReportErrorFree | pkg/compatibility/comparator.go:210-349 | The report on a message has no error exactly when the new message fits the old at every depth |
| CompatibilityLaws.EnumReportErrorFree | pkg/compatibility/comparator.go:421-476 | The same for enums |
| CompatibilityLaws.ServiceReportErrorFree | pkg/compatibility/comparator.go:515-617 | The same for services |
| CompatibilityLaws.CompatibleIff | pkg/compatibility/comparator.go:111-149 | The verdict without reports: compatible exactly when package, messages, enums and services of the new schema fit the old |
| CompatibilityLaws.NothingAgainstItself | pkg/compatibility/comparator.go:111-149 | A schema compared with itself yields no violation in any mode at any depth, and no panic |
| CompatibilityLaws.LoweredMessage | pkg/compatibility/comparator.go:210-349 | For messages of any depth the forward report is the backward report with removals lowered to warnings |
| CompatibilityLaws.ForwardReportIsLowered | pkg/compatibility/comparator.go:111-149 | The same for whole schemas |
| CompatibilityLaws.BackwardImpliesForward | pkg/compatibility/comparator.go:111-149 | What passes a backward or full check passes a forward check |
| CompatibilityChains.TypesCompose | pkg/compatibility/comparator.go:352-382 | The table of wire-compatible types is transitive except across the two diagonals of the fixed-width types |
| CompatibilityChains.CompatibleWithinFamily | pkg/compatibility/comparator.go:352-382 | Types are compatible exactly within the families of integers, zigzag integers, fixed widths and text, but for the diagonals |
| CompatibilityChains.MessagesCompose | pkg/compatibility/comparator.go:210-349 | Two fitting steps of a message compose exactly when the chain is steady, at every depth |
| CompatibilityChains.EnumsCompose | pkg/compatibility/comparator.go:421-476 | Two fitting steps of an enum compose exactly when no dropped name comes back with another number |
| CompatibilityChains.ComposeIff | pkg/compatibility/comparator.go:111-149 | Two compatible steps compose exactly when the chain is steady: no diagonal is crossed, and what the middle version dropped comes back fitting |
| CompatibilityChains.ChecksComposeIff | pkg/compatibility/comparator.go:111-149 | Verdicts, in every mode but NONE: when both steps pass, the check of the whole passes exactly when the chain is steady, and a steady whole does not panic |
| CompatibilityChains.AdjacentChecksCompose | pkg/compatibility/comparator.go:111-149 | In the strict modes, if the middle version keeps nested messages and value names: the check of two compatible steps as a whole does not panic, and passes exactly when no field crosses a diagonal |
| CompatibilityChains.FittingSchemasDoNotPanic | pkg/compatibility/comparator.go:290-303 | Only an incompatible pair can make the comparison panic |
| CompatibilityChains.MapFieldPanics | pkg/compatibility/comparator.go:285-300 | A field of the map type where there was another makes it panic |
| CompatibilityChains.FixedTypesDoNotCompose | pkg/compatibility/comparator.go:352-382 | A chain over fixed32, fixed64 and sfixed64 passes both steps and fails as a whole |
| CompatibilityChains.DroppedNestedMessagesDoNotCompose | pkg/compatibility/comparator.go:341-349 | So does one whose nested message is dropped and comes back changed |
| CompatibilityChains.ReusedValueNamesDoNotCompose | pkg/compatibility/comparator.go:421-476 | So does one whose enum value is renamed and whose old name is reused |

## Left out

- HTTP handlers except what the dependency queries compute, command line, documentation export, database services, Docker and protoc execution, plugins, configuration files and logging.
- The protobuf parser, except what it does to an import path, and the building of a schema graph from its syntax tree (`pkg/compatibility/schema.go:163-410`): the resolver takes the import paths of the first file as given, the comparator takes schema graphs as given.
- Compiling for a language: a compile is its effect on graph and queue.
- The code generation cache.
- Strings are sequences of bytes; node objects of `pkg/dependencies` are values, because nothing changes them after AddNode.
- RateLimitRuns.WindowBound: requires a safe eviction or no clean-up, because otherwise the bound fails, as WindowBoundIff states.
- RateLimiting.Bucket.Take: the floating-point refill is the exact quotient rounded down.
- RateLimiting.RateLimiter.Allow: reads the clock once for a new bucket, and is one atomic step with respect to Cleanup, because the gap between the two locks is outside the claims.
- Configurations with a negative limit, a negative burst or a window that is not positive.
- DistributedRateLimiting.DistributedRateLimiter.Allow: the two pipelined commands share one reading of the clock; the laws over runs take every call to be answered.
- TTL, Retry-After headers and the fallback of the middleware.
- SprocketRuns.FreshInRun: requires that storage lookups succeed; DependentsFollow states what holds when they do not.
- SprocketRuns.QuiescentIsFresh: requires that lookups succeed and that stored and requested names have no `@`, because other keys are never requeued; says nothing of a module that has not been compiled since the start, because the scan enters modules without compiling them.
- SprocketScan.ScanExistingModules: the directories are a list of versions with their readable dependencies, and the clock is read once.
- SprocketScan.StartUpCompilesLeaves: for a scan that could read every stored module, with names free of `@`.
- checkQueue's loop over its batch is a sequence of CompileNext steps of a run; outside requests are atomic with respect to one compile, and the lock that serialises compiles is not modelled.
- Requests dropped within twice the delay of a processing, and the sign of the additional delay, are as the code has them (RequestOutcome, RequestWaits); that every file change is recompiled is not claimed.
- The worker pool and Batch are state machines instead of classes with methods, because every statement is about all interleavings of several goroutines.
- Task contexts and their timeouts, the time limit of Shutdown, and SafeGo; Shutdown is its two effects, closing workCh and cancelling, taken at any time.
- WorkerPools.WorkersSurviveTasks: that the deferred recover returns a worker to its loop is part of the step that ends a task, as the semantics of Go has it.
- WorkerPools.ClosedPoolFinishes: every running task is taken to end some time.
- Batches.BatchReturns: the same.
- Batch is proved for at least one worker and a context that is never cancelled; the deferred Shutdown after its return changes nothing that was claimed.
- That a nil result of Submit means an accepted task: during a shutdown it does not, which the model keeps as a step of its own.
- The prose of a violation (message and suggestion), and fields of a schema that the comparator never reads.
- Cytoscape.CytoscapeBuild.AddTransitiveDependencies: under a depth limit leaves open at which level a node was met that is reached in several ways, because that depends on the order of the dependencies.
- Cytoscape.BuildCytoscapeGraph: the same under a depth limit.
- SprocketDrain.AcyclicDrains: goes one way only, because a stale edge that closes a cycle may be gone before the cycle comes round. DrainsIff is exact for every state that a fixed storage can lead to.
