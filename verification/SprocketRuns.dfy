// The recompiler as a system of steps: outside requests, the ticks of checkQueue and the compiles of
// its batch may interleave in any way.  Next uses the functions that the methods of Compiler are
// proved to compute.
module SprocketRuns {
  import opened Wrappers
  import opened Reachability
  import opened DependencyGraphs
  import opened SprocketGraphs
  import opened SprocketLaws
  import opened SprocketDependents
  import opened SprocketCompilers

  /** batch holds the requests that checkQueue has taken and not yet compiled; log is a history
      variable: the keys compiled so far, in order. */
  datatype State = State(graph: View, queue: Queue, processed: map<string, int>, batch: seq<CompilationRequest>,
                         now: int, log: seq<string>)

  datatype Step =
    | Request(moduleName: string, version: string, additionalDelay: int, now: int)
    | Take(batch: seq<CompilationRequest>, now: int)
    | CompileNext(found: Option<seq<string>>, now: int)
    | Clean(now: int)

  const INITIAL := State(map[], map[], map[], [], 0, [])

  /** How the program starts: the modules found in the storage are in the graph, none is compiled. */
  function Scanned(adds: seq<Addition>): State {
    INITIAL.(graph := BuiltBy(adds))
  }

  /** The state after the first request of the batch has been compiled. */
  ghost function Compiled(delay: int, s: State, found: Option<seq<string>>, now: int): State
    requires s.batch != []
  {
    match found
    case None => s.(batch := s.batch[1..], now := now)
    case Some(deps) =>
      var r := s.batch[0];
      var graph := AddedNode(s.graph, r.moduleName, r.version, deps);
      State(graph, Requeued(delay, s.queue, Tree(graph, RequestKey(r)), now), s.processed, s.batch[1..], now,
            s.log + [RequestKey(r)])
  }

  ghost predicate Next(delay: int, s: State, step: Step, s': State) {
    && s.now <= step.now
    && match step
       case Request(m, v, additional, now) =>
         s' == s.(queue := Requested(delay, s.queue, s.processed, m, v, additional, now), now := now)
       case Take(batch, now) =>
         && s.batch == [] && IsBatch(delay, s.queue, now, batch)
         && s' == s.(queue := NotReady(delay, s.queue, now), batch := batch,
                     processed := MarkedProcessed(s.processed, Members(RequestKeys(batch)), now), now := now)
       case CompileNext(found, now) =>
         s.batch != [] && s' == Compiled(delay, s, found, now)
       case Clean(now) =>
         s' == s.(processed := map k | k in s.processed && now - s.processed[k] <= TWO_MINUTES :: s.processed[k],
                  now := now)
  }

  ghost predicate IsRun(delay: int, states: seq<State>, steps: seq<Step>) {
    |states| == |steps| + 1 && forall i | 0 <= i < |steps| :: Next(delay, states[i], steps[i], states[i + 1])
  }

  predicate Pending(s: State, key: string) {
    key in s.queue || key in RequestKeys(s.batch)
  }

  /** Step number i of a run compiles the key, or fails to find it in the storage. */
  predicate Attempts(states: seq<State>, steps: seq<Step>, i: nat, key: string)
    requires i < |steps| < |states|
  {
    steps[i].CompileNext? && states[i].batch != [] && RequestKey(states[i].batch[0]) == key
  }

  lemma PendingStep(delay: int, s: State, step: Step, s': State, key: string)
    requires Next(delay, s, step, s') && Pending(s, key) && FiledByKey(s.queue)
    ensures Pending(s', key) || (step.CompileNext? && s.batch != [] && RequestKey(s.batch[0]) == key)
  {
    hide AddedNode, ParseDependencyKey, Requested, Tree, RequestKeys, RequestKey;
    match step {
      case Request(m, v, additional, now) =>
        RequestedKeeps(delay, s.queue, s.processed, m, v, additional, now);
      case Take(batch, now) =>
        assert RequestKeys([]) == [];
      case CompileNext(found, now) =>
        assert RequestKeys(s.batch) == [RequestKey(s.batch[0])] + RequestKeys(s.batch[1..]);
      case Clean(now) =>
    }
  }

  lemma RequestedKeeps(delay: int, q: Queue, processed: map<string, int>, m: string, v: string, additional: int,
                       now: int)
    ensures q.Keys <= Requested(delay, q, processed, m, v, additional, now).Keys
  {
    hide ModuleVersionKey;
  }

  lemma FiledStep(delay: int, s: State, step: Step, s': State)
    requires Next(delay, s, step, s') && FiledByKey(s.queue)
    ensures FiledByKey(s'.queue)
  {
    hide AddedNode, ParseDependencyKey, Tree;
    forall k | WellFormed(k) ensures ModuleVersionKey(ParseDependencyKey(k)[0], ParseDependencyKey(k)[1]) == k {
      ParsedKeyRebuilds(k);
    }
  }

  lemma {:induction false} FiledInRun(delay: int, states: seq<State>, steps: seq<Step>, i: nat)
    requires IsRun(delay, states, steps) && i < |states| && FiledByKey(states[0].queue)
    ensures FiledByKey(states[i].queue)
  {
    if i > 0 {
      FiledInRun(delay, states, steps, i - 1);
      assert Next(delay, states[i - 1], steps[i - 1], states[i - 1 + 1]);
      FiledStep(delay, states[i - 1], steps[i - 1], states[i]);
    }
  }

  /** A pending key stays pending until it is attempted. */
  lemma {:induction false} PendingUntilAttempted(delay: int, states: seq<State>, steps: seq<Step>, i: nat, j: nat,
                                                 key: string)
    requires IsRun(delay, states, steps) && FiledByKey(states[0].queue)
    requires i <= j < |states| && Pending(states[i], key)
    ensures Pending(states[j], key) || exists l | i <= l < j :: Attempts(states, steps, l, key)
  {
    hide Next, Pending, FiledByKey, RequestKey;
    if i < j {
      PendingUntilAttempted(delay, states, steps, i, j - 1, key);
      if Pending(states[j - 1], key) {
        assert Next(delay, states[j - 1], steps[j - 1], states[j - 1 + 1]);
        FiledInRun(delay, states, steps, j - 1);
        PendingStep(delay, states[j - 1], steps[j - 1], states[j], key);
        assert Pending(states[j], key) || Attempts(states, steps, j - 1, key);
      }
    }
  }

  /** Whenever a module has been compiled, each of its transitive dependents in the graph of that
      moment is queued, waits in the batch, or has been attempted since: in every run, whatever the
      storage answers and whatever is requested from outside. */
  lemma DependentsFollow(delay: int, states: seq<State>, steps: seq<Step>, i: nat, j: nat, key: string, d: string)
    requires IsRun(delay, states, steps) && FiledByKey(states[0].queue) && i < j < |states|
    requires Attempts(states, steps, i, key) && steps[i].found.Some?
    requires d in Tree(states[i + 1].graph, key) && WellFormed(d)
    ensures Pending(states[j], d) || exists l | i < l < j :: Attempts(states, steps, l, d)
  {
    hide AddedNode, Tree, ParseDependencyKey;
    assert Next(delay, states[i], steps[i], states[i + 1]);
    assert d in states[i + 1].queue;
    PendingUntilAttempted(delay, states, steps, i + 1, j, d);
  }

  // ---- freshness: what is built is newer than what it was built from

  /** The position of the last occurrence, or -1. */
  function LastIn(log: seq<string>, key: string): (i: int)
    ensures -1 <= i < |log|
    ensures i == -1 <==> key !in log
  {
    if log == [] then -1
    else if log[|log| - 1] == key then |log| - 1
    else
      assert log == log[..|log| - 1] + [log[|log| - 1]];
      LastIn(log[..|log| - 1], key)
  }

  lemma LastAfterAppend(log: seq<string>, x: string, key: string)
    ensures LastIn(log + [x], key) == if key == x then |log| else LastIn(log, key)
  {
    assert (log + [x])[..|log|] == log;
  }

  predicate Plain(m: string, v: string) {
    '@' !in m && '@' !in v
  }

  /** The shape of reachable states when all requested names are free of '@'. */
  ghost predicate Regular(s: State) {
    && FiledByKey(s.queue)
    && DependentsInverse(s.graph) && DependenciesPresent(s.graph)
    && (forall k | k in s.graph :: WellFormed(k))
    && PlainQueue(s.queue)
    && (forall r | r in s.batch :: Plain(r.moduleName, r.version))
  }

  /** A module that depends on one that has been compiled was compiled after it, unless it is still
      waiting to be. */
  ghost predicate Fresh(s: State) {
    forall d, e | d in s.graph && e in s.graph[d].dependencies && e in s.log ::
      Pending(s, d) || LastIn(s.log, d) > LastIn(s.log, e)
  }

  /** What has not been compiled has the dependencies it had in g at the start. */
  ghost predicate OthersAsIn(g: View, s: State) {
    && g.Keys <= s.graph.Keys
    && forall d | d in s.graph && d !in s.log :: s.graph[d].dependencies == DependenciesIn(g, d)
  }

  predicate PlainStep(step: Step) {
    step.Request? ==> Plain(step.moduleName, step.version)
  }

  predicate FoundStep(step: Step) {
    step.CompileNext? ==> step.found.Some?
  }

  lemma RegularCompile(delay: int, s: State, found: Option<seq<string>>, now: int)
    requires Regular(s) && s.batch != [] && FiledByKey(Compiled(delay, s, found, now).queue)
    ensures Regular(Compiled(delay, s, found, now))
  {
    hide AddedNode, Tree, DependentsInverse, DependenciesPresent, FiledByKey;
    hide WellFormed, PlainQueue, Requeued, RequestKey;
    if found.Some? {
      var r := s.batch[0];
      assert Plain(r.moduleName, r.version);
      PlainKeyWellFormed(r.moduleName, r.version);
      KeepsRegularGraph(s.graph, r.moduleName, r.version, found.value);
      RequeuedPlain(delay, s.queue, Tree(Compiled(delay, s, found, now).graph, RequestKey(r)), now);
    }
  }

  lemma RegularStep(delay: int, s: State, step: Step, s': State)
    requires Next(delay, s, step, s') && Regular(s) && PlainStep(step)
    ensures Regular(s')
  {
    FiledStep(delay, s, step, s');
    hide Compiled, DependentsInverse, DependenciesPresent, FiledByKey, WellFormed;
    match step {
      case CompileNext(found, now) =>
        RegularCompile(delay, s, found, now);
      case Take(batch, now) =>
        hide PlainQueue;
        BatchPlain(delay, s.queue, now, batch);
      case _ =>
    }
  }

  ghost predicate PlainQueue(q: Queue) {
    forall k | k in q :: Plain(q[k].moduleName, q[k].version)
  }

  lemma RequeuedPlain(delay: int, q: Queue, tree: set<string>, now: int)
    requires PlainQueue(q)
    ensures PlainQueue(Requeued(delay, q, tree, now))
  {
    hide ParseDependencyKey;
    forall k | WellFormed(k) ensures Plain(ParseDependencyKey(k)[0], ParseDependencyKey(k)[1]) {
      ParsedKeyRebuilds(k);
    }
  }

  lemma BatchPlain(delay: int, q: Queue, now: int, batch: seq<CompilationRequest>)
    requires PlainQueue(q) && IsBatch(delay, q, now, batch)
    ensures (forall r | r in batch :: Plain(r.moduleName, r.version)) && PlainQueue(NotReady(delay, q, now))
  {
  }

  lemma KeepsRegularGraph(g: View, m: string, v: string, deps: seq<string>)
    requires DependentsInverse(g) && DependenciesPresent(g) && (forall k | k in g :: WellFormed(k))
    requires WellFormed(ModuleVersionKey(m, v))
    ensures DependentsInverse(AddedNode(g, m, v, deps)) && DependenciesPresent(AddedNode(g, m, v, deps))
    ensures forall k | k in AddedNode(g, m, v, deps) :: WellFormed(k)
  {
    hide AddedNode, WellFormed, ModuleVersionKey;
    AddNodeKeepsInverseIff(g, m, v, deps);
    AddedNodeIs(g, m, v, deps);
  }

  lemma FreshCompile(delay: int, s: State, found: Option<seq<string>>, now: int)
    requires Regular(s) && Fresh(s) && s.batch != [] && found.Some? && s.now <= now
             && Regular(Compiled(delay, s, found, now))
    ensures Fresh(Compiled(delay, s, found, now))
  {
    hide AddedNode, ParseDependencyKey, LastIn, Tree, ModuleVersionKey;
    var s', r := Compiled(delay, s, found, now), s.batch[0];
    var x := RequestKey(r);
    AddedNodeIs(s.graph, r.moduleName, r.version, found.value);
    forall d, e | d in s'.graph && e in s'.graph[d].dependencies && e in s'.log
      ensures Pending(s', d) || LastIn(s'.log, d) > LastIn(s'.log, e)
    {
      LastAfterAppend(s.log, x, d);
      LastAfterAppend(s.log, x, e);
      if e == x {
        DependentInTree(s'.graph, x, d);
        assert d in s'.queue;
      } else if d != x {
        assert Pending(s, d) || LastIn(s.log, d) > LastIn(s.log, e);
        if Pending(s, d) {
          PendingStep(delay, s, CompileNext(found, now), s', d);
        }
      }
    }
  }

  lemma DependentInTree(g: View, x: string, d: string)
    requires DependentsInverse(g) && x in g && d in g && x in g[d].dependencies
    ensures d in Tree(g, x)
  {
    var h := DependentEdges(g);
    assert d in g[x].dependents <==> x in DependenciesIn(g, d);
    ReachesSelf(h, x);
    ReachesThenEdge(h, x, x, d);
  }

  lemma FreshStep(delay: int, s: State, step: Step, s': State)
    requires Next(delay, s, step, s') && Regular(s) && Fresh(s) && PlainStep(step) && FoundStep(step)
    ensures Fresh(s')
  {
    RegularStep(delay, s, step, s');
    if step.CompileNext? {
      FreshCompile(delay, s, step.found, step.now);
    } else {
      hide AddedNode, ParseDependencyKey, LastIn;
      forall d, e | d in s'.graph && e in s'.graph[d].dependencies && e in s'.log
        ensures Pending(s', d) || LastIn(s'.log, d) > LastIn(s'.log, e)
      {
        if Pending(s, d) {
          PendingStep(delay, s, step, s', d);
        }
      }
    }
  }

  lemma OthersCompile(delay: int, g: View, s: State, found: Option<seq<string>>, now: int)
    requires OthersAsIn(g, s) && s.batch != [] && found.Some?
    ensures OthersAsIn(g, Compiled(delay, s, found, now))
  {
    var r, s' := s.batch[0], Compiled(delay, s, found, now);
    AddedNodeIs(s.graph, r.moduleName, r.version, found.value);
    hide AddedNode, Requeued, Tree, WellFormed, ModuleVersionKey;
    assert s'.log == s.log + [RequestKey(r)] && s'.log[|s.log|] == RequestKey(r);
    forall d | d in s'.graph && d !in s'.log ensures s'.graph[d].dependencies == DependenciesIn(g, d) {
      assert d != RequestKey(r) && d !in s.log;
    }
  }

  lemma OthersStep(delay: int, g: View, s: State, step: Step, s': State)
    requires Next(delay, s, step, s') && OthersAsIn(g, s)
    ensures OthersAsIn(g, s')
  {
    hide Compiled, Requested, IsBatch, NotReady;
    if step.CompileNext? && step.found.Some? {
      OthersCompile(delay, g, s, step.found, step.now);
    } else if step.CompileNext? {
      FailedKeepsGraph(delay, s, step.now);
    }
  }

  lemma FailedKeepsGraph(delay: int, s: State, now: int)
    requires s.batch != []
    ensures Compiled(delay, s, None, now).graph == s.graph && Compiled(delay, s, None, now).log == s.log
  {
  }

  /** A run of the program: it starts after the scan, whatever that found. */
  ghost predicate PlainRun(delay: int, adds: seq<Addition>, states: seq<State>, steps: seq<Step>) {
    && IsRun(delay, states, steps) && states[0] == Scanned(adds) && PlainNames(adds)
    && forall i | 0 <= i < |steps| :: PlainStep(steps[i])
  }

  lemma ScannedIsRegular(adds: seq<Addition>)
    requires PlainNames(adds)
    ensures Regular(Scanned(adds)) && Fresh(Scanned(adds)) && OthersAsIn(BuiltBy(adds), Scanned(adds))
  {
    BuiltIsInverse(adds);
    hide BuiltBy, WellFormed;
  }

  lemma {:induction false} FreshInRun(delay: int, adds: seq<Addition>, states: seq<State>, steps: seq<Step>, i: nat)
    requires PlainRun(delay, adds, states, steps) && i < |states|
    requires forall j | 0 <= j < |steps| :: FoundStep(steps[j])
    ensures Regular(states[i]) && Fresh(states[i]) && OthersAsIn(BuiltBy(adds), states[i])
  {
    hide Regular, Fresh, OthersAsIn, Next, BuiltBy;
    if i == 0 {
      ScannedIsRegular(adds);
    } else {
      FreshInRun(delay, adds, states, steps, i - 1);
      assert Next(delay, states[i - 1], steps[i - 1], states[i - 1 + 1]) && PlainStep(steps[i - 1]);
      RegularStep(delay, states[i - 1], steps[i - 1], states[i]);
      FreshStep(delay, states[i - 1], steps[i - 1], states[i]);
      OthersStep(delay, BuiltBy(adds), states[i - 1], steps[i - 1], states[i]);
    }
  }

  /** Once nothing is pending, whatever depends on a compiled module, directly or not, was compiled
      after it. */
  lemma QuiescentIsFresh(delay: int, adds: seq<Addition>, states: seq<State>, steps: seq<Step>, d: string, e: string)
    requires PlainRun(delay, adds, states, steps) && forall j | 0 <= j < |steps| :: FoundStep(steps[j])
    requires var s := states[|steps|]; s.queue == map[] && s.batch == [] && e in s.log
    requires ReachesPlus(DependencyEdges(states[|steps|].graph), d, e)
    ensures LastIn(states[|steps|].log, d) > LastIn(states[|steps|].log, e)
  {
    var s := states[|steps|];
    FreshInRun(delay, adds, states, steps, |steps|);
    var p :| WalkFromTo(DependencyEdges(s.graph), p, d, e) && |p| >= 2;
    hide Regular, PlainRun, LastIn, OthersAsIn;
    assert RequestKeys(s.batch) == [];
    var n := |p| - 1;
    for i := n downto 0
      invariant p[i] in s.log && (i < n ==> LastIn(s.log, p[i]) > LastIn(s.log, e))
    {
      assert Edge(DependencyEdges(s.graph), p[i], p[i + 1]);
      assert LastIn(s.log, p[i]) > LastIn(s.log, p[i + 1]);
    }
  }

  /** What a run that started with an empty graph knows the dependencies of, it has compiled. */
  lemma UnscannedIsCompiled(delay: int, states: seq<State>, steps: seq<Step>, d: string)
    requires PlainRun(delay, [], states, steps) && forall j | 0 <= j < |steps| :: FoundStep(steps[j])
    requires DependenciesIn(states[|steps|].graph, d) != {}
    ensures d in states[|steps|].log
  {
    FreshInRun(delay, [], states, steps, |steps|);
    hide Regular, Fresh;
  }
}
