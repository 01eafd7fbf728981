// When the recompiler comes to rest by itself: with the storage fixed and no requests from outside,
// how many compiles can there be?
module SprocketDrain {
  import opened Wrappers
  import opened Reachability
  import opened DependencyGraphs
  import opened SprocketGraphs
  import opened SprocketLaws
  import opened SprocketDependents
  import opened SprocketCompilers
  import opened SprocketRuns

  type ModuleStore = map<(string, string), seq<string>>

  function Found(storage: ModuleStore, r: CompilationRequest): Option<seq<string>> {
    if (r.moduleName, r.version) in storage then Some(storage[(r.moduleName, r.version)]) else None
  }

  function PairOf(key: string): (string, string)
    requires WellFormed(key)
  {
    (ParseDependencyKey(key)[0], ParseDependencyKey(key)[1])
  }

  predicate Stored(storage: ModuleStore, key: string) {
    WellFormed(key) && PairOf(key) in storage
  }

  function StoredDependencies(storage: ModuleStore, key: string): set<string> {
    if Stored(storage, key) then Members(storage[PairOf(key)]) else {}
  }

  /** compile finds what the fixed storage holds. */
  predicate Fixed(storage: ModuleStore, s: State, step: Step) {
    step.CompileNext? && s.batch != [] ==> step.found == Found(storage, s.batch[0])
  }

  predicate Quiet(storage: ModuleStore, s: State, step: Step) {
    !step.Request? && Fixed(storage, s, step)
  }

  /** A state whose requests have plain names and whose batch holds no key twice. */
  ghost predicate Orderly(s: State) {
    Regular(s) && Distinct(RequestKeys(s.batch))
  }

  // ---- the weight of a module: one for itself and, if it is stored, the weights of all that u leads to

  /** u is any graph of dependents; the weight is counted through at most n levels. */
  ghost function Weight(storage: ModuleStore, u: Digraph<string>, x: string, n: nat): (w: nat)
    ensures w >= 1
    decreases n, 0
  {
    if n == 0 || !Stored(storage, x) then 1 else 1 + Sum(storage, u, Beyond(u, x), n - 1)
  }

  ghost function Sum(storage: ModuleStore, u: Digraph<string>, s: set<string>, n: nat): nat
    decreases n, 1, s
  {
    if s == {} then 0
    else
      var k :| k in s;
      Weight(storage, u, k, n) + Sum(storage, u, s - {k}, n)
  }

  lemma {:induction false} SumSplit(storage: ModuleStore, u: Digraph<string>, s: set<string>, x: string, n: nat)
    requires x in s
    ensures Sum(storage, u, s, n) == Weight(storage, u, x, n) + Sum(storage, u, s - {x}, n)
    decreases s
  {
    hide Weight;
    var k :| k in s && Sum(storage, u, s, n) == Weight(storage, u, k, n) + Sum(storage, u, s - {k}, n);
    if k != x {
      SumSplit(storage, u, s - {k}, x, n);
      SumSplit(storage, u, s - {x}, k, n);
      assert s - {k} - {x} == s - {x} - {k};
    }
  }

  lemma SumOfNothing(storage: ModuleStore, u: Digraph<string>, n: nat)
    ensures Sum(storage, u, {}, n) == 0
  {
  }

  lemma SumOfOne(storage: ModuleStore, u: Digraph<string>, x: string, n: nat)
    ensures Sum(storage, u, {x}, n) == Weight(storage, u, x, n)
  {
    hide Weight, Sum;
    SumSplit(storage, u, {x}, x, n);
    SumOfNothing(storage, u, n);
    assert {x} - {x} == {};
  }

  lemma {:induction false} SumUnion(storage: ModuleStore, u: Digraph<string>, a: set<string>, b: set<string>, n: nat)
    ensures Sum(storage, u, a + b, n) <= Sum(storage, u, a, n) + Sum(storage, u, b, n)
    ensures a !! b ==> Sum(storage, u, a + b, n) == Sum(storage, u, a, n) + Sum(storage, u, b, n)
    decreases b
  {
    hide Weight, Sum;
    if b == {} {
      assert a + b == a;
      SumOfNothing(storage, u, n);
    } else {
      var x :| x in b;
      SumSplit(storage, u, b, x, n);
      SumUnion(storage, u, a, b - {x}, n);
      if x in a {
        assert a + b == a + (b - {x});
      } else {
        SumSplit(storage, u, a + b, x, n);
        assert a + b - {x} == a + (b - {x});
      }
    }
  }

  lemma SumOfPart(storage: ModuleStore, u: Digraph<string>, a: set<string>, b: set<string>, n: nat)
    requires a <= b
    ensures Sum(storage, u, a, n) <= Sum(storage, u, b, n)
  {
    hide Sum;
    SumUnion(storage, u, a, b - a, n);
    assert a + (b - a) == b;
  }

  ghost predicate StoredEdgesIn(storage: ModuleStore, u: Digraph<string>, k: string) {
    forall n | n in StoredDependencies(storage, k) :: Edge(u, n, k)
  }

  ghost predicate Sound(storage: ModuleStore, u: Digraph<string>, k: string) {
    Stored(storage, k) ==> k !in Beyond(u, k) && StoredEdgesIn(storage, u, k)
  }

  /** No stored module that a stored x leads to lies on a cycle, and u has the stored dependencies of each. */
  ghost predicate Tame(storage: ModuleStore, u: Digraph<string>, x: string) {
    Stored(storage, x) ==> Sound(storage, u, x) && forall k | k in Beyond(u, x) :: Sound(storage, u, k)
  }

  lemma BeyondMember(u: Digraph<string>, x: string, d: string)
    requires d in Beyond(u, x)
    ensures Beyond(u, d) <= Beyond(u, x)
    ensures d !in Beyond(u, d) ==> |Beyond(u, d)| < |Beyond(u, x)|
  {
    forall k | k in Beyond(u, d) ensures k in Beyond(u, x) {
      var y := FirstStep(u, d, k);
      ReachesThenEdge(u, d, d, y) by {
        ReachesSelf(u, d);
      }
      PlusThenReaches(u, x, d, y) by {
        ReachesSelf(u, y);
        EdgeThenReaches(u, d, y, y);
      }
      PlusThenReaches(u, x, y, k);
    }
    if d !in Beyond(u, d) {
      SubsetSmaller(Beyond(u, d), Beyond(u, x), d);
    }
  }

  lemma TameMember(storage: ModuleStore, u: Digraph<string>, x: string, d: string)
    requires Tame(storage, u, x) && Stored(storage, x) && d in Beyond(u, x)
    ensures Tame(storage, u, d)
    ensures Stored(storage, d) ==> |Beyond(u, d)| < |Beyond(u, x)|
  {
    hide Beyond, StoredEdgesIn, Stored;
    BeyondMember(u, x, d);
    assert Sound(storage, u, d);
  }

  lemma SubsetSmaller(a: set<string>, b: set<string>, x: string)
    requires a <= b && x in b && x !in a
    ensures |a| < |b|
  {
    SubsetAtMost(a, b - {x});
  }

  lemma SubsetAtMost(a: set<string>, b: set<string>)
    requires a <= b
    ensures |a| <= |b|
  {
    assert b == a + (b - a);
  }

  ghost predicate Low(storage: ModuleStore, u: Digraph<string>, x: string, n: nat) {
    Tame(storage, u, x) && (Stored(storage, x) ==> |Beyond(u, x)| <= n)
  }

  lemma {:induction false} WeightSettles(storage: ModuleStore, u: Digraph<string>, x: string, n: nat)
    requires Low(storage, u, x, n)
    ensures Weight(storage, u, x, n + 1) == Weight(storage, u, x, n)
    decreases n, 0
  {
    hide Tame, Stored, Sum, Beyond;
    if Stored(storage, x) {
      if n > 0 {
        forall d | d in Beyond(u, x) ensures Low(storage, u, d, n - 1) {
          TameMember(storage, u, x, d);
        }
        SumSettles(storage, u, Beyond(u, x), n - 1);
      } else {
        assert Beyond(u, x) == {};
        SumOfNothing(storage, u, 0);
      }
    }
  }

  lemma {:induction false} SumSettles(storage: ModuleStore, u: Digraph<string>, s: set<string>, n: nat)
    requires forall d | d in s :: Low(storage, u, d, n)
    ensures Sum(storage, u, s, n + 1) == Sum(storage, u, s, n)
    decreases n, 1, s
  {
    hide Low, Weight, Sum;
    if s != {} {
      var x :| x in s;
      SumSplit(storage, u, s, x, n);
      SumSplit(storage, u, s, x, n + 1);
      WeightSettles(storage, u, x, n);
      SumSettles(storage, u, s - {x}, n);
    } else {
      SumOfNothing(storage, u, n);
      SumOfNothing(storage, u, n + 1);
    }
  }

  /** At least as many levels as any set Beyond has members. */
  ghost function Levels(u: Digraph<string>): nat {
    |set n, k | n in u && k in u[n] :: k|
  }

  lemma LevelsSuffice(u: Digraph<string>, x: string)
    ensures |Beyond(u, x)| <= Levels(u)
  {
    var all := set n, k | n in u && k in u[n] :: k;
    forall k | k in Beyond(u, x) ensures k in all {
      var n := LastStep(u, x, k);
    }
    SubsetAtMost(Beyond(u, x), all);
  }

  /** A compile is paid for: a stored module weighs one more than all that u leads to. */
  lemma WeightPays(storage: ModuleStore, u: Digraph<string>, x: string)
    requires Tame(storage, u, x) && Stored(storage, x)
    ensures Weight(storage, u, x, Levels(u)) == 1 + Sum(storage, u, Beyond(u, x), Levels(u))
  {
    hide Sum, Tame, Beyond, Levels, Stored;
    LevelsSuffice(u, x);
    WeightSettles(storage, u, x, Levels(u));
  }

  ghost function Potential(storage: ModuleStore, u: Digraph<string>, s: State): nat {
    Sum(storage, u, s.queue.Keys, Levels(u)) + Sum(storage, u, Members(RequestKeys(s.batch)), Levels(u))
  }

  // ---- what one step does

  lemma OrderlyStep(delay: int, s: State, step: Step, s': State)
    requires Next(delay, s, step, s') && Orderly(s) && PlainStep(step)
    ensures Orderly(s')
  {
    RegularStep(delay, s, step, s');
    hide Regular, Distinct, Compiled, RequestKeys;
    match step {
      case CompileNext(found, now) =>
        HeadOfBatch(s);
        assert s'.batch == s.batch[1..] by {
          TailOfBatch(delay, s, found, now);
        }
      case _ =>
    }
  }

  lemma TailOfBatch(delay: int, s: State, found: Option<seq<string>>, now: int)
    requires s.batch != []
    ensures Compiled(delay, s, found, now).batch == s.batch[1..]
  {
    hide AddedNode, Requeued;
  }

  lemma HeadOfBatch(s: State)
    requires s.batch != [] && Distinct(RequestKeys(s.batch))
    ensures Members(RequestKeys(s.batch)) == Members(RequestKeys(s.batch[1..])) + {RequestKey(s.batch[0])}
    ensures RequestKey(s.batch[0]) !in Members(RequestKeys(s.batch[1..])) && Distinct(RequestKeys(s.batch[1..]))
    ensures Pending(s, RequestKey(s.batch[0]))
  {
    assert RequestKeys(s.batch) == [RequestKey(s.batch[0])] + RequestKeys(s.batch[1..]);
    assert RequestKeys(s.batch)[0] == RequestKey(s.batch[0]);
  }

  /** The compile of the head of the batch: its key, and what the storage has for it. */
  lemma HeadIsPlain(storage: ModuleStore, s: State)
    requires Regular(s) && s.batch != []
    ensures var r := s.batch[0];
            && WellFormed(RequestKey(r)) && PairOf(RequestKey(r)) == (r.moduleName, r.version)
            && (Found(storage, r).Some? <==> Stored(storage, RequestKey(r)))
            && (Found(storage, r).Some? ==>
                  Members(Found(storage, r).value) == StoredDependencies(storage, RequestKey(r)))
  {
    var r := s.batch[0];
    assert r in s.batch && Plain(r.moduleName, r.version);
    PlainNamesParse(r.moduleName, r.version);
    hide ParseDependencyKey, ModuleVersionKey;
  }

  lemma TreeInGraph(g: View, x: string)
    requires DependentsInverse(g)
    ensures Tree(g, x) <= g.Keys
  {
    forall k | k in Tree(g, x) ensures k in g {
      var n := LastStep(DependentEdges(g), x, k);
      assert k in g[n].dependents <==> n in DependenciesIn(g, k);
    }
  }

  lemma RequeuedKeys(delay: int, q: Queue, tree: set<string>, now: int)
    requires forall k | k in tree :: WellFormed(k)
    ensures Requeued(delay, q, tree, now).Keys == q.Keys + tree
  {
    hide ParseDependencyKey, WellFormed;
  }

  /** A compile takes the head from the batch; a successful one queues its whole tree. */
  lemma CompileShape(delay: int, storage: ModuleStore, s: State, now: int)
    requires Orderly(s) && s.batch != [] && s.now <= now
    ensures var x, s' := RequestKey(s.batch[0]), Compiled(delay, s, Found(storage, s.batch[0]), now);
            && Orderly(s') && s'.batch == s.batch[1..]
            && (!Stored(storage, x) ==> s'.graph == s.graph && s'.queue == s.queue)
            && (Stored(storage, x) ==> s'.queue.Keys == s.queue.Keys + Tree(s'.graph, x))
  {
    var r := s.batch[0];
    var x, s' := RequestKey(r), Compiled(delay, s, Found(storage, r), now);
    HeadIsPlain(storage, s);
    assert Next(delay, s, CompileNext(Found(storage, r), now), s');
    OrderlyStep(delay, s, CompileNext(Found(storage, r), now), s');
    TailOfBatch(delay, s, Found(storage, r), now);
    hide AddedNode, Tree, Requeued, RequestKey, Stored, WellFormed;
    if Stored(storage, x) {
      TreeInGraph(s'.graph, x);
      RequeuedKeys(delay, s.queue, Tree(s'.graph, x), now);
    }
  }

  /** The graph after the compile of a stored module, key by key. */
  lemma CompiledGraph(delay: int, storage: ModuleStore, s: State, now: int)
    requires Orderly(s) && s.batch != [] && s.now <= now && Stored(storage, RequestKey(s.batch[0]))
    ensures var x, g' := RequestKey(s.batch[0]), Compiled(delay, s, Found(storage, s.batch[0]), now).graph;
            && x in g'
            && forall k :: DependenciesIn(g', k) == if k == x then StoredDependencies(storage, x)
                else DependenciesIn(s.graph, k)
  {
    var r := s.batch[0];
    HeadIsPlain(storage, s);
    AddedNodeIs(s.graph, r.moduleName, r.version, Found(storage, r).value);
    hide AddedNode, Requeued, WellFormed, ModuleVersionKey, Stored;
  }

  lemma TakeSplits(delay: int, q: Queue, now: int, batch: seq<CompilationRequest>)
    requires IsBatch(delay, q, now, batch)
    ensures q.Keys == NotReady(delay, q, now).Keys + Members(RequestKeys(batch))
    ensures NotReady(delay, q, now).Keys !! Members(RequestKeys(batch))
  {
    forall k | k in RequestKeys(batch) ensures k in q && Ready(delay, q[k], now) {
      var i :| 0 <= i < |batch| && RequestKeys(batch)[i] == k;
      assert batch[i] in batch;
    }
  }

  /** checkQueue moves requests without adding or losing any. */
  lemma TakeKeepsPending(delay: int, s: State, batch: seq<CompilationRequest>, now: int, s': State)
    requires Next(delay, s, Take(batch, now), s')
    ensures s'.graph == s.graph && forall k :: Pending(s', k) <==> Pending(s, k)
  {
    TakeSplits(delay, s.queue, now, batch);
    hide IsBatch, NotReady;
    assert RequestKeys(s.batch) == [];
    forall k ensures Pending(s', k) <==> Pending(s, k) {
      assert k in RequestKeys(batch) <==> k in Members(RequestKeys(batch));
      assert k in s.queue.Keys <==> k in s'.queue.Keys + Members(RequestKeys(batch));
    }
  }

  // ---- the bound, from any state

  function Compiles(steps: seq<Step>): nat {
    if steps == [] then 0 else (if steps[0].CompileNext? then 1 else 0) + Compiles(steps[1..])
  }

  ghost predicate QuietRun(delay: int, storage: ModuleStore, states: seq<State>, steps: seq<Step>) {
    IsRun(delay, states, steps) && forall i | 0 <= i < |steps| :: Quiet(storage, states[i], steps[i])
  }

  lemma RunTail(delay: int, storage: ModuleStore, states: seq<State>, steps: seq<Step>)
    requires QuietRun(delay, storage, states, steps) && steps != []
    ensures QuietRun(delay, storage, states[1..], steps[1..])
    ensures Next(delay, states[0], steps[0], states[1]) && Quiet(storage, states[0], steps[0])
  {
    hide Next, Quiet;
    assert Next(delay, states[0], steps[0], states[0 + 1]);
    forall i | 0 <= i < |steps| - 1
      ensures Next(delay, states[1..][i], steps[1..][i], states[1..][i + 1])
      ensures Quiet(storage, states[1..][i], steps[1..][i])
    {
      assert Next(delay, states[i + 1], steps[i + 1], states[i + 1 + 1]);
      assert Quiet(storage, states[i + 1], steps[i + 1]);
    }
  }

  /** u covers the graph and everything pending, and no cycle of u can be fed. */
  ghost predicate Covered(storage: ModuleStore, u: Digraph<string>, s: State) {
    && Subgraph(DependentEdges(s.graph), u)
    && forall k | Pending(s, k) :: Tame(storage, u, k)
  }

  lemma CoveredCompile(delay: int, storage: ModuleStore, u: Digraph<string>, s: State, now: int)
    requires Orderly(s) && s.batch != [] && s.now <= now && Covered(storage, u, s)
    ensures Covered(storage, u, Compiled(delay, s, Found(storage, s.batch[0]), now))
  {
    var x, s' := RequestKey(s.batch[0]), Compiled(delay, s, Found(storage, s.batch[0]), now);
    CompileShape(delay, storage, s, now);
    HeadOfBatch(s);
    hide Compiled, RequestKey, RequestKeys, Tame, Distinct;
    if Stored(storage, x) {
      CoveredEdges(delay, storage, u, s, now);
      SubgraphReaches(DependentEdges(s'.graph), u, x);
    }
    forall k | Pending(s', k) ensures Tame(storage, u, k) {
      if !Pending(s, k) {
        assert k in RequestKeys(s'.batch) ==> k in Members(RequestKeys(s.batch));
        TameMember(storage, u, x, k);
      }
    }
  }

  lemma CoveredEdges(delay: int, storage: ModuleStore, u: Digraph<string>, s: State, now: int)
    requires Orderly(s) && s.batch != [] && s.now <= now && Covered(storage, u, s)
    requires Stored(storage, RequestKey(s.batch[0])) && Pending(s, RequestKey(s.batch[0]))
    ensures Subgraph(DependentEdges(Compiled(delay, s, Found(storage, s.batch[0]), now).graph), u)
  {
    var x, s' := RequestKey(s.batch[0]), Compiled(delay, s, Found(storage, s.batch[0]), now);
    CompileShape(delay, storage, s, now);
    CompiledGraph(delay, storage, s, now);
    assert Tame(storage, u, x);
    hide Compiled, RequestKey, Pending, Stored, StoredDependencies, Beyond;
    forall n, k | Edge(DependentEdges(s'.graph), n, k) ensures Edge(u, n, k) {
      assert k in s'.graph[n].dependents <==> n in DependenciesIn(s'.graph, k);
      if k != x {
        EdgeOfDependency(s.graph, k, n);
      }
    }
  }

  lemma EdgeOfDependency(g: View, k: string, n: string)
    requires DependentsInverse(g) && DependenciesPresent(g) && n in DependenciesIn(g, k) && WellFormed(n)
    ensures Edge(DependentEdges(g), n, k)
  {
    hide WellFormed;
    assert k in g[n].dependents <==> n in DependenciesIn(g, k);
  }

  /** Each compile lowers the potential. */
  lemma PotentialFallsAtCompile(delay: int, storage: ModuleStore, u: Digraph<string>, s: State, now: int)
    requires Orderly(s) && s.batch != [] && s.now <= now && Covered(storage, u, s)
    ensures Potential(storage, u, Compiled(delay, s, Found(storage, s.batch[0]), now)) < Potential(storage, u, s)
  {
    var x, n, s' := RequestKey(s.batch[0]), Levels(u), Compiled(delay, s, Found(storage, s.batch[0]), now);
    CompileShape(delay, storage, s, now);
    CoveredCompile(delay, storage, u, s, now);
    HeadOfBatch(s);
    hide Weight, Sum, Tree, Compiled, Tame, RequestKey, RequestKeys, Levels, Beyond, Orderly, Stored, DependentEdges;
    SumUnion(storage, u, Members(RequestKeys(s.batch[1..])), {x}, n);
    SumOfOne(storage, u, x, n);
    if Stored(storage, x) {
      TreeWithin(s'.graph, u, x);
      SumUnion(storage, u, s.queue.Keys, Tree(s'.graph, x), n);
      SumOfPart(storage, u, Tree(s'.graph, x), Beyond(u, x), n);
      WeightPays(storage, u, x);
    }
  }

  lemma TreeWithin(g: View, u: Digraph<string>, x: string)
    requires Subgraph(DependentEdges(g), u)
    ensures Tree(g, x) <= Beyond(u, x)
  {
    SubgraphReaches(DependentEdges(g), u, x);
  }

  lemma PotentialAtTake(storage: ModuleStore, u: Digraph<string>, s: State, s': State)
    requires s.batch == [] && s'.queue.Keys !! Members(RequestKeys(s'.batch))
    requires s.queue.Keys == s'.queue.Keys + Members(RequestKeys(s'.batch))
    ensures Potential(storage, u, s') == Potential(storage, u, s)
  {
    assert Members(RequestKeys(s.batch)) == {};
    hide Sum, Levels, RequestKeys, Members;
    SumOfSplit(storage, u, s.queue.Keys, s'.queue.Keys, Members(RequestKeys(s'.batch)), Levels(u));
    SumOfNothing(storage, u, Levels(u));
  }

  lemma SumOfSplit(storage: ModuleStore, u: Digraph<string>, all: set<string>, a: set<string>, b: set<string>, n: nat)
    requires all == a + b && a !! b
    ensures Sum(storage, u, all, n) == Sum(storage, u, a, n) + Sum(storage, u, b, n)
  {
    SumUnion(storage, u, a, b, n);
  }

  lemma CoveredStep(delay: int, storage: ModuleStore, u: Digraph<string>, s: State, step: Step, s': State)
    requires Next(delay, s, step, s') && Quiet(storage, s, step) && Orderly(s) && Covered(storage, u, s)
    ensures Orderly(s') && Covered(storage, u, s')
    ensures Potential(storage, u, s') <= Potential(storage, u, s) - (if step.CompileNext? then 1 else 0)
  {
    OrderlyStep(delay, s, step, s');
    hide Orderly, Potential, Compiled, Tame, Pending, Subgraph;
    match step {
      case CompileNext(found, now) =>
        CoveredCompile(delay, storage, u, s, now);
        PotentialFallsAtCompile(delay, storage, u, s, now);
      case Take(batch, now) =>
        hide IsBatch, NotReady, MarkedProcessed;
        TakeKeepsPending(delay, s, batch, now, s');
        TakeSplits(delay, s.queue, now, batch);
        PotentialAtTake(storage, u, s, s');
      case Clean(now) =>
        CleanKeeps(storage, u, s, s');
    }
  }

  lemma CleanKeeps(storage: ModuleStore, u: Digraph<string>, s: State, s': State)
    requires s'.graph == s.graph && s'.queue == s.queue && s'.batch == s.batch
    ensures Covered(storage, u, s) ==> Covered(storage, u, s')
    ensures Potential(storage, u, s') == Potential(storage, u, s)
  {
    hide Tame;
    assert forall k :: Pending(s', k) <==> Pending(s, k);
  }

  /** In every schedule the compiles are at most the weight of what was pending at the start. */
  lemma {:induction false} DrainBound(delay: int, storage: ModuleStore, u: Digraph<string>,
                                      states: seq<State>, steps: seq<Step>)
    requires QuietRun(delay, storage, states, steps) && Orderly(states[0]) && Covered(storage, u, states[0])
    ensures Compiles(steps) + Potential(storage, u, states[|steps|]) <= Potential(storage, u, states[0])
    decreases |steps|
  {
    hide Orderly, Covered, Potential, Next, Quiet;
    if steps != [] {
      RunTail(delay, storage, states, steps);
      CoveredStep(delay, storage, u, states[0], steps[0], states[1]);
      DrainBound(delay, storage, u, states[1..], steps[1..]);
    }
  }

  ghost predicate QuietRunFrom(delay: int, storage: ModuleStore, s: State, states: seq<State>, steps: seq<Step>) {
    QuietRun(delay, storage, states, steps) && states[0] == s
  }

  ghost predicate CompilesAtMost(delay: int, storage: ModuleStore, s: State, bound: nat) {
    forall states, steps | QuietRunFrom(delay, storage, s, states, steps) :: Compiles(steps) <= bound
  }

  lemma CoveredDrains(delay: int, storage: ModuleStore, u: Digraph<string>, s: State)
    requires Orderly(s) && Covered(storage, u, s)
    ensures CompilesAtMost(delay, storage, s, Potential(storage, u, s))
  {
    hide Orderly, Covered, Potential, QuietRun, Compiles;
    forall states, steps | QuietRunFrom(delay, storage, s, states, steps)
      ensures Compiles(steps) <= Potential(storage, u, s)
    {
      DrainBound(delay, storage, u, states, steps);
    }
  }

  /** The dependencies in the graph, and those in the storage of the keys in ks. */
  ghost function WithStored(storage: ModuleStore, g: View, ks: set<string>): Digraph<string> {
    map k | k in g.Keys + ks :: DependenciesIn(g, k) + (if k in ks then StoredDependencies(storage, k) else {})
  }

  /** The dependents that they make. */
  ghost function Prospect(storage: ModuleStore, g: View, ks: set<string>): (u: Digraph<string>)
    ensures forall n, k :: Edge(u, n, k)
              <==> n in DependenciesIn(g, k) || (k in ks && n in StoredDependencies(storage, k))
  {
    ReverseOf(WithStored(storage, g, ks))
  }

  lemma GraphInProspect(storage: ModuleStore, g: View, ks: set<string>)
    requires DependentsInverse(g)
    ensures Subgraph(DependentEdges(g), Prospect(storage, g, ks))
  {
    hide StoredDependencies, Prospect;
    forall n, k | Edge(DependentEdges(g), n, k) ensures Edge(Prospect(storage, g, ks), n, k) {
      assert k in g[n].dependents <==> n in DependenciesIn(g, k);
    }
  }

  function StoredKeys(storage: ModuleStore): set<string> {
    set p | p in storage :: ModuleVersionKey(p.0, p.1)
  }

  lemma StoredKeyListed(storage: ModuleStore, k: string)
    requires Stored(storage, k)
    ensures k in StoredKeys(storage)
  {
    ParsedKeyRebuilds(k);
    hide ParseDependencyKey, ModuleVersionKey;
  }

  /** Whatever the graph holds, stale edges and missing ones included: if no stored module lies on a
      cycle of the graph and the storage together, every schedule drains. */
  lemma AcyclicDrains(delay: int, storage: ModuleStore, s: State)
    requires Orderly(s)
    requires var u := Prospect(storage, s.graph, StoredKeys(storage));
             forall c | Stored(storage, c) :: c !in Beyond(u, c)
    ensures exists bound :: CompilesAtMost(delay, storage, s, bound)
    ensures exists states, steps :: RestsBy(delay, storage, s, states, steps)
  {
    hide Prospect, Stored, StoredKeys, CompilesAtMost;
    var u := Prospect(storage, s.graph, StoredKeys(storage));
    GraphInProspect(storage, s.graph, StoredKeys(storage));
    forall k ensures Sound(storage, u, k) {
      if Stored(storage, k) {
        StoredKeyListed(storage, k);
      }
    }
    CoveredDrains(delay, storage, u, s);
    var states, steps := ComesToRest(delay, storage, u, s);
  }

  // ---- exactly when, for a graph without stale edges

  /** Every dependency of a stored module in the graph is still one in the storage. */
  ghost predicate Current(storage: ModuleStore, s: State) {
    Orderly(s) && forall k | Stored(storage, k) :: DependenciesIn(s.graph, k) <= StoredDependencies(storage, k)
  }

  lemma CurrentStep(delay: int, storage: ModuleStore, s: State, step: Step, s': State)
    requires Next(delay, s, step, s') && Current(storage, s) && PlainStep(step) && Fixed(storage, s, step)
    ensures Current(storage, s')
  {
    OrderlyStep(delay, s, step, s');
    hide Orderly, Compiled, Stored, StoredDependencies, DependenciesIn, RequestKey, Requested, IsBatch, NotReady;
    if step.CompileNext? {
      CurrentCompile(delay, storage, s, step.now);
    }
  }

  lemma CurrentCompile(delay: int, storage: ModuleStore, s: State, now: int)
    requires Current(storage, s) && s.batch != [] && s.now <= now
    ensures Current(storage, Compiled(delay, s, Found(storage, s.batch[0]), now))
  {
    CompileShape(delay, storage, s, now);
    if Stored(storage, RequestKey(s.batch[0])) {
      CompiledGraph(delay, storage, s, now);
    }
    hide Orderly, Compiled, Stored, StoredDependencies, DependenciesIn, RequestKey;
  }

  /** The scan has found only what the storage holds, though perhaps not all of it. */
  predicate FromStorage(storage: ModuleStore, adds: seq<Addition>) {
    forall a | a in adds :: (a.moduleName, a.version) in storage && storage[(a.moduleName, a.version)] == a.dependencies
  }

  lemma {:induction false} ScanIsCurrent(storage: ModuleStore, adds: seq<Addition>, k: string)
    requires PlainNames(adds) && FromStorage(storage, adds)
    ensures DependenciesIn(BuiltBy(adds), k) == {} || DependenciesIn(BuiltBy(adds), k) == StoredDependencies(storage, k)
  {
    hide AddedNode, ParseDependencyKey, ModuleVersionKey;
    if adds != [] {
      var n := |adds| - 1;
      var a, g := adds[n], BuiltBy(adds[..n]);
      assert a in adds && forall x | x in adds[..n] :: x in adds;
      ScanIsCurrent(storage, adds[..n], k);
      assert BuiltBy(adds) == AddedNode(g, a.moduleName, a.version, a.dependencies);
      hide AddedAll, BuiltBy;
      AddedNodeIs(g, a.moduleName, a.version, a.dependencies);
      PlainNamesParse(a.moduleName, a.version);
    }
  }

  /** With a fixed storage every reachable state is of this kind. */
  lemma {:induction false} CurrentInRun(delay: int, storage: ModuleStore, adds: seq<Addition>,
                                        states: seq<State>, steps: seq<Step>, i: nat)
    requires PlainRun(delay, adds, states, steps) && i < |states| && FromStorage(storage, adds)
    requires forall j | 0 <= j < |steps| :: Fixed(storage, states[j], steps[j])
    ensures Current(storage, states[i])
  {
    hide Next, Regular, BuiltBy, StoredDependencies, DependenciesIn, Fixed;
    if i == 0 {
      ScannedIsRegular(adds);
      assert RequestKeys(states[0].batch) == [];
      forall k ensures DependenciesIn(states[0].graph, k) <= StoredDependencies(storage, k) {
        ScanIsCurrent(storage, adds, k);
      }
    } else {
      hide Current;
      CurrentInRun(delay, storage, adds, states, steps, i - 1);
      assert Next(delay, states[i - 1], steps[i - 1], states[i - 1 + 1]) && PlainStep(steps[i - 1]);
      CurrentStep(delay, storage, states[i - 1], steps[i - 1], states[i]);
    }
  }

  ghost predicate StoredPending(storage: ModuleStore, s: State, k: string) {
    Pending(s, k) && Stored(storage, k)
  }

  /** The stored modules that are pending, and all their transitive dependents. */
  ghost function Touched(storage: ModuleStore, s: State): (t: set<string>)
    ensures forall k :: k in t
              <==> StoredPending(storage, s, k) || exists p :: StoredPending(storage, s, p) && k in Tree(s.graph, p)
  {
    var pending := set k | k in s.queue.Keys + Members(RequestKeys(s.batch)) && Stored(storage, k);
    var t := pending + set p, k | p in pending && k in Tree(s.graph, p) :: k;
    assert forall k :: k in pending <==> StoredPending(storage, s, k);
    t
  }

  /** The dependents there are, and those that the compiles of touched modules bring to light. */
  ghost function Future(storage: ModuleStore, s: State): Digraph<string> {
    Prospect(storage, s.graph, Touched(storage, s))
  }

  ghost predicate OnLiveCycle(storage: ModuleStore, s: State, c: string) {
    c in Touched(storage, s) && Stored(storage, c) && c in Beyond(Future(storage, s), c)
  }

  /** A stored module that is touched lies on a cycle. */
  ghost predicate Hot(storage: ModuleStore, s: State) {
    exists c :: OnLiveCycle(storage, s, c)
  }

  lemma TouchedStep(storage: ModuleStore, s: State, n: string, k: string)
    requires Regular(s) && n in Touched(storage, s) && Edge(Future(storage, s), n, k)
    ensures k in Touched(storage, s)
  {
    hide Touched, Stored, StoredDependencies, Pending, Tree, Prospect, DependentEdges;
    if k !in Touched(storage, s) {
      assert n in DependenciesIn(s.graph, k);
      TouchedIsWellFormed(storage, s, n);
      EdgeOfDependency(s.graph, k, n);
      if StoredPending(storage, s, n) {
        ReachesSelf(DependentEdges(s.graph), n);
        ReachesThenEdge(DependentEdges(s.graph), n, n, k);
      } else {
        var p :| StoredPending(storage, s, p) && n in Tree(s.graph, p);
        ReachesSelf(DependentEdges(s.graph), k);
        EdgeThenReaches(DependentEdges(s.graph), n, k, k);
        PlusThenReaches(DependentEdges(s.graph), p, n, k);
      }
    }
  }

  lemma TouchedIsWellFormed(storage: ModuleStore, s: State, n: string)
    requires Regular(s) && n in Touched(storage, s)
    ensures WellFormed(n)
  {
    hide WellFormed, Tree, Touched;
    if !StoredPending(storage, s, n) {
      var p :| StoredPending(storage, s, p) && n in Tree(s.graph, p);
      TreeInGraph(s.graph, p);
    }
  }

  lemma ColdIsCovered(storage: ModuleStore, s: State)
    requires Regular(s) && !Hot(storage, s)
    ensures Covered(storage, Future(storage, s), s)
  {
    var u, t := Future(storage, s), Touched(storage, s);
    GraphInProspect(storage, s.graph, t);
    forall n, k | n in t && Edge(u, n, k) ensures k in t {
      TouchedStep(storage, s, n, k);
    }
    hide Regular, Touched, Stored, StoredDependencies, Pending, Prospect, Beyond;
    forall k | k in t ensures Sound(storage, u, k) {
      assert !OnLiveCycle(storage, s, k);
    }
    forall x | Pending(s, x) ensures Tame(storage, u, x) {
      if Stored(storage, x) {
        assert StoredPending(storage, s, x);
        forall k | k in Beyond(u, x) ensures k in t {
          var y := FirstStep(u, x, k);
          ReachesSelf(u, x);
          EdgeThenReaches(u, x, y, k);
          ClosedKeepsReachable(u, t, x, k);
        }
      }
    }
  }

  // ---- a hot state stays hot

  lemma SameTouched(storage: ModuleStore, s: State, s': State)
    requires s'.graph == s.graph && forall k :: StoredPending(storage, s', k) <==> StoredPending(storage, s, k)
    ensures Hot(storage, s) ==> Hot(storage, s')
  {
    hide StoredPending, Stored, Tree, Beyond;
    assert Touched(storage, s') == Touched(storage, s);
    if c :| OnLiveCycle(storage, s, c) {
      assert OnLiveCycle(storage, s', c);
    }
  }

  /** The compile of a stored module x: what was touched stays touched, except perhaps x itself. */
  ghost predicate Advanced(storage: ModuleStore, x: string, s: State, s': State) {
    && Regular(s') && x in s'.graph
    && Subgraph(DependentEdges(s.graph), DependentEdges(s'.graph))
    && DependenciesIn(s'.graph, x) == StoredDependencies(storage, x)
    && (forall k :: DependenciesIn(s.graph, k) <= DependenciesIn(s'.graph, k))
    && (forall k | StoredPending(storage, s, k) && k != x :: StoredPending(storage, s', k))
    && (forall k | k in Tree(s'.graph, x) :: Pending(s', k))
  }

  lemma CompileAdvances(delay: int, storage: ModuleStore, s: State, now: int)
    requires Current(storage, s) && s.batch != [] && s.now <= now && Stored(storage, RequestKey(s.batch[0]))
    ensures Advanced(storage, RequestKey(s.batch[0]), s, Compiled(delay, s, Found(storage, s.batch[0]), now))
  {
    var x, s' := RequestKey(s.batch[0]), Compiled(delay, s, Found(storage, s.batch[0]), now);
    CompileShape(delay, storage, s, now);
    CompiledGraph(delay, storage, s, now);
    hide Compiled, RequestKey, RequestKeys, Stored, StoredDependencies, Tree, Distinct, DependenciesIn, WellFormed;
    assert DependenciesIn(s.graph, x) <= StoredDependencies(storage, x);
    GraphGrows(s.graph, s'.graph);
    OthersStayPending(storage, s, s');
    TreeIsPending(s', s.queue.Keys, x);
  }

  lemma OthersStayPending(storage: ModuleStore, s: State, s': State)
    requires s.batch != [] && Distinct(RequestKeys(s.batch)) && s'.batch == s.batch[1..]
             && s.queue.Keys <= s'.queue.Keys
    ensures forall k | StoredPending(storage, s, k) && k != RequestKey(s.batch[0]) :: StoredPending(storage, s', k)
  {
    HeadOfBatch(s);
    hide Stored, RequestKeys, RequestKey, Distinct;
    forall k | Pending(s, k) && k != RequestKey(s.batch[0]) ensures Pending(s', k) {
      assert k in RequestKeys(s.batch) <==> k in Members(RequestKeys(s.batch));
      assert k in RequestKeys(s'.batch) <==> k in Members(RequestKeys(s'.batch));
    }
  }

  lemma TreeIsPending(s: State, before: set<string>, x: string)
    requires s.queue.Keys == before + Tree(s.graph, x)
    ensures forall k | k in Tree(s.graph, x) :: Pending(s, k)
  {
    hide Tree;
  }

  lemma GraphGrows(g: View, g': View)
    requires DependentsInverse(g) && DependentsInverse(g') && DependenciesPresent(g')
    requires forall k | k in g :: WellFormed(k)
    requires forall k :: DependenciesIn(g, k) <= DependenciesIn(g', k)
    ensures Subgraph(DependentEdges(g), DependentEdges(g'))
  {
    hide WellFormed;
    forall n, k | Edge(DependentEdges(g), n, k) ensures Edge(DependentEdges(g'), n, k) {
      assert k in g[n].dependents <==> n in DependenciesIn(g, k);
      EdgeOfDependency(g', k, n);
    }
  }

  lemma TouchedKept(storage: ModuleStore, x: string, s: State, s': State, k: string)
    requires Advanced(storage, x, s, s') && k in Touched(storage, s) && Stored(storage, k) && k != x
    ensures k in Touched(storage, s')
  {
    hide Touched, Stored, Pending, Tree, Regular, StoredDependencies, DependenciesIn;
    if !StoredPending(storage, s, k) {
      var p :| StoredPending(storage, s, p) && k in Tree(s.graph, p);
      TreeWithin(s.graph, DependentEdges(s'.graph), p);
      assert k in Tree(s'.graph, p);
      if p == x {
        assert StoredPending(storage, s', k);
      }
    }
  }

  lemma FutureKept(storage: ModuleStore, x: string, s: State, s': State)
    requires Advanced(storage, x, s, s')
    ensures Subgraph(Future(storage, s), Future(storage, s'))
  {
    hide Touched, StoredPending, Tree, Regular, DependentEdges, DependenciesIn, Stored;
    forall n, k | Edge(Future(storage, s), n, k) ensures Edge(Future(storage, s'), n, k) {
      if n !in DependenciesIn(s.graph, k) && k != x {
        TouchedKept(storage, x, s, s', k);
      }
    }
  }

  lemma HotAdvances(storage: ModuleStore, x: string, s: State, s': State)
    requires Advanced(storage, x, s, s') && Stored(storage, x) && Hot(storage, s)
    ensures Hot(storage, s')
  {
    hide Touched, Regular, Stored, Prospect, Advanced;
    var c :| OnLiveCycle(storage, s, c);
    FutureKept(storage, x, s, s');
    SubgraphReaches(Future(storage, s), Future(storage, s'), c);
    if c in Touched(storage, s') {
      assert OnLiveCycle(storage, s', c);
    } else {
      if c != x {
        TouchedKept(storage, x, s, s', c);
      }
      CycleSurvives(storage, x, s, s');
    }
  }

  /** If the compiled module itself is no longer touched, a module on its cycle still is: the last
      one of the cycle to be compiled finds the cycle closed and is queued again. */
  lemma CycleSurvives(storage: ModuleStore, x: string, s: State, s': State)
    requires Advanced(storage, x, s, s') && Stored(storage, x) && x in Beyond(Future(storage, s'), x)
    ensures Hot(storage, s')
  {
    var p :| WalkFromTo(Future(storage, s'), p, x, x) && |p| >= 2;
    hide Stored, Future, Tree, Beyond, Hot, Pending, StoredDependencies, DependentEdges, Regular;
    if !Hot(storage, s') {
      ClosedWalkIsThere(storage, s', p, x);
      ClosedWalkInTree(s'.graph, p, x);
      PendingOnCycle(storage, s', x);
    }
  }

  lemma ClosedWalkIsThere(storage: ModuleStore, s: State, p: seq<string>, x: string)
    requires Regular(s) && !Hot(storage, s) && x in s.graph
    requires WalkFromTo(Future(storage, s), p, x, x) && |p| >= 2
    ensures WalkFromTo(DependentEdges(s.graph), p, x, x)
  {
    var u, h := Future(storage, s), DependentEdges(s.graph);
    hide Regular, Hot, Future, DependentEdges, Edge, ReachesPlus;
    for i := 0 to |p| - 1
      invariant p[i] in s.graph
      invariant forall j | 0 <= j < i :: Edge(h, p[j], p[j + 1])
    {
      assert Edge(u, p[i], p[i + 1]);
      OnClosedWalk(u, p, i + 1);
      EdgeIsThere(storage, s, p[i], p[i + 1]);
    }
  }

  lemma PendingOnCycle(storage: ModuleStore, s: State, x: string)
    requires Pending(s, x) && Stored(storage, x) && x in Beyond(Future(storage, s), x)
    ensures Hot(storage, s)
  {
    hide Pending, Stored, Future, Beyond;
    assert StoredPending(storage, s, x);
    assert OnLiveCycle(storage, s, x);
  }

  lemma ClosedWalkInTree(g: View, p: seq<string>, x: string)
    requires WalkFromTo(DependentEdges(g), p, x, x) && |p| >= 2
    ensures x in Tree(g, x)
  {
  }

  /** Away from live cycles, an edge of the future on a cycle is one of the graph. */
  lemma EdgeIsThere(storage: ModuleStore, s: State, n: string, k: string)
    requires Regular(s) && !Hot(storage, s) && n in s.graph
    requires Edge(Future(storage, s), n, k) && ReachesPlus(Future(storage, s), k, k)
    ensures k in s.graph && Edge(DependentEdges(s.graph), n, k)
  {
    hide Touched, Stored, Pending, Tree, WellFormed, ReachesPlus;
    assert !OnLiveCycle(storage, s, k);
    assert n in DependenciesIn(s.graph, k);
    assert k in s.graph[n].dependents <==> n in DependenciesIn(s.graph, k);
  }

  lemma HotStep(delay: int, storage: ModuleStore, s: State, step: Step, s': State)
    requires Next(delay, s, step, s') && Current(storage, s) && Quiet(storage, s, step) && Hot(storage, s)
    ensures Hot(storage, s')
  {
    hide Hot, Stored, Pending, Compiled, IsBatch, RequestKey, Distinct, Regular;
    match step {
      case CompileNext(found, now) =>
        var x := RequestKey(s.batch[0]);
        CompileShape(delay, storage, s, now);
        if Stored(storage, x) {
          CompileAdvances(delay, storage, s, now);
          HotAdvances(storage, x, s, s');
        } else {
          FailedCompile(storage, s, s');
          SameTouched(storage, s, s');
        }
      case Take(batch, now) =>
        TakeKeepsPending(delay, s, batch, now, s');
        SameTouched(storage, s, s');
      case Clean(now) =>
        UntouchedByCleaning(storage, s, s');
        SameTouched(storage, s, s');
    }
  }

  lemma UntouchedByCleaning(storage: ModuleStore, s: State, s': State)
    requires s'.queue == s.queue && s'.batch == s.batch
    ensures forall k :: StoredPending(storage, s', k) <==> StoredPending(storage, s, k)
  {
    hide Stored;
  }

  lemma FailedCompile(storage: ModuleStore, s: State, s': State)
    requires s.batch != [] && Distinct(RequestKeys(s.batch)) && !Stored(storage, RequestKey(s.batch[0]))
    requires s'.graph == s.graph && s'.queue == s.queue && s'.batch == s.batch[1..]
    ensures forall k :: StoredPending(storage, s', k) <==> StoredPending(storage, s, k)
  {
    HeadOfBatch(s);
    hide Stored, RequestKeys, RequestKey, Distinct;
    forall k ensures StoredPending(storage, s', k) <==> StoredPending(storage, s, k) {
      assert k in RequestKeys(s.batch) <==> k in Members(RequestKeys(s.batch));
      assert k in RequestKeys(s'.batch) <==> k in Members(RequestKeys(s'.batch));
    }
  }

  // ---- and so the recompiler never comes to rest

  lemma {:induction false} TimeWhenReady(delay: int, q: Queue, now: int) returns (later: int)
    ensures now <= later && forall k | k in q :: Ready(delay, q[k], later)
    decreases |q|
  {
    if q == map[] {
      later := now;
    } else {
      var k :| k in q;
      later := TimeWhenReady(delay, q - {k}, now);
      assert forall x | x in q :: x == k || x in q - {k};
      later := if later >= q[k].timestamp + delay then later else q[k].timestamp + delay;
    }
  }

  lemma {:induction false} WholeQueue(delay: int, q: Queue, now: int) returns (batch: seq<CompilationRequest>)
    requires FiledByKey(q) && forall k | k in q :: Ready(delay, q[k], now)
    ensures IsBatch(delay, q, now, batch) && Members(RequestKeys(batch)) == q.Keys
    decreases |q|
  {
    if q == map[] {
      batch := [];
    } else {
      var k :| k in q;
      var rest := WholeQueue(delay, q - {k}, now);
      batch := rest + [q[k]];
      WholeQueueGrows(delay, q, k, now, rest);
    }
  }

  lemma WholeQueueGrows(delay: int, q: Queue, k: string, now: int, rest: seq<CompilationRequest>)
    requires FiledByKey(q) && k in q && Ready(delay, q[k], now)
    requires IsBatch(delay, q - {k}, now, rest) && Members(RequestKeys(rest)) == (q - {k}).Keys
    ensures IsBatch(delay, q, now, rest + [q[k]]) && Members(RequestKeys(rest + [q[k]])) == q.Keys
  {
    var batch := rest + [q[k]];
    TakenMore(rest, q[k]);
    hide Distinct, RequestKeys;
    assert Members(RequestKeys(batch)) == q.Keys;
    assert forall x | x in q :: x in Members(RequestKeys(batch));
    forall r | r in batch ensures RequestKey(r) in q && q[RequestKey(r)] == r && Ready(delay, r, now) {
      assert r in rest || r == q[k];
    }
  }

  lemma Prepend(delay: int, storage: ModuleStore, s: State, step: Step, states: seq<State>, steps: seq<Step>)
    requires QuietRun(delay, storage, states, steps) && Next(delay, s, step, states[0]) && Quiet(storage, s, step)
    ensures QuietRun(delay, storage, [s] + states, [step] + steps)
    ensures Compiles([step] + steps) == Compiles(steps) + (if step.CompileNext? then 1 else 0)
  {
    hide Next, Quiet;
    var st, sp := [s] + states, [step] + steps;
    assert sp[1..] == steps;
    forall i | 0 <= i < |sp| ensures Next(delay, st[i], sp[i], st[i + 1]) && Quiet(storage, st[i], sp[i]) {
      if i > 0 {
        assert Next(delay, states[i - 1], steps[i - 1], states[i - 1 + 1]);
        assert Quiet(storage, states[i - 1], steps[i - 1]);
      }
    }
  }

  /** The whole queue becomes the batch, once everything in it is ready. */
  lemma TakeAll(delay: int, s: State) returns (step: Step, s': State)
    requires FiledByKey(s.queue) && s.batch == [] && exists k :: Pending(s, k)
    ensures Next(delay, s, step, s') && step.Take? && s'.batch != []
  {
    var later := TimeWhenReady(delay, s.queue, s.now);
    var batch := WholeQueue(delay, s.queue, later);
    hide IsBatch, FiledByKey, Ready;
    step := Take(batch, later);
    s' := s.(queue := NotReady(delay, s.queue, later), batch := batch,
             processed := MarkedProcessed(s.processed, Members(RequestKeys(batch)), later), now := later);
    assert RequestKeys(s.batch) == [];
    assert batch == [] ==> RequestKeys(batch) == [];
  }

  ghost predicate AtRest(s: State) {
    s.queue == map[] && s.batch == []
  }

  /** A step that is possible as long as something is pending: compile the head of the batch, or take
      the whole queue. */
  lemma SomeMove(delay: int, storage: ModuleStore, s: State) returns (step: Step, s': State)
    requires Orderly(s) && !AtRest(s)
    ensures Next(delay, s, step, s') && Quiet(storage, s, step)
    ensures if s.batch != [] then step.CompileNext? else step.Take? && s'.batch != []
  {
    hide Compiled, FiledByKey, IsBatch, DependentsInverse, DependenciesPresent, Distinct;
    if s.batch != [] {
      step := CompileNext(Found(storage, s.batch[0]), s.now);
      s' := Compiled(delay, s, Found(storage, s.batch[0]), s.now);
    } else {
      var k :| k in s.queue;
      assert Pending(s, k);
      step, s' := TakeAll(delay, s);
    }
  }

  lemma HotMoves(delay: int, storage: ModuleStore, s: State) returns (step: Step, s': State)
    requires Current(storage, s) && Hot(storage, s)
    ensures Next(delay, s, step, s') && Quiet(storage, s, step) && Current(storage, s') && Hot(storage, s')
    ensures if s.batch != [] then step.CompileNext? else step.Take? && s'.batch != []
  {
    HotIsNotAtRest(storage, s);
    hide Hot, Orderly, Stored, StoredDependencies, Next;
    step, s' := SomeMove(delay, storage, s);
    hide Current;
    CurrentStep(delay, storage, s, step, s');
    HotStep(delay, storage, s, step, s');
  }

  lemma HotIsNotAtRest(storage: ModuleStore, s: State)
    requires Hot(storage, s)
    ensures !AtRest(s)
  {
    SomethingIsPending(storage, s);
    hide Hot;
    assert RequestKeys([]) == [];
  }

  lemma SomethingIsPending(storage: ModuleStore, s: State)
    requires Hot(storage, s)
    ensures exists k :: Pending(s, k)
  {
    hide Stored, Tree, Pending;
    var c :| OnLiveCycle(storage, s, c);
    if !StoredPending(storage, s, c) {
      var p :| StoredPending(storage, s, p) && c in Tree(s.graph, p);
    }
  }

  /** From a hot state the recompiler may run for as long as one likes. */
  lemma {:induction false} Diverges(delay: int, storage: ModuleStore, s: State, n: nat)
    returns (states: seq<State>, steps: seq<Step>)
    requires Current(storage, s) && Hot(storage, s)
    ensures QuietRunFrom(delay, storage, s, states, steps) && Compiles(steps) >= n
    decreases n, if s.batch == [] then 1 else 0
  {
    hide Current, Hot, Next, Quiet;
    if n == 0 {
      return [s], [];
    }
    var step, s' := HotMoves(delay, storage, s);
    states, steps := Diverges(delay, storage, s', if step.CompileNext? then n - 1 else n);
    Prepend(delay, storage, s, step, states, steps);
    states, steps := [s] + states, [step] + steps;
  }

  /** Over all schedules the number of compiles is bounded exactly when no stored module that is
      touched lies on a cycle. */
  lemma DrainsIff(delay: int, storage: ModuleStore, s: State)
    requires Current(storage, s)
    ensures (exists bound :: CompilesAtMost(delay, storage, s, bound)) <==> !Hot(storage, s)
  {
    hide QuietRunFrom, Compiles, Hot, Covered, Potential, Regular;
    if Hot(storage, s) {
      if bound: nat :| CompilesAtMost(delay, storage, s, bound) {
        var states, steps := Diverges(delay, storage, s, bound + 1);
      }
    } else {
      ColdIsCovered(storage, s);
      CoveredDrains(delay, storage, Future(storage, s), s);
    }
  }

  // ---- rest

  ghost predicate RestsBy(delay: int, storage: ModuleStore, s: State, states: seq<State>, steps: seq<Step>) {
    QuietRunFrom(delay, storage, s, states, steps) && AtRest(states[|steps|])
  }

  /** Wherever the compiles are bounded, going on leads to rest: there is always a next step until
      nothing is pending, and the compiles run out. */
  lemma {:induction false} ComesToRest(delay: int, storage: ModuleStore, u: Digraph<string>, s: State)
    returns (states: seq<State>, steps: seq<Step>)
    requires Orderly(s) && Covered(storage, u, s)
    ensures RestsBy(delay, storage, s, states, steps)
    decreases Potential(storage, u, s), if s.batch == [] then 1 else 0
  {
    hide Orderly, Covered, Potential, Next, Quiet, AtRest;
    if AtRest(s) {
      return [s], [];
    }
    var step, s' := SomeMove(delay, storage, s);
    CoveredStep(delay, storage, u, s, step, s');
    states, steps := ComesToRest(delay, storage, u, s');
    Prepend(delay, storage, s, step, states, steps);
    states, steps := [s] + states, [step] + steps;
  }

  lemma {:induction false} HotInRun(delay: int, storage: ModuleStore, states: seq<State>, steps: seq<Step>, i: nat)
    requires QuietRun(delay, storage, states, steps) && Current(storage, states[0]) && Hot(storage, states[0])
    requires i < |states|
    ensures Current(storage, states[i]) && Hot(storage, states[i])
  {
    hide Next, Current, Hot;
    if i > 0 {
      HotInRun(delay, storage, states, steps, i - 1);
      assert Next(delay, states[i - 1], steps[i - 1], states[i - 1 + 1]) && Quiet(storage, states[i - 1], steps[i - 1]);
      CurrentStep(delay, storage, states[i - 1], steps[i - 1], states[i]);
      HotStep(delay, storage, states[i - 1], steps[i - 1], states[i]);
    }
  }

  /** The recompiler can come to rest by itself exactly when no stored module that is touched lies on a cycle. */
  lemma RestsIff(delay: int, storage: ModuleStore, s: State)
    requires Current(storage, s)
    ensures (exists states, steps :: RestsBy(delay, storage, s, states, steps)) <==> !Hot(storage, s)
  {
    hide Hot, Covered, Potential, Regular, AtRest, Next;
    if Hot(storage, s) {
      forall states, steps | QuietRunFrom(delay, storage, s, states, steps)
        ensures !RestsBy(delay, storage, s, states, steps)
      {
        HotInRun(delay, storage, states, steps, |steps|);
        HotIsNotAtRest(storage, states[|steps|]);
      }
    } else {
      ColdIsCovered(storage, s);
      var states, steps := ComesToRest(delay, storage, Future(storage, s), s);
    }
  }

  // ---- a module that depends on itself

  const SELFISH: ModuleStore := map[("a", "1") := ["a@1"]]

  const REQUESTED := INITIAL.(queue := map["a@1" := CompilationRequest("a", "1", 0)])

  lemma SelfishKey()
    ensures ModuleVersionKey("a", "1") == "a@1" && WellFormed("a@1") && PairOf("a@1") == ("a", "1")
  {
    PlainNamesParse("a", "1");
  }

  lemma SelfishIsCurrent()
    ensures Current(SELFISH, REQUESTED)
  {
    SelfishKey();
    hide ParseDependencyKey, ModuleVersionKey;
    assert RequestKeys([]) == [];
    assert '@' !in "a" && '@' !in "1";
  }

  lemma SelfishIsHot()
    ensures Hot(SELFISH, REQUESTED)
  {
    SelfishKey();
    hide ParseDependencyKey, WellFormed;
    var u := Future(SELFISH, REQUESTED);
    assert StoredPending(SELFISH, REQUESTED, "a@1");
    assert SELFISH[("a", "1")][0] == "a@1" && "a@1" in StoredDependencies(SELFISH, "a@1");
    assert Edge(u, "a@1", "a@1");
    ReachesSelf(u, "a@1");
    EdgeThenReaches(u, "a@1", "a@1", "a@1");
    PendingOnCycle(SELFISH, REQUESTED, "a@1");
  }

  lemma SelfishIsRequested(delay: int)
    ensures Next(delay, INITIAL, Request("a", "1", 0, 0), REQUESTED)
  {
    SelfishKey();
    hide ModuleVersionKey, WellFormed;
    assert INITIAL.queue["a@1" := CompilationRequest("a", "1", 0)] == REQUESTED.queue;
  }

  /** One request for a module that depends on itself keeps a fresh recompiler busy for ever. */
  lemma SelfDependencyNeverRests(delay: int)
    ensures Next(delay, INITIAL, Request("a", "1", 0, 0), REQUESTED) && Current(SELFISH, REQUESTED)
    ensures !exists bound :: CompilesAtMost(delay, SELFISH, REQUESTED, bound)
  {
    hide Current, Hot, CompilesAtMost, Next;
    SelfishIsRequested(delay);
    SelfishIsCurrent();
    SelfishIsHot();
    DrainsIff(delay, SELFISH, REQUESTED);
  }
}
