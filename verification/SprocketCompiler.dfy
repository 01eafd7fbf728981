// The recompilation queue of cmd/sprocket/compiler.go.  Times are integers in nanoseconds read once
// per operation, the storage lookup of compile is a parameter, and compiling for the enabled
// languages has no effect on the queue.
module SprocketCompilers {
  import opened Wrappers
  import opened Reachability
  import opened DependencyGraphs
  import opened SprocketGraphs
  import opened SprocketDependents

  const HALF_A_SECOND := 500_000_000
  const TWO_MINUTES := 120_000_000_000

  datatype CompilationRequest = CompilationRequest(moduleName: string, version: string, timestamp: int)

  type Queue = map<string, CompilationRequest>

  function RequestKey(r: CompilationRequest): string {
    ModuleVersionKey(r.moduleName, r.version)
  }

  function RequestKeys(rs: seq<CompilationRequest>): (ks: seq<string>)
    ensures |ks| == |rs| && forall i | 0 <= i < |rs| :: ks[i] == RequestKey(rs[i])
  {
    seq(|rs|, i requires 0 <= i < |rs| => RequestKey(rs[i]))
  }

  /** Each request is filed under its own key. */
  ghost predicate FiledByKey(q: Queue) {
    forall k | k in q :: RequestKey(q[k]) == k
  }

  predicate RecentlyProcessed(delay: int, processed: map<string, int>, key: string, now: int) {
    key in processed && now - processed[key] < delay * 2
  }

  /** The queue after an outside request for a recompilation. */
  function Requested(delay: int, q: Queue, processed: map<string, int>, m: string, v: string, additional: int,
                     now: int): Queue
  {
    var key := ModuleVersionKey(m, v);
    if RecentlyProcessed(delay, processed, key, now) then q
    else if key in q then q[key := q[key].(timestamp := now - additional)]
    else q[key := CompilationRequest(m, v, now - additional)]
  }

  predicate Ready(delay: int, r: CompilationRequest, now: int) {
    now - r.timestamp >= delay
  }

  function NotReady(delay: int, q: Queue, now: int): Queue {
    map k | k in q && !Ready(delay, q[k], now) :: q[k]
  }

  /** The batch holds each ready request once, in some order. */
  ghost predicate IsBatch(delay: int, q: Queue, now: int, batch: seq<CompilationRequest>) {
    && Distinct(RequestKeys(batch))
    && (forall r | r in batch :: RequestKey(r) in q && q[RequestKey(r)] == r && Ready(delay, r, now))
    && (forall k | k in q && Ready(delay, q[k], now) :: k in RequestKeys(batch))
  }

  function MarkedProcessed(processed: map<string, int>, keys: set<string>, now: int): map<string, int> {
    processed + map k | k in keys :: now
  }

  /** The queue after a compile: every well-formed transitive dependent is entered with a fresh timestamp. */
  ghost function Requeued(delay: int, q: Queue, tree: set<string>, now: int): Queue {
    q + map k | k in tree && WellFormed(k) ::
          CompilationRequest(ParseDependencyKey(k)[0], ParseDependencyKey(k)[1], now - delay + HALF_A_SECOND)
  }

  class Compiler {
    const delay: int
    const graph: SprocketGraph
    var queue: Queue
    var processedSet: map<string, int>

    ghost predicate Valid()
      reads this, graph
    {
      graph.Valid() && FiledByKey(queue)
    }

    constructor (delay: int)
      ensures Valid() && fresh(graph) && this.delay == delay
      ensures queue == map[] && processedSet == map[] && graph.View() == map[]
    {
      this.delay := delay;
      graph := new SprocketGraph();
      queue, processedSet := map[], map[];
    }

    method QueueRecompilationWithDelay(moduleName: string, version: string, additionalDelay: int, now: int)
      requires Valid()
      modifies this`queue
      ensures Valid()
      ensures queue == Requested(delay, old(queue), processedSet, moduleName, version, additionalDelay, now)
    {
      var key := ModuleVersionKey(moduleName, version);
      if key in processedSet {
        if now - processedSet[key] < delay * 2 {
          return;
        }
      }
      if key in queue {
        queue := queue[key := queue[key].(timestamp := now - additionalDelay)];
        return;
      }
      queue := queue[key := CompilationRequest(moduleName, version, now - additionalDelay)];
    }

    /** The locked part of checkQueue: moves the ready requests out of the queue. */
    method TakeReady(now: int) returns (readyItems: seq<CompilationRequest>)
      requires Valid()
      modifies this`queue, this`processedSet
      ensures Valid()
      ensures IsBatch(delay, old(queue), now, readyItems)
      ensures queue == NotReady(delay, old(queue), now)
      ensures processedSet == MarkedProcessed(old(processedSet), Members(RequestKeys(readyItems)), now)
    {
      hide Taking, IsBatch;
      readyItems := [];
      var todo := queue.Keys;
      TakingStarts(delay, queue, processedSet, now);
      while todo != {}
        invariant todo <= queue.Keys
        invariant Taking(delay, old(queue), old(processedSet), now, todo, queue, processedSet, readyItems)
      {
        var key :| key in todo;
        var request := queue[key];
        TakingStep(delay, old(queue), old(processedSet), now, todo, key, queue, processedSet, readyItems);
        todo := todo - {key};
        if now - request.timestamp >= delay {
          readyItems := readyItems + [request];
          queue := queue - {key};
          processedSet := processedSet[key := now];
        }
      }
      TakingEnds(delay, old(queue), old(processedSet), now, queue, processedSet, readyItems);
    }

    /** Enters the well-formed keys among the dependents, whether or not they are queued already. */
    method Requeue(dependents: seq<string>, now: int)
      requires FiledByKey(queue)
      modifies this`queue
      ensures FiledByKey(queue) && queue == Requeued(delay, old(queue), Members(dependents), now)
    {
      hide ParseDependencyKey;
      RequeuedNothing(delay, queue, now);
      assert dependents[..0] == [];
      for i := 0 to |dependents|
        invariant FiledByKey(queue) && queue == Requeued(delay, old(queue), Members(dependents[..i]), now)
      {
        var depKey := dependents[i];
        var parts := ParseDependencyKey(depKey);
        RequeuedMore(delay, old(queue), dependents, i, now);
        if |parts| == 2 {
          ParsedKeyRebuilds(depKey);
          queue := queue[depKey := CompilationRequest(parts[0], parts[1], now - delay + HALF_A_SECOND)];
        }
      }
      assert dependents[..|dependents|] == dependents;
    }

    /** The queue part of compile; found is the outcome of the storage lookup. */
    method Compile(request: CompilationRequest, found: Option<seq<string>>, now: int)
      requires Valid()
      modifies this`queue, graph, graph.nodes.Values
      ensures Valid()
      ensures found.None? ==> graph.View() == old(graph.View()) && queue == old(queue)
      ensures found.Some? ==>
              graph.View() == AddedNode(old(graph.View()), request.moduleName, request.version, found.value)
      ensures found.Some? ==> queue == Requeued(delay, old(queue), Tree(graph.View(), RequestKey(request)), now)
    {
      hide AddedNode, ReachesPlus, Requeued, Distinct;
      if found.None? {
        return;
      }
      graph.AddNode(request.moduleName, request.version, found.value);
      var dependents := GetDependentsTree(graph, request.moduleName, request.version);
      assert Members(dependents) == Tree(graph.View(), RequestKey(request));
      Requeue(dependents, now);
    }

    /** One round of the periodic clean-up of the processed set. */
    method CleanProcessedSet(now: int)
      modifies this`processedSet
      ensures processedSet == map k | k in old(processedSet) && now - old(processedSet)[k] <= TWO_MINUTES ::
              old(processedSet)[k]
    {
      var todo := processedSet.Keys;
      while todo != {}
        invariant todo <= processedSet.Keys <= old(processedSet).Keys
        invariant forall k | k in processedSet :: processedSet[k] == old(processedSet)[k]
        invariant forall k :: k in processedSet
                              <==> k in old(processedSet) && (k in todo || now - old(processedSet)[k] <= TWO_MINUTES)
      {
        var key :| key in todo;
        todo := todo - {key};
        if now - processedSet[key] > TWO_MINUTES {
          processedSet := processedSet - {key};
        }
      }
    }
  }

  function Members(ks: seq<string>): set<string> {
    set k | k in ks
  }

  /** The ready keys that the locked loop of checkQueue has looked at. */
  function ReadyBut(delay: int, q: Queue, now: int, todo: set<string>): set<string> {
    set k | k in q && k !in todo && Ready(delay, q[k], now)
  }

  /** Halfway through that loop, with the keys in todo still to be looked at. */
  ghost predicate Taking(delay: int, q0: Queue, p0: map<string, int>, now: int, todo: set<string>,
                         q: Queue, p: map<string, int>, taken: seq<CompilationRequest>)
  {
    && FiledByKey(q0) && todo <= q0.Keys
    && Members(RequestKeys(taken)) == ReadyBut(delay, q0, now, todo)
    && q == q0 - ReadyBut(delay, q0, now, todo)
    && p == MarkedProcessed(p0, ReadyBut(delay, q0, now, todo), now)
    && Distinct(RequestKeys(taken))
    && (forall r | r in taken :: RequestKey(r) in q0 && q0[RequestKey(r)] == r)
  }

  lemma TakingStarts(delay: int, q: Queue, p: map<string, int>, now: int)
    requires FiledByKey(q)
    ensures Taking(delay, q, p, now, q.Keys, q, p, [])
  {
    assert ReadyBut(delay, q, now, q.Keys) == {};
  }

  lemma TakingStep(delay: int, q0: Queue, p0: map<string, int>, now: int, todo: set<string>, key: string,
                   q: Queue, p: map<string, int>, taken: seq<CompilationRequest>)
    requires Taking(delay, q0, p0, now, todo, q, p, taken) && key in todo && key in q
    ensures Ready(delay, q[key], now) ==>
            Taking(delay, q0, p0, now, todo - {key}, q - {key}, p[key := now], taken + [q[key]])
                                          && todo - {key} <= (q - {key}).Keys
    ensures !Ready(delay, q[key], now) ==> Taking(delay, q0, p0, now, todo - {key}, q, p, taken)
  {
    hide Distinct, MarkedProcessed, ReadyBut;
    var done := ReadyBut(delay, q0, now, todo);
    ReadyButStep(delay, q0, now, todo, key);
    if Ready(delay, q[key], now) {
      TakenMore(taken, q0[key]);
      MarkOneMore(p0, done, key, now);
      DropOneMore(q0, done, key);
    }
  }

  lemma ReadyButStep(delay: int, q: Queue, now: int, todo: set<string>, key: string)
    requires key in q && key in todo
    ensures ReadyBut(delay, q, now, todo) !! todo
    ensures Ready(delay, q[key], now) ==> ReadyBut(delay, q, now, todo - {key}) == ReadyBut(delay, q, now, todo) + {key}
    ensures !Ready(delay, q[key], now) ==> ReadyBut(delay, q, now, todo - {key}) == ReadyBut(delay, q, now, todo)
  {
  }

  lemma MarkOneMore(p: map<string, int>, keys: set<string>, key: string, now: int)
    ensures MarkedProcessed(p, keys, now)[key := now] == MarkedProcessed(p, keys + {key}, now)
  {
  }

  lemma DropOneMore(q: Queue, keys: set<string>, key: string)
    ensures q - (keys + {key}) == (q - keys) - {key}
  {
  }

  lemma TakenMore(taken: seq<CompilationRequest>, r: CompilationRequest)
    ensures RequestKeys(taken + [r]) == RequestKeys(taken) + [RequestKey(r)]
    ensures Members(RequestKeys(taken + [r])) == Members(RequestKeys(taken)) + {RequestKey(r)}
    ensures Distinct(RequestKeys(taken)) && RequestKey(r) !in Members(RequestKeys(taken)) ==>
            Distinct(RequestKeys(taken + [r]))
  {
    assert RequestKeys(taken + [r]) == RequestKeys(taken) + [RequestKey(r)];
  }

  lemma TakingEnds(delay: int, q0: Queue, p0: map<string, int>, now: int, q: Queue, p: map<string, int>,
                   taken: seq<CompilationRequest>)
    requires Taking(delay, q0, p0, now, {}, q, p, taken)
    ensures IsBatch(delay, q0, now, taken) && FiledByKey(q) && q == NotReady(delay, q0, now)
    ensures p == MarkedProcessed(p0, Members(RequestKeys(taken)), now)
  {
    forall r | r in taken ensures Ready(delay, r, now) {
      var i :| 0 <= i < |taken| && taken[i] == r;
      assert RequestKeys(taken)[i] == RequestKey(r) && RequestKey(r) in Members(RequestKeys(taken));
    }
    forall k | k in q0 && Ready(delay, q0[k], now) ensures k in RequestKeys(taken) {
      assert k in Members(RequestKeys(taken));
    }
  }

  lemma RequeuedNothing(delay: int, q: Queue, now: int)
    ensures Requeued(delay, q, Members([]), now) == q
  {
  }

  lemma RequeuedMore(delay: int, q: Queue, ks: seq<string>, i: nat, now: int)
    requires i < |ks|
    ensures Requeued(delay, q, Members(ks[..i + 1]), now)
         == if WellFormed(ks[i])
            then Requeued(delay, q, Members(ks[..i]), now)[ks[i] :=
                   CompilationRequest(ParseDependencyKey(ks[i])[0], ParseDependencyKey(ks[i])[1],
                                      now - delay + HALF_A_SECOND)]
            else Requeued(delay, q, Members(ks[..i]), now)
  {
    hide ParseDependencyKey, WellFormed;
    assert Members(ks[..i + 1]) == Members(ks[..i]) + {ks[i]} by {
      assert ks[..i + 1] == ks[..i] + [ks[i]];
    }
  }
}
