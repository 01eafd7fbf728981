// When the recompiler takes up what was asked of it: the times of a run, told by its history.
module SprocketTiming {
  import opened Wrappers
  import opened DependencyGraphs
  import opened SprocketGraphs
  import opened SprocketLaws
  import opened SprocketDependents
  import opened SprocketCompilers
  import opened SprocketRuns

  predicate Takes(steps: seq<Step>, l: nat, key: string)
    requires l < |steps|
  {
    steps[l].Take? && key in RequestKeys(steps[l].batch)
  }

  /** Step l is the last before step i that took the key from the queue. */
  ghost predicate LastTake(steps: seq<Step>, l: nat, i: nat, key: string)
    requires i <= |steps|
  {
    l < i && Takes(steps, l, key) && forall j | l < j < i :: !Takes(steps, j, key)
  }

  /** A clean-up since then found it more than two minutes old. */
  ghost predicate Forgotten(steps: seq<Step>, l: nat, i: nat)
    requires l < i <= |steps|
  {
    exists j :: l < j < i && steps[j].Clean? && steps[j].now - steps[l].now > 120_000_000_000
  }

  /** What is left of the last time that the key was taken. */
  ghost predicate Remembered(steps: seq<Step>, i: nat, key: string, t: int)
    requires i <= |steps|
  {
    exists l: nat :: LastTake(steps, l, i, key) && !Forgotten(steps, l, i) && t == steps[l].now
  }

  /** How one step changes the mark of a key. */
  lemma MarkStep(delay: int, s: State, step: Step, s': State, key: string)
    requires Next(delay, s, step, s')
    ensures step.Take? && key in RequestKeys(step.batch) ==> key in s'.processed && s'.processed[key] == step.now
    ensures step.Clean? ==>
              (key in s'.processed <==> key in s.processed && step.now - s.processed[key] <= 120_000_000_000)
    ensures !(step.Take? && key in RequestKeys(step.batch)) && !step.Clean? ==>
              (key in s'.processed <==> key in s.processed)
    ensures !(step.Take? && key in RequestKeys(step.batch)) && key in s'.processed ==>
              key in s.processed && s'.processed[key] == s.processed[key]
  {
    hide Requested, Requeued, AddedNode, IsBatch, NotReady, Tree;
  }

  lemma LastTakeStep(steps: seq<Step>, i: nat, n: nat, key: string)
    requires i < |steps| && n == i + 1
    ensures forall l: nat :: LastTake(steps, l, n, key)
                        <==> if Takes(steps, i, key) then l == i else LastTake(steps, l, i, key)
    ensures !Forgotten(steps, i, n)
    ensures forall l: nat | l < i ::
              Forgotten(steps, l, n)
              <==> Forgotten(steps, l, i) || (steps[i].Clean? && steps[i].now - steps[l].now > 120_000_000_000)
  {
    hide Takes;
    forall l: nat | l < i
      ensures Forgotten(steps, l, n)
         <==> Forgotten(steps, l, i) || (steps[i].Clean? && steps[i].now - steps[l].now > 120_000_000_000)
    {
    }
  }

  /** The marks are what is remembered of the history. */
  lemma {:induction false} MarkIsRemembered(delay: int, states: seq<State>, steps: seq<Step>, i: nat, key: string)
    requires IsRun(delay, states, steps) && states[0].processed == map[] && i < |states|
    ensures forall t :: key in states[i].processed && states[i].processed[key] == t <==> Remembered(steps, i, key, t)
  {
    hide Next, LastTake, Forgotten, Remembered, RequestKeys;
    if i == 0 {
      NothingTaken(steps, key);
    } else {
      MarkIsRemembered(delay, states, steps, i - 1, key);
      assert Next(delay, states[i - 1], steps[i - 1], states[i - 1 + 1]);
      MarkStep(delay, states[i - 1], steps[i - 1], states[i], key);
      RememberedStep(steps, i - 1, i, key);
    }
  }

  lemma NothingTaken(steps: seq<Step>, key: string)
    ensures forall t :: !Remembered(steps, 0, key, t)
  {
  }

  lemma RememberedStep(steps: seq<Step>, i: nat, n: nat, key: string)
    requires i < |steps| && n == i + 1
    ensures forall t :: Remembered(steps, n, key, t)
                   <==> if Takes(steps, i, key) then t == steps[i].now
                        else Remembered(steps, i, key, t)
                             && (steps[i].Clean? ==> steps[i].now - t <= 120_000_000_000)
  {
    LastTakeStep(steps, i, n, key);
    LastTakeIsEarlier(steps, i, key);
    hide Takes, LastTake, Forgotten;
    forall t ensures Remembered(steps, n, key, t)
                <==> if Takes(steps, i, key) then t == steps[i].now
                     else Remembered(steps, i, key, t)
                          && (steps[i].Clean? ==> steps[i].now - t <= 120_000_000_000)
    {
      if Takes(steps, i, key) {
        assert LastTake(steps, i, n, key);
      } else if Remembered(steps, i, key, t) && (steps[i].Clean? ==> steps[i].now - t <= 120_000_000_000) {
        var l: nat :| LastTake(steps, l, i, key) && !Forgotten(steps, l, i) && t == steps[l].now;
        assert LastTake(steps, l, n, key) && !Forgotten(steps, l, n);
      }
    }
  }

  lemma LastTakeIsEarlier(steps: seq<Step>, i: nat, key: string)
    requires i <= |steps|
    ensures forall l: nat | LastTake(steps, l, i, key) :: l < i
  {
  }

  /** The key was taken less than twice the delay before, and that is not forgotten. */
  ghost predicate HeldBack(delay: int, steps: seq<Step>, i: nat, key: string, now: int)
    requires i <= |steps|
  {
    exists l: nat :: LastTake(steps, l, i, key) && !Forgotten(steps, l, i) && now - steps[l].now < 2 * delay
  }

  /** A request is dropped exactly when its key is held back; otherwise the key is pending with the
      time of the request less its additional delay, and nothing else changes. */
  lemma RequestOutcome(delay: int, states: seq<State>, steps: seq<Step>, i: nat)
    requires IsRun(delay, states, steps) && states[0].processed == map[] && i < |steps| && steps[i].Request?
    ensures var step, before, after := steps[i], states[i].queue, states[i + 1].queue;
            var key := ModuleVersionKey(step.moduleName, step.version);
            if HeldBack(delay, steps, i, key, step.now) then after == before
            else && key in after && after[key].timestamp == step.now - step.additionalDelay
                 && after - {key} == before - {key}
                 && (key in before ==> RequestKey(after[key]) == RequestKey(before[key]))
                 && (key !in before ==> RequestKey(after[key]) == key)
  {
    var step := steps[i];
    var key := ModuleVersionKey(step.moduleName, step.version);
    MarkIsRemembered(delay, states, steps, i, key);
    HeldBackIff(delay, steps, i, key, step.now);
    assert Next(delay, states[i], steps[i], states[i + 1]);
    hide ModuleVersionKey, HeldBack, Remembered;
    var p := states[i].processed;
    assert key in p ==> Remembered(steps, i, key, p[key]);
  }

  lemma HeldBackIff(delay: int, steps: seq<Step>, i: nat, key: string, now: int)
    requires i <= |steps|
    ensures HeldBack(delay, steps, i, key, now) <==> exists t :: Remembered(steps, i, key, t) && now - t < 2 * delay
  {
    hide LastTake, Forgotten;
    LastTakeIsEarlier(steps, i, key);
    if HeldBack(delay, steps, i, key, now) {
      var l: nat :| LastTake(steps, l, i, key) && !Forgotten(steps, l, i) && now - steps[l].now < 2 * delay;
      assert Remembered(steps, i, key, steps[l].now);
    }
  }

  lemma {:induction false} TimeGoesOn(delay: int, states: seq<State>, steps: seq<Step>, i: nat, j: nat)
    requires IsRun(delay, states, steps) && i <= j < |steps|
    ensures steps[i].now <= steps[j].now
  {
    if i < j {
      TimeGoesOn(delay, states, steps, i, j - 1);
      assert Next(delay, states[j - 1], steps[j - 1], states[j - 1 + 1]);
      assert Next(delay, states[j], steps[j], states[j + 1]);
      StepTellsTime(delay, states[j - 1], steps[j - 1], states[j]);
    }
  }

  lemma StepTellsTime(delay: int, s: State, step: Step, s': State)
    requires Next(delay, s, step, s')
    ensures s.now <= step.now == s'.now
  {
    hide Requested, Requeued, AddedNode, IsBatch, NotReady, Tree;
  }

  /** For a delay of at most a minute clean-ups play no part: a request is dropped exactly when its key
      was taken less than twice the delay before. */
  lemma HeldBackByAnyTake(delay: int, states: seq<State>, steps: seq<Step>, i: nat, key: string)
    requires IsRun(delay, states, steps) && i < |steps| && delay <= 60_000_000_000
    ensures HeldBack(delay, steps, i, key, steps[i].now)
       <==> exists l :: 0 <= l < i && Takes(steps, l, key) && steps[i].now - steps[l].now < 2 * delay
  {
    hide Next, Takes;
    if l :| 0 <= l < i && Takes(steps, l, key) && steps[i].now - steps[l].now < 2 * delay {
      var last := LastOf(steps, l, i, key);
      TimeGoesOn(delay, states, steps, l, last);
      if Forgotten(steps, last, i) {
        var j :| last < j < i && steps[j].Clean? && steps[j].now - steps[last].now > 120_000_000_000;
        TimeGoesOn(delay, states, steps, j, i);
      }
      assert LastTake(steps, last, i, key);
    }
  }

  lemma {:induction false} LastOf(steps: seq<Step>, l: nat, i: nat, key: string) returns (last: nat)
    requires l < i <= |steps| && Takes(steps, l, key)
    ensures l <= last && LastTake(steps, last, i, key)
    decreases i - l
  {
    if j: nat :| l < j < i && Takes(steps, j, key) {
      last := LastOf(steps, j, i, key);
    } else {
      last := l;
    }
  }

  // ---- how long a request waits

  /** The step has to do with the key: a request for it, a compile that queues it, or its being taken. */
  ghost predicate Disturbs(states: seq<State>, steps: seq<Step>, l: nat, key: string)
    requires l < |steps| < |states|
  {
    match steps[l]
    case Request(m, v, _, _) => ModuleVersionKey(m, v) == key
    case Take(batch, _) => key in RequestKeys(batch)
    case CompileNext(found, _) =>
      found.Some? && states[l].batch != [] && key in Tree(states[l + 1].graph, RequestKey(states[l].batch[0]))
    case Clean(_) => false
  }

  lemma UndisturbedStep(delay: int, states: seq<State>, steps: seq<Step>, l: nat, key: string)
    requires IsRun(delay, states, steps) && l < |steps| && !Disturbs(states, steps, l, key) && key in states[l].queue
    ensures key in states[l + 1].queue && states[l + 1].queue[key] == states[l].queue[key]
  {
    assert Next(delay, states[l], steps[l], states[l + 1]);
    match steps[l] {
      case Request(m, v, additional, now) => hide ModuleVersionKey;
      case Take(batch, now) => hide RequestKeys;
      case CompileNext(found, now) =>
        hide AddedNode, Tree, RequestKey, ParseDependencyKey;
      case Clean(now) =>
    }
  }

  lemma {:induction false} Undisturbed(delay: int, states: seq<State>, steps: seq<Step>, i: nat, j: nat, key: string)
    requires IsRun(delay, states, steps) && i <= j <= |steps| && key in states[i].queue
    requires forall l | i <= l < j :: !Disturbs(states, steps, l, key)
    ensures key in states[j].queue && states[j].queue[key] == states[i].queue[key]
  {
    hide Next, Disturbs;
    if i < j {
      Undisturbed(delay, states, steps, i, j - 1, key);
      UndisturbedStep(delay, states, steps, j - 1, key);
    }
  }

  lemma TakenWhenDue(delay: int, states: seq<State>, steps: seq<Step>, j: nat, key: string)
    requires IsRun(delay, states, steps) && j < |steps| && steps[j].Take? && key in states[j].queue
    ensures key in RequestKeys(steps[j].batch) <==> steps[j].now >= states[j].queue[key].timestamp + delay
  {
    assert Next(delay, states[j], steps[j], states[j + 1]);
    var batch, q := steps[j].batch, states[j].queue;
    hide NotReady, MarkedProcessed, RequestKey, Next;
    if key in RequestKeys(batch) {
      var i :| 0 <= i < |batch| && RequestKeys(batch)[i] == key;
      assert batch[i] in batch;
    }
  }

  /** A request that is not dropped is taken up, unless something else happens to its key before, by the
      first look at the queue after the delay, the additional delay counted backwards. */
  lemma RequestWaits(delay: int, states: seq<State>, steps: seq<Step>, i: nat, j: nat, key: string)
    requires IsRun(delay, states, steps) && states[0].processed == map[] && i < j < |steps|
    requires steps[i].Request? && ModuleVersionKey(steps[i].moduleName, steps[i].version) == key
    requires !HeldBack(delay, steps, i, key, steps[i].now)
    requires steps[j].Take? && forall l | i < l < j :: !Disturbs(states, steps, l, key)
    ensures key in RequestKeys(steps[j].batch) <==> steps[j].now >= steps[i].now + delay - steps[i].additionalDelay
  {
    hide HeldBack, Disturbs, IsRun, ModuleVersionKey, RequestKeys, RequestKey;
    RequestOutcome(delay, states, steps, i);
    Undisturbed(delay, states, steps, i + 1, j, key);
    TakenWhenDue(delay, states, steps, j, key);
  }

  /** A dependent that a compile has queued waits half a second. */
  lemma DependentWaits(delay: int, states: seq<State>, steps: seq<Step>, i: nat, j: nat, key: string, d: string)
    requires IsRun(delay, states, steps) && i < j < |steps|
    requires Attempts(states, steps, i, key) && steps[i].found.Some?
    requires d in Tree(states[i + 1].graph, key) && WellFormed(d)
    requires steps[j].Take? && forall l | i < l < j :: !Disturbs(states, steps, l, d)
    ensures d in RequestKeys(steps[j].batch) <==> steps[j].now >= steps[i].now + 500_000_000
  {
    QueuedAtCompile(delay, states, steps, i, key, d);
    hide Disturbs, Attempts, WellFormed, Tree, RequestKeys, Next;
    Undisturbed(delay, states, steps, i + 1, j, d);
    TakenWhenDue(delay, states, steps, j, d);
  }

  lemma QueuedAtCompile(delay: int, states: seq<State>, steps: seq<Step>, i: nat, key: string, d: string)
    requires IsRun(delay, states, steps) && i < |steps|
    requires Attempts(states, steps, i, key) && steps[i].found.Some?
    requires d in Tree(states[i + 1].graph, key) && WellFormed(d)
    ensures d in states[i + 1].queue && states[i + 1].queue[d].timestamp == steps[i].now - delay + 500_000_000
  {
    assert Next(delay, states[i], steps[i], states[i + 1]);
    hide AddedNode, Tree, ParseDependencyKey;
  }
}
