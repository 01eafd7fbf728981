// The worker pool of pkg/async/goroutine.go as a system of interleaved steps: submitters, workers,
// the goroutine that closes doneCh, whoever closes workCh or cancels the context, and readers of
// errCh.  Tasks are numbers; what a task does is an outcome chosen when it ends.
module WorkerPools {

  type Task = nat

  datatype Outcome = Succeeds | Fails | Panics

  datatype Status = Idle | Running(task: Task) | Exited

  datatype Ended = Ended(task: Task, outcome: Outcome)

  /** accepted and finished are history variables: what was put on workCh and what was run to its end. */
  datatype Pool = Pool(workers: seq<Status>, workCh: seq<Task>, closed: bool, doneClosed: bool, cancelled: bool,
                       errCh: seq<Task>, collected: seq<Task>, dropped: nat, accepted: seq<Task>, finished: seq<Ended>)

  datatype Step =
    | Send(task: Task)            // Submit puts it on workCh
    | SendOnClosed(task: Task)    // Submit panics on the closed channel, recovers and returns nil
    | SubmitRefused(task: Task)   // Submit sees doneCh closed
    | Receive(worker: nat)
    | Finish(worker: nat, outcome: Outcome)
    | ExitOnClosed(worker: nat)
    | ExitOnCancel(worker: nat)
    | CloseDone
    | CloseWork                   // a second close panics and is recovered
    | Cancel
    | ReadError

  function NewPool(workers: nat): Pool {
    Pool(seq(workers, _ => Idle), [], false, false, false, [], [], 0, [], [])
  }

  predicate Enabled(p: Pool, step: Step) {
    match step
    case Send(_) => !p.closed && |p.workCh| < 2 * |p.workers|
    case SendOnClosed(_) => p.closed
    case SubmitRefused(_) => p.doneClosed
    case Receive(w) => w < |p.workers| && p.workers[w].Idle? && p.workCh != []
    case Finish(w, _) => w < |p.workers| && p.workers[w].Running?
    case ExitOnClosed(w) => w < |p.workers| && p.workers[w].Idle? && p.closed && p.workCh == []
    case ExitOnCancel(w) => w < |p.workers| && p.workers[w].Idle? && p.cancelled
    case CloseDone => !p.doneClosed && forall w | 0 <= w < |p.workers| :: p.workers[w].Exited?
    case CloseWork => true
    case Cancel => true
    case ReadError => p.errCh != []
  }

  /** The pool after an enabled step. */
  function After(p: Pool, step: Step): Pool
    requires Enabled(p, step)
  {
    match step
    case Send(t) => p.(workCh := p.workCh + [t], accepted := p.accepted + [t])
    case SendOnClosed(_) => p
    case SubmitRefused(_) => p
    case Receive(w) => p.(workCh := p.workCh[1..], workers := p.workers[w := Running(p.workCh[0])])
    case Finish(w, outcome) =>
      var t := p.workers[w].task;
      var q := p.(workers := p.workers[w := Idle], finished := p.finished + [Ended(t, outcome)]);
      if outcome.Succeeds? then q
      else if |p.errCh| < 10 * |p.workers| then q.(errCh := p.errCh + [t])
      else q.(dropped := p.dropped + 1)
    case ExitOnClosed(w) => p.(workers := p.workers[w := Exited])
    case ExitOnCancel(w) => p.(workers := p.workers[w := Exited])
    case CloseDone => p.(doneClosed := true)
    case CloseWork => p.(closed := true)
    case Cancel => p.(cancelled := true)
    case ReadError => p.(errCh := p.errCh[1..], collected := p.collected + [p.errCh[0]])
  }

  function Count(ts: seq<Task>, t: Task): nat {
    multiset(ts)[t]
  }

  function Runs(s: Status, t: Task): nat {
    if s == Running(t) then 1 else 0
  }

  /** How many workers are running t. */
  function RunningCount(ws: seq<Status>, t: Task): nat {
    if ws == [] then 0 else RunningCount(ws[..|ws| - 1], t) + Runs(ws[|ws| - 1], t)
  }

  function TasksOf(es: seq<Ended>): (ts: seq<Task>)
    ensures |ts| == |es| && forall i | 0 <= i < |es| :: ts[i] == es[i].task
  {
    seq(|es|, i requires 0 <= i < |es| => es[i].task)
  }

  /** The ended tasks that returned an error or panicked, in order. */
  function Failures(es: seq<Ended>): seq<Task> {
    if es == [] then []
    else Failures(es[..|es| - 1]) + (if es[|es| - 1].outcome.Succeeds? then [] else [es[|es| - 1].task])
  }

  lemma {:induction false} StatusChange(ws: seq<Status>, w: nat, s: Status, t: Task)
    requires w < |ws|
    ensures RunningCount(ws[w := s], t) == RunningCount(ws, t) - Runs(ws[w], t) + Runs(s, t)
  {
    hide Runs;
    var n, ws' := |ws| - 1, ws[w := s];
    if w == n {
      assert ws'[..n] == ws[..n];
    } else {
      StatusChange(ws[..n], w, s, t);
      assert ws'[..n] == ws[..n][w := s];
    }
  }

  lemma {:induction false} NothingRunning(ws: seq<Status>, t: Task)
    requires forall w | 0 <= w < |ws| :: !ws[w].Running?
    ensures RunningCount(ws, t) == 0
  {
    if ws != [] {
      NothingRunning(ws[..|ws| - 1], t);
    }
  }

  /** As often as t was accepted, it is waiting, running or finished. */
  predicate InOnePlace(p: Pool, t: Task) {
    Count(p.accepted, t) == Count(p.workCh, t) + RunningCount(p.workers, t) + Count(TasksOf(p.finished), t)
  }

  predicate ErrorIsReal(p: Pool, t: Task) {
    Count(p.errCh, t) + Count(p.collected, t) <= Count(Failures(p.finished), t)
  }

  ghost predicate EachInOnePlace(p: Pool) {
    forall t :: InOnePlace(p, t)
  }

  /** No error is invented: each one is still in errCh, has been read, or was dropped. */
  ghost predicate ErrorsAccounted(p: Pool) {
    && |p.errCh| <= 10 * |p.workers|
    && (forall t :: ErrorIsReal(p, t))
    && |p.errCh| + |p.collected| + p.dropped == |Failures(p.finished)|
  }

  /** A worker leaves only on cancellation or once the channel is closed and empty; a panicking task
      does not end it.  doneCh is closed only after all have left. */
  ghost predicate ExitsJustified(p: Pool) {
    && |p.workCh| <= 2 * |p.workers|
    && (!p.cancelled && (exists w | 0 <= w < |p.workers| :: p.workers[w].Exited?) ==> p.closed && p.workCh == [])
    && (p.doneClosed ==> forall w | 0 <= w < |p.workers| :: p.workers[w].Exited?)
  }

  /** Tasks are taken in the order in which they were accepted: those that wait are the last of them. */
  ghost predicate FirstComeFirstServed(p: Pool) {
    EndOf(p.workCh, p.accepted)
  }

  /** What holds in every reachable state, whatever the interleaving. */
  ghost predicate Inv(p: Pool) {
    EachInOnePlace(p) && ErrorsAccounted(p) && ExitsJustified(p) && FirstComeFirstServed(p)
  }

  lemma InvInitially(workers: nat)
    ensures Inv(NewPool(workers))
  {
    forall t ensures InOnePlace(NewPool(workers), t) {
      NothingRunning(NewPool(workers).workers, t);
    }
  }

  lemma CountAppend(ts: seq<Task>, x: Task, t: Task)
    ensures Count(ts + [x], t) == Count(ts, t) + (if x == t then 1 else 0)
  {
  }

  lemma CountHead(ts: seq<Task>, t: Task)
    requires ts != []
    ensures Count(ts, t) == Count(ts[1..], t) + (if ts[0] == t then 1 else 0)
  {
    assert ts == [ts[0]] + ts[1..];
  }

  lemma TasksAppend(es: seq<Ended>, e: Ended)
    ensures TasksOf(es + [e]) == TasksOf(es) + [e.task]
  {
  }

  lemma PlaceKeptAtEnd(p: Pool, w: nat, outcome: Outcome, t: Task)
    requires InOnePlace(p, t) && Enabled(p, Finish(w, outcome))
    ensures InOnePlace(After(p, Finish(w, outcome)), t)
  {
    hide RunningCount, Count, TasksOf;
    StatusChange(p.workers, w, Idle, t);
    TasksAppend(p.finished, Ended(p.workers[w].task, outcome));
    CountAppend(TasksOf(p.finished), p.workers[w].task, t);
  }

  lemma PlaceKept(p: Pool, step: Step, t: Task)
    requires InOnePlace(p, t) && Enabled(p, step)
    ensures InOnePlace(After(p, step), t)
  {
    hide RunningCount, Count, TasksOf;
    match step {
      case Send(x) =>
        CountAppend(p.workCh, x, t);
        CountAppend(p.accepted, x, t);
      case Receive(w) =>
        StatusChange(p.workers, w, Running(p.workCh[0]), t);
        CountHead(p.workCh, t);
      case Finish(w, outcome) => PlaceKeptAtEnd(p, w, outcome, t);
      case ExitOnClosed(w) => StatusChange(p.workers, w, Exited, t);
      case ExitOnCancel(w) => StatusChange(p.workers, w, Exited, t);
      case _ =>
    }
  }

  lemma FailuresAppend(es: seq<Ended>, e: Ended)
    ensures Failures(es + [e]) == if e.outcome.Succeeds? then Failures(es) else Failures(es) + [e.task]
  {
    assert (es + [e])[..|es|] == es;
  }

  lemma ErrorKept(p: Pool, step: Step, t: Task)
    requires ErrorIsReal(p, t) && Enabled(p, step)
    ensures ErrorIsReal(After(p, step), t)
  {
    hide Failures, Count;
    match step {
      case Finish(w, outcome) =>
        FailuresAppend(p.finished, Ended(p.workers[w].task, outcome));
        CountAppend(p.errCh, p.workers[w].task, t);
        CountAppend(Failures(p.finished), p.workers[w].task, t);
      case ReadError =>
        CountHead(p.errCh, t);
        CountAppend(p.collected, p.errCh[0], t);
      case _ =>
    }
  }

  lemma ErrorTotalsKept(p: Pool, step: Step)
    requires ErrorsAccounted(p) && Enabled(p, step)
    ensures var q := After(p, step);
            |q.errCh| <= 10 * |q.workers| && |q.errCh| + |q.collected| + q.dropped == |Failures(q.finished)|
  {
    hide Failures, ErrorIsReal;
    if step.Finish? {
      FailuresAppend(p.finished, Ended(p.workers[step.worker].task, step.outcome));
    }
  }

  lemma ExitsKept(p: Pool, step: Step)
    requires ExitsJustified(p) && Enabled(p, step)
    ensures ExitsJustified(After(p, step))
  {
  }

  lemma InvKept(p: Pool, step: Step)
    requires Inv(p) && Enabled(p, step)
    ensures Inv(After(p, step))
  {
    hide InOnePlace, ErrorIsReal, After, Enabled;
    forall t ensures InOnePlace(After(p, step), t) && ErrorIsReal(After(p, step), t) {
      PlaceKept(p, step, t);
      ErrorKept(p, step, t);
    }
    ErrorTotalsKept(p, step);
    ExitsKept(p, step);
    OrderKept(p, step);
  }

  predicate EndOf(waiting: seq<Task>, all: seq<Task>) {
    |waiting| <= |all| && waiting == all[|all| - |waiting|..]
  }

  lemma EndAppend(waiting: seq<Task>, all: seq<Task>, t: Task)
    requires EndOf(waiting, all)
    ensures EndOf(waiting + [t], all + [t])
  {
  }

  lemma EndTail(waiting: seq<Task>, all: seq<Task>)
    requires EndOf(waiting, all) && waiting != []
    ensures EndOf(waiting[1..], all)
  {
  }

  lemma OrderKept(p: Pool, step: Step)
    requires FirstComeFirstServed(p) && Enabled(p, step)
    ensures FirstComeFirstServed(After(p, step))
  {
    hide Failures, EndOf;
    match step {
      case Send(t) => EndAppend(p.workCh, p.accepted, t);
      case Receive(w) => EndTail(p.workCh, p.accepted);
      case _ =>
    }
  }

  ghost predicate IsRun(pools: seq<Pool>, steps: seq<Step>) {
    && |pools| == |steps| + 1
    && forall i | 0 <= i < |steps| :: Enabled(pools[i], steps[i]) && pools[i + 1] == After(pools[i], steps[i])
  }

  lemma {:induction false} InvInRun(pools: seq<Pool>, steps: seq<Step>, n: nat)
    requires IsRun(pools, steps) && exists workers: nat :: pools[0] == NewPool(workers)
    requires n < |pools|
    ensures Inv(pools[n])
  {
    if n == 0 {
      var workers: nat :| pools[0] == NewPool(workers);
      InvInitially(workers);
    } else {
      InvInRun(pools, steps, n - 1);
      assert Enabled(pools[n - 1], steps[n - 1]) && pools[n - 1 + 1] == After(pools[n - 1], steps[n - 1]);
      InvKept(pools[n - 1], steps[n - 1]);
    }
  }

  /** A graceful shutdown leaves nothing behind: when doneCh is closed without a cancellation, every
      accepted task has been run to its end, as often as it was accepted. */
  lemma DoneMeansFinished(p: Pool)
    requires Inv(p) && p.doneClosed && !p.cancelled && |p.workers| > 0
    ensures p.closed && p.workCh == [] && multiset(TasksOf(p.finished)) == multiset(p.accepted)
  {
    assert p.workers[0].Exited?;
    forall t ensures multiset(TasksOf(p.finished))[t] == multiset(p.accepted)[t] {
      NothingRunning(p.workers, t);
      assert InOnePlace(p, t);
    }
  }

  /** While the pool is neither closed nor cancelled every worker is alive, whatever tasks have done. */
  lemma WorkersSurviveTasks(p: Pool)
    requires Inv(p) && !p.closed && !p.cancelled
    ensures forall w | 0 <= w < |p.workers| :: !p.workers[w].Exited?
    ensures |p.workers| > 0 ==> !p.doneClosed
  {
    assert |p.workers| > 0 && p.doneClosed ==> p.workers[0].Exited?;
  }

  // ---- a closed pool comes to its end

  /** Steps that the pool takes by itself. */
  predicate OwnStep(step: Step) {
    step.Receive? || step.Finish? || step.ExitOnClosed? || step.ExitOnCancel? || step.CloseDone?
  }

  function Alive(ws: seq<Status>): nat {
    if ws == [] then 0 else Alive(ws[..|ws| - 1]) + (if ws[|ws| - 1].Exited? then 0 else 1)
  }

  function Busy(ws: seq<Status>): nat {
    if ws == [] then 0 else Busy(ws[..|ws| - 1]) + (if ws[|ws| - 1].Running? then 1 else 0)
  }

  lemma {:induction false} AliveBusyChange(ws: seq<Status>, w: nat, s: Status)
    requires w < |ws|
    ensures Alive(ws[w := s]) == Alive(ws) - (if ws[w].Exited? then 0 else 1) + (if s.Exited? then 0 else 1)
    ensures Busy(ws[w := s]) == Busy(ws) - (if ws[w].Running? then 1 else 0) + (if s.Running? then 1 else 0)
  {
    var n, ws' := |ws| - 1, ws[w := s];
    if w == n {
      assert ws'[..n] == ws[..n];
    } else {
      AliveBusyChange(ws[..n], w, s);
      assert ws'[..n] == ws[..n][w := s];
    }
  }

  lemma {:induction false} AllAliveNoneBusy(n: nat)
    ensures Alive(seq(n, _ => Idle)) == n && Busy(seq(n, _ => Idle)) == 0
  {
    if n > 0 {
      AllAliveNoneBusy(n - 1);
      assert seq(n, _ => Idle)[..n - 1] == seq(n - 1, _ => Idle);
    }
  }

  /** Steps left at most: a waiting task is received and finished, each worker leaves, doneCh closes. */
  function StepsLeft(p: Pool): nat {
    3 * |p.workCh| + 2 * Busy(p.workers) + Alive(p.workers) + (if p.doneClosed then 0 else 1)
  }

  lemma LeavingCounts(p: Pool, w: nat)
    requires w < |p.workers| && p.workers[w].Idle?
    ensures StepsLeft(p.(workers := p.workers[w := Exited])) == StepsLeft(p) - 1
  {
    hide Busy, Alive;
    AliveBusyChange(p.workers, w, Exited);
  }

  lemma WorkingCounts(p: Pool, step: Step)
    requires (step.Receive? || step.Finish?) && Enabled(p, step)
    ensures StepsLeft(After(p, step)) == StepsLeft(p) - (if step.Receive? then 1 else 2)
    ensures |After(p, step).errCh| <= |p.errCh| + (if step.Receive? then 0 else 1)
  {
    hide Busy, Alive;
    AliveBusyChange(p.workers, step.worker, if step.Receive? then Running(p.workCh[0]) else Idle);
  }

  lemma OwnStepCounts(p: Pool, step: Step)
    requires OwnStep(step) && Enabled(p, step)
    ensures StepsLeft(After(p, step)) < StepsLeft(p)
    ensures StepsLeft(After(p, step)) + |After(p, step).errCh| < StepsLeft(p) + |p.errCh|
  {
    if step.Receive? || step.Finish? {
      WorkingCounts(p, step);
    } else if step.ExitOnClosed? || step.ExitOnCancel? {
      hide StepsLeft;
      LeavingCounts(p, step.worker);
    }
  }

  /** A worker that has not left can always do something while there is work or the pool is closed. */
  lemma WorkerCanStep(p: Pool, w: nat)
    requires w < |p.workers| && !p.workers[w].Exited?
    requires p.workCh != [] || p.closed || p.workers[w].Running?
    ensures exists step :: OwnStep(step) && Enabled(p, step)
  {
    var step := if p.workers[w].Running? then Finish(w, Succeeds) else if p.workCh != [] then Receive(w)
        else ExitOnClosed(w);
    assert OwnStep(step) && Enabled(p, step);
  }

  lemma ClosedPoolCanStep(p: Pool)
    requires p.closed && !p.doneClosed
    ensures exists step :: OwnStep(step) && Enabled(p, step)
  {
    if w :| 0 <= w < |p.workers| && !p.workers[w].Exited? {
      WorkerCanStep(p, w);
    } else {
      assert OwnStep(CloseDone) && Enabled(p, CloseDone);
    }
  }

  lemma OtherStepCounts(p: Pool, step: Step)
    requires !OwnStep(step) && Enabled(p, step) && p.closed
    ensures StepsLeft(After(p, step)) == StepsLeft(p)
  {
  }

  /** How many of the steps are the pool's own. */
  function OwnSteps(steps: seq<Step>): nat {
    if steps == [] then 0
    else OwnSteps(steps[..|steps| - 1]) + if OwnStep(steps[|steps| - 1]) then 1 else 0
  }

  lemma {:induction false} ClosedRunCounts(pools: seq<Pool>, steps: seq<Step>, n: nat)
    requires IsRun(pools, steps) && n < |pools| && pools[0].closed
    ensures pools[n].closed && OwnSteps(steps[..n]) + StepsLeft(pools[n]) <= StepsLeft(pools[0])
  {
    hide StepsLeft;
    if n > 0 {
      ClosedRunCounts(pools, steps, n - 1);
      var p, step := pools[n - 1], steps[n - 1];
      assert Enabled(p, step) && pools[n - 1 + 1] == After(p, step);
      assert steps[..n][..n - 1] == steps[..n - 1];
      if OwnStep(step) {
        OwnStepCounts(p, step);
      } else {
        OtherStepCounts(p, step);
      }
    }
  }

  /** Once closed, and as long as every running task ends some time, the pool closes doneCh: whatever
      submitters, readers and cancellers do in between, its own steps are bounded, and one is possible
      until then. */
  lemma ClosedPoolFinishes(pools: seq<Pool>, steps: seq<Step>)
    requires IsRun(pools, steps) && pools[0].closed
    ensures OwnSteps(steps) <= StepsLeft(pools[0])
    ensures (forall step | OwnStep(step) :: !Enabled(pools[|steps|], step)) ==> pools[|steps|].doneClosed
  {
    ClosedRunCounts(pools, steps, |steps|);
    assert steps[..|steps|] == steps;
    if !pools[|steps|].doneClosed {
      ClosedPoolCanStep(pools[|steps|]);
    }
  }
}
