// Batch of pkg/async/goroutine.go: submit every item, close workCh, wait for doneCh, cancel, and
// collect what errCh holds.  The main goroutine is interleaved with the workers of its pool in every
// possible way; the context of the caller is never cancelled.  Item number i is task i.
module Batches {
  import opened WorkerPools

  datatype Control =
    | Submitting(next: nat)   // items before next have been submitted
    | Waiting                 // workCh is closed; blocked on doneCh
    | Collecting(errs: seq<Task>)
    | Returned(errs: seq<Task>)
    | Broken                  // Submit returned an error or lost its task, or a second close panicked

  datatype Batch = Batch(items: nat, pool: Pool, control: Control)

  datatype Move =
    | Worker(step: Step)
    | SubmitNext
    | SubmitFails     // Submit finds doneCh closed
    | SubmitLoses     // Submit sends on a closed channel
    | CloseWorkCh
    | SeeDone
    | TakeError
    | Return

  function Start(items: nat, workers: nat): Batch {
    Batch(items, NewPool(workers), Submitting(0))
  }

  predicate CanMove(b: Batch, m: Move) {
    match m
    case Worker(step) => OwnStep(step) && Enabled(b.pool, step)
    case SubmitNext => b.control.Submitting? && b.control.next < b.items && Enabled(b.pool, Send(b.control.next))
    case SubmitFails => b.control.Submitting? && b.control.next < b.items && b.pool.doneClosed
    case SubmitLoses => b.control.Submitting? && b.control.next < b.items && b.pool.closed
    case CloseWorkCh => b.control == Submitting(b.items)
    case SeeDone => b.control.Waiting? && b.pool.doneClosed
    case TakeError => b.control.Collecting? && b.pool.errCh != []
    case Return => b.control.Collecting? && b.pool.errCh == []
  }

  function Moved(b: Batch, m: Move): Batch
    requires CanMove(b, m)
  {
    match m
    case Worker(step) => b.(pool := After(b.pool, step))
    case SubmitNext => b.(pool := After(b.pool, Send(b.control.next)), control := Submitting(b.control.next + 1))
    case SubmitFails => b.(control := Broken)
    case SubmitLoses => b.(control := Broken)
    case CloseWorkCh => if b.pool.closed then b.(control := Broken)
        else b.(pool := After(b.pool, CloseWork), control := Waiting)
    case SeeDone => b.(pool := After(b.pool, Cancel), control := Collecting([]))
    case TakeError => b.(pool := After(b.pool, ReadError), control := Collecting(b.control.errs + [b.pool.errCh[0]]))
    case Return => b.(control := Returned(b.control.errs))
  }

  function FirstItems(n: nat): (ts: seq<Task>)
    ensures |ts| == n && forall i | 0 <= i < n :: ts[i] == i
  {
    seq(n, i => i)
  }

  function Least(a: nat, b: nat): nat {
    if a < b then a else b
  }

  /** What the progress of the main goroutine says about the pool. */
  ghost predicate InStep(b: Batch) {
    match b.control
    case Submitting(n) =>
      n <= b.items && b.pool.accepted == FirstItems(n) && !b.pool.closed && !b.pool.cancelled && b.pool.collected == []
    case Waiting =>
      b.pool.accepted == FirstItems(b.items) && b.pool.closed && !b.pool.cancelled && b.pool.collected == []
    case Collecting(errs) =>
      b.pool.accepted == FirstItems(b.items) && AllDone(b.pool) && b.pool.collected == errs
    case Returned(errs) =>
      b.pool.accepted == FirstItems(b.items) && AllDone(b.pool) && b.pool.collected == errs && b.pool.errCh == []
    case Broken => false
  }

  ghost predicate AllDone(p: Pool) {
    && p.doneClosed && p.closed && p.workCh == []
    && multiset(TasksOf(p.finished)) == multiset(p.accepted)
  }

  /** Errors are dropped only once errCh has overflowed, so that the first to arrive are kept. */
  predicate OnlyOverflowDropped(p: Pool) {
    p.collected + p.errCh == Failures(p.finished)[..Least(10 * |p.workers|, |Failures(p.finished)|)]
  }

  ghost predicate BatchInv(b: Batch, workers: nat) {
    workers > 0 && |b.pool.workers| == workers && Inv(b.pool) && OnlyOverflowDropped(b.pool) && InStep(b)
  }

  lemma BatchInvInitially(items: nat, workers: nat)
    requires workers > 0
    ensures BatchInv(Start(items, workers), workers)
  {
    InvInitially(workers);
  }

  lemma OverflowKept(p: Pool, step: Step)
    requires ErrorsAccounted(p) && OnlyOverflowDropped(p) && OwnStep(step) && Enabled(p, step)
    requires step.Finish? ==> p.collected == []
    ensures OnlyOverflowDropped(After(p, step))
  {
    hide Failures, ErrorIsReal;
    if step.Finish? {
      FailuresAppend(p.finished, Ended(p.workers[step.worker].task, step.outcome));
    }
  }

  lemma OverflowKeptByOthers(p: Pool, step: Step)
    requires OnlyOverflowDropped(p) && Enabled(p, step)
    requires step.Send? || step.CloseWork? || step.Cancel? || step.ReadError?
    ensures OnlyOverflowDropped(After(p, step))
  {
    hide Failures;
    if step.ReadError? {
      MovedOver(p.collected, p.errCh);
    }
    hide Least;
  }

  lemma MovedOver(a: seq<Task>, b: seq<Task>)
    requires b != []
    ensures a + [b[0]] + b[1..] == a + b
  {
  }

  /** While a task runs, Batch has not begun to collect. */
  lemma NothingCollectedYet(b: Batch, step: Step)
    requires Inv(b.pool) && InStep(b) && step.Finish? && Enabled(b.pool, step)
    ensures b.pool.collected == []
  {
    hide EachInOnePlace, ErrorsAccounted;
  }

  lemma OwnStepInStep(b: Batch, step: Step)
    requires InStep(b) && OwnStep(step) && Enabled(b.pool, step) && Inv(b.pool) && Inv(After(b.pool, step))
    ensures InStep(b.(pool := After(b.pool, step)))
  {
    hide EachInOnePlace, ErrorsAccounted, FirstItems;
  }

  lemma OwnStepKeeps(b: Batch, step: Step, workers: nat)
    requires BatchInv(b, workers) && CanMove(b, Worker(step))
    ensures BatchInv(Moved(b, Worker(step)), workers)
  {
    InvKept(b.pool, step);
    if step.Finish? {
      NothingCollectedYet(b, step);
    }
    OverflowKept(b.pool, step);
    OwnStepInStep(b, step);
    hide Inv, InStep, OnlyOverflowDropped;
  }

  lemma BatchInvKept(b: Batch, m: Move, workers: nat)
    requires BatchInv(b, workers) && CanMove(b, m)
    ensures BatchInv(Moved(b, m), workers)
  {
    hide OnlyOverflowDropped, Failures;
    match m {
      case Worker(step) => OwnStepKeeps(b, step, workers);
      case SubmitNext =>
        InvKept(b.pool, Send(b.control.next));
        OverflowKeptByOthers(b.pool, Send(b.control.next));
        assert FirstItems(b.control.next + 1) == FirstItems(b.control.next) + [b.control.next];
      case SubmitFails => WorkersSurviveTasks(b.pool);
      case SubmitLoses =>
      case CloseWorkCh =>
        InvKept(b.pool, CloseWork);
        OverflowKeptByOthers(b.pool, CloseWork);
      case SeeDone =>
        InvKept(b.pool, Cancel);
        OverflowKeptByOthers(b.pool, Cancel);
        DoneMeansFinished(b.pool);
      case TakeError =>
        InvKept(b.pool, ReadError);
        OverflowKeptByOthers(b.pool, ReadError);
      case Return =>
    }
  }

  ghost predicate IsBatchRun(items: nat, workers: nat, states: seq<Batch>, moves: seq<Move>) {
    && |states| == |moves| + 1 && states[0] == Start(items, workers)
    && forall i | 0 <= i < |moves| :: CanMove(states[i], moves[i]) && states[i + 1] == Moved(states[i], moves[i])
  }

  lemma {:induction false} BatchInvInRun(items: nat, workers: nat, states: seq<Batch>, moves: seq<Move>, n: nat)
    requires workers > 0 && IsBatchRun(items, workers, states, moves) && n < |states|
    ensures BatchInv(states[n], workers) && states[n].items == items
  {
    if n == 0 {
      BatchInvInitially(items, workers);
    } else {
      BatchInvInRun(items, workers, states, moves, n - 1);
      assert CanMove(states[n - 1], moves[n - 1]) && states[n - 1 + 1] == Moved(states[n - 1], moves[n - 1]);
      BatchInvKept(states[n - 1], moves[n - 1], workers);
    }
  }

  /** Whatever the interleaving, no Submit of Batch fails or loses its task, and when Batch returns
      every item has been run to its end exactly once and the result holds the errors in the order in
      which the tasks ended: all of them if there are at most ten per worker, otherwise the first of them. */
  lemma BatchResult(items: nat, workers: nat, states: seq<Batch>, moves: seq<Move>)
    requires workers > 0 && IsBatchRun(items, workers, states, moves)
    ensures forall m | m in moves :: !m.SubmitFails? && !m.SubmitLoses?
    ensures !states[|moves|].control.Broken?
    ensures var b := states[|moves|];
            b.control.Returned? ==>
              && multiset(TasksOf(b.pool.finished)) == multiset(FirstItems(items))
              && b.control.errs == Failures(b.pool.finished)[..Least(10 * workers, |Failures(b.pool.finished)|)]
  {
    forall i | 0 <= i < |moves| ensures !moves[i].SubmitFails? && !moves[i].SubmitLoses? {
      BatchInvInRun(items, workers, states, moves, i);
      assert CanMove(states[i], moves[i]);
      if moves[i].SubmitFails? {
        WorkersSurviveTasks(states[i].pool);
      }
    }
    BatchInvInRun(items, workers, states, moves, |moves|);
    var p := states[|moves|].pool;
    assert p.errCh == [] ==> p.collected + p.errCh == p.collected;
  }

  // ---- Batch returns

  /** Moves left at most: those of the pool, an item is submitted and its error taken, and the main
      goroutine passes its stages. */
  function MovesLeft(b: Batch): int {
    (match b.control
     case Submitting(n) => 4 * (b.items - n) + 3
     case Waiting => 2
     case Collecting(_) => 1
     case _ => 0)
    + |b.pool.errCh| + StepsLeft(b.pool)
  }

  lemma EveryMoveCounts(b: Batch, m: Move, workers: nat)
    requires BatchInv(b, workers) && CanMove(b, m)
    ensures 0 <= MovesLeft(Moved(b, m)) < MovesLeft(b)
  {
    hide Busy, Alive, Failures, EachInOnePlace, ErrorsAccounted, OnlyOverflowDropped, AllDone, ExitsJustified;
    if m.Worker? {
      OwnStepCounts(b.pool, m.step);
      hide StepsLeft;
    }
  }

  lemma WorkerMoves(b: Batch)
    requires exists step :: OwnStep(step) && Enabled(b.pool, step)
    ensures exists m :: CanMove(b, m)
  {
    var step :| OwnStep(step) && Enabled(b.pool, step);
    assert CanMove(b, Worker(step));
  }

  /** There is no deadlock: until Batch has returned, some move is possible. */
  lemma SomeMovePossible(b: Batch, workers: nat)
    requires BatchInv(b, workers) && !b.control.Returned?
    ensures exists m :: CanMove(b, m)
  {
    match b.control {
      case Submitting(n) =>
        if n == b.items {
          assert CanMove(b, CloseWorkCh);
        } else if |b.pool.workCh| < 2 * workers {
          assert CanMove(b, SubmitNext);
        } else {
          WorkersSurviveTasks(b.pool);
          WorkerCanStep(b.pool, 0);
          WorkerMoves(b);
        }
      case Waiting =>
        if b.pool.doneClosed {
          assert CanMove(b, SeeDone);
        } else {
          ClosedPoolCanStep(b.pool);
          WorkerMoves(b);
        }
      case Collecting(errs) =>
        assert CanMove(b, if b.pool.errCh != [] then TakeError else Return);
    }
  }

  lemma {:induction false} RunIsShort(items: nat, workers: nat, states: seq<Batch>, moves: seq<Move>, n: nat)
    requires workers > 0 && IsBatchRun(items, workers, states, moves) && n < |states|
    ensures n + MovesLeft(states[n]) <= MovesLeft(Start(items, workers)) && MovesLeft(states[n]) >= 0
  {
    BatchInvInRun(items, workers, states, moves, n);
    if n > 0 {
      RunIsShort(items, workers, states, moves, n - 1);
      BatchInvInRun(items, workers, states, moves, n - 1);
      assert CanMove(states[n - 1], moves[n - 1]) && states[n - 1 + 1] == Moved(states[n - 1], moves[n - 1]);
      EveryMoveCounts(states[n - 1], moves[n - 1], workers);
    }
  }

  /** Batch always comes to its end: no schedule makes more than 4 * items + workers + 4 moves, and
      one that cannot be continued has returned. */
  lemma BatchReturns(items: nat, workers: nat, states: seq<Batch>, moves: seq<Move>)
    requires workers > 0 && IsBatchRun(items, workers, states, moves)
    ensures |moves| <= 4 * items + workers + 4
    ensures (forall m :: !CanMove(states[|moves|], m)) ==> states[|moves|].control.Returned?
  {
    RunIsShort(items, workers, states, moves, |moves|);
    AllAliveNoneBusy(workers);
    BatchInvInRun(items, workers, states, moves, |moves|);
    if !states[|moves|].control.Returned? {
      SomeMovePossible(states[|moves|], workers);
    }
  }
}
