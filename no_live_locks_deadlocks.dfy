/**
 * NoLiveLocks (deadlocks): every task runs `num_queries_per_task` range
 * updates in one transaction. A failed attempt takes the fair lock once more
 * before retrying, and a committed attempt releases all those holds again.
 */
module NoLiveLocksDeadlocks {
  import opened Transactions
  import opened Concurrency

  /** The shared state: sizes, the three counters and the fair lock. */
  class NoLiveLocks {
    const numTasks: nat := 30
    const numQueriesPerTask: nat := 3
    const nThreads: nat := 4
    const maxValue: real := 50.0
    const tasksFinished: AtomicInteger
    const maxRetryCounter: AtomicInteger
    const deadlockCounter: AtomicInteger
    const lock: ReentrantLock

    predicate Valid()
    {
      && tasksFinished != maxRetryCounter
      && tasksFinished != deadlockCounter
      && maxRetryCounter != deadlockCounter
    }

    constructor ()
      ensures Valid()
      ensures fresh(tasksFinished) && fresh(maxRetryCounter) && fresh(deadlockCounter) && fresh(lock)
      ensures tasksFinished.value == 0 && maxRetryCounter.value == 0 && deadlockCounter.value == 0
      ensures lock.fair && lock.holdCount == 0
    {
      tasksFinished := new AtomicInteger(0);
      maxRetryCounter := new AtomicInteger(0);
      deadlockCounter := new AtomicInteger(0);
      lock := new ReentrantLock(true); // grants the lock in arrival order
    }
  }

  /** A draw of `rand.nextDouble()`. */
  predicate UnitDraws(draws: seq<real>)
  {
    forall i :: 0 <= i < |draws| ==> 0.0 <= draws[i] < 1.0
  }

  /** `rand.nextDouble() * y`. */
  function Scale(x: real, y: real): real
  {
    x * y
  }

  /** A draw in [0, 1) scales a non-negative `y` into [0, y], and into
      [0, y) when `y` is positive. */
  lemma ScaledDrawBelow(x: real, y: real)
    requires 0.0 <= x < 1.0 && 0.0 <= y
    ensures 0.0 <= Scale(x, y) <= y
    ensures y > 0.0 ==> Scale(x, y) < y
  {
    assert y - x * y == (1.0 - x) * y;
    if y > 0.0 {
      assert (1.0 - x) * y > 0.0;
    }
  }

  class Blocker {
    const outer: NoLiveLocks
    const task: int
    const startRange: array<real>
    const stopRange: array<real>

    predicate Valid()
    {
      && outer.Valid()
      && startRange.Length == outer.numQueriesPerTask
      && stopRange.Length == outer.numQueriesPerTask
    }

    /**
     * For every query q the constructor draws `stop_range[q]` uniformly in
     * [0, max_value) and then `start_range[q]` in [0, stop_range[q]), so
     * every range is well formed. `draws` are the 2 * n values of
     * `rand.nextDouble()` in the order they are taken.
     */
    constructor (outer: NoLiveLocks, id: int, draws: seq<real>)
      requires outer.Valid()
      requires |draws| >= 2 * outer.numQueriesPerTask && UnitDraws(draws)
      ensures this.outer == outer && task == id
      ensures Valid() && fresh(startRange) && fresh(stopRange)
      ensures forall q :: 0 <= q < outer.numQueriesPerTask ==>
        && stopRange[q] == Scale(draws[2 * q], outer.maxValue)
        && startRange[q] == Scale(draws[2 * q + 1], stopRange[q])
      ensures forall q :: 0 <= q < outer.numQueriesPerTask ==>
        0.0 <= startRange[q] <= stopRange[q] < outer.maxValue
    {
      this.outer := outer;
      task := id;
      var start := new real[outer.numQueriesPerTask];
      var stop := new real[outer.numQueriesPerTask];
      for q := 0 to outer.numQueriesPerTask
        invariant forall i :: 0 <= i < q ==>
          && stop[i] == Scale(draws[2 * i], outer.maxValue)
          && start[i] == Scale(draws[2 * i + 1], stop[i])
        invariant forall i :: 0 <= i < q ==> 0.0 <= start[i] <= stop[i] < outer.maxValue
      {
        stop[q] := Scale(draws[2 * q], outer.maxValue);
        ScaledDrawBelow(draws[2 * q], outer.maxValue);
        start[q] := Scale(draws[2 * q + 1], stop[q]);
        ScaledDrawBelow(draws[2 * q + 1], stop[q]);
      }
      startRange := start;
      stopRange := stop;
    }

    /**
     * `run()`. Each attempt issues the range updates and commits; after a
     * commit the `for` loop unlocks once per earlier failure. A failure is
     * counted, the transaction rolled back, the thread backs off and then
     * calls `lock.lock()`. The abort branch of `if (retries >= 1)` cannot be
     * reached, since `retries` has just been incremented from a non-negative
     * value, and `retries` is unbounded here. `holds[j]` is the thread's
     * hold count while attempt j runs; `delays` and `skipped` are as in
     * RestartBlocking.
     */
    method Run(env: seq<Attempt>, interruptedOnEntry: bool)
      returns (finished: bool, retries: nat, delays: seq<int>, skipped: seq<bool>, holds: seq<nat>, interrupted: bool)
      requires Valid()
      modifies outer.tasksFinished, outer.deadlockCounter, outer.maxRetryCounter, outer.lock
      ensures finished <==> LeadingConflicts(env) < |env|
      ensures retries == LeadingConflicts(env)
      ensures outer.tasksFinished.value == old(outer.tasksFinished.value) + (if finished then 1 else 0)
      ensures outer.deadlockCounter.value == old(outer.deadlockCounter.value) + retries
      ensures retries == 0 ==> outer.maxRetryCounter.value == old(outer.maxRetryCounter.value)
      ensures retries > 0 ==> outer.maxRetryCounter.value == Max(old(outer.maxRetryCounter.value), retries)
      ensures |delays| == retries
      ensures forall j :: 0 <= j < |delays| ==> 100 <= delays[j] < 100 + outer.nThreads * 1000
      ensures forall j :: 0 <= j < |delays| ==> delays[j] == Backoff(outer.nThreads, env[j].backoffDraw)
      ensures |skipped| == retries
      ensures forall j :: 0 <= j < |skipped| ==>
        (skipped[j] <==> interruptedOnEntry || exists i :: 0 <= i < j && env[i].interrupt)
      ensures interrupted <==> interruptedOnEntry || exists j :: 0 <= j < retries && env[j].interrupt
      ensures |holds| == retries + (if finished then 1 else 0)
      // attempt j runs holding the lock once per earlier failure
      ensures forall j :: 0 <= j < |holds| ==> holds[j] == old(outer.lock.holdCount) + j
      // a finished task gives back every hold it took; an unfinished one
      // still holds one per failure
      ensures finished ==> outer.lock.holdCount == old(outer.lock.holdCount)
      ensures !finished ==> outer.lock.holdCount == old(outer.lock.holdCount) + retries
    {
      ghost var h0 := outer.lock.holdCount;
      var success := false;
      retries, delays, holds, interrupted := 0, [], [], interruptedOnEntry;
      skipped := [];
      while !success && retries < |env|
        invariant retries <= |env|
        invariant forall j :: 0 <= j < retries ==> env[j].outcome.Conflict?
        invariant success ==> retries < |env| && env[retries].outcome.Commit?
        invariant outer.tasksFinished.value == old(outer.tasksFinished.value) + (if success then 1 else 0)
        invariant outer.deadlockCounter.value == old(outer.deadlockCounter.value) + retries
        invariant retries == 0 ==> outer.maxRetryCounter.value == old(outer.maxRetryCounter.value)
        invariant retries > 0 ==> outer.maxRetryCounter.value == Max(old(outer.maxRetryCounter.value), retries)
        invariant |delays| == retries
        invariant forall j :: 0 <= j < |delays| ==> 100 <= delays[j] < 100 + outer.nThreads * 1000
        invariant forall j :: 0 <= j < |delays| ==> delays[j] == Backoff(outer.nThreads, env[j].backoffDraw)
        invariant |skipped| == retries
        invariant forall j :: 0 <= j < |skipped| ==>
          (skipped[j] <==> interruptedOnEntry || exists i :: 0 <= i < j && env[i].interrupt)
        invariant interrupted <==> interruptedOnEntry || exists j :: 0 <= j < retries && env[j].interrupt
        invariant |holds| == retries + (if success then 1 else 0)
        invariant forall j :: 0 <= j < |holds| ==> holds[j] == h0 + j
        invariant success ==> outer.lock.holdCount == h0
        invariant !success ==> outer.lock.holdCount == h0 + retries
        decreases |env| - retries, if success then 0 else 1
      {
        var attempt := env[retries];
        holds := holds + [outer.lock.holdCount];
        var issued, committed := ExecuteRangeUpdates(outer.numQueriesPerTask, task, attempt.outcome);
        if committed {
          var i := 0;
          while i < retries
            invariant 0 <= i <= retries
            invariant outer.lock.holdCount == h0 + retries - i
            modifies outer.lock
          {
            outer.lock.Unlock();
            i := i + 1;
          }
          var finisher := outer.tasksFinished.IncrementAndGet();
          success := true;
        } else {
          // catch (SQLException)
          retries := retries + 1;
          var _ := outer.deadlockCounter.IncrementAndGet();
          outer.maxRetryCounter.Set(Max(outer.maxRetryCounter.Get(), retries));
          if retries >= 1 {
            delays := delays + [Backoff(outer.nThreads, attempt.backoffDraw)];
            // a thread whose interrupt status is already set does not sleep:
            // the sleep throws at once and the catch sets the status again
            skipped := skipped + [interrupted];
            interrupted := interrupted || attempt.interrupt;
            outer.lock.Lock();
          } else {
            // the abort branch: unreachable
            assert false;
          }
        }
      }
      finished := success;
      LeadingConflictsUnique(env, retries);
    }
  }
}
