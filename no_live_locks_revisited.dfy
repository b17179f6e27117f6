/**
 * NoLiveLocks (revisited): the RestartBlocking tasks plus a fair
 * ReentrantLock that write tasks take before every retry. `Blocker.Run`
 * follows the code as written, which acquires the lock twice per failed
 * retry and releases it once; `Blocker.RunWithoutRelock` is the same loop
 * with the re-acquisition in the catch block removed.
 */
module NoLiveLocksRevisited {
  import opened Sampling
  import opened Transactions
  import opened Concurrency

  /** The shared state: sizes, the three counters and the fair lock. */
  class NoLiveLocks {
    const numTasks: nat := 30
    const numQueriesPerTask: nat := 3
    const nThreads: nat := 4
    const numTuple: nat := 50000
    const tasksFinished: AtomicInteger
    const maxRetryCounter: AtomicInteger
    const deadlockCounter: AtomicInteger
    const lock: ReentrantLock

    predicate Valid()
    {
      && tasksFinished != maxRetryCounter
      && tasksFinished != deadlockCounter
      && maxRetryCounter != deadlockCounter
    }

    constructor ()
      ensures Valid()
      ensures fresh(tasksFinished) && fresh(maxRetryCounter) && fresh(deadlockCounter) && fresh(lock)
      ensures tasksFinished.value == 0 && maxRetryCounter.value == 0 && deadlockCounter.value == 0
      ensures lock.fair && lock.holdCount == 0
    {
      tasksFinished := new AtomicInteger(0);
      maxRetryCounter := new AtomicInteger(0);
      deadlockCounter := new AtomicInteger(0);
      lock := new ReentrantLock(true); // grants the lock in arrival order
    }
  }

  /** The writer's hold count at the head of the retry loop after `retries`
      failures, starting from `h0`: the first failure leaves it at `h0`,
      every later one adds a hold. */
  function HeldAtLoopHead(h0: nat, retries: nat): nat
  {
    if retries == 0 then h0 else h0 + retries - 1
  }

  /** The writer's hold count when `run` returns after committing with
      `retries` failures: the success path and the finally block together
      release one hold fewer than the attempt holds. */
  function HeldOnExit(h0: nat, retries: nat): nat
  {
    if HeldAtLoopHead(h0, retries) > 0 then HeldAtLoopHead(h0, retries) - 1 else 0
  }

  /** A writer that starts without the lock and commits after three or more
      failures still holds the lock `retries - 2` times when `run` returns. */
  lemma LockLeaksAfterThreeRetries(retries: nat)
    requires retries >= 3
    ensures HeldOnExit(0, retries) == retries - 2 && HeldOnExit(0, retries) > 0
  {
  }

  /** With at most two failures the holds do balance out. */
  lemma LockBalancedUpToTwoRetries(retries: nat)
    requires retries <= 2
    ensures HeldOnExit(0, retries) == 0
  {
  }

  class Blocker {
    const outer: NoLiveLocks
    const task: int
    const p: real
    const dataIds: array?<int>
    ghost const drawsUsed: nat

    predicate Valid()
    {
      && outer.Valid()
      && (dataIds == null <==> KindOf(p) == FullScan)
      && (dataIds != null ==> dataIds.Length == outer.numQueriesPerTask)
    }

    constructor (outer: NoLiveLocks, id: int, p: real, draws: seq<nat>)
      requires outer.Valid()
      requires 0.0 <= p < 1.0
      requires NeedsIds(p) ==> |Accepted(draws, outer.numTuple)| >= outer.numQueriesPerTask
      ensures this.outer == outer && task == id && this.p == p
      ensures Valid()
      ensures KindOf(p) == FullScan ==> dataIds == null
      ensures KindOf(p) != FullScan ==>
        && dataIds != null && fresh(dataIds)
        && dataIds.Length == outer.numQueriesPerTask
        && Distinct(dataIds[..])
        && (forall q :: 0 <= q < dataIds.Length ==> 0 <= dataIds[q] < outer.numTuple)
        && drawsUsed <= |draws|
        && dataIds[..] == Accepted(draws[..drawsUsed], outer.numTuple)
        && (drawsUsed > 0 ==> |Accepted(draws[..drawsUsed - 1], outer.numTuple)| < outer.numQueriesPerTask)
    {
      this.outer := outer;
      task := id;
      this.p := p;
      IdsExactlyForKeyedTasks(p);
      if p < 0.7 || p >= 0.8 {
        var ids := new int[outer.numQueriesPerTask];
        var used := FillDistinctIds(ids, outer.numTuple, draws);
        dataIds := ids;
        drawsUsed := used;
      } else {
        dataIds := null; // full scans use no ids
        drawsUsed := 0;
      }
    }

    /**
     * `run()` as written. Per iteration: a writer on a retry locks at the
     * loop head; after a commit it unlocks if it holds the lock; on
     * SQLException it counts the failure, backs off and locks again; the
     * finally block unlocks once if the lock is held. `holds[j]` is the
     * thread's hold count while attempt j runs; `delays` and `skipped` are
     * as in RestartBlocking.
     */
    method Run(env: seq<Attempt>, interruptedOnEntry: bool)
      returns (finished: bool, retries: nat, delays: seq<int>, skipped: seq<bool>, holds: seq<nat>, interrupted: bool)
      requires Valid()
      modifies outer.tasksFinished, outer.deadlockCounter, outer.maxRetryCounter, outer.lock
      ensures finished <==> LeadingConflicts(env) < |env|
      ensures retries == LeadingConflicts(env)
      ensures outer.tasksFinished.value == old(outer.tasksFinished.value) + (if finished then 1 else 0)
      ensures outer.deadlockCounter.value == old(outer.deadlockCounter.value) + retries
      ensures retries == 0 ==> outer.maxRetryCounter.value == old(outer.maxRetryCounter.value)
      ensures retries > 0 ==> outer.maxRetryCounter.value == Max(old(outer.maxRetryCounter.value), retries)
      ensures |delays| == retries
      ensures forall j :: 0 <= j < |delays| ==> 100 <= delays[j] < 100 + outer.nThreads * 1000
      ensures forall j :: 0 <= j < |delays| ==> delays[j] == Backoff(outer.nThreads, env[j].backoffDraw)
      ensures |skipped| == retries
      ensures forall j :: 0 <= j < |skipped| ==>
        (skipped[j] <==> interruptedOnEntry || exists i :: 0 <= i < j && env[i].interrupt)
      ensures interrupted <==> interruptedOnEntry || exists j :: 0 <= j < retries && env[j].interrupt
      ensures |holds| == retries + (if finished then 1 else 0)
      // readers and scans never call lock() or unlock()
      ensures p < 0.8 ==> unchanged(outer.lock)
      ensures p < 0.8 ==> forall j :: 0 <= j < |holds| ==> holds[j] == old(outer.lock.holdCount)
      // a writer's attempt j runs holding the lock j more times than on entry
      ensures p >= 0.8 ==> forall j :: 0 <= j < |holds| ==> holds[j] == old(outer.lock.holdCount) + j
      ensures p >= 0.8 && finished ==> outer.lock.holdCount == HeldOnExit(old(outer.lock.holdCount), retries)
      ensures p >= 0.8 && !finished ==> outer.lock.holdCount == HeldAtLoopHead(old(outer.lock.holdCount), retries)
    {
      ghost var h0 := outer.lock.holdCount;
      var success := false;
      retries, delays, holds, interrupted := 0, [], [], interruptedOnEntry;
      skipped := [];
      while !success && retries < |env|
        invariant retries <= |env|
        invariant forall j :: 0 <= j < retries ==> env[j].outcome.Conflict?
        invariant success ==> retries < |env| && env[retries].outcome.Commit?
        invariant outer.tasksFinished.value == old(outer.tasksFinished.value) + (if success then 1 else 0)
        invariant outer.deadlockCounter.value == old(outer.deadlockCounter.value) + retries
        invariant retries == 0 ==> outer.maxRetryCounter.value == old(outer.maxRetryCounter.value)
        invariant retries > 0 ==> outer.maxRetryCounter.value == Max(old(outer.maxRetryCounter.value), retries)
        invariant |delays| == retries
        invariant forall j :: 0 <= j < |delays| ==> 100 <= delays[j] < 100 + outer.nThreads * 1000
        invariant forall j :: 0 <= j < |delays| ==> delays[j] == Backoff(outer.nThreads, env[j].backoffDraw)
        invariant |skipped| == retries
        invariant forall j :: 0 <= j < |skipped| ==>
          (skipped[j] <==> interruptedOnEntry || exists i :: 0 <= i < j && env[i].interrupt)
        invariant interrupted <==> interruptedOnEntry || exists j :: 0 <= j < retries && env[j].interrupt
        invariant |holds| == retries + (if success then 1 else 0)
        invariant p < 0.8 ==> unchanged(outer.lock)
        invariant p < 0.8 ==> forall j :: 0 <= j < |holds| ==> holds[j] == h0
        invariant p >= 0.8 ==> forall j :: 0 <= j < |holds| ==> holds[j] == h0 + j
        invariant p >= 0.8 && success ==> outer.lock.holdCount == HeldOnExit(h0, retries)
        invariant p >= 0.8 && !success ==> outer.lock.holdCount == HeldAtLoopHead(h0, retries)
        decreases |env| - retries, if success then 0 else 1
      {
        var attempt := env[retries];
        // try:
        if p >= 0.8 && retries > 0 {
          outer.lock.Lock(); // first hold of this retry
        }
        holds := holds + [outer.lock.holdCount];
        var issued, committed := Execute(KindOf(p), dataIds, task, attempt.outcome);
        if committed {
          var finisher := outer.tasksFinished.IncrementAndGet();
          success := true;
          if p >= 0.8 && retries > 0 && outer.lock.IsHeldByCurrentThread() {
            outer.lock.Unlock(); // success path
          }
        } else {
          // catch (SQLException): count it, roll back, back off
          retries := retries + 1;
          var _ := outer.deadlockCounter.IncrementAndGet();
          outer.maxRetryCounter.Set(Max(outer.maxRetryCounter.Get(), retries));
          delays := delays + [Backoff(outer.nThreads, attempt.backoffDraw)];
          // a thread whose interrupt status is already set does not sleep:
          // the sleep throws at once and the catch sets the status again
          skipped := skipped + [interrupted];
          interrupted := interrupted || attempt.interrupt;
          if p >= 0.8 && retries > 0 {
            outer.lock.Lock(); // second hold, taken for the next retry
          }
        }
        // finally:
        if p >= 0.8 && outer.lock.IsHeldByCurrentThread() {
          outer.lock.Unlock();
        }
      }
      finished := success;
      LeadingConflictsUnique(env, retries);
    }

    /**
     * The same loop without the `lock.lock()` at the end of the catch block:
     * every write retry then takes the lock exactly once, at the loop head,
     * and gives it back before the next iteration. On a thread that does not
     * hold the lock when `run` starts, the lock is held exactly during the
     * write retries and is free again when `run` returns.
     */
    method RunWithoutRelock(env: seq<Attempt>, interruptedOnEntry: bool)
      returns (finished: bool, retries: nat, delays: seq<int>, skipped: seq<bool>, holds: seq<nat>, interrupted: bool)
      requires Valid()
      requires outer.lock.holdCount == 0
      modifies outer.tasksFinished, outer.deadlockCounter, outer.maxRetryCounter, outer.lock
      ensures finished <==> LeadingConflicts(env) < |env|
      ensures retries == LeadingConflicts(env)
      ensures outer.tasksFinished.value == old(outer.tasksFinished.value) + (if finished then 1 else 0)
      ensures outer.deadlockCounter.value == old(outer.deadlockCounter.value) + retries
      ensures retries == 0 ==> outer.maxRetryCounter.value == old(outer.maxRetryCounter.value)
      ensures retries > 0 ==> outer.maxRetryCounter.value == Max(old(outer.maxRetryCounter.value), retries)
      ensures |delays| == retries
      ensures forall j :: 0 <= j < |delays| ==> 100 <= delays[j] < 100 + outer.nThreads * 1000
      ensures forall j :: 0 <= j < |delays| ==> delays[j] == Backoff(outer.nThreads, env[j].backoffDraw)
      ensures |skipped| == retries
      ensures forall j :: 0 <= j < |skipped| ==>
        (skipped[j] <==> interruptedOnEntry || exists i :: 0 <= i < j && env[i].interrupt)
      ensures interrupted <==> interruptedOnEntry || exists j :: 0 <= j < retries && env[j].interrupt
      ensures |holds| == retries + (if finished then 1 else 0)
      ensures p < 0.8 ==> unchanged(outer.lock)
      ensures forall j :: 0 <= j < |holds| ==> holds[j] == (if p >= 0.8 && j > 0 then 1 else 0)
      ensures outer.lock.holdCount == 0
    {
      var success := false;
      retries, delays, holds, interrupted := 0, [], [], interruptedOnEntry;
      skipped := [];
      while !success && retries < |env|
        invariant retries <= |env|
        invariant forall j :: 0 <= j < retries ==> env[j].outcome.Conflict?
        invariant success ==> retries < |env| && env[retries].outcome.Commit?
        invariant outer.tasksFinished.value == old(outer.tasksFinished.value) + (if success then 1 else 0)
        invariant outer.deadlockCounter.value == old(outer.deadlockCounter.value) + retries
        invariant retries == 0 ==> outer.maxRetryCounter.value == old(outer.maxRetryCounter.value)
        invariant retries > 0 ==> outer.maxRetryCounter.value == Max(old(outer.maxRetryCounter.value), retries)
        invariant |delays| == retries
        invariant forall j :: 0 <= j < |delays| ==> 100 <= delays[j] < 100 + outer.nThreads * 1000
        invariant forall j :: 0 <= j < |delays| ==> delays[j] == Backoff(outer.nThreads, env[j].backoffDraw)
        invariant |skipped| == retries
        invariant forall j :: 0 <= j < |skipped| ==>
          (skipped[j] <==> interruptedOnEntry || exists i :: 0 <= i < j && env[i].interrupt)
        invariant interrupted <==> interruptedOnEntry || exists j :: 0 <= j < retries && env[j].interrupt
        invariant |holds| == retries + (if success then 1 else 0)
        invariant p < 0.8 ==> unchanged(outer.lock)
        invariant forall j :: 0 <= j < |holds| ==> holds[j] == (if p >= 0.8 && j > 0 then 1 else 0)
        invariant outer.lock.holdCount == 0
        decreases |env| - retries, if success then 0 else 1
      {
        var attempt := env[retries];
        if p >= 0.8 && retries > 0 {
          outer.lock.Lock();
        }
        holds := holds + [outer.lock.holdCount];
        var issued, committed := Execute(KindOf(p), dataIds, task, attempt.outcome);
        if committed {
          var finisher := outer.tasksFinished.IncrementAndGet();
          success := true;
          if p >= 0.8 && retries > 0 && outer.lock.IsHeldByCurrentThread() {
            outer.lock.Unlock();
          }
        } else {
          retries := retries + 1;
          var _ := outer.deadlockCounter.IncrementAndGet();
          outer.maxRetryCounter.Set(Max(outer.maxRetryCounter.Get(), retries));
          delays := delays + [Backoff(outer.nThreads, attempt.backoffDraw)];
          // a thread whose interrupt status is already set does not sleep:
          // the sleep throws at once and the catch sets the status again
          skipped := skipped + [interrupted];
          interrupted := interrupted || attempt.interrupt;
        }
        if p >= 0.8 && outer.lock.IsHeldByCurrentThread() {
          outer.lock.Unlock();
        }
      }
      finished := success;
      LeadingConflictsUnique(env, retries);
    }
  }
}
