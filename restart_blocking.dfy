/**
 * RestartBlocking: mixed point-read / full-scan / write tasks that restart
 * after every failure, with a randomized back-off and no retry cap.
 */
module RestartBlocking {
  import opened Sampling
  import opened Transactions
  import opened Concurrency

  /** The shared state of the program: sizes and the three counters. */
  class RestartBlocking {
    const numTasks: nat := 30
    const numQueriesPerTask: nat := 3
    const nThreads: nat := 4
    const numTuple: nat := 50000
    const tasksFinished: AtomicInteger
    const maxRetryCounter: AtomicInteger
    const deadlockCounter: AtomicInteger

    /** The three counters are different objects. */
    predicate Valid()
    {
      && tasksFinished != maxRetryCounter
      && tasksFinished != deadlockCounter
      && maxRetryCounter != deadlockCounter
    }

    constructor ()
      ensures Valid()
      ensures fresh(tasksFinished) && fresh(maxRetryCounter) && fresh(deadlockCounter)
      ensures tasksFinished.value == 0 && maxRetryCounter.value == 0 && deadlockCounter.value == 0
    {
      tasksFinished := new AtomicInteger(0);
      maxRetryCounter := new AtomicInteger(0);
      deadlockCounter := new AtomicInteger(0);
    }
  }

  /** One task: its id, its draw `p` and, unless it is a full scan, its row ids. */
  class Blocker {
    const outer: RestartBlocking
    const task: int
    const p: real
    const dataIds: array?<int>
    /** How many `nextInt(num_tuple)` draws the constructor took. */
    ghost const drawsUsed: nat

    predicate Valid()
    {
      && outer.Valid()
      && (dataIds == null <==> KindOf(p) == FullScan)
      && (dataIds != null ==> dataIds.Length == outer.numQueriesPerTask)
    }

    /**
     * `p` is the task's `rand.nextDouble()` and `draws` the raw values behind
     * the following `rand.nextInt(num_tuple)` calls. The resample loop only
     * ends if the draws hold `num_queries_per_task` distinct ids.
     */
    constructor (outer: RestartBlocking, id: int, p: real, draws: seq<nat>)
      requires outer.Valid()
      requires 0.0 <= p < 1.0
      requires NeedsIds(p) ==> |Accepted(draws, outer.numTuple)| >= outer.numQueriesPerTask
      ensures this.outer == outer && task == id && this.p == p
      ensures Valid()
      ensures KindOf(p) == FullScan ==> dataIds == null
      ensures KindOf(p) != FullScan ==>
        && dataIds != null && fresh(dataIds)
        && dataIds.Length == outer.numQueriesPerTask
        && Distinct(dataIds[..])
        && (forall q :: 0 <= q < dataIds.Length ==> 0 <= dataIds[q] < outer.numTuple)
        && drawsUsed <= |draws|
        && dataIds[..] == Accepted(draws[..drawsUsed], outer.numTuple)
        && (drawsUsed > 0 ==> |Accepted(draws[..drawsUsed - 1], outer.numTuple)| < outer.numQueriesPerTask)
    {
      this.outer := outer;
      task := id;
      this.p := p;
      IdsExactlyForKeyedTasks(p);
      if p < 0.7 || p >= 0.8 {
        var ids := new int[outer.numQueriesPerTask];
        var used := FillDistinctIds(ids, outer.numTuple, draws);
        dataIds := ids;
        drawsUsed := used;
      } else {
        dataIds := null; // full scans use no ids
        drawsUsed := 0;
      }
    }

    /**
     * `run()`: attempt, and on SQLException count the failure, back off and
     * try again, until an attempt commits. `env[j]` is what the store, the
     * random source and the sleep do in attempt j; the model stops when `env`
     * runs out, so `finished == false` means the task is still retrying.
     * `delays` are the requested back-off sleeps; `skipped[j]` says that
     * back-off j did not sleep because the interrupt status was already set;
     * `interrupted` is the thread's interrupt status at the end.
     */
    method Run(env: seq<Attempt>, interruptedOnEntry: bool)
      returns (finished: bool, retries: nat, delays: seq<int>, skipped: seq<bool>, interrupted: bool)
      requires Valid()
      modifies outer.tasksFinished, outer.deadlockCounter, outer.maxRetryCounter
      ensures finished <==> LeadingConflicts(env) < |env|
      ensures retries == LeadingConflicts(env)
      ensures outer.tasksFinished.value == old(outer.tasksFinished.value) + (if finished then 1 else 0)
      ensures outer.deadlockCounter.value == old(outer.deadlockCounter.value) + retries
      ensures retries == 0 ==> outer.maxRetryCounter.value == old(outer.maxRetryCounter.value)
      ensures retries > 0 ==> outer.maxRetryCounter.value == Max(old(outer.maxRetryCounter.value), retries)
      ensures |delays| == retries
      ensures forall j :: 0 <= j < |delays| ==> 100 <= delays[j] < 100 + outer.nThreads * 1000
      ensures forall j :: 0 <= j < |delays| ==> delays[j] == Backoff(outer.nThreads, env[j].backoffDraw)
      ensures |skipped| == retries
      ensures forall j :: 0 <= j < |skipped| ==>
        (skipped[j] <==> interruptedOnEntry || exists i :: 0 <= i < j && env[i].interrupt)
      ensures interrupted <==> interruptedOnEntry || exists j :: 0 <= j < retries && env[j].interrupt
    {
      var success := false;
      retries, delays, interrupted := 0, [], interruptedOnEntry;
      skipped := [];
      while !success && retries < |env|
        invariant retries <= |env|
        invariant forall j :: 0 <= j < retries ==> env[j].outcome.Conflict?
        invariant success ==> retries < |env| && env[retries].outcome.Commit?
        invariant outer.tasksFinished.value == old(outer.tasksFinished.value) + (if success then 1 else 0)
        invariant outer.deadlockCounter.value == old(outer.deadlockCounter.value) + retries
        invariant retries == 0 ==> outer.maxRetryCounter.value == old(outer.maxRetryCounter.value)
        invariant retries > 0 ==> outer.maxRetryCounter.value == Max(old(outer.maxRetryCounter.value), retries)
        invariant |delays| == retries
        invariant forall j :: 0 <= j < |delays| ==> 100 <= delays[j] < 100 + outer.nThreads * 1000
        invariant forall j :: 0 <= j < |delays| ==> delays[j] == Backoff(outer.nThreads, env[j].backoffDraw)
        invariant |skipped| == retries
        invariant forall j :: 0 <= j < |skipped| ==>
          (skipped[j] <==> interruptedOnEntry || exists i :: 0 <= i < j && env[i].interrupt)
        invariant interrupted <==> interruptedOnEntry || exists j :: 0 <= j < retries && env[j].interrupt
        decreases |env| - retries, if success then 0 else 1
      {
        var attempt := env[retries];
        var issued, committed := Execute(KindOf(p), dataIds, task, attempt.outcome);
        if committed {
          var finisher := outer.tasksFinished.IncrementAndGet();
          success := true;
        } else {
          // catch (SQLException): count it, roll back, back off
          retries := retries + 1;
          var _ := outer.deadlockCounter.IncrementAndGet();
          outer.maxRetryCounter.Set(Max(outer.maxRetryCounter.Get(), retries));
          delays := delays + [Backoff(outer.nThreads, attempt.backoffDraw)];
          // a thread whose interrupt status is already set does not sleep:
          // the sleep throws at once and the catch sets the status again
          skipped := skipped + [interrupted];
          interrupted := interrupted || attempt.interrupt;
        }
      }
      finished := success;
      LeadingConflictsUnique(env, retries);
    }
  }
}
