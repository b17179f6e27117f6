/**
 * Blocking: the same mixed point-read / full-scan / write tasks as
 * RestartBlocking, without any retry. A task that hits SQLException is
 * reported and abandoned, so it never counts as finished.
 */
module Blocking {
  import opened Sampling
  import opened Transactions
  import opened Concurrency

  /** The shared state: sizes and the finished-task counter. */
  class Blocking {
    const numTasks: nat := 1000
    const numQueriesPerTask: nat := 3
    const numTuple: nat := 50000
    const tasksFinished: AtomicInteger

    constructor ()
      ensures fresh(tasksFinished) && tasksFinished.value == 0
    {
      tasksFinished := new AtomicInteger(0);
    }
  }

  class Blocker {
    const outer: Blocking
    const task: int
    const p: real
    const dataIds: array?<int>
    ghost const drawsUsed: nat

    predicate Valid()
    {
      && (dataIds == null <==> KindOf(p) == FullScan)
      && (dataIds != null ==> dataIds.Length == outer.numQueriesPerTask)
    }

    /** `p` is the task's `rand.nextDouble()`; `draws` the raw values behind
        the following `rand.nextInt(num_tuple)` calls. */
    constructor (outer: Blocking, id: int, p: real, draws: seq<nat>)
      requires 0.0 <= p < 1.0
      requires NeedsIds(p) ==> |Accepted(draws, outer.numTuple)| >= outer.numQueriesPerTask
      ensures this.outer == outer && task == id && this.p == p
      ensures Valid()
      ensures KindOf(p) == FullScan ==> dataIds == null
      ensures KindOf(p) != FullScan ==>
        && dataIds != null && fresh(dataIds)
        && dataIds.Length == outer.numQueriesPerTask
        && Distinct(dataIds[..])
        && (forall q :: 0 <= q < dataIds.Length ==> 0 <= dataIds[q] < outer.numTuple)
        && drawsUsed <= |draws|
        && dataIds[..] == Accepted(draws[..drawsUsed], outer.numTuple)
        && (drawsUsed > 0 ==> |Accepted(draws[..drawsUsed - 1], outer.numTuple)| < outer.numQueriesPerTask)
    {
      this.outer := outer;
      task := id;
      this.p := p;
      IdsExactlyForKeyedTasks(p);
      if p < 0.7 || p >= 0.8 {
        var ids := new int[outer.numQueriesPerTask];
        var used := FillDistinctIds(ids, outer.numTuple, draws);
        dataIds := ids;
        drawsUsed := used;
      } else {
        dataIds := null; // full scans use no ids
        drawsUsed := 0;
      }
    }

    /**
     * `run()`: one attempt of the task's branch. The finisher count goes up
     * exactly when the commit succeeds; a failure ends the task.
     */
    method Run(outcome: Outcome) returns (issued: seq<Statement>, committed: bool)
      requires Valid()
      modifies outer.tasksFinished
      ensures committed <==> outcome.Commit?
      ensures outer.tasksFinished.value == old(outer.tasksFinished.value) + (if committed then 1 else 0)
      ensures committed && KindOf(p) == FullScan ==> issued == [SelectSum]
      ensures committed && KindOf(p) == PointRead ==>
        issued == seq(dataIds.Length, q requires 0 <= q < dataIds.Length reads dataIds => SelectValue(dataIds[q]))
      ensures committed && KindOf(p) == Write ==>
        issued == seq(dataIds.Length, q requires 0 <= q < dataIds.Length reads dataIds => UpdateValue(dataIds[q], task))
    {
      issued, committed := Execute(KindOf(p), dataIds, task, outcome);
      if committed {
        var finisher := outer.tasksFinished.IncrementAndGet();
      }
      // catch (SQLException): the task is reported and dropped
    }
  }
}
