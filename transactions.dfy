/**
 * One transactional attempt of a Blocker task, with the database replaced by
 * an abstract outcome, and the pieces of the retry loop that all variants
 * share: the task classification by `p`, the randomized back-off and the
 * position of the first attempt that commits.
 */
module Transactions {
  import opened Sampling

  /** The three task profiles selected by the draw `p`. */
  datatype Kind = PointRead | FullScan | Write

  /** `run` dispatches on `p < 0.7`, `p >= 0.7 && p < 0.8`, and otherwise. */
  function KindOf(p: real): (k: Kind)
    ensures k == PointRead <==> p < 0.7
    ensures k == FullScan <==> 0.7 <= p < 0.8
    ensures k == Write <==> 0.8 <= p
  {
    if p < 0.7 then PointRead
    else if p >= 0.7 && p < 0.8 then FullScan
    else Write
  }

  /** The constructor's guard for drawing row ids. */
  predicate NeedsIds(p: real)
  {
    p < 0.7 || p >= 0.8
  }

  /** The constructor draws ids exactly for the tasks whose `run` branch
      reads them: the full scan is the only branch without ids. */
  lemma IdsExactlyForKeyedTasks(p: real)
    ensures NeedsIds(p) <==> KindOf(p) != FullScan
  {
  }

  /** A statement an attempt executes against the shared table. */
  datatype Statement =
    | SelectValue(dataId: int)                  // read the value of one row by id
    | SelectSum                                 // sum the values of the whole table
    | UpdateValue(dataId: int, modifiedBy: int) // overwrite one row by id, recording the writer
    | UpdateRange(query: nat, modifiedBy: int)  // overwrite the rows in the q-th value range

  /**
   * What the store does with one attempt. `Conflict(c)`: the first `c`
   * statements succeed and the next request (a statement, or the commit
   * once every statement has run) raises SQLException. `Commit`: every
   * statement and the commit succeed.
   */
  datatype Outcome = Conflict(completed: nat) | Commit

  /** The environment of one loop iteration: the store's outcome, the raw
      draw behind `rand.nextInt(nThreads * 1000)`, and whether another thread
      interrupts the back-off sleep (a sleep that starts with the interrupt
      status already set throws at once, whatever this says). */
  datatype Attempt = Attempt(outcome: Outcome, backoffDraw: nat, interrupt: bool)

  /** How many of `planned` statements an attempt with this outcome runs. */
  function Completed(outcome: Outcome, planned: nat): nat
  {
    match outcome
    case Commit => planned
    case Conflict(c) => if c < planned then c else planned
  }

  /** The per-id statement of a point-read or write task. */
  function StatementFor(kind: Kind, dataId: int, task: int): Statement
  {
    if kind == Write then UpdateValue(dataId, task) else SelectValue(dataId)
  }

  /** The `for (q = 0; q < num_queries_per_task; q++)` loop over `data_ids`,
      cut short where the store raises. */
  method IssuePerId(dataIds: array<int>, kind: Kind, task: int, outcome: Outcome)
    returns (issued: seq<Statement>)
    ensures |issued| == Completed(outcome, dataIds.Length)
    ensures forall q :: 0 <= q < |issued| ==> issued[q] == StatementFor(kind, dataIds[q], task)
  {
    issued := [];
    var q := 0;
    while q < dataIds.Length
      invariant 0 <= q <= dataIds.Length && |issued| == q
      invariant q <= Completed(outcome, dataIds.Length)
      invariant forall i :: 0 <= i < q ==> issued[i] == StatementFor(kind, dataIds[i], task)
    {
      if outcome.Conflict? && outcome.completed == q {
        // SQLException: the rest of the try block is skipped
        return;
      }
      issued := issued + [StatementFor(kind, dataIds[q], task)];
      q := q + 1;
    }
  }

  /**
   * The try block of `run` in the point-read / full-scan / write variants:
   * the statements of the task's branch, then `con.commit()`. Returns the
   * statements that ran and whether the commit went through.
   */
  method Execute(kind: Kind, dataIds: array?<int>, task: int, outcome: Outcome)
    returns (issued: seq<Statement>, committed: bool)
    requires kind != FullScan ==> dataIds != null
    ensures committed <==> outcome.Commit?
    ensures kind == FullScan ==> issued == [SelectSum][..Completed(outcome, 1)]
    ensures kind != FullScan ==> |issued| == Completed(outcome, dataIds.Length)
    ensures kind == PointRead ==> forall q :: 0 <= q < |issued| ==> issued[q] == SelectValue(dataIds[q])
    ensures kind == Write ==> forall q :: 0 <= q < |issued| ==> issued[q] == UpdateValue(dataIds[q], task)
  {
    match kind {
      case PointRead =>
        issued := IssuePerId(dataIds, PointRead, task, outcome);
      case FullScan =>
        // the scan never touches data_ids, which is null for this kind
        issued := if outcome == Conflict(0) then [] else [SelectSum];
      case Write =>
        issued := IssuePerId(dataIds, Write, task, outcome);
    }
    committed := outcome.Commit?;
  }

  /** The try block of `run` in the range-update variant: `while (q < n)`
      executes the q-th range update, then commits. */
  method ExecuteRangeUpdates(n: nat, task: int, outcome: Outcome)
    returns (issued: seq<Statement>, committed: bool)
    ensures committed <==> outcome.Commit?
    ensures |issued| == Completed(outcome, n)
    ensures forall q :: 0 <= q < |issued| ==> issued[q] == UpdateRange(q, task)
  {
    issued := [];
    committed := false;
    var q := 0;
    while q < n
      invariant 0 <= q <= n && |issued| == q
      invariant q <= Completed(outcome, n)
      invariant forall i :: 0 <= i < q ==> issued[i] == UpdateRange(i, task)
    {
      if outcome.Conflict? && outcome.completed == q {
        return;
      }
      issued := issued + [UpdateRange(q, task)];
      q := q + 1;
    }
    committed := outcome.Commit?;
  }

  /** The requested back-off delay `100 + rand.nextInt(nThreads * 1000)`
      in milliseconds. */
  function Backoff(nThreads: nat, draw: nat): (delay: int)
    requires nThreads > 0
    ensures 100 <= delay < 100 + nThreads * 1000
  {
    100 + NextInt(draw, nThreads * 1000)
  }

  /** The number of attempts before the first one that commits (all of them
      when none commits). */
  function LeadingConflicts(env: seq<Attempt>): (k: nat)
    ensures k <= |env|
    ensures forall j :: 0 <= j < k ==> env[j].outcome.Conflict?
    ensures k < |env| ==> env[k].outcome.Commit?
  {
    if env == [] || env[0].outcome.Commit? then 0 else 1 + LeadingConflicts(env[1..])
  }

  /** The three properties above pin the count down: any `k` with them is it. */
  lemma {:induction false} LeadingConflictsUnique(env: seq<Attempt>, k: nat)
    requires k <= |env|
    requires forall j :: 0 <= j < k ==> env[j].outcome.Conflict?
    requires k < |env| ==> env[k].outcome.Commit?
    ensures k == LeadingConflicts(env)
  {
  }
}
