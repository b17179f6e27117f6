# Blocker workers: retry loops, back-off and the write lock

The repository benchmarks how concurrent transactions against one
PostgreSQL table (`blocking_data`, `num_tuple` = 50000 rows) block,
deadlock and recover. Each benchmark program submits `Blocker` tasks to a
fixed thread pool. A `Blocker` draws its profile and its row ids from a
shared seeded `java.util.Random` when it is constructed. Its `run()` then
executes one transaction and, in the retrying variants, repeats it after
every `SQLException`. Before each repeat it counts the failure, rolls back
and requests a random back-off sleep.

This Dafny project models four of those programs, one module each:

- `Blocking` (`task-3-task-2-revisited-group-3/src/Blocking.java`) makes a
  single attempt. Point-read tasks (`p < 0.7`) read three rows by id. Full
  scans (`0.7 <= p < 0.8`) sum the table. Writers (`p >= 0.8`) update
  three rows.
- `RestartBlocking` (`task-3-task-2-revisited-group-3/src/RestartBlocking.java`)
  runs the same three profiles and restarts after every failure. It keeps
  the `tasks_finished`, `deadlock_counter` and `max_retry_counter` counters.
- `NoLiveLocksRevisited` (`task-3-task-2-revisited-group-3/src/NoLiveLocks.java`)
  is `RestartBlocking` plus a fair `ReentrantLock` that writers take before
  each retry.
- `NoLiveLocksDeadlocks` (`task-2-deadlocks-group-3/src/NoLiveLocks.java`)
  runs range updates only. Every failure takes the lock once more, and the
  commit path releases one hold per failure.

Three modules are shared by the others:

- `Sampling` is the constructor's row-id sampler: draw with
  `nextInt(num_tuple)` and redraw while the id is already used.
- `Transactions` holds what the retry loops share: the task profile chosen
  by `p`, the statements one attempt issues, the back-off delay, and the
  index of the first attempt that commits.
- `Concurrency` is `AtomicInteger` and the current thread's view of
  `ReentrantLock`, which is its hold count.

How the model stands in for the outside world:

- **Database.** Each attempt has an abstract `Outcome`. `Conflict(c)`
  means the first `c` statements run and the next request raises
  `SQLException`. `Commit` means the whole transaction goes through.
- **Random source.** It is a parameter. `nextDouble()` is a `real` in
  [0, 1). `nextInt(bound)` is a raw draw reduced modulo `bound`.
- **One run of the retry loop.** It is driven by a sequence `env` of
  attempts. Each attempt holds the store's outcome, the back-off draw and
  whether another thread interrupts the back-off sleep. The loop stops when `env` runs out, so
  a `finished == false` result means "still retrying after `|env|`
  attempts".
- **Lock.** The lock is the calling thread's hold count. `holds[j]` is the
  count while attempt j runs.

## Model

| member | source | states |
|---|---|---|
| Sampling.NextInt | task-3-task-2-revisited-group-3/src/RestartBlocking.java:148 | `rand.nextInt(num_tuple)` yields an id in [0, num_tuple) |
| Sampling.AcceptedDistinct | task-3-task-2-revisited-group-3/src/RestartBlocking.java:144-152 | the ids the resample loop keeps are pairwise distinct |
| Sampling.AcceptedInRange | task-3-task-2-revisited-group-3/src/RestartBlocking.java:144-152 | every kept id is a valid row id in [0, num_tuple) |
| Sampling.AcceptedMembers | task-3-task-2-revisited-group-3/src/RestartBlocking.java:147-150 | an id is kept if and only if some draw produced it: rejection drops repeats only |
| Sampling.DistinctInRangeBound | task-3-task-2-revisited-group-3/src/RestartBlocking.java:143-152 | a duplicate-free list of ids below `num_tuple` has at most `num_tuple` entries |
| Sampling.AcceptedAtMostBound | task-3-task-2-revisited-group-3/src/RestartBlocking.java:143-152 | the sampler never holds more than `num_tuple` ids, so it can only finish when `num_queries_per_task <= num_tuple` |
| Sampling.FillDistinctIds | task-3-task-2-revisited-group-3/src/RestartBlocking.java:143-152 | the array ends up holding exactly the ids kept from the draws consumed; it stops at the draw that fills the last slot; the ids are distinct and in range |
| Transactions.KindOf | task-3-task-2-revisited-group-3/src/RestartBlocking.java:173-215 | exactly one profile is chosen: point read iff p < 0.7, full scan iff 0.7 <= p < 0.8, write iff p >= 0.8 |
| Transactions.IdsExactlyForKeyedTasks | task-3-task-2-revisited-group-3/src/RestartBlocking.java:142 | the constructor draws ids exactly for the profiles whose `run` branch reads `data_ids` (every profile but the full scan) |
| Transactions.IssuePerId | task-3-task-2-revisited-group-3/src/RestartBlocking.java:177-184 | the q loop issues one statement per id, in id order, until the store raises |
| Transactions.Execute | task-3-task-2-revisited-group-3/src/RestartBlocking.java:172-215 | an attempt commits iff the store lets it; a point read issues `SELECT` by `data_ids[q]`; a writer issues `UPDATE` of `data_ids[q]` marked with its task id; a scan issues at most the one `SUM`; all up to the failing statement |
| Transactions.ExecuteRangeUpdates | task-2-deadlocks-group-3/src/NoLiveLocks.java:161-173 | the range-update loop issues the q-th range update for q = 0, 1, ... in order, up to the failing statement, and commits iff the store lets it |
| Transactions.Backoff | task-3-task-2-revisited-group-3/src/RestartBlocking.java:224-225 | the requested back-off delay is at least 100 ms and below 100 + nThreads * 1000 ms |
| Transactions.LeadingConflicts | task-3-task-2-revisited-group-3/src/RestartBlocking.java:171-231 | the number of failed attempts before the first commit: all earlier attempts conflicted and the next one commits |
| Transactions.LeadingConflictsUnique | task-3-task-2-revisited-group-3/src/RestartBlocking.java:171-231 | any count with those properties is that number, so the loop's retry count is determined by the outcomes |
| RestartBlocking.RestartBlocking.constructor | task-3-task-2-revisited-group-3/src/RestartBlocking.java:49-53 | the three counters are fresh, distinct and zero |
| RestartBlocking.Blocker.constructor | task-3-task-2-revisited-group-3/src/RestartBlocking.java:138-156 | full scans get no ids; every other task gets `num_queries_per_task` distinct ids in [0, num_tuple), namely the ones the sampler keeps from its draws, and the constructor consumes draws only up to the one that fills the last slot |
| RestartBlocking.Blocker.Run | task-3-task-2-revisited-group-3/src/RestartBlocking.java:159-231 | the task finishes iff some attempt commits, and it finishes after exactly the failures before that attempt; `tasks_finished` goes up by one iff it finished; `deadlock_counter` goes up by the number of retries; `max_retry_counter` becomes the maximum of its old value and the retries; there is one requested delay per failure, the j-th being `100 + nextInt(nThreads * 1000)` of that failure's draw, so within [100, 100 + nThreads * 1000) ms; back-off j is skipped (the sleep throws at once) exactly when the interrupt status was set on entry or by an earlier back-off; the interrupt status at the end is set iff it was on entry or a back-off was interrupted |
| NoLiveLocksRevisited.NoLiveLocks.constructor | task-3-task-2-revisited-group-3/src/NoLiveLocks.java:26-32 | fresh zero counters and a fair lock that no thread holds |
| NoLiveLocksRevisited.Blocker.constructor | task-3-task-2-revisited-group-3/src/NoLiveLocks.java:114-132 | same id-drawing contract as the RestartBlocking constructor |
| NoLiveLocksRevisited.Blocker.Run | task-3-task-2-revisited-group-3/src/NoLiveLocks.java:135-229 | the RestartBlocking counter and back-off contract (each requested delay is `100 + nextInt(nThreads * 1000)` of its failure's draw, and back-offs after the interrupt status is set are skipped), plus the lock as written: readers and scans never touch it; a writer's attempt j runs with the entry hold count plus j; on commit it leaves `HeldOnExit` holds, one fewer than the loop-head count `HeldAtLoopHead` (the entry count plus retries minus one after a failure), and an unfinished writer holds `HeldAtLoopHead` |
| NoLiveLocksRevisited.LockLeaksAfterThreeRetries | task-3-task-2-revisited-group-3/src/NoLiveLocks.java:219-227 | a writer that starts without the lock and commits after r >= 3 failures still holds it r - 2 times when `run` returns |
| NoLiveLocksRevisited.LockBalancedUpToTwoRetries | task-3-task-2-revisited-group-3/src/NoLiveLocks.java:198-227 | with at most two failures the writer's holds balance out |
| NoLiveLocksRevisited.Blocker.RunWithoutRelock | task-3-task-2-revisited-group-3/src/NoLiveLocks.java:147-229 | with only the loop-head `lock()`, a writer holds the lock exactly once during each retry, never on the first attempt, and the lock is free again when `run` returns; counters, requested delays (each `100 + nextInt(nThreads * 1000)` of its failure's draw), skipped back-offs and interrupt status as in `Run` |
| NoLiveLocksDeadlocks.NoLiveLocks.constructor | task-2-deadlocks-group-3/src/NoLiveLocks.java:48-55 | fresh zero counters and a fair lock that no thread holds |
| NoLiveLocksDeadlocks.ScaledDrawBelow | task-2-deadlocks-group-3/src/NoLiveLocks.java:143-144 | a `nextDouble()` draw times a non-negative bound lies in [0, bound], and below the bound when the bound is positive |
| NoLiveLocksDeadlocks.Blocker.constructor | task-2-deadlocks-group-3/src/NoLiveLocks.java:138-146 | `stop_range[q]` is a draw scaled to `max_value` and `start_range[q]` a draw scaled to `stop_range[q]`, so 0 <= start <= stop < max_value for every query |
| NoLiveLocksDeadlocks.Blocker.Run | task-2-deadlocks-group-3/src/NoLiveLocks.java:149-215 | the same counter and back-off contract as RestartBlocking, each requested delay being `100 + nextInt(nThreads * 1000)` of its failure's draw and back-offs after the interrupt status is set being skipped; attempt j runs holding the lock j times more than on entry; a finished task gives every hold back, and an unfinished one keeps one per failure; every `unlock()` is by the owner; the abort branch is unreachable |
| Blocking.Blocking.constructor | task-3-task-2-revisited-group-3/src/Blocking.java:46-48 | `tasks_finished` starts fresh at zero |
| Blocking.Blocker.constructor | task-3-task-2-revisited-group-3/src/Blocking.java:130-148 | same id-drawing contract as the RestartBlocking constructor |
| Blocking.Blocker.Run | task-3-task-2-revisited-group-3/src/Blocking.java:151-205 | one attempt and no retry: `tasks_finished` goes up iff the commit succeeds; a committed point read or write issued exactly one statement per id, in order, and a committed scan exactly one `SUM` |

## Left out

- JDBC I/O is left out: the connection, prepared statements, result sets, the values read and summed, `ROLLBACK`, and printing. The store is the `Outcome` of each attempt.
- A failed connection is not modelled. `ConnectionFactory.getDefaultParameterConnection` never returns null; on failure it throws `RuntimeException`. That is not an `SQLException`, so it escapes `run` uncaught and the task neither finishes nor counts a failure.
- An `SQLException` from `con.close()` inside the try block is not modelled. That is task-3 `NoLiveLocks.java:203`, and task-2 `NoLiveLocks.java:179`, where it would re-run an already committed transaction. The model treats a commit as the end of the attempt.
- Concurrency between pool threads is left out: blocking on a lock held by another thread, FIFO fairness, and interleavings. The model is one thread's run with its own hold count.
- Sleeping itself is not modelled. The model records the requested delay, whether the sleep was skipped, and the interrupt flag. Once the interrupt status is set, every later back-off is skipped, because `Thread.sleep` throws at once and the catch sets the status again. The later retries then follow each other without the random spreading the back-off is for.
- `nextInt` is modelled as the raw draw modulo the bound. Java's rejection of the top partial range and the 48-bit LCG behind the seed `123456` are not modelled.
- The `nextDouble()` values written by each write query are not modelled, and neither is their consumption of the shared `Random`.
- `double` rounding in `nextDouble() * max_value` is not modelled: the ranges are computed over `real`.
- The counters and the local `retries` are modelled as unbounded, which assumes fewer than 2^31 - 1 failures. `AtomicInteger` and `int` wrap there. `deadlock_counter` counts failures, not tasks, and RestartBlocking and the task-3 NoLiveLocks readers have no retry cap, so the wrap is not excluded by the task counts.
- `ReentrantLock` throws an `Error` beyond 2^31 - 1 holds. That limit is not modelled.
- `main`, `createDB`, the thread pool setup and the timing and summary output are left out, because they are driver code.
- `ConnectionFactory`, `Serialized.java`, `NoLiveLocksTest.java`, task-2 `Blocking.java` and the Python files are not part of this model.

## Findings

| source | as written | input that shows it | evidently intended | confidence | as-written member | corrected member |
|---|---|---|---|---|---|---|
| task-3-task-2-revisited-group-3/src/NoLiveLocks.java:219-227 | a failed writer calls `lock()` in the catch block and again at the next loop head, but each iteration releases only one hold (the success path or `finally`), so from the second retry on, every retry leaves one hold behind | a writer (`p >= 0.8`) that does not hold the lock on entry, whose attempts 1 to 3 fail and whose attempt 4 commits: `run` returns still holding the lock once, and other writers' retries then block on it | a write retry holds the lock once, while it runs, and the lock is free again before the next retry and at the end of `run` | not executed | NoLiveLocksRevisited.Blocker.Run, NoLiveLocksRevisited.LockLeaksAfterThreeRetries | NoLiveLocksRevisited.Blocker.RunWithoutRelock |

Task-2 `NoLiveLocks.java:188` tests `retries >= 1` immediately after
`retries++` on a counter that starts at 0. The abort branch at lines
200-213 therefore cannot run within the first 2^31 - 1 failures, so that
`run` keeps retrying that long. Only on the 2^31-th consecutive failure
does the Java `int` wrap to a negative value and reach the branch. The
model's `retries` is unbounded (see the counter line under "Left out").
It keeps the branch as a dead `else`, and the verifier proves it dead
under that assumption.
