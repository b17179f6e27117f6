/**
 * The two java.util.concurrent objects the workers share, seen from one
 * sequential thread: an AtomicInteger counter and the ReentrantLock hold
 * count of the current thread.
 */
module Concurrency {

  /** A shared integer counter (tasks_finished, deadlock_counter,
      max_retry_counter). */
  class AtomicInteger {
    var value: int

    constructor (initial: int)
      ensures value == initial
    {
      value := initial;
    }

    function Get(): int
      reads this
    {
      value
    }

    /** Adds one and returns the new value (the "finisher number"). */
    method IncrementAndGet() returns (v: int)
      modifies this
      ensures value == old(value) + 1 && v == value
    {
      value := value + 1;
      v := value;
    }

    method Set(v: int)
      modifies this
      ensures value == v
    {
      value := v;
    }
  }

  /**
   * A reentrant lock as the running thread sees it: `holdCount` is how many
   * times this thread has acquired the lock without releasing it (0 means the
   * thread does not own it). `operations` counts every lock() and unlock()
   * call, so an unchanged lock is one nobody called.
   */
  class ReentrantLock {
    const fair: bool
    var holdCount: nat
    ghost var operations: nat

    constructor (fair: bool)
      ensures this.fair == fair && holdCount == 0 && operations == 0
    {
      this.fair := fair;
      holdCount := 0;
      operations := 0;
    }

    predicate IsHeldByCurrentThread()
      reads this
    {
      holdCount > 0
    }

    /** Acquires the lock once more (blocking for other owners is outside the
        one-thread model). */
    method Lock()
      modifies this
      ensures holdCount == old(holdCount) + 1
      ensures operations == old(operations) + 1
    {
      holdCount := holdCount + 1;
      operations := operations + 1;
    }

    /** Releases one hold. Java throws IllegalMonitorStateException when the
        thread does not own the lock; every caller here is proved to own it. */
    method Unlock()
      requires holdCount > 0
      modifies this
      ensures holdCount == old(holdCount) - 1
      ensures operations == old(operations) + 1
    {
      holdCount := holdCount - 1;
      operations := operations + 1;
    }
  }

  function Max(a: int, b: int): int
  {
    if a >= b then a else b
  }
}
