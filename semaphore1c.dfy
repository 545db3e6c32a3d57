/**
 * The counting semaphore of assignment 1c: a permit count guarded by a
 * fair lock and one condition, `empty`, that waiters block on while the
 * count is 0. Each method is modelled as one call by one thread; the
 * wakeups it gets while blocked are its input.
 */
module Semaphore1c {
  import opened JavaInt
  import opened Waiting

  class SimpleSemaphore {
    /** The number of available permits. */
    var permits: int32

    /** A semaphore holding `initial` permits (any `int`, negative ones included). */
    constructor(initial: int32)
      ensures permits == initial
    {
      permits := initial;
    }

    /**
     * `while (permits == 0) empty.await();`, with the thread's wakeups `t`.
     * An InterruptedException leaves the loop; either way the count is the
     * one last read.
     */
    method AwaitPermit(t: seq<Wakeup>) returns (e: WaitEnd)
      requires WaitOrThrow(permits, t) != Blocked
      modifies this
      ensures e == WaitOrThrow(old(permits), t)
      ensures !e.Blocked? && permits == e.count
    {
      var i := 0;
      while permits == 0
        invariant 0 <= i <= |t|
        invariant Later(WaitOrThrow(permits, t[i..]), i) == WaitOrThrow(old(permits), t)
        decreases |t| - i
      {
        assert t[i..][1..] == t[i + 1..];
        permits := t[i].seen;
        if t[i].Interrupt? {
          e := Interrupted(permits, i + 1);
          return;
        }
        i := i + 1;
      }
      e := Proceed(permits, i);
    }

    /**
     * Interruptible acquire. `interruptedAtLock` says that `lockInterruptibly`
     * throws (the thread was interrupted on entry or while taking the lock).
     * A permit is taken, by one, only when the wait ends with the count
     * non-zero; an interrupt takes none, so the count is the one the
     * interrupted `await` read (the starting count if no other thread
     * released meanwhile).
     */
    method Acquire(interruptedAtLock: bool, t: seq<Wakeup>) returns (r: AcquireResult)
      requires interruptedAtLock || WaitOrThrow(permits, t) != Blocked
      modifies this
      ensures interruptedAtLock ==> r == InterruptedException && permits == old(permits)
      ensures !interruptedAtLock ==>
        var e := WaitOrThrow(old(permits), t);
        (e.Proceed? ==> r == Acquired && permits == Dec(e.count)) &&
        (e.Interrupted? ==> r == InterruptedException && permits == e.count) &&
        (e.Interrupted? && e.count == 0 ==> permits == old(permits))
      ensures old(permits) >= 0 && NonNegativeSignals(t) ==> permits >= 0
    {
      if interruptedAtLock {
        return InterruptedException;
      }
      if permits >= 0 && NonNegativeSignals(t) { WaitEndsPositive(permits, t); }
      var e := AwaitPermit(t);
      if e.Interrupted? {
        return InterruptedException;
      }
      permits := Dec(permits);
      r := Acquired;
    }

    /**
     * "Uninterruptible" acquire as written: the catch clause stands outside
     * the wait loop, so an interrupt ends the call WITHOUT taking a permit;
     * the interrupt flag is then set again (`reinterrupted`).
     * `reinterrupted` is this method's own `interrupt()` call, not the flag
     * on return: an interrupt arriving after a wakeup lets `await()` return
     * normally with the flag set, which the trace records as a `Signal`.
     */
    method AcquireUninterruptibly(t: seq<Wakeup>) returns (reinterrupted: bool)
      requires WaitOrThrow(permits, t) != Blocked
      modifies this
      ensures var e := WaitOrThrow(old(permits), t);
        reinterrupted == e.Interrupted? &&
        permits == if e.Proceed? then Dec(e.count) else e.count
      ensures old(permits) >= 0 && NonNegativeSignals(t) ==> permits >= 0
    {
      if permits >= 0 && NonNegativeSignals(t) { WaitEndsPositive(permits, t); }
      var e := AwaitPermit(t);
      if e.Proceed? {
        permits := Dec(permits);
      }
      reinterrupted := e.Interrupted?;
    }

    /**
     * The wait loop with the catch moved inside it: each interrupt is
     * counted and the guard reads the count again.
     */
    method AwaitThroughInterrupts(t: seq<Wakeup>) returns (e: WaitEnd, interrupts: nat)
      requires WaitThrough(permits, t) != Blocked
      modifies this
      ensures e == WaitThrough(old(permits), t)
      ensures e.Proceed? && permits == e.count
      ensures interrupts == Interrupts(t[..e.used])
    {
      var i := 0;
      interrupts := 0;
      while permits == 0
        invariant 0 <= i <= |t|
        invariant Later(WaitThrough(permits, t[i..]), i) == WaitThrough(old(permits), t)
        invariant interrupts == Interrupts(t[..i])
        decreases |t| - i
      {
        assert t[i..][1..] == t[i + 1..];
        assert t[..i + 1] == t[..i] + [t[i]];
        InterruptsAppend(t[..i], [t[i]]);
        if t[i].Interrupt? {
          interrupts := interrupts + 1;
        }
        permits := t[i].seen;
        i := i + 1;
      }
      e := Proceed(permits, i);
    }

    /**
     * The acquire the documentation describes: interrupts are caught inside
     * the loop and remembered, a permit is always taken, and the flag is set
     * on return when an interrupt arrived.
     */
    method AcquireUninterruptiblyRetrying(t: seq<Wakeup>) returns (reinterrupted: bool)
      requires WaitThrough(permits, t) != Blocked
      modifies this
      ensures var e := WaitThrough(old(permits), t);
        permits == Dec(e.count) && reinterrupted == (Interrupts(t[..e.used]) > 0)
      ensures old(permits) >= 0 && NonNegativeSignals(t) ==> permits >= 0
    {
      if permits >= 0 && NonNegativeSignals(t) { WaitEndsPositive(permits, t); }
      var e, n := AwaitThroughInterrupts(t);
      permits := Dec(permits);
      reinterrupted := n > 0;
    }

    /** Returns one permit; the condition is signalled when the new count is positive. */
    method Release() returns (signalled: bool)
      modifies this
      ensures permits == Inc(old(permits))
      ensures signalled == (permits > 0)
      ensures 0 <= old(permits) < MaxInt ==> permits as int == old(permits) as int + 1 && signalled
    {
      permits := Inc(permits);
      signalled := permits > 0;
    }

    /** The current count; nothing changes. */
    method AvailablePermits() returns (n: int32)
      ensures n == permits
    {
      n := permits;
    }
  }

  /**
   * An acquire that finds a permit, followed by a release, leaves the count
   * as it was.
   */
  method AcquireThenRelease(s: SimpleSemaphore)
    requires s.permits != 0
    modifies s
    ensures s.permits == old(s.permits)
  {
    var r := s.Acquire(false, []);
    var signalled := s.Release();
    IncUndoesDec(old(s.permits));
  }

  /**
   * A waiter that is interrupted once and would then see one permit: the
   * as-written acquireUninterruptibly gives up at the interrupt, without a
   * permit, while the retrying one goes on and takes the permit.
   */
  lemma InterruptedWaiterGivesUp()
    ensures WaitOrThrow(0, [Interrupt(0), Signal(1)]) == Interrupted(0, 1)
    ensures WaitThrough(0, [Interrupt(0), Signal(1)]) == Proceed(1, 2)
  {
    assert [Interrupt(0), Signal(1)][1..] == [Signal(1)];
  }
}
