/**
 * The counting semaphore of assignment 2a: the count `mPermits`, a fair
 * lock and one condition. Each method is modelled as one call by one
 * thread; the wakeups it gets while blocked are its input.
 */
module Semaphore2a {
  import opened JavaInt
  import opened Waiting

  class SimpleSemaphore {
    /** `mPermits`, the number of available permits. */
    var permits: int32

    /** A semaphore holding `initial` permits. */
    constructor(initial: int32)
      ensures permits == initial
    {
      permits := initial;
    }

    /** `while (mPermits == 0) condition.await();` where an interrupt propagates. */
    method AwaitPermit(t: seq<Wakeup>) returns (e: WaitEnd)
      requires WaitOrThrow(permits, t) != Blocked
      modifies this
      ensures e == WaitOrThrow(old(permits), t)
      ensures !e.Blocked? && permits == e.count
    {
      var i := 0;
      while permits == 0
        invariant 0 <= i <= |t|
        invariant Later(WaitOrThrow(permits, t[i..]), i) == WaitOrThrow(old(permits), t)
        decreases |t| - i
      {
        assert t[i..][1..] == t[i + 1..];
        permits := t[i].seen;
        if t[i].Interrupt? {
          e := Interrupted(permits, i + 1);
          return;
        }
        i := i + 1;
      }
      e := Proceed(permits, i);
    }

    /**
     * The loop of `acquireUninterruptibly`: each InterruptedException is
     * caught inside the loop and the thread waits again. `interrupts`
     * counts the interrupts caught.
     */
    method AwaitThroughInterrupts(t: seq<Wakeup>) returns (e: WaitEnd, interrupts: nat)
      requires WaitThrough(permits, t) != Blocked
      modifies this
      ensures e == WaitThrough(old(permits), t)
      ensures e.Proceed? && permits == e.count
      ensures interrupts == Interrupts(t[..e.used])
    {
      var i := 0;
      interrupts := 0;
      while permits == 0
        invariant 0 <= i <= |t|
        invariant Later(WaitThrough(permits, t[i..]), i) == WaitThrough(old(permits), t)
        invariant interrupts == Interrupts(t[..i])
        decreases |t| - i
      {
        assert t[i..][1..] == t[i + 1..];
        assert t[..i + 1] == t[..i] + [t[i]];
        InterruptsAppend(t[..i], [t[i]]);
        if t[i].Interrupt? {
          interrupts := interrupts + 1;
        }
        permits := t[i].seen;
        i := i + 1;
      }
      e := Proceed(permits, i);
    }

    /**
     * Interruptible acquire. `interruptedAtLock` says that `lockInterruptibly`
     * throws. A permit is taken, by one, only after the count is seen
     * non-zero; an interrupt takes none, so the count is the one the
     * interrupted `await` read (the starting count if no other thread
     * released meanwhile).
     */
    method Acquire(interruptedAtLock: bool, t: seq<Wakeup>) returns (r: AcquireResult)
      requires interruptedAtLock || WaitOrThrow(permits, t) != Blocked
      modifies this
      ensures interruptedAtLock ==> r == InterruptedException && permits == old(permits)
      ensures !interruptedAtLock ==>
        var e := WaitOrThrow(old(permits), t);
        (e.Proceed? ==> r == Acquired && permits == Dec(e.count)) &&
        (e.Interrupted? ==> r == InterruptedException && permits == e.count) &&
        (e.Interrupted? && e.count == 0 ==> permits == old(permits))
      ensures old(permits) >= 0 && NonNegativeSignals(t) ==> permits >= 0
    {
      if interruptedAtLock {
        return InterruptedException;
      }
      if permits >= 0 && NonNegativeSignals(t) { WaitEndsPositive(permits, t); }
      var e := AwaitPermit(t);
      if e.Interrupted? {
        return InterruptedException;
      }
      permits := Dec(permits);
      r := Acquired;
    }

    /**
     * `acquireUninterruptibly` as written: waits through interrupts, calling
     * `interrupt()` on the thread once per interrupt caught (`reasserted`
     * times), then takes one permit. An interrupted `await()` takes the lock
     * back before it throws, so the guard sees what other threads released
     * meanwhile, and a non-zero count ends the loop. But when the count is
     * still 0, the flag just set makes the next `await()` throw at once,
     * without giving up the lock, so no other thread can change the count
     * and every later wakeup is `Interrupt(0)` (`FlagStaysSet`). Under that
     * rule the call returns only if no interrupt found the count at 0, and
     * so sets the flag again at most once.
     */
    method AcquireUninterruptibly(t: seq<Wakeup>) returns (reasserted: nat)
      requires WaitThrough(permits, t) != Blocked
      modifies this
      ensures var e := WaitThrough(old(permits), t);
        permits == Dec(e.count) && reasserted == Interrupts(t[..e.used])
      ensures FlagStaysSet(t) ==>
        var e := WaitThrough(old(permits), t);
        (forall j :: 0 <= j < e.used ==> t[j] != Interrupt(0)) && reasserted <= 1
      ensures old(permits) >= 0 && NonNegativeSignals(t) ==> permits >= 0
    {
      if permits >= 0 && NonNegativeSignals(t) { WaitEndsPositive(permits, t); }
      if FlagStaysSet(t) { ReturnsOnlyWithoutZeroInterrupt(permits, t); }
      var e, n := AwaitThroughInterrupts(t);
      permits := Dec(permits);
      reasserted := n;
    }

    /**
     * `acquireUninterruptibly` with the interrupt deferred: interrupts caught
     * in the loop are remembered and the flag is set once, after the permit
     * is taken. The flag is clear while the thread waits, so every wakeup
     * sequence is possible, and the call keeps waiting through interrupts
     * (`WaitsThroughInterrupts`).
     */
    method AcquireUninterruptiblyDeferred(t: seq<Wakeup>) returns (reinterrupted: bool)
      requires WaitThrough(permits, t) != Blocked
      modifies this
      ensures var e := WaitThrough(old(permits), t);
        permits == Dec(e.count) && reinterrupted == (Interrupts(t[..e.used]) > 0)
      ensures old(permits) >= 0 && NonNegativeSignals(t) ==> permits >= 0
    {
      if permits >= 0 && NonNegativeSignals(t) { WaitEndsPositive(permits, t); }
      var e, n := AwaitThroughInterrupts(t);
      permits := Dec(permits);
      reinterrupted := n > 0;
    }

    /** Returns one permit (the condition is not signalled). */
    method Release()
      modifies this
      ensures permits == Inc(old(permits))
      ensures 0 <= old(permits) < MaxInt ==> permits as int == old(permits) as int + 1
    {
      permits := Inc(permits);
    }

    /** `mPermits`; nothing changes. */
    method AvailablePermits() returns (n: int32)
      ensures n == permits
    {
      n := permits;
    }
  }

  /**
   * Java's rule for the as-written loop: once an interrupt has found the
   * count at 0 and the loop has set the flag again, every later `await()`
   * throws at once while the thread keeps the lock, so the count stays 0.
   */
  predicate FlagStaysSet(t: seq<Wakeup>) {
    forall i, j :: 0 <= i < j < |t| && t[i] == Interrupt(0) ==> t[j] == Interrupt(0)
  }

  /** A waiter that gets nothing but interrupts finding the count at 0 never leaves the loop. */
  lemma {:induction false} OnlyZeroInterruptsBlock(t: seq<Wakeup>)
    requires forall i :: 0 <= i < |t| ==> t[i] == Interrupt(0)
    ensures WaitThrough(0, t) == Blocked
    decreases |t|
  {
    if t != [] {
      assert forall i :: 0 <= i < |t[1..]| ==> t[1..][i] == t[i + 1];
      OnlyZeroInterruptsBlock(t[1..]);
    }
  }

  /**
   * Under `FlagStaysSet`, an interrupt that takes the lock back with the
   * count still 0 makes the as-written wait endless: the waiter spins,
   * holding the lock.
   */
  lemma ZeroInterruptSpins(t: seq<Wakeup>)
    requires FlagStaysSet(t) && |t| > 0 && t[0] == Interrupt(0)
    ensures WaitThrough(0, t) == Blocked
  {
    assert forall i :: 0 <= i < |t[1..]| ==> t[1..][i] == t[i + 1];
    OnlyZeroInterruptsBlock(t[1..]);
  }

  /**
   * An interrupt whose `await()` takes the lock back with a non-zero count
   * ends the wait at once, with the flag set again once.
   */
  lemma InterruptFindingPermitProceeds(n: int32, rest: seq<Wakeup>)
    requires n != 0
    ensures var t := [Interrupt(n)] + rest;
      WaitThrough(0, t) == Proceed(n, 1) && Interrupts(t[..1]) == 1
  {
    var t := [Interrupt(n)] + rest;
    assert t[..1] == [Interrupt(n)];
  }

  /**
   * Under `FlagStaysSet`, the as-written loop returns only if no interrupt
   * found the count at 0; then at most one interrupt arrived, and if one
   * did, it was the last wakeup, the one that found a permit.
   */
  lemma {:induction false} ReturnsOnlyWithoutZeroInterrupt(count: int32, t: seq<Wakeup>)
    requires FlagStaysSet(t)
    ensures var e := WaitThrough(count, t);
      e.Proceed? ==> (forall j :: 0 <= j < e.used ==> t[j] != Interrupt(0)) && Interrupts(t[..e.used]) <= 1
    ensures var e := WaitThrough(count, t);
      e.Proceed? && Interrupts(t[..e.used]) >= 1 ==>
        t[e.used - 1].Interrupt? && Interrupts(t[..e.used - 1]) == 0
    decreases |t|
  {
    var e := WaitThrough(count, t);
    if count == 0 && t != [] {
      assert forall i :: 0 <= i < |t[1..]| ==> t[1..][i] == t[i + 1];
      match t[0]
      case Interrupt(n) =>
        if n == 0 {
          ZeroInterruptSpins(t);
        } else {
          assert t[..e.used] == [t[0]] + [];
          assert t[..e.used - 1] == [];
        }
      case Signal(n) =>
        ReturnsOnlyWithoutZeroInterrupt(n, t[1..]);
        if e.Proceed? {
          var u := e.used - 1;
          assert t[..e.used] == [t[0]] + t[1..][..u];
          InterruptsAppend([t[0]], t[1..][..u]);
          if u > 0 {
            assert t[..e.used - 1] == [t[0]] + t[1..][..u - 1];
            InterruptsAppend([t[0]], t[1..][..u - 1]);
          }
        }
    } else if count != 0 {
      assert t[..e.used] == [];
    }
  }

  /** `k` interrupts that find the count at 0, then a wakeup that sees `n` permits. */
  function InterruptsThen(k: nat, n: int32): seq<Wakeup> {
    if k == 0 then [Signal(n)] else [Interrupt(0)] + InterruptsThen(k - 1, n)
  }

  /**
   * The deferred wait survives any number of interrupts: after `k` of them
   * and a wakeup that sees a non-zero count it proceeds, having caught
   * exactly `k` interrupts.
   */
  lemma {:induction false} WaitsThroughInterrupts(k: nat, n: int32)
    requires n != 0
    ensures var t := InterruptsThen(k, n);
      WaitThrough(0, t) == Proceed(n, k + 1) && Interrupts(t) == k
    decreases k
  {
    if k > 0 {
      WaitsThroughInterrupts(k - 1, n);
      assert InterruptsThen(k, n)[1..] == InterruptsThen(k - 1, n);
    }
  }
}
