/**
 * The wait loops of the semaphores, `while (count == 0) condition.await();`,
 * seen from the waiting thread. Other threads run while it waits; all the
 * waiter learns of them is how each call of `await()` ends, listed in a
 * `seq<Wakeup>`.
 */
module Waiting {
  import opened JavaInt

  /**
   * How one call of `Condition.await()` ends. Either way the thread takes
   * the lock back first; `seen` is the count it then reads, as the other
   * threads have left it.
   */
  datatype Wakeup =
    | Interrupt(seen: int32)  // it threw InterruptedException
    | Signal(seen: int32)     // it returned (signalled, or spuriously)

  /** How a wait loop ends, given the wakeups it will get. */
  datatype WaitEnd =
    | Proceed(count: int32, used: nat)  // the loop exits seeing `count` (non-zero) after `used` wakeups
    | Interrupted(count: int32, used: nat)  // an InterruptedException leaves the loop at wakeup `used`, the count then being `count`
    | Blocked                           // the wakeups run out while the count is still 0

  /** The result of an interruptible acquire. */
  datatype AcquireResult = Acquired | InterruptedException

  /** `e` seen `k` wakeups later. */
  function Later(e: WaitEnd, k: nat): WaitEnd {
    match e
    case Proceed(c, u) => Proceed(c, u + k)
    case Interrupted(c, u) => Interrupted(c, u + k)
    case Blocked => Blocked
  }

  /**
   * The loop `while (count == 0) await();` where an interrupt propagates
   * out of the loop. The guard is `== 0`: a negative count does not wait.
   */
  function WaitOrThrow(count: int32, t: seq<Wakeup>): (e: WaitEnd)
    ensures count != 0 ==> e == Proceed(count, 0)
    ensures e.Proceed? ==> e.count != 0 && e.used <= |t|
    ensures e.Interrupted? ==> count == 0 && 0 < e.used <= |t| && t[e.used - 1] == Interrupt(e.count)
    ensures e.Blocked? ==> count == 0
    decreases |t|
  {
    if count != 0 then Proceed(count, 0)
    else if t == [] then Blocked
    else match t[0]
      case Interrupt(n) => Interrupted(n, 1)
      case Signal(n) => Later(WaitOrThrow(n, t[1..]), 1)
  }

  /**
   * The same loop where each interrupt is caught inside the loop; the guard
   * then reads the count again, and the thread waits again only while it is 0.
   */
  function WaitThrough(count: int32, t: seq<Wakeup>): (e: WaitEnd)
    ensures !e.Interrupted?
    ensures count != 0 ==> e == Proceed(count, 0)
    ensures e.Proceed? ==> e.count != 0 && e.used <= |t|
    decreases |t|
  {
    if count != 0 then Proceed(count, 0)
    else if t == [] then Blocked
    else match t[0]
      case Interrupt(n) => Later(WaitThrough(n, t[1..]), 1)
      case Signal(n) => Later(WaitThrough(n, t[1..]), 1)
  }

  /** The number of interrupts among the wakeups `t`. */
  function Interrupts(t: seq<Wakeup>): nat {
    if t == [] then 0 else (if t[0].Interrupt? then 1 else 0) + Interrupts(t[1..])
  }

  /** While a thread waits, no other thread drives the count below zero. */
  predicate NonNegativeSignals(t: seq<Wakeup>) {
    forall i :: 0 <= i < |t| ==> t[i].seen >= 0
  }

  /**
   * From a non-negative count, and with other threads keeping it
   * non-negative, a wait loop only lets its thread go on when the count is
   * positive: the decrement that follows cannot make it negative. An
   * interrupted wait leaves a non-negative count as well.
   */
  lemma {:induction false} WaitEndsPositive(count: int32, t: seq<Wakeup>)
    requires count >= 0 && NonNegativeSignals(t)
    ensures WaitOrThrow(count, t).Proceed? ==> WaitOrThrow(count, t).count > 0
    ensures WaitOrThrow(count, t).Interrupted? ==> WaitOrThrow(count, t).count >= 0
    ensures WaitThrough(count, t).Proceed? ==> WaitThrough(count, t).count > 0
    decreases |t|
  {
    if count == 0 && t != [] {
      assert NonNegativeSignals(t[1..]) by {
        forall i | 0 <= i < |t[1..]| ensures t[1..][i].seen >= 0 {
          assert t[1..][i] == t[i + 1];
        }
      }
      match t[0]
      case Interrupt(n) => WaitEndsPositive(n, t[1..]);
      case Signal(n) => WaitEndsPositive(n, t[1..]);
    }
  }

  /** An interruptible wait that is never interrupted ends as the uninterruptible one does. */
  lemma {:induction false} WaitsAgreeWithoutInterrupts(count: int32, t: seq<Wakeup>)
    requires Interrupts(t) == 0
    ensures WaitOrThrow(count, t) == WaitThrough(count, t)
    decreases |t|
  {
    if count == 0 && t != [] {
      match t[0]
      case Interrupt(_) => assert false;
      case Signal(n) => WaitsAgreeWithoutInterrupts(n, t[1..]);
    }
  }

  /** Counting interrupts distributes over concatenation. */
  lemma {:induction false} InterruptsAppend(a: seq<Wakeup>, b: seq<Wakeup>)
    ensures Interrupts(a + b) == Interrupts(a) + Interrupts(b)
    decreases |a|
  {
    if a != [] {
      assert (a + b)[1..] == a[1..] + b;
      InterruptsAppend(a[1..], b);
    } else {
      assert a + b == b;
    }
  }
}
