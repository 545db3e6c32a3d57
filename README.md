# Palantiri pool: semaphores and managers

A model of the permit accounting in the CS892 "Palantiri" assignments: a
hand-built counting semaphore (`SimpleSemaphore`, in the versions of
assignments 1c and 2a) and the resource pool built on it
(`PalantiriManager`, in the versions of assignments 2a and 4a). A pool hands
out palantiri: each has a flag in a map (`true` = free), and a semaphore
sized to the list of palantiri admits callers.

Each class is modelled as a sequential state machine, one call by one thread:

- `JavaInt`: Java's `int` as `int32`, with the wrap-around of `++` and `--`.
- `Waiting`: the wait loops `while (count == 0) await();`. Other threads run
  while the caller waits; the caller only sees how each `await()` ends, given
  as a `seq<Wakeup>`: `Interrupt(seen)` (it threw InterruptedException) or
  `Signal(seen)` (it returned). Either way the thread takes the lock back
  first, and `seen` is the count it then reads, as other threads left it. `WaitOrThrow` is the loop an interrupt leaves, `WaitThrough` the loop
  that catches interrupts and waits again. A method whose wait would not end
  within its wakeups is a thread that never returns, so each acquire requires
  its wait to end. The loop guard is `== 0`, so a negative count (the
  constructors accept any `int`) does not wait.
- `Semaphore1c`, `Semaphore2a`: the two `SimpleSemaphore` classes, with a
  `permits` field that `Acquire`, `AcquireUninterruptibly` and `Release`
  update in place. `interruptedAtLock` stands for `lockInterruptibly`
  throwing.
- `Pool`: what both managers share, on values: the scan for the first free
  entry (`FirstFree`), the free count, and the balance "free entries ==
  permits" (`Conserved`) with the lemmas that acquire and release keep it.
- `Manager2a`, `Manager4a`: the two `PalantiriManager` classes. 2a holds a
  `Semaphore2a.SimpleSemaphore`; 4a's `java.util.concurrent.Semaphore` is
  modelled by its permit count, including the Error its `release` throws
  instead of passing `MaxInt`. The map's iteration order is not specified by
  Java, so `Acquire` takes it as `order`, which must list each key once.

Both `release` methods put `true` for whatever palantir they get, inserting it
when the map does not know it (the 4a comment says an invalid palantir is
ignored; the code does not ignore it, and the model follows the code).
Releasing a held or unknown palantir keeps the balance; releasing a free one
breaks it (`Pool.ReleaseKeepsBalance` is an if-and-only-if). A list with a
repeated palantir gives a pool that is unbalanced from the start
(`Pool.InitialBalance`).

## Model

| member | source | states |
|---|---|---|
| JavaInt.IncUndoesDec | assignments/assignment2a/app/src/main/java/edu/vandy/model/SimpleSemaphore.java:78-88 | a decrement then an increment of the count (acquire then release) gives back the same count, wrap-around included |
| Waiting.WaitOrThrow | assignments/assignment1c/app/src/main/java/edu/vandy/model/SimpleSemaphore.java:54-56 | the loop exits only with a non-zero count; a caller that finds a non-zero count does not wait; an interrupt can end it only while the count is 0, and the count is then the one the interrupted await read |
| Waiting.WaitThrough | assignments/assignment2a/app/src/main/java/edu/vandy/model/SimpleSemaphore.java:70-77 | the loop that catches interrupts never ends by an interrupt; after any wakeup, interrupt or not, the guard reads the count again, and it exits only with a non-zero count |
| Waiting.WaitEndsPositive | assignments/assignment1c/app/src/main/java/edu/vandy/model/SimpleSemaphore.java:54-57 | from a non-negative count, with other threads keeping it non-negative, both loops let the caller go on only with a positive count, so the decrement never makes it negative, and an interrupted wait leaves it non-negative |
| Waiting.WaitsAgreeWithoutInterrupts | assignments/assignment2a/app/src/main/java/edu/vandy/model/SimpleSemaphore.java:50-80 | without interrupts the interruptible and uninterruptible waits end alike |
| Semaphore1c.SimpleSemaphore.constructor | assignments/assignment1c/app/src/main/java/edu/vandy/model/SimpleSemaphore.java:37-43 | the count is the given initial value |
| Semaphore1c.SimpleSemaphore.AwaitPermit | assignments/assignment1c/app/src/main/java/edu/vandy/model/SimpleSemaphore.java:54-56 | the loop ends as WaitOrThrow says; the count is the one last read, interrupted or not |
| Semaphore1c.SimpleSemaphore.Acquire | assignments/assignment1c/app/src/main/java/edu/vandy/model/SimpleSemaphore.java:49-61 | an interrupt at the lock leaves the count unchanged; an interrupt in the wait takes no permit (the count is the one the interrupted await read, unchanged if nobody released); both report InterruptedException; otherwise the count seen non-zero drops by exactly one; a non-negative count stays non-negative |
| Semaphore1c.SimpleSemaphore.AcquireUninterruptibly | assignments/assignment1c/app/src/main/java/edu/vandy/model/SimpleSemaphore.java:69-87 | as written: an uninterrupted wait takes one permit; an interrupt ends the call without a permit, the count left as the interrupted await read it, and with the interrupt flag set again |
| Semaphore1c.SimpleSemaphore.AwaitThroughInterrupts | assignments/assignment1c/app/src/main/java/edu/vandy/model/SimpleSemaphore.java:63-68 | the wait loop with the catch inside it ends as WaitThrough says and counts the interrupts caught |
| Semaphore1c.SimpleSemaphore.AcquireUninterruptiblyRetrying | assignments/assignment1c/app/src/main/java/edu/vandy/model/SimpleSemaphore.java:63-68 | the documented behaviour: always takes exactly one permit, and sets the flag on return exactly when an interrupt arrived |
| Semaphore1c.SimpleSemaphore.Release | assignments/assignment1c/app/src/main/java/edu/vandy/model/SimpleSemaphore.java:92-102 | the count goes up by one (wrapping at MaxInt); the condition is signalled exactly when the new count is positive |
| Semaphore1c.SimpleSemaphore.AvailablePermits | assignments/assignment1c/app/src/main/java/edu/vandy/model/SimpleSemaphore.java:107-110 | returns the count and changes nothing |
| Semaphore1c.AcquireThenRelease | assignments/assignment1c/app/src/main/java/edu/vandy/model/SimpleSemaphore.java:49-102 | an acquire that finds a permit, then a release, restores the count |
| Semaphore1c.InterruptedWaiterGivesUp | assignments/assignment1c/app/src/main/java/edu/vandy/model/SimpleSemaphore.java:74-85 | interrupted once and then offered a permit, the as-written loop gives up while the retrying loop takes the permit |
| Semaphore2a.SimpleSemaphore.constructor | assignments/assignment2a/app/src/main/java/edu/vandy/model/SimpleSemaphore.java:37-44 | `mPermits` is the given initial value |
| Semaphore2a.SimpleSemaphore.AwaitPermit | assignments/assignment2a/app/src/main/java/edu/vandy/model/SimpleSemaphore.java:54-56 | the loop ends as WaitOrThrow says; the count is the one last read, interrupted or not |
| Semaphore2a.SimpleSemaphore.AwaitThroughInterrupts | assignments/assignment2a/app/src/main/java/edu/vandy/model/SimpleSemaphore.java:70-77 | the loop ends as WaitThrough says and counts the interrupts caught |
| Semaphore2a.SimpleSemaphore.Acquire | assignments/assignment2a/app/src/main/java/edu/vandy/model/SimpleSemaphore.java:50-59 | decrements by exactly one, only after seeing `mPermits` non-zero; interrupted, it takes no permit (the count is the one the interrupted await read, unchanged if nobody released); a non-negative count stays non-negative |
| Semaphore2a.SimpleSemaphore.AcquireUninterruptibly | assignments/assignment2a/app/src/main/java/edu/vandy/model/SimpleSemaphore.java:67-80 | as written: waits through interrupts, calling interrupt() once per interrupt caught, then decrements by one; under Java's await rule it returns only if no interrupt found the count at 0, so it sets the flag again at most once |
| Semaphore2a.SimpleSemaphore.AcquireUninterruptiblyDeferred | assignments/assignment2a/app/src/main/java/edu/vandy/model/SimpleSemaphore.java:61-66 | the documented behaviour: waits through interrupts, decrements by one, and sets the flag on return exactly when an interrupt arrived |
| Semaphore2a.SimpleSemaphore.Release | assignments/assignment2a/app/src/main/java/edu/vandy/model/SimpleSemaphore.java:85-90 | `mPermits` goes up by exactly one (wrapping at MaxInt) |
| Semaphore2a.SimpleSemaphore.AvailablePermits | assignments/assignment2a/app/src/main/java/edu/vandy/model/SimpleSemaphore.java:95-98 | returns `mPermits` and changes nothing |
| Semaphore2a.OnlyZeroInterruptsBlock | assignments/assignment2a/app/src/main/java/edu/vandy/model/SimpleSemaphore.java:70-76 | a waiter that gets nothing but interrupts finding the count at 0 never leaves the loop |
| Semaphore2a.ZeroInterruptSpins | assignments/assignment2a/app/src/main/java/edu/vandy/model/SimpleSemaphore.java:70-76 | under Java's await rule, an interrupt that takes the lock back with the count still 0 makes the as-written wait endless |
| Semaphore2a.InterruptFindingPermitProceeds | assignments/assignment2a/app/src/main/java/edu/vandy/model/SimpleSemaphore.java:70-78 | an interrupt whose await takes the lock back with a non-zero count ends the wait at once, with the flag set again once |
| Semaphore2a.ReturnsOnlyWithoutZeroInterrupt | assignments/assignment2a/app/src/main/java/edu/vandy/model/SimpleSemaphore.java:70-77 | under Java's await rule the as-written loop returns only if no interrupt found the count at 0; at most one interrupt arrived, and if one did it was the last wakeup consumed, with none before it |
| Semaphore2a.WaitsThroughInterrupts | assignments/assignment2a/app/src/main/java/edu/vandy/model/SimpleSemaphore.java:61-66 | after any number k of interrupts finding the count at 0 and a wakeup seeing a non-zero count, the uninterruptible wait proceeds having caught exactly k interrupts |
| Pool.FirstFree | assignments/assignment2a/app/src/main/java/edu/vandy/model/PalantiriManager.java:68-73 | the scan stops at a free entry, every entry before it is held, and it runs off the end only if no entry in the order is free |
| Pool.InitialBalance | assignments/assignment2a/app/src/main/java/edu/vandy/model/PalantiriManager.java:47-49 | the built map holds exactly the listed palantiri, all free; free count never exceeds the list length, and equals it (balance with the semaphore) exactly when no palantir repeats |
| Pool.ClaimCount | assignments/assignment2a/app/src/main/java/edu/vandy/model/PalantiriManager.java:69-70 | flipping a free entry to false removes exactly one free entry |
| Pool.ReleaseCount | assignments/assignment2a/app/src/main/java/edu/vandy/model/PalantiriManager.java:97 | putting true for a palantir adds one free entry when it was held or absent, none when it was free |
| Pool.FreeCountBound | assignments/assignment2a/app/src/main/java/edu/vandy/model/PalantiriManager.java:24-28 | the free entries never outnumber the entries, so a balanced pool never has more permits than palantiri |
| Pool.ScanFailsIffNoneFree | assignments/assignment2a/app/src/main/java/edu/vandy/model/PalantiriManager.java:68-83 | the scan returns null exactly when the free count is zero, i.e. every palantir is held |
| Pool.AcquireKeepsBalance | assignments/assignment2a/app/src/main/java/edu/vandy/model/PalantiriManager.java:64-73 | on a balanced pool with a permit to take, the scan finds a free palantir, and claiming it with one permit keeps the balance |
| Pool.ReleaseKeepsBalance | assignments/assignment2a/app/src/main/java/edu/vandy/model/PalantiriManager.java:95-101 | release with one more permit keeps the balance exactly when the palantir was not free |
| Pool.ClaimThenReleaseRestores | assignments/assignment2a/app/src/main/java/edu/vandy/model/PalantiriManager.java:64-101 | releasing the palantir an acquire claimed restores the map |
| Manager2a.PalantiriManager.constructor | assignments/assignment2a/app/src/main/java/edu/vandy/model/PalantiriManager.java:40-50 | every listed palantir maps to true, permits equal the list size, and the pool is balanced exactly when no palantir repeats |
| Manager2a.PalantiriManager.Acquire | assignments/assignment2a/app/src/main/java/edu/vandy/model/PalantiriManager.java:56-84 | takes one permit, returns the first free palantir in iteration order and flips only that entry; null only when none is free; a balanced pool never returns null and stays balanced |
| Manager2a.PalantiriManager.Release | assignments/assignment2a/app/src/main/java/edu/vandy/model/PalantiriManager.java:90-102 | puts true for the palantir (inserting an unknown one), leaves other entries alone, then adds one permit; keeps the balance exactly when the palantir was held or unknown (below MaxInt permits) |
| Manager2a.PalantiriManager.AvailablePermits | assignments/assignment2a/app/src/main/java/edu/vandy/model/PalantiriManager.java:112-114 | delegates to the semaphore and changes nothing |
| Manager2a.AcquireThenRelease | assignments/assignment2a/app/src/main/java/edu/vandy/model/PalantiriManager.java:56-102 | acquire then release of the returned palantir restores both the map and the permit count |
| Manager4a.PalantiriManager.constructor | assignments/assignment4a/app/src/main/java/edu/vandy/model/PalantiriManager.java:40-51 | every listed palantir maps to true, permits equal the list size, and the pool is balanced exactly when no palantir repeats |
| Manager4a.PalantiriManager.Acquire | assignments/assignment4a/app/src/main/java/edu/vandy/model/PalantiriManager.java:57-76 | consumes exactly one permit, returns the first free palantir in iteration order and sets only that entry to false; null only when none is free; a balanced pool stays balanced |
| Manager4a.PalantiriManager.Release | assignments/assignment4a/app/src/main/java/edu/vandy/model/PalantiriManager.java:83-92 | puts true for the palantir (an unknown one is inserted, not ignored), other present entries unchanged, then returns one permit unless the count is MaxInt, where the Semaphore throws |
| Manager4a.PalantiriManager.AvailablePermits | assignments/assignment4a/app/src/main/java/edu/vandy/model/PalantiriManager.java:102-104 | returns the permit count and changes nothing |
| Manager4a.AcquireThenRelease | assignments/assignment4a/app/src/main/java/edu/vandy/model/PalantiriManager.java:57-92 | acquire then release of the returned palantir restores both the map and the permit count |

## Findings

| source | as written | input that shows it | evidently intended | confidence | as-written member | corrected member |
|---|---|---|---|---|---|---|
| assignments/assignment1c/app/src/main/java/edu/vandy/model/SimpleSemaphore.java:69-87 | the catch stands outside the wait loop, so an interrupt ends acquireUninterruptibly without taking a permit, and the caller cannot tell | count 0, wakeups [Interrupt(0), Signal(1)]: the call returns with the count still 0 and no permit (Semaphore1c.InterruptedWaiterGivesUp) | keep waiting through interrupts, take the permit, set the flag on return | high, not executed | Semaphore1c.SimpleSemaphore.AcquireUninterruptibly | Semaphore1c.SimpleSemaphore.AcquireUninterruptiblyRetrying |
| assignments/assignment2a/app/src/main/java/edu/vandy/model/SimpleSemaphore.java:70-77 | interrupt() is called inside the wait loop; Condition.await throws at once, without releasing the lock, when the flag is set, so once an interrupt finds the count still 0, every later await throws, no other thread can change the count, and the caller spins forever | count 0, and still 0 when the first interrupt's await takes the lock back: every later wakeup is Interrupt(0) and the wait never ends (Semaphore2a.ZeroInterruptSpins, Semaphore2a.ReturnsOnlyWithoutZeroInterrupt) | remember the interrupt and call interrupt() once after the loop | high (depends on await's documented behaviour), not executed | Semaphore2a.SimpleSemaphore.AcquireUninterruptibly | Semaphore2a.SimpleSemaphore.AcquireUninterruptiblyDeferred |

`Manager2a.PalantiriManager.Acquire` calls the as-written
`AcquireUninterruptibly`, as the source does; with a permit available and no
wakeups it does exactly what the corrected method does.

## Left out

- Fairness and FIFO wake-up order (the fair `ReentrantLock`, `Condition.signal`, the fair `Semaphore`), `volatile` visibility, `synchronized` blocks and the atomicity of `ConcurrentHashMap` entries: these are properties of interleavings; the model is one sequential call at a time.
- Manager2a.PalantiriManager.Acquire: requires `sem.permits != 0`; a caller that would block is not modelled, since in a sequential trace no other thread could release meanwhile.
- Manager4a.PalantiriManager.Acquire: requires a positive permit count, for the same reason.
- Semaphore2a.SimpleSemaphore.Release: the source never signals the condition, so waiters are not woken; the wakeup model does not tell signalled from spurious wakeups, so this missed wakeup is not captured.
- Semaphore2a.SimpleSemaphore.Acquire: when await throws, the source leaves without unlocking; the lock itself is not modelled, so the lock left held is not captured.
- Semaphore1c.SimpleSemaphore.Acquire, Semaphore1c.SimpleSemaphore.AcquireUninterruptibly: the thread's interrupt flag itself is not tracked, only the calls that set it again. Its clearing by a thrown InterruptedException is not modelled. Nor is an interrupt that arrives after a wakeup, where `await` returns normally with the flag set: that is a `Signal`, and `reinterrupted` is false although the flag is set.
- The iteration order of the map is an input (`order`), not derived from hashing.
- Null palantiri: the palantir type has no null, so `release(null)` (accepted by `HashMap`, rejected by `ConcurrentHashMap`) is not modelled.
- Lists longer than `MaxInt`: the constructors require `|palantiri| <= MaxInt`, since `List.size()` is an `int`.
- Logging and `printStackTrace`, the Palantir objects' own behaviour, and the Android task glue (`BeingAsyncTask`) and executor helpers (`StreamsUtils`): UI, I/O and library calls with no permit logic; BeingAsyncTask and StreamsUtils are not part of this model.
