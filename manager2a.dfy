/**
 * The PalantiriManager of assignment 2a: a map from each palantir to its
 * availability flag and the assignment's own SimpleSemaphore, sized to the
 * list of palantiri. One call is modelled at a time; a caller that would
 * block on the semaphore is outside the model (`sem.permits != 0` is
 * required), because in a single sequential trace no other thread can
 * release while it waits.
 */
module Manager2a {
  import opened JavaInt
  import opened Pool
  import Semaphore2a

  class PalantiriManager<P(==)> {
    /** `mPalantiriMap`: palantir to "available". */
    var free: map<P, bool>
    /** `mAvailablePalantiri`. */
    const sem: Semaphore2a.SimpleSemaphore

    /** The free entries are exactly as many as the semaphore's permits. */
    ghost predicate Balanced()
      reads this, sem
    {
      Conserved(free, sem.permits as int)
    }

    /**
     * Puts `true` for each listed palantir, in list order, and creates a
     * semaphore with as many permits as the list has elements. The pool is
     * balanced exactly when no palantir is listed twice.
     */
    constructor(palantiri: seq<P>)
      requires |palantiri| <= MaxInt as int
      ensures free == InitialMap(palantiri)
      ensures forall p :: p in palantiri ==> IsFree(free, p)
      ensures fresh(sem) && sem.permits as int == |palantiri|
      ensures Balanced() <==> Distinct(palantiri)
    {
      var m := map[];
      var i := 0;
      while i < |palantiri|
        invariant 0 <= i <= |palantiri|
        invariant m == InitialMap(palantiri[..i])
      {
        assert palantiri[..i + 1] == palantiri[..i] + [palantiri[i]];
        m := m[palantiri[i] := true];
        i := i + 1;
      }
      assert palantiri[..i] == palantiri;
      free := m;
      sem := new Semaphore2a.SimpleSemaphore(|palantiri| as int32);
      InitialBalance(palantiri);
    }

    /**
     * Takes one permit, then scans the entries in `order` (the map's
     * iteration order), flips the first free one to `false` and returns its
     * palantir; `None` (Java's null) only when no entry is free. On a
     * balanced pool it always finds one and stays balanced.
     */
    method Acquire(order: seq<P>) returns (r: Option<P>)
      requires Enumerates(order, free)
      requires sem.permits != 0
      modifies this, sem
      ensures sem.permits == Dec(old(sem.permits))
      ensures var i := FirstFree(order, old(free));
        if i < |order| then r == Some(order[i]) && free == old(free)[order[i] := false]
        else r == None && free == old(free)
      ensures r.Some? ==> IsFree(old(free), r.value) && !free[r.value]
      ensures r.Some? ==> forall p :: p in old(free) && p != r.value ==> p in free && free[p] == old(free)[p]
      ensures r.None? <==> FreeCount(old(free)) == 0
      ensures old(Balanced()) ==> r.Some? && Balanced()
    {
      ScanFailsIffNoneFree(order, free);
      if Balanced() {
        AcquireKeepsBalance(order, free, sem.permits as int);
      }
      var _ := sem.AcquireUninterruptibly([]);
      var i := 0;
      while i < |order|
        invariant 0 <= i <= |order|
        invariant free == old(free)
        invariant forall j :: 0 <= j < i ==> !IsFree(free, order[j])
      {
        if free[order[i]] {
          free := free[order[i] := false];
          return Some(order[i]);
        }
        i := i + 1;
      }
      r := None;
    }

    /**
     * Puts `true` for `palantir`, inserting it when the map does not hold it,
     * then returns one permit. Other entries keep their flags. Releasing a
     * held palantir keeps a balanced pool balanced; releasing a free one
     * does not.
     */
    method Release(palantir: P)
      modifies this, sem
      ensures free == old(free)[palantir := true]
      ensures free.Keys == old(free).Keys + {palantir}
      ensures forall p :: p in old(free) && p != palantir ==> free[p] == old(free)[p]
      ensures sem.permits == Inc(old(sem.permits))
      ensures old(Balanced()) && old(sem.permits) < MaxInt ==>
        (Balanced() <==> !IsFree(old(free), palantir))
    {
      if Balanced() { ReleaseKeepsBalance(free, palantir, sem.permits as int); }
      free := free[palantir := true];
      sem.Release();
    }

    /** The semaphore's permit count; nothing changes. */
    method AvailablePermits() returns (n: int32)
      ensures n == sem.permits
    {
      n := sem.AvailablePermits();
    }
  }

  /**
   * Releasing the palantir an acquire returned gives back the map and the
   * permit count it started from.
   */
  method AcquireThenRelease<P(==)>(pool: PalantiriManager<P>, order: seq<P>)
    requires pool.Balanced() && Enumerates(order, pool.free) && pool.sem.permits != 0
    modifies pool, pool.sem
    ensures pool.free == old(pool.free) && pool.sem.permits == old(pool.sem.permits)
    ensures pool.Balanced()
  {
    var r := pool.Acquire(order);
    ClaimThenReleaseRestores(old(pool.free), r.value);
    pool.Release(r.value);
  }
}
