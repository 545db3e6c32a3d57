/**
 * The PalantiriManager of assignment 4a: a concurrent map from each
 * palantir to its availability flag and a fair java.util.concurrent
 * Semaphore, modelled here by its permit count. One call is modelled at a
 * time; a caller that would block on the semaphore (no permit) is outside
 * the model.
 */
module Manager4a {
  import opened JavaInt
  import opened Pool

  /** How a release ends: the Semaphore throws an Error instead of passing MaxInt permits. */
  datatype ReleaseResult = Released | MaximumPermitCountExceeded

  class PalantiriManager<P(==)> {
    /** `mPalantiriMap`: palantir to "available". */
    var free: map<P, bool>
    /** The permits of `mAvailablePalantiri`. */
    var permits: int32

    /** The free entries are exactly as many as the permits. */
    ghost predicate Balanced()
      reads this
    {
      Conserved(free, permits as int)
    }

    /**
     * Puts `true` for each listed palantir and creates a fair semaphore with
     * as many permits as the list has elements. The pool is balanced exactly
     * when no palantir is listed twice.
     */
    constructor(palantiri: seq<P>)
      requires |palantiri| <= MaxInt as int
      ensures free == InitialMap(palantiri)
      ensures forall p :: p in palantiri ==> IsFree(free, p)
      ensures permits as int == |palantiri|
      ensures Balanced() <==> Distinct(palantiri)
    {
      var m := map[];
      var i := 0;
      while i < |palantiri|
        invariant 0 <= i <= |palantiri|
        invariant m == InitialMap(palantiri[..i])
      {
        assert palantiri[..i + 1] == palantiri[..i] + [palantiri[i]];
        m := m[palantiri[i] := true];
        i := i + 1;
      }
      assert palantiri[..i] == palantiri;
      free := m;
      permits := |palantiri| as int32;
      InitialBalance(palantiri);
    }

    /**
     * Takes exactly one permit (`acquireUninterruptibly` proceeds only with
     * a positive count), then scans the entries in `order`, sets the first
     * free one to `false` and returns its palantir; `None` (Java's null)
     * only when no entry is free. On a balanced pool it always finds one and
     * stays balanced.
     */
    method Acquire(order: seq<P>) returns (r: Option<P>)
      requires Enumerates(order, free)
      requires permits > 0
      modifies this
      ensures permits == old(permits) - 1
      ensures var i := FirstFree(order, old(free));
        if i < |order| then r == Some(order[i]) && free == old(free)[order[i] := false]
        else r == None && free == old(free)
      ensures r.Some? ==> IsFree(old(free), r.value) && !free[r.value]
      ensures r.Some? ==> forall p :: p in old(free) && p != r.value ==> p in free && free[p] == old(free)[p]
      ensures r.None? <==> FreeCount(old(free)) == 0
      ensures old(Balanced()) ==> r.Some? && Balanced()
    {
      ScanFailsIffNoneFree(order, free);
      if Balanced() {
        AcquireKeepsBalance(order, free, permits as int);
      }
      permits := permits - 1;
      var i := 0;
      while i < |order|
        invariant 0 <= i <= |order|
        invariant free == old(free)
        invariant forall j :: 0 <= j < i ==> !IsFree(free, order[j])
      {
        if free[order[i]] {
          free := free[order[i] := false];
          return Some(order[i]);
        }
        i := i + 1;
      }
      r := None;
    }

    /**
     * Puts `true` for `palantir` (an unknown palantir is inserted, not
     * ignored), then returns one permit, unless the count is already MaxInt,
     * where the Semaphore throws and the count stays. Other entries keep
     * their flags. Releasing a held palantir keeps a balanced pool balanced;
     * releasing a free one does not.
     */
    method Release(palantir: P) returns (r: ReleaseResult)
      modifies this
      ensures free == old(free)[palantir := true]
      ensures free.Keys == old(free).Keys + {palantir}
      ensures forall p :: p in old(free) && p != palantir ==> free[p] == old(free)[p]
      ensures old(permits) < MaxInt ==> r == Released && permits as int == old(permits) as int + 1
      ensures old(permits) == MaxInt ==> r == MaximumPermitCountExceeded && permits == old(permits)
      ensures old(Balanced()) && old(permits) < MaxInt ==>
        (Balanced() <==> !IsFree(old(free), palantir))
    {
      if Balanced() { ReleaseKeepsBalance(free, palantir, permits as int); }
      free := free[palantir := true];
      if permits == MaxInt {
        return MaximumPermitCountExceeded;
      }
      permits := permits + 1;
      r := Released;
    }

    /** The semaphore's permit count; nothing changes. */
    method AvailablePermits() returns (n: int32)
      ensures n == permits
    {
      n := permits;
    }
  }

  /**
   * Releasing the palantir an acquire returned gives back the map and the
   * permit count it started from.
   */
  method AcquireThenRelease<P(==)>(pool: PalantiriManager<P>, order: seq<P>)
    requires pool.Balanced() && Enumerates(order, pool.free) && pool.permits != 0
    modifies pool
    ensures pool.free == old(pool.free) && pool.permits == old(pool.permits)
    ensures pool.Balanced()
  {
    var r := pool.Acquire(order);
    ClaimThenReleaseRestores(old(pool.free), r.value);
    var _ := pool.Release(r.value);
  }
}
