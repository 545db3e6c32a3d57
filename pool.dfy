/**
 * What both PalantiriManager versions share, stated on values: the map
 * from each palantir to its availability flag (true = free), the scan that
 * claims the first free entry, and the balance between free entries and
 * semaphore permits that the managers are meant to keep.
 */
module Pool {

  datatype Option<T> = None | Some(value: T)

  /** `p` is a key of the map and its flag is `true`. */
  predicate IsFree<P(==)>(m: map<P, bool>, p: P) {
    p in m && m[p]
  }

  /** The number of entries whose flag is `true`. */
  function FreeCount<P(==)>(m: map<P, bool>): nat {
    |set p | p in m && m[p]|
  }

  /** No element of `s` occurs twice. */
  predicate Distinct<P(==)>(s: seq<P>) {
    forall i, j :: 0 <= i < j < |s| ==> s[i] != s[j]
  }

  /** The elements of `s`. */
  function Elements<P(==)>(s: seq<P>): set<P> {
    set x | x in s
  }

  /**
   * `order` is an iteration order of the map's entry set: each key exactly
   * once. (The map's own iteration order is unspecified, so the scan takes
   * it as input.)
   */
  predicate Enumerates<P(==)>(order: seq<P>, m: map<P, bool>) {
    Distinct(order) && Elements(order) == m.Keys
  }

  /** The map a constructor builds: every listed palantir mapped to `true`. */
  function InitialMap<P(==)>(ps: seq<P>): map<P, bool> {
    map p | p in ps :: true
  }

  /**
   * The index at which the scan over `order` first meets a free entry, or
   * `|order|` when it meets none.
   */
  function FirstFree<P(==)>(order: seq<P>, m: map<P, bool>): (i: nat)
    ensures i <= |order|
    ensures i < |order| ==> IsFree(m, order[i])
    ensures forall j :: 0 <= j < i ==> !IsFree(m, order[j])
    decreases |order|
  {
    if order == [] then 0
    else if IsFree(m, order[0]) then 0
    else 1 + FirstFree(order[1..], m)
  }

  /** The balance: the free entries are exactly as many as the permits. */
  predicate Conserved<P(==)>(m: map<P, bool>, permits: int) {
    FreeCount(m) == permits
  }

  /** A sequence has as many elements as its length exactly when none repeats. */
  lemma {:induction false} ElementsCount<P>(s: seq<P>)
    ensures |Elements(s)| <= |s|
    ensures |Elements(s)| == |s| <==> Distinct(s)
    decreases |s|
  {
    if s == [] {
      assert Elements(s) == {};
    } else {
      var rest := s[1..];
      ElementsCount(rest);
      assert Elements(s) == {s[0]} + Elements(rest) by {
        assert s == [s[0]] + rest;
      }
      if s[0] in rest {
        assert Elements(s) == Elements(rest);
        var j :| 0 <= j < |rest| && rest[j] == s[0];
        assert s[0] == s[j + 1];
      } else {
        assert s[0] !in Elements(rest);
        assert |Elements(s)| == |Elements(rest)| + 1;
        if Distinct(rest) {
          forall i, j | 0 <= i < j < |s| ensures s[i] != s[j] {
            assert s[j] == rest[j - 1];
            if i > 0 {
              assert s[i] == rest[i - 1];
            }
          }
        }
        if Distinct(s) {
          forall i, j | 0 <= i < j < |rest| ensures rest[i] != rest[j] {
            assert rest[i] == s[i + 1] && rest[j] == s[j + 1];
          }
        }
      }
    }
  }

  /**
   * The constructors' map holds every listed palantir, each free, and it
   * balances a semaphore of `|ps|` permits exactly when no palantir is
   * listed twice (otherwise there are more permits than free entries).
   */
  lemma InitialBalance<P>(ps: seq<P>)
    ensures forall p :: p in InitialMap(ps) <==> p in ps
    ensures forall p :: p in ps ==> IsFree(InitialMap(ps), p)
    ensures FreeCount(InitialMap(ps)) <= |ps|
    ensures Conserved(InitialMap(ps), |ps|) <==> Distinct(ps)
  {
    var m := InitialMap(ps);
    assert (set p | p in m && m[p]) == Elements(ps);
    ElementsCount(ps);
  }

  /** Claiming a free entry removes one free entry. */
  lemma ClaimCount<P>(m: map<P, bool>, p: P)
    requires IsFree(m, p)
    ensures FreeCount(m[p := false]) == FreeCount(m) - 1
  {
    var m' := m[p := false];
    assert (set k | k in m' && m'[k]) == (set k | k in m && m[k]) - {p};
  }

  /**
   * Putting `true` for `p` adds one free entry, whether `p` was held or not
   * in the map at all, and none when `p` was already free.
   */
  lemma ReleaseCount<P>(m: map<P, bool>, p: P)
    ensures FreeCount(m[p := true]) == FreeCount(m) + (if IsFree(m, p) then 0 else 1)
  {
    var m' := m[p := true];
    var before := set k | k in m && m[k];
    assert (set k | k in m' && m'[k]) == before + {p};
    if IsFree(m, p) {
      assert before + {p} == before;
    } else {
      assert p !in before;
    }
  }

  /** At most every entry is free, so balanced permits never exceed the pool size. */
  lemma FreeCountBound<P>(m: map<P, bool>)
    ensures FreeCount(m) <= |m|
  {
    var free := set p | p in m && m[p];
    var held := set p | p in m && !m[p];
    assert m.Keys == free + held;
    assert free * held == {};
  }

  /**
   * Given an iteration order of the map, the scan meets no free entry
   * exactly when the free count is zero: it returns null only when every
   * palantir is held.
   */
  lemma ScanFailsIffNoneFree<P>(order: seq<P>, m: map<P, bool>)
    requires Enumerates(order, m)
    ensures FirstFree(order, m) == |order| <==> FreeCount(m) == 0
    ensures FirstFree(order, m) == |order| <==> forall p :: p in m ==> !m[p]
  {
    var i := FirstFree(order, m);
    var free := set p | p in m && m[p];
    if i < |order| {
      assert order[i] in free;
    } else {
      forall p | p in m ensures !m[p] {
        var j :| 0 <= j < |order| && order[j] == p;
        assert !IsFree(m, order[j]);
      }
      assert free == {};
    }
  }

  /**
   * Acquire keeps the balance: with a permit to take, a balanced pool has a
   * free entry, the scan claims it, and one free entry goes with one permit.
   */
  lemma AcquireKeepsBalance<P>(order: seq<P>, m: map<P, bool>, permits: int)
    requires Enumerates(order, m) && Conserved(m, permits) && permits != 0
    ensures permits > 0
    ensures FirstFree(order, m) < |order|
    ensures Conserved(m[order[FirstFree(order, m)] := false], permits - 1)
  {
    ScanFailsIffNoneFree(order, m);
    ClaimCount(m, order[FirstFree(order, m)]);
  }

  /**
   * Release keeps the balance exactly when the palantir was not free: a held
   * palantir (or one the map did not know) balances the extra permit, a
   * second release of a free one over-credits the semaphore.
   */
  lemma ReleaseKeepsBalance<P>(m: map<P, bool>, p: P, permits: int)
    requires Conserved(m, permits)
    ensures Conserved(m[p := true], permits + 1) <==> !IsFree(m, p)
  {
    ReleaseCount(m, p);
  }

  /** Releasing the palantir an acquire claimed gives back the map it started from. */
  lemma ClaimThenReleaseRestores<P>(m: map<P, bool>, p: P)
    requires IsFree(m, p)
    ensures m[p := false][p := true] == m
  {
  }
}
