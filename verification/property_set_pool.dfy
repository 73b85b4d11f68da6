/** PropertySetPool: a stack of scratch sets used to de-duplicate properties while a cache is
    built. `Rent` pops a set or makes a new one; `Return` clears the set and pushes it. A
    HashSet<AvaloniaProperty> compares properties by id, so a set is modelled by the ids it
    holds. */
module PropertySetPool {
  import opened Properties

  /** The stack, top last. */
  type Pool = seq<set<int>>

  function Create(): Pool {
    []
  }

  /** Every pooled set is empty. */
  ghost predicate AllClear(pool: Pool) {
    forall i :: 0 <= i < |pool| ==> pool[i] == {}
  }

  function Rent(pool: Pool): (r: (Pool, set<int>))
    ensures |pool| > 0 ==> r.0 == pool[..|pool| - 1] && r.1 == pool[|pool| - 1]
    ensures |pool| == 0 ==> r.0 == pool && r.1 == {}
    ensures AllClear(pool) ==> AllClear(r.0) && r.1 == {}
  {
    if |pool| > 0 then (pool[..|pool| - 1], pool[|pool| - 1]) else (pool, {})
  }

  /** `Return`: the set is cleared, whatever the renter put in it, and pushed. */
  function Return(pool: Pool, used: set<int>): (r: Pool)
    ensures |r| == |pool| + 1 && r[..|pool|] == pool
    ensures r[|pool|] == {}
    ensures AllClear(pool) ==> AllClear(r)
  {
    pool + [{}]
  }

  /** The pool once a rented set has come back: as it was, or holding the one set created for
      a rent from an empty pool. */
  function Restored(pool: Pool): Pool {
    if |pool| == 0 then [{}] else pool
  }

  /** Renting from a clear pool yields an empty set, and returning it, whatever was put in it,
      restores the pool: no set leaks, and the pool grows only when it was empty. */
  lemma RentThenReturnRestores(pool: Pool, used: set<int>)
    requires AllClear(pool)
    ensures Rent(pool).1 == {}
    ensures Return(Rent(pool).0, used) == Restored(pool)
    ensures AllClear(Restored(pool))
  {
    if |pool| > 0 {
      assert pool == pool[..|pool| - 1] + [pool[|pool| - 1]];
    }
  }
}
