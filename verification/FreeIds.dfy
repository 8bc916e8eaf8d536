// The search for an unused identifier, shared by the buffer pool and the inode pool.
module FreeIds {
  import opened ByteStrings

  /** Stands for std::map::max_size(), which is implementation-defined but well below 2^63. */
  const MAX_POOL_SIZE: nat := 0x100_0000_0000_0000

  lemma {:induction false} IntervalFits(keys: set<nat>, lo: nat, hi: nat)
    requires lo <= hi
    requires forall k :: lo <= k < hi ==> k in keys
    ensures hi - lo <= |keys|
    decreases hi - lo
  {
    if lo < hi {
      IntervalFits(keys - {lo}, lo + 1, hi);
    }
  }

  /** The least unused id not below the pool's size; at most twice the size, since only |keys| ids are taken. */
  function FreeId(keys: set<nat>): (id: nat)
    ensures id !in keys
    ensures |keys| <= id <= 2 * |keys|
    ensures forall k :: |keys| <= k < id ==> k in keys
  {
    FreeIdFrom(keys, |keys|)
  }

  function FreeIdFrom(keys: set<nat>, from: nat): (id: nat)
    requires |keys| <= from
    requires forall k :: |keys| <= k < from ==> k in keys
    ensures id !in keys
    ensures |keys| <= id <= 2 * |keys|
    ensures forall k :: |keys| <= k < id ==> k in keys
    decreases 2 * |keys| + 1 - from
  {
    IntervalFits(keys, |keys|, from);
    if from !in keys then from
    else
      assert from != 2 * |keys| by { Full(keys, from); }
      FreeIdFrom(keys, from + 1)
  }

  lemma Full(keys: set<nat>, from: nat)
    requires |keys| <= from && from in keys
    requires forall k :: |keys| <= k < from ==> k in keys
    ensures from != 2 * |keys|
  {
    IntervalFits(keys, |keys|, from + 1);
  }

  /** Any id with the properties of FreeId's contract is the one it finds. */
  lemma FreeIdIsLeast(keys: set<nat>, id: nat)
    requires id !in keys && |keys| <= id
    requires forall k :: |keys| <= k < id ==> k in keys
    ensures id == FreeId(keys)
  {
    assert FreeId(keys) < id ==> FreeId(keys) in keys;
  }

  /** The ids 0..n-1. */
  function Below(n: nat): (keys: set<nat>)
    ensures |keys| == n
    ensures forall k: nat :: k in keys <==> k < n
  {
    if n == 0 then {} else Below(n - 1) + {n - 1}
  }

  /** A pool that uses exactly the ids 0..n-1 hands out n next. */
  lemma DensePoolGrowsAtEnd(n: nat)
    ensures FreeId(Below(n)) == n
  {
    FreeIdIsLeast(Below(n), n);
  }

  /** The loop of the source's template. */
  method SearchFreeId<V>(pool: map<nat, V>) returns (id: nat)
    ensures id == FreeId(pool.Keys)
  {
    id := |pool|;
    while id in pool
      invariant |pool| <= id
      invariant forall k :: |pool| <= k < id ==> k in pool
      decreases 2 * |pool| + 1 - id
    {
      Full(pool.Keys, id);
      IntervalFits(pool.Keys, |pool|, id);
      id := id + 1;
    }
    FreeIdIsLeast(pool.Keys, id);
  }

  method GetFreeId<V>(pool: map<nat, V>, maxSize: nat) returns (id: Option<nat>)
    ensures id == if |pool| == maxSize then None else Some(FreeId(pool.Keys))
  {
    if |pool| == maxSize {
      return None;
    }
    var found := SearchFreeId(pool);
    return Some(found);
  }
}
