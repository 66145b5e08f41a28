/**
  Concrete runs of `fast_hash_map`, stated for every hasher: the sizing
  checks of its functional test, and a run that shows how tombstones use
  up the FREE slots of a table that never grows.
 */
module Scenarios {
  import opened Wrappers
  import opened Schedule
  import opened Slots
  import opened Probe
  import opened HashMap
  import opened Lifecycle

  /** Three pairs with distinct keys in an initializer list give size 3
      and capacity 7. */
  lemma ThreePairs(hash: int -> nat)
    ensures FromList([(1, "kbbjhb"), (2, "kmklmkm"), (4, "knljknjln")], hash).Size() == 3
    ensures FromList([(1, "kbbjhb"), (2, "kmklmkm"), (4, "knljknjln")], hash).Capacity() == 7
  {
    var l := [(1, "kbbjhb"), (2, "kmklmkm"), (4, "knljknjln")];
    UpsertSize(l);
    assert SchedIndex(6) == 0;
  }

  /** A capacity hint of 100 selects the prime 127. */
  lemma HintHundred<K, V>()
    ensures WithCapacity<K, V>(100).Capacity() == 127
  {
    assert ToUnsigned64(100) == 100;
    assert Primes[4] == 127;
    assert LowerBoundFrom(100, 4) == 4;
    assert LowerBoundFrom(100, 3) == 4;
    assert LowerBoundFrom(100, 2) == 4;
    assert LowerBoundFrom(100, 1) == 4;
    assert LowerBoundFrom(100, 0) == 4;
  }

  /** `n` rounds of `insert({k, v}); erase(k)` on an empty table. */
  function Churn<K(==), V>(t: Table<K, V>, k: K, v: V, n: nat, hash: K -> nat): (r: Table<K, V>)
    requires Valid(t, hash) && t.size == 0
    requires n <= FreeCount(t.slots)
    ensures Valid(r, hash) && r.size == 0
    ensures r.index == t.index && |r.slots| == |t.slots|
    ensures FreeCount(r.slots) == FreeCount(t.slots) - n
    decreases n
  {
    if n == 0 then t
    else
      FreeCountZero(t.slots);
      var a := Insert(t, k, v, hash);
      var b := Erase(a, k, hash);
      Churn(b, k, v, n - 1, hash)
  }

  /** Each round of insert-then-erase of the same key turns one FREE slot
      into a tombstone, since the probe never reuses DELETED slots and
      tombstones do not count towards growth: after seven rounds on a
      default table no FREE slot is left, the table still has capacity 7,
      and the probe for `k` has nowhere to stop (the source's loop would
      not terminate). */
  lemma TombstonesExhaust<K, V>(k: K, v: V, hash: K -> nat)
    ensures Valid(New<K, V>(), hash)
    ensures FreeCount(New<K, V>().slots) == 7
    ensures var t := Churn(New<K, V>(), k, v, 7, hash);
            && t.Size() == 0 && t.Capacity() == 7
            && !HasFree(t.slots)
            && !ProbeHalts(t.slots, k)
            && GetIndex(t.slots, k, hash).None?
  {
    NewValid<K, V>(hash);
    FreeCountAll(New<K, V>().slots);
    var t := Churn(New<K, V>(), k, v, 7, hash);
    FreeCountZero(t.slots);
    ProbeHaltsIff(t.slots, hash, k);
  }
}
