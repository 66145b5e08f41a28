/**
  Construction, clearing, copying and moving of `fast_hash_map`. Memory
  ownership is not modelled: replacing the array is a value update.
 */
module Lifecycle {
  import opened Schedule
  import opened Slots
  import opened HashMap

  /** The default constructor, `clear()`'s target state and a moved-from
      map: size 0, schedule index 0, capacity 7, every slot FREE. */
  function New<K, V>(): (r: Table<K, V>)
    ensures r.size == 0 && r.index == 0 && r.Capacity() == 7
    ensures forall i :: 0 <= i < |r.slots| ==> r.slots[i].Free?
  {
    Fresh(0)
  }

  /** The empty table is valid for every hasher and stores nothing. */
  lemma NewValid<K, V>(hash: K -> nat)
    ensures Valid(New<K, V>(), hash)
    ensures Contents(New<K, V>().slots) == map[]
    ensures NoDeleted(New<K, V>().slots)
  {
    FreshValid<K, V>(0, hash);
  }

  /** `clear()`: drops every entry and returns to the first schedule entry. */
  function Clear<K, V>(t: Table<K, V>): (r: Table<K, V>)
    ensures r.size == 0 && r.index == 0 && r.Capacity() == 7
    ensures forall i :: 0 <= i < |r.slots| ==> r.slots[i].Free?
  {
    New()
  }

  /** The conversion of the `int` hint to `unsigned long long` that
      `std::lower_bound` performs when comparing it with the primes. */
  function ToUnsigned64(x: int): (u: nat)
    requires -0x8000_0000 <= x < 0x8000_0000
    ensures u < 0x1_0000_0000_0000_0000
    ensures (u - x) % 0x1_0000_0000_0000_0000 == 0
  {
    if x < 0 then x + 0x1_0000_0000_0000_0000 else x
  }

  /** `fast_hash_map(int capacity)`: the first prime at least `capacity`;
      a negative hint compares as a huge unsigned value and selects the
      last prime. */
  function WithCapacity<K, V>(capacity: int): (r: Table<K, V>)
    requires -0x8000_0000 <= capacity < 0x8000_0000
    ensures r.size == 0 && r.index < |Primes|
    ensures forall i :: 0 <= i < |r.slots| ==> r.slots[i].Free?
    ensures capacity >= 0 ==> capacity <= r.Capacity() && (r.index > 0 ==> Primes[r.index - 1] < capacity)
    ensures capacity < 0 ==> r.index == Last
  {
    Fresh(SchedIndex(ToUnsigned64(capacity)))
  }

  /** Every capacity-hint table is valid and empty. */
  lemma WithCapacityValid<K, V>(capacity: int, hash: K -> nat)
    requires -0x8000_0000 <= capacity < 0x8000_0000
    ensures Valid(WithCapacity<K, V>(capacity), hash)
    ensures Contents(WithCapacity<K, V>(capacity).slots) == map[]
  {
    FreshValid<K, V>(SchedIndex(ToUnsigned64(capacity)), hash);
  }

  /** The initializer-list constructor: capacity is the first prime at
      least `2 * |list|` (the last one if none), then the pairs are
      inserted in order, a later pair overwriting an earlier one with the
      same key; the capacity picked always suffices, so no growth happens. */
  function FromList<K(==), V>(list: seq<(K, V)>, hash: K -> nat): (r: Table<K, V>)
    requires |list| <= Primes[Last] / 2 + 1
    ensures Valid(r, hash)
    ensures Contents(r.slots) == Upsert(map[], list)
    ensures r.size <= |list|
    ensures r.index == SchedIndex(2 * |list|)
  {
    var i := SchedIndex(2 * |list|);
    FreshValid<K, V>(i, hash);
    InsertAll(Fresh(i), list, hash)
  }

  /** The copy constructor: same schedule index, every OCCUPIED pair
      re-inserted in slot order; tombstones are not copied. */
  function Copy<K(==), V>(other: Table<K, V>, hash: K -> nat): (r: Table<K, V>)
    requires Valid(other, hash)
    ensures Valid(r, hash) && NoDeleted(r.slots)
    ensures Contents(r.slots) == Contents(other.slots)
    ensures r.size == other.size
    ensures r.index == other.index && r.Capacity() == other.Capacity()
  {
    FreshValid<K, V>(other.index, hash);
    EntriesCount(other.slots);
    EntriesRebuild(other.slots);
    PrimesBelowLast(other.index);
    InsertAll(Fresh(other.index), Entries(other.slots), hash)
  }

  /** Copy assignment: `clear()` the target, then insert every OCCUPIED
      pair of `other`; the target regrows from capacity 7 as needed. */
  function CopyAssign<K(==), V>(target: Table<K, V>, other: Table<K, V>, hash: K -> nat): (r: Table<K, V>)
    requires Valid(other, hash)
    ensures Valid(r, hash) && NoDeleted(r.slots)
    ensures Contents(r.slots) == Contents(other.slots)
    ensures r.size == other.size
  {
    NewValid<K, V>(hash);
    EntriesCount(other.slots);
    EntriesRebuild(other.slots);
    PrimesBelowLast(other.index);
    InsertAll(Clear(target), Entries(other.slots), hash)
  }

  /** The move constructor: the new map takes `other`'s fields and array;
      `other` is left as a freshly constructed empty map. Returns the pair
      (new map, moved-from `other`). */
  function Move<K, V>(other: Table<K, V>): (r: (Table<K, V>, Table<K, V>))
    ensures r.0 == other
    ensures r.1.size == 0 && r.1.index == 0 && r.1.Capacity() == 7
    ensures forall i :: 0 <= i < |r.1.slots| ==> r.1.slots[i].Free?
  {
    (other, New())
  }

  /** Move assignment: the target's own array is discarded and replaced by
      `other`'s; `other` is left empty. Returns (target, moved-from `other`). */
  function MoveAssign<K, V>(target: Table<K, V>, other: Table<K, V>): (r: (Table<K, V>, Table<K, V>))
    ensures r.0 == other
    ensures r.1.size == 0 && r.1.index == 0 && r.1.Capacity() == 7
    ensures forall i :: 0 <= i < |r.1.slots| ==> r.1.slots[i].Free?
  {
    (other, New())
  }
}
