/**
  Properties that relate several operations of `fast_hash_map`: lookups
  after updates, round trips, clear, copy and move.
 */
module Properties {
  import opened Wrappers
  import opened Schedule
  import opened Slots
  import opened Probe
  import opened HashMap
  import opened Lifecycle
  import opened Equality

  /** After `insert({k, v})`, `contains(k)` holds and `at(k)` is `v`. */
  lemma InsertThenAt<K, V>(t: Table<K, V>, k: K, v: V, hash: K -> nat)
    requires Valid(t, hash)
    requires NeedsGrowth(t) ==> t.index + 1 < |Primes|
    requires !NeedsGrowth(t) ==> ProbeHalts(t.slots, k)
    ensures Contains(Insert(t, k, v, hash), k, hash)
    ensures At(Insert(t, k, v, hash), k, hash) == Some(v)
  {
  }

  /** `insert({k, v})` leaves `at` of every other key as it was. */
  lemma InsertKeepsOthers<K, V>(t: Table<K, V>, k: K, v: V, k': K, hash: K -> nat)
    requires Valid(t, hash)
    requires NeedsGrowth(t) ==> t.index + 1 < |Primes|
    requires !NeedsGrowth(t) ==> ProbeHalts(t.slots, k)
    requires k' != k
    requires ProbeHalts(t.slots, k')
    ensures ProbeHalts(Insert(t, k, v, hash).slots, k') ==>
              At(Insert(t, k, v, hash), k', hash) == At(t, k', hash)
  {
  }

  /** Inserting a key twice keeps one entry, holding the second value,
      whether or not either insert grows the table. */
  lemma InsertTwice<K, V>(t: Table<K, V>, k: K, v1: V, v2: V, hash: K -> nat)
    requires Valid(t, hash)
    requires NeedsGrowth(t) ==> t.index + 1 < |Primes|
    requires !NeedsGrowth(t) ==> ProbeHalts(t.slots, k)
    ensures (NeedsGrowth(Insert(t, k, v1, hash)) ==> Insert(t, k, v1, hash).index + 1 < |Primes|) ==>
              && Insert(Insert(t, k, v1, hash), k, v2, hash).size == Insert(t, k, v1, hash).size
              && Contents(Insert(Insert(t, k, v1, hash), k, v2, hash).slots) == Contents(t.slots)[k := v2]
  {
    var t1 := Insert(t, k, v1, hash);
    if NeedsGrowth(t1) ==> t1.index + 1 < |Primes| {
      InsertSecond(t, t1, k, v1, v2, hash);
    }
  }

  /** The second step of `InsertTwice`: `t1` already holds `k`. */
  lemma InsertSecond<K, V>(t: Table<K, V>, t1: Table<K, V>, k: K, v1: V, v2: V, hash: K -> nat)
    requires Valid(t1, hash)
    requires NeedsGrowth(t1) ==> t1.index + 1 < |Primes|
    requires Contents(t1.slots) == Contents(t.slots)[k := v1]
    ensures Insert(t1, k, v2, hash).size == t1.size
    ensures Contents(Insert(t1, k, v2, hash).slots) == Contents(t.slots)[k := v2]
  {
    assert Contents(t.slots)[k := v1][k := v2] == Contents(t.slots)[k := v2];
  }

  /** After `erase(k)`, `contains(k)` is false, provided the probe for `k`
      still terminates (the array keeps a FREE slot). */
  lemma EraseThenAbsent<K, V>(t: Table<K, V>, k: K, hash: K -> nat)
    requires Valid(t, hash)
    requires HasFree(t.slots)
    ensures !Contains(Erase(t, k, hash), k, hash)
    ensures At(Erase(t, k, hash), k, hash) == None
  {
  }

  /** `erase(k)` leaves `at` of every other key as it was. */
  lemma EraseKeepsOthers<K, V>(t: Table<K, V>, k: K, k': K, hash: K -> nat)
    requires Valid(t, hash)
    requires ProbeHalts(t.slots, k) && ProbeHalts(t.slots, k')
    requires k' != k
    ensures ProbeHalts(Erase(t, k, hash).slots, k')
    ensures At(Erase(t, k, hash), k', hash) == At(t, k', hash)
  {
  }

  /** `operator[]` on a stored key returns its slot and changes nothing;
      assigning through it updates only that value. */
  lemma IndexPresent<K, V>(t: Table<K, V>, k: K, v: V, dflt: V, hash: K -> nat)
    requires Valid(t, hash)
    requires k in Contents(t.slots)
    ensures IndexOp(t, k, dflt, hash).0 == t
    ensures t.slots[IndexOp(t, k, dflt, hash).1] == Occupied(k, Contents(t.slots)[k])
    ensures At(IndexAssign(t, k, v, dflt, hash), k, hash) == Some(v)
    ensures IndexAssign(t, k, v, dflt, hash).size == t.size
  {
  }

  /** `operator[]` on an absent key inserts the default value and adds one
      to the size. */
  lemma IndexAbsent<K, V>(t: Table<K, V>, k: K, dflt: V, hash: K -> nat)
    requires Valid(t, hash)
    requires HasFree(t.slots) && k !in Contents(t.slots)
    requires NeedsGrowth(t) ==> t.index + 1 < |Primes|
    ensures At(IndexOp(t, k, dflt, hash).0, k, hash) == Some(dflt)
    ensures IndexOp(t, k, dflt, hash).0.size == t.size + 1
  {
  }

  /** Inserting pairs with distinct keys through the initializer-list
      constructor, then looking each key up, returns its value. */
  lemma FromListRoundTrip<K, V>(list: seq<(K, V)>, hash: K -> nat)
    requires |list| <= Primes[Last] / 2 + 1
    requires DistinctFirsts(list)
    ensures FromList(list, hash).size == |list|
    ensures forall i :: 0 <= i < |list| ==>
              list[i].0 in Contents(FromList(list, hash).slots) &&
              At(FromList(list, hash), list[i].0, hash) == Some(list[i].1)
  {
    UpsertSize(list);
    forall i | 0 <= i < |list|
      ensures list[i].0 in Contents(FromList(list, hash).slots)
      ensures Contents(FromList(list, hash).slots)[list[i].0] == list[i].1
    {
      UpsertHas(map[], list, i);
    }
  }

  /** After `clear()` no key is contained, whatever the table held. */
  lemma ClearForgets<K, V>(t: Table<K, V>, k: K, hash: K -> nat)
    ensures Valid(Clear(t), hash)
    ensures !Contains(Clear(t), k, hash)
  {
    NewValid<K, V>(hash);
    assert Clear(t).slots[0].Free?;
  }

  /** A copy compares equal to its original, in both directions. */
  lemma CopyIsEqual<K, V>(t: Table<K, V>, hash: K -> nat)
    requires Valid(t, hash)
    ensures LoopHaltsFrom(Copy(t, hash), t, 0) && LoopHaltsFrom(t, Copy(t, hash), 0)
    ensures Equal(Copy(t, hash), t, hash)
    ensures Equal(t, Copy(t, hash), hash)
  {
    KeysHalt(Copy(t, hash), t);
    KeysHalt(t, Copy(t, hash));
  }

  /** A copy assignment makes the target equal to the source. */
  lemma CopyAssignIsEqual<K, V>(target: Table<K, V>, other: Table<K, V>, hash: K -> nat)
    requires Valid(other, hash)
    ensures LoopHaltsFrom(CopyAssign(target, other, hash), other, 0)
    ensures Equal(CopyAssign(target, other, hash), other, hash)
  {
    KeysHalt(CopyAssign(target, other, hash), other);
  }

  /** The move target equals the original; the moved-from map is a valid
      empty map, which equals the original only if that was empty. */
  lemma MoveIsEqual<K, V>(t: Table<K, V>, hash: K -> nat)
    requires Valid(t, hash)
    ensures Valid(Move(t).0, hash) && LoopHaltsFrom(Move(t).0, t, 0)
    ensures Equal(Move(t).0, t, hash)
    ensures Valid(Move(t).1, hash) && Move(t).1.Size() == 0
    ensures LoopHaltsFrom(Move(t).1, t, 0)
    ensures Equal(Move(t).1, t, hash) <==> t.size == 0
  {
    NewValid<K, V>(hash);
    KeysHalt(Move(t).0, t);
    KeysHalt(Move(t).1, t);
  }

  /** After move assignment the target equals what `other` held, and
      `other` is a valid empty map. */
  lemma MoveAssignIsEqual<K, V>(target: Table<K, V>, t: Table<K, V>, hash: K -> nat)
    requires Valid(t, hash)
    ensures Valid(MoveAssign(target, t).0, hash) && LoopHaltsFrom(MoveAssign(target, t).0, t, 0)
    ensures Equal(MoveAssign(target, t).0, t, hash)
    ensures Valid(MoveAssign(target, t).1, hash) && MoveAssign(target, t).1.Size() == 0
    ensures Contents(MoveAssign(target, t).1.slots) == map[]
  {
    NewValid<K, V>(hash);
    KeysHalt(MoveAssign(target, t).0, t);
  }
}
