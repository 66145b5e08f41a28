/**
  The `fast_hash_map` class: a slot array with its size and schedule
  index, and the operations on it, each stated against the abstract map
  `Contents(t.slots)`.
 */
module HashMap {
  import opened Wrappers
  import opened Schedule
  import opened Slots
  import opened Probe

  /** The fields `size_`, `index_` and `arr_`; `capacity_` is the length of
      the array. The hasher is the `hash` parameter of each operation. */
  datatype Table<K, V> = Table(size: nat, index: nat, slots: seq<Slot<K, V>>)
  {
    /** `size()` */
    function Size(): nat { size }

    /** `capacity()` */
    function Capacity(): nat { |slots| }
  }

  /** The structural invariant: distinct keys, every key reachable by its
      probe, and `size_` equal to the number of stored keys. */
  ghost predicate WellFormed<K, V>(t: Table<K, V>, hash: K -> nat)
  {
    && |t.slots| > 0
    && DistinctKeys(t.slots)
    && Reachable(t.slots, hash)
    && t.size == |Contents(t.slots)|
  }

  /** The invariant every public operation keeps: in addition, the capacity
      is the schedule entry `index_`, and the load is at most half the
      capacity plus the one entry added after the last growth check. */
  ghost predicate Valid<K, V>(t: Table<K, V>, hash: K -> nat)
  {
    && WellFormed(t, hash)
    && t.index < |Primes|
    && |t.slots| == Primes[t.index]
    && t.size <= |t.slots| / 2 + 1
  }

  /** The test of `check_capacity`: `size_ > capacity_ / 2`. */
  predicate NeedsGrowth<K, V>(t: Table<K, V>)
  {
    t.size > |t.slots| / 2
  }

  /** An empty table at schedule entry `index`. */
  function Fresh<K, V>(index: nat): (t: Table<K, V>)
    requires index < |Primes|
    ensures t.size == 0 && t.index == index && t.Capacity() == Primes[index]
    ensures forall i :: 0 <= i < |t.slots| ==> t.slots[i].Free?
  {
    Table(0, index, FreshSlots(Primes[index]))
  }

  lemma FreshValid<K, V>(index: nat, hash: K -> nat)
    requires index < |Primes|
    ensures Valid(Fresh<K, V>(index), hash)
    ensures Contents(Fresh<K, V>(index).slots) == map[]
    ensures NoDeleted(Fresh<K, V>(index).slots)
  {
    FreshEmpty<K, V>(Primes[index]);
  }

  /** A well-formed array without tombstones and with fewer keys than slots
      has a FREE slot. */
  lemma SpareRoom<K, V>(t: Table<K, V>, hash: K -> nat)
    requires WellFormed(t, hash) && NoDeleted(t.slots)
    requires t.size < |t.slots|
    ensures HasFree(t.slots)
  {
    var i := NonOccupiedWitness(t.slots);
    assert t.slots[i].Free?;
  }

  lemma FillPreserves<K, V>(t: Table<K, V>, p: nat, k: K, v: V, hash: K -> nat)
    requires WellFormed(t, hash)
    requires GetIndex(t.slots, k, hash) == Some(p) && t.slots[p].Free?
    ensures k !in Contents(t.slots)
    ensures WellFormed(Table(t.size + 1, t.index, t.slots[p := Occupied(k, v)]), hash)
    ensures Contents(t.slots[p := Occupied(k, v)]) == Contents(t.slots)[k := v]
  {
    if k in Contents(t.slots) {
      var q := ContentsWitness(t.slots, k);
      ProbeFinds(t.slots, hash, q);
      assert false;
    }
    ContentsAbsentIff(t.slots, k);
    ContentsFill(t.slots, p, k, v);
    ReachableUpdate(t.slots, hash, p, Occupied(k, v));
  }

  /** `arr_[index] = { OCCUPIED, {k, v} }; size_++` at the FREE slot the
      probe for `k` returned. */
  function Fill<K(==), V>(t: Table<K, V>, p: nat, k: K, v: V, hash: K -> nat): (r: Table<K, V>)
    requires WellFormed(t, hash)
    requires GetIndex(t.slots, k, hash) == Some(p) && t.slots[p].Free?
    ensures WellFormed(r, hash)
    ensures k !in Contents(t.slots)
    ensures Contents(r.slots) == Contents(t.slots)[k := v]
    ensures r.size == t.size + 1 && r.index == t.index && |r.slots| == |t.slots|
    ensures NoDeleted(t.slots) ==> NoDeleted(r.slots)
    ensures FreeCount(r.slots) == FreeCount(t.slots) - 1
  {
    FillPreserves(t, p, k, v, hash);
    FreeCountFill(t.slots, p, Occupied(k, v));
    Table(t.size + 1, t.index, t.slots[p := Occupied(k, v)])
  }

  lemma OverwritePreserves<K, V>(t: Table<K, V>, p: nat, v: V, hash: K -> nat)
    requires WellFormed(t, hash)
    requires p < |t.slots| && t.slots[p].Occupied?
    ensures WellFormed(Table(t.size, t.index, t.slots[p := Occupied(t.slots[p].key, v)]), hash)
    ensures Contents(t.slots[p := Occupied(t.slots[p].key, v)]) == Contents(t.slots)[t.slots[p].key := v]
  {
    ContentsOverwrite(t.slots, p, v);
    ContentsHasKey(t.slots, p);
    ReachableUpdate(t.slots, hash, p, Occupied(t.slots[p].key, v));
  }

  /** `arr_[index].element_.second = v` on an OCCUPIED slot. */
  function Overwrite<K, V>(t: Table<K, V>, p: nat, v: V, hash: K -> nat): (r: Table<K, V>)
    requires WellFormed(t, hash)
    requires p < |t.slots| && t.slots[p].Occupied?
    ensures WellFormed(r, hash)
    ensures t.slots[p].key in Contents(t.slots)
    ensures Contents(r.slots) == Contents(t.slots)[t.slots[p].key := v]
    ensures r.size == t.size && r.index == t.index && |r.slots| == |t.slots|
    ensures NoDeleted(t.slots) ==> NoDeleted(r.slots)
    ensures forall i :: 0 <= i < |t.slots| ==> (r.slots[i].Free? <==> t.slots[i].Free?)
  {
    OverwritePreserves(t, p, v, hash);
    ContentsHasKey(t.slots, p);
    Table(t.size, t.index, t.slots[p := Occupied(t.slots[p].key, v)])
  }

  /** The body of `insert` after `check_capacity`: probe, then overwrite the
      value in place or occupy the FREE slot found. */
  function Place<K(==), V>(t: Table<K, V>, k: K, v: V, hash: K -> nat): (r: Table<K, V>)
    requires WellFormed(t, hash)
    requires ProbeHalts(t.slots, k)
    ensures WellFormed(r, hash)
    ensures Contents(r.slots) == Contents(t.slots)[k := v]
    ensures r.size == if k in Contents(t.slots) then t.size else t.size + 1
    ensures r.index == t.index && |r.slots| == |t.slots|
    ensures NoDeleted(t.slots) ==> NoDeleted(r.slots)
    ensures k !in Contents(t.slots) ==> FreeCount(r.slots) == FreeCount(t.slots) - 1
  {
    ProbeHaltsIff(t.slots, hash, k);
    var p := GetIndex(t.slots, k, hash).value;
    if t.slots[p].Occupied? then Overwrite(t, p, v, hash)
    else Fill(t, p, k, v, hash)
  }

  /** Re-insertion of a list of pairs into a table that never needs to
      grow while they go in: the loop of `check_capacity`, whose nested
      `insert` calls find `size_ <= capacity_ / 2` every time. */
  function PlaceAll<K(==), V>(t: Table<K, V>, l: seq<(K, V)>, hash: K -> nat): (r: Table<K, V>)
    requires WellFormed(t, hash) && NoDeleted(t.slots)
    requires t.size + |l| <= |t.slots| / 2 + 1
    ensures WellFormed(r, hash) && NoDeleted(r.slots)
    ensures Contents(r.slots) == Upsert(Contents(t.slots), l)
    ensures r.size <= t.size + |l|
    ensures r.index == t.index && |r.slots| == |t.slots|
    decreases |l|
  {
    if |l| == 0 then t
    else
      var m := PlaceAll(t, l[..|l| - 1], hash);
      assert !NeedsGrowth(m);
      SpareRoom(m, hash);
      Place(m, l[|l| - 1].0, l[|l| - 1].1, hash)
  }

  /** The growth branch of `check_capacity`: move to the next prime and
      re-insert every OCCUPIED pair, in slot order, into a fresh array. */
  function Grow<K(==), V>(t: Table<K, V>, hash: K -> nat): (r: Table<K, V>)
    requires Valid(t, hash)
    requires t.index + 1 < |Primes|
    ensures Valid(r, hash)
    ensures r.index == t.index + 1 && r.Capacity() == Primes[t.index + 1]
    ensures NoDeleted(r.slots)
    ensures Contents(r.slots) == Contents(t.slots)
    ensures r.size == t.size && r.size <= r.Capacity() / 2
  {
    FreshValid<K, V>(t.index + 1, hash);
    EntriesCount(t.slots);
    EntriesRebuild(t.slots);
    PrimesGrow(t.index);
    PlaceAll(Fresh(t.index + 1), Entries(t.slots), hash)
  }

  /** `check_capacity()`: grows exactly when `size_ > capacity_ / 2`,
      reporting whether it did. */
  function CheckCapacity<K(==), V>(t: Table<K, V>, hash: K -> nat): (r: (bool, Table<K, V>))
    requires Valid(t, hash)
    requires NeedsGrowth(t) ==> t.index + 1 < |Primes|
    ensures r.0 <==> t.size > t.Capacity() / 2
    ensures r.0 ==> r.1.index == t.index + 1 && r.1.Capacity() == Primes[t.index + 1] && NoDeleted(r.1.slots)
    ensures !r.0 ==> r.1 == t
    ensures Valid(r.1, hash)
    ensures Contents(r.1.slots) == Contents(t.slots) && r.1.size == t.size
    ensures r.1.size <= r.1.Capacity() / 2
  {
    if NeedsGrowth(t) then (true, Grow(t, hash)) else (false, t)
  }

  /** `insert({k, v})`. The source's probe loop needs a FREE slot when the
      table does not grow first. */
  function Insert<K(==), V>(t: Table<K, V>, k: K, v: V, hash: K -> nat): (r: Table<K, V>)
    requires Valid(t, hash)
    requires NeedsGrowth(t) ==> t.index + 1 < |Primes|
    requires !NeedsGrowth(t) ==> ProbeHalts(t.slots, k)
    ensures Valid(r, hash)
    ensures Contents(r.slots) == Contents(t.slots)[k := v]
    ensures r.size == if k in Contents(t.slots) then t.size else t.size + 1
    ensures r.index == if NeedsGrowth(t) then t.index + 1 else t.index
    ensures r.size <= r.Capacity() / 2 + 1
    ensures NoDeleted(t.slots) ==> NoDeleted(r.slots)
    ensures !NeedsGrowth(t) ==> |r.slots| == |t.slots|
    ensures !NeedsGrowth(t) && k !in Contents(t.slots) ==> FreeCount(r.slots) == FreeCount(t.slots) - 1
  {
    var g := CheckCapacity(t, hash);
    if g.0 then
      SpareRoom(g.1, hash);
      Place(g.1, k, v, hash)
    else
      Place(t, k, v, hash)
  }

  /** Insertion of a list of pairs in order through `insert`, as the
      initializer-list and copy constructors and copy assignment do. */
  function InsertAll<K(==), V>(t: Table<K, V>, l: seq<(K, V)>, hash: K -> nat): (r: Table<K, V>)
    requires Valid(t, hash) && NoDeleted(t.slots)
    requires t.size + |l| <= Primes[Last] / 2 + 1
    ensures Valid(r, hash) && NoDeleted(r.slots)
    ensures Contents(r.slots) == Upsert(Contents(t.slots), l)
    ensures r.size <= t.size + |l|
    ensures t.index <= r.index
    ensures t.size + |l| <= t.Capacity() / 2 + 1 ==> r.index == t.index && r.Capacity() == t.Capacity()
    decreases |l|
  {
    if |l| == 0 then t
    else
      var m := InsertAll(t, l[..|l| - 1], hash);
      PrimesBelowLast(m.index);
      assert m.index == Last ==> !NeedsGrowth(m);
      SpareRoom(m, hash);
      Insert(m, l[|l| - 1].0, l[|l| - 1].1, hash)
  }

  /** `contains(k)` */
  function Contains<K(==), V>(t: Table<K, V>, k: K, hash: K -> nat): (r: bool)
    requires Valid(t, hash)
    requires ProbeHalts(t.slots, k)
    ensures r <==> k in Contents(t.slots)
  {
    GetIndexSpec(t.slots, hash, k);
    t.slots[GetIndex(t.slots, k, hash).value].Occupied?
  }

  /** `at(k)`: the stored value, or None where the source throws
      `std::out_of_range`. */
  function At<K(==), V>(t: Table<K, V>, k: K, hash: K -> nat): (r: Option<V>)
    requires Valid(t, hash)
    requires ProbeHalts(t.slots, k)
    ensures r.Some? <==> k in Contents(t.slots)
    ensures r.Some? ==> r.value == Contents(t.slots)[k]
  {
    GetIndexSpec(t.slots, hash, k);
    var p := GetIndex(t.slots, k, hash).value;
    if t.slots[p].Occupied? then Some(t.slots[p].value) else None
  }

  lemma ErasePreserves<K, V>(t: Table<K, V>, p: nat, hash: K -> nat)
    requires WellFormed(t, hash)
    requires p < |t.slots| && t.slots[p].Occupied?
    ensures t.size > 0
    ensures WellFormed(Table(t.size - 1, t.index, t.slots[p := Deleted]), hash)
    ensures Contents(t.slots[p := Deleted]) == Contents(t.slots) - {t.slots[p].key}
  {
    var k := t.slots[p].key;
    var c := Contents(t.slots);
    ContentsErase(t.slots, p);
    ContentsHasKey(t.slots, p);
    assert (c - {k}).Keys == c.Keys - {k};
    ReachableUpdate(t.slots, hash, p, Deleted);
  }

  /** `erase(k)`: a stored key's slot becomes a DELETED tombstone (never
      FREE); an absent key leaves the table as it was. */
  function Erase<K(==), V>(t: Table<K, V>, k: K, hash: K -> nat): (r: Table<K, V>)
    requires Valid(t, hash)
    requires ProbeHalts(t.slots, k)
    ensures Valid(r, hash)
    ensures Contents(r.slots) == Contents(t.slots) - {k}
    ensures r.size == if k in Contents(t.slots) then t.size - 1 else t.size
    ensures k !in Contents(t.slots) ==> r == t
    ensures r.index == t.index && |r.slots| == |t.slots|
    ensures forall i :: 0 <= i < |t.slots| ==> (r.slots[i].Free? <==> t.slots[i].Free?)
    ensures FreeCount(r.slots) == FreeCount(t.slots)
    ensures HasFree(r.slots) <==> HasFree(t.slots)
  {
    GetIndexSpec(t.slots, hash, k);
    var p := GetIndex(t.slots, k, hash).value;
    if t.slots[p].Occupied? then
      ErasePreserves(t, p, hash);
      FreeCountSame(t.slots, t.slots[p := Deleted]);
      FreeCountZero(t.slots);
      FreeCountZero(t.slots[p := Deleted]);
      Table(t.size - 1, t.index, t.slots[p := Deleted])
    else
      t
  }

  /** `operator[](k)`: the table afterwards and the slot whose value the
      returned reference designates. An absent key is first probed in the
      current array, then the table may grow, and `{k, Value{}}` goes in;
      `dflt` stands for `Value{}`. */
  function IndexOp<K(==), V>(t: Table<K, V>, k: K, dflt: V, hash: K -> nat): (r: (Table<K, V>, nat))
    requires Valid(t, hash)
    requires ProbeHalts(t.slots, k)
    requires k !in Contents(t.slots) && NeedsGrowth(t) ==> t.index + 1 < |Primes|
    ensures Valid(r.0, hash)
    ensures r.1 < |r.0.slots| && k in Contents(r.0.slots)
    ensures r.0.slots[r.1] == Occupied(k, Contents(r.0.slots)[k])
    ensures k in Contents(t.slots) ==> r.0 == t
    ensures k !in Contents(t.slots) ==>
              && Contents(r.0.slots) == Contents(t.slots)[k := dflt]
              && r.0.size == t.size + 1
              && r.0.index == (if NeedsGrowth(t) then t.index + 1 else t.index)
    ensures NoDeleted(t.slots) ==> NoDeleted(r.0.slots)
  {
    GetIndexSpec(t.slots, hash, k);
    var p := GetIndex(t.slots, k, hash).value;
    if t.slots[p].Occupied? then
      ContentsAt(t.slots, p);
      (t, p)
    else
      var g := CheckCapacity(t, hash);
      var q := if g.0 then
                 SpareRoom(g.1, hash);
                 GetIndexSpec(g.1.slots, hash, k);
                 GetIndex(g.1.slots, k, hash).value
               else p;
      var r := Fill(g.1, q, k, dflt, hash);
      ContentsAt(r.slots, q);
      (r, q)
  }

  /** `map[k] = v`: assignment through the reference `operator[]` returns. */
  function IndexAssign<K(==), V>(t: Table<K, V>, k: K, v: V, dflt: V, hash: K -> nat): (r: Table<K, V>)
    requires Valid(t, hash)
    requires ProbeHalts(t.slots, k)
    requires k !in Contents(t.slots) && NeedsGrowth(t) ==> t.index + 1 < |Primes|
    ensures Valid(r, hash)
    ensures Contents(r.slots) == Contents(t.slots)[k := v]
    ensures r.size == if k in Contents(t.slots) then t.size else t.size + 1
    ensures NoDeleted(t.slots) ==> NoDeleted(r.slots)
  {
    var (m, p) := IndexOp(t, k, dflt, hash);
    Overwrite(m, p, v, hash)
  }
}
