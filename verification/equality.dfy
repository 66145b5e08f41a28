/**
  `operator==` and `operator!=` of `fast_hash_map`: equal sizes, and every
  OCCUPIED pair of the left map found with an equal value in the right.
 */
module Equality {
  import opened Slots
  import opened Probe
  import opened HashMap

  /** Every OCCUPIED pair of `a` from slot `i` on is stored in `b`. */
  ghost predicate FoundFrom<K, V>(a: Table<K, V>, b: Table<K, V>, i: nat)
    requires i <= |a.slots|
  {
    forall j :: i <= j < |a.slots| && a.slots[j].Occupied? ==>
      a.slots[j].key in Contents(b.slots) && Contents(b.slots)[a.slots[j].key] == a.slots[j].value
  }

  /** The loop of `operator==` from slot `i` terminates: each `contains`
      it reaches halts, up to the first OCCUPIED pair `b` lacks or holds
      with another value, after which the loop returns. */
  ghost predicate LoopHaltsFrom<K, V>(a: Table<K, V>, b: Table<K, V>, i: nat)
    requires i <= |a.slots|
    decreases |a.slots| - i
  {
    if i == |a.slots| then true
    else if a.slots[i].Occupied? then
      var key := a.slots[i].key;
      && ProbeHalts(b.slots, key)
      && (key !in Contents(b.slots) || Contents(b.slots)[key] != a.slots[i].value || LoopHaltsFrom(a, b, i + 1))
    else LoopHaltsFrom(a, b, i + 1)
  }

  /** The loop of `operator==` from slot `i`: it stops with false at the
      first OCCUPIED pair `b` does not contain or holds with another value. */
  function AllFoundFrom<K(==), V(==)>(a: Table<K, V>, b: Table<K, V>, i: nat, hash: K -> nat): (r: bool)
    requires Valid(b, hash) && i <= |a.slots|
    requires LoopHaltsFrom(a, b, i)
    ensures r <==> FoundFrom(a, b, i)
    decreases |a.slots| - i
  {
    if i == |a.slots| then true
    else if a.slots[i].Occupied? then
      var key := a.slots[i].key;
      if !Contains(b, key, hash) || At(b, key, hash).value != a.slots[i].value then false
      else AllFoundFrom(a, b, i + 1, hash)
    else AllFoundFrom(a, b, i + 1, hash)
  }

  /** The loop halts when the probe for every remaining key of `a` halts. */
  lemma {:induction false} HaltsFrom<K, V>(a: Table<K, V>, b: Table<K, V>, i: nat)
    requires i <= |a.slots|
    requires forall j :: i <= j < |a.slots| && a.slots[j].Occupied? ==> ProbeHalts(b.slots, a.slots[j].key)
    ensures LoopHaltsFrom(a, b, i)
    decreases |a.slots| - i
  {
    if i < |a.slots| {
      HaltsFrom(a, b, i + 1);
    }
  }

  /** The loop of `operator==` halts when every key stored in `a` is stored
      in `b` or `b` still has a FREE slot. */
  lemma KeysHalt<K, V>(a: Table<K, V>, b: Table<K, V>)
    requires forall k :: k in Contents(a.slots) ==> ProbeHalts(b.slots, k)
    ensures LoopHaltsFrom(a, b, 0)
  {
    forall j | 0 <= j < |a.slots| && a.slots[j].Occupied?
      ensures ProbeHalts(b.slots, a.slots[j].key)
    {
      ContentsHasKey(a.slots, j);
    }
    HaltsFrom(a, b, 0);
  }

  /** A subset is no larger than its superset. */
  lemma {:induction false} SubsetCard<T>(a: set<T>, b: set<T>)
    requires a <= b
    ensures |a| <= |b|
    decreases a
  {
    if a != {} {
      var x :| x in a;
      SubsetCard(a - {x}, b - {x});
    }
  }

  /** A submap with as many keys as the map is the map. */
  lemma SubmapSameSize<K, V>(m: map<K, V>, m': map<K, V>)
    requires forall k :: k in m ==> k in m' && m'[k] == m[k]
    requires |m| == |m'|
    ensures m == m'
  {
    assert m.Keys <= m'.Keys;
    if m.Keys != m'.Keys {
      var k :| k in m'.Keys && k !in m.Keys;
      SubsetCard(m.Keys, m'.Keys - {k});
      assert false;
    }
  }

  /** The slot-wise test of `operator==` means equal stored maps. */
  lemma FoundMeansEqual<K, V>(a: Table<K, V>, b: Table<K, V>, hash: K -> nat)
    requires Valid(a, hash) && Valid(b, hash)
    ensures (a.size == b.size && FoundFrom(a, b, 0)) <==> Contents(a.slots) == Contents(b.slots)
  {
    if a.size == b.size && FoundFrom(a, b, 0) {
      forall k | k in Contents(a.slots)
        ensures k in Contents(b.slots) && Contents(b.slots)[k] == Contents(a.slots)[k]
      {
        var i := ContentsWitness(a.slots, k);
      }
      SubmapSameSize(Contents(a.slots), Contents(b.slots));
    }
    if Contents(a.slots) == Contents(b.slots) {
      forall j | 0 <= j < |a.slots| && a.slots[j].Occupied?
        ensures a.slots[j].key in Contents(b.slots) && Contents(b.slots)[a.slots[j].key] == a.slots[j].value
      {
        ContentsAt(a.slots, j);
      }
    }
  }

  /** `operator==`: the sizes are compared first, so the right map is only
      probed when they agree, and then only until the first mismatch. */
  function Equal<K(==), V(==)>(a: Table<K, V>, b: Table<K, V>, hash: K -> nat): (r: bool)
    requires Valid(a, hash) && Valid(b, hash)
    requires a.size == b.size ==> LoopHaltsFrom(a, b, 0)
    ensures r <==> Contents(a.slots) == Contents(b.slots)
  {
    FoundMeansEqual(a, b, hash);
    if a.size != b.size then false
    else AllFoundFrom(a, b, 0, hash)
  }

  /** `operator!=` */
  function NotEqual<K(==), V(==)>(a: Table<K, V>, b: Table<K, V>, hash: K -> nat): (r: bool)
    requires Valid(a, hash) && Valid(b, hash)
    requires a.size == b.size ==> LoopHaltsFrom(a, b, 0)
    ensures r <==> Contents(a.slots) != Contents(b.slots)
  {
    !Equal(a, b, hash)
  }
}
