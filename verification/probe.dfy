/**
  Linear probing (`get_index`): walk forward from `hash(k) % capacity_`,
  wrapping at the capacity, until a FREE slot or the slot holding `k`.
 */
module Probe {
  import opened Wrappers
  import opened Slots

  /** The start of the probe for `k`: `hasher_(key) % capacity_`. */
  function Home<K>(hash: K -> nat, k: K, n: nat): (h: nat)
    requires n > 0
    ensures h < n
  {
    hash(k) % n
  }

  /** The slot visited after `j` steps from `start`, wrapping at `n`. */
  function Pos(start: nat, j: nat, n: nat): (i: nat)
    requires start < n && j < n
    ensures i < n
  {
    if start + j < n then start + j else start + j - n
  }

  /** The number of steps from `start` to slot `i`: the inverse of `Pos`. */
  function Off(start: nat, i: nat, n: nat): (j: nat)
    requires start < n && i < n
    ensures j < n
    ensures Pos(start, j, n) == i
  {
    if start <= i then i - start else i + n - start
  }

  /** One step of the source's `(index + 1) % capacity_` advances the walk. */
  lemma StepPos(start: nat, j: nat, n: nat)
    requires start < n && j + 1 < n
    ensures (Pos(start, j, n) + 1) % n == Pos(start, j + 1, n)
  {
    var i := Pos(start, j, n) + 1;
    if i < n {
      assert i % n == i;
    } else {
      assert i == n;
      assert i % n == 0;
    }
  }

  lemma OffPos(start: nat, j: nat, n: nat)
    requires start < n && j < n
    ensures Off(start, Pos(start, j, n), n) == j
  {
  }

  /** A slot where the probe for `k` stops. */
  predicate Stop<K(==), V>(x: Slot<K, V>, k: K)
  {
    x.Free? || (x.Occupied? && x.key == k)
  }

  /** The first `d` slots of the walk from `start` are not FREE. */
  ghost predicate PathClear<K, V>(s: seq<Slot<K, V>>, start: nat, d: nat)
    requires start < |s| && d <= |s|
  {
    forall j :: 0 <= j < d ==> !s[Pos(start, j, |s|)].Free?
  }

  /** Every OCCUPIED slot is reached from its key's home through slots that
      are not FREE, so the probe cannot stop short of it. */
  ghost predicate Reachable<K, V>(s: seq<Slot<K, V>>, hash: K -> nat)
  {
    |s| > 0 &&
    forall i :: 0 <= i < |s| && s[i].Occupied? ==>
      PathClear(s, Home(hash, s[i].key, |s|), Off(Home(hash, s[i].key, |s|), i, |s|))
  }

  /** The probe from step `j` on: the number of steps to the first stopping
      slot, or None when none of the remaining slots stops it (the source's
      loop would then run forever). */
  function ProbeFrom<K(==), V>(s: seq<Slot<K, V>>, k: K, start: nat, j: nat): (r: Option<nat>)
    requires start < |s| && j <= |s|
    ensures r.Some? ==> j <= r.value < |s| && Stop(s[Pos(start, r.value, |s|)], k)
    ensures r.Some? ==> forall e :: j <= e < r.value ==> !Stop(s[Pos(start, e, |s|)], k)
    ensures r.None? ==> forall e :: j <= e < |s| ==> !Stop(s[Pos(start, e, |s|)], k)
    decreases |s| - j
  {
    if j == |s| then None
    else if Stop(s[Pos(start, j, |s|)], k) then Some(j)
    else ProbeFrom(s, k, start, j + 1)
  }

  /** `get_index(k)`, bounded by `capacity_` steps: the slot holding `k` or
      the first FREE slot on its probe path, never a tombstone; None when
      the source's loop would not terminate. */
  function GetIndex<K(==), V>(s: seq<Slot<K, V>>, k: K, hash: K -> nat): (r: Option<nat>)
    requires |s| > 0
    ensures r.Some? ==> r.value < |s| && Stop(s[r.value], k) && !s[r.value].Deleted?
    ensures r.Some? ==> PathClear(s, Home(hash, k, |s|), Off(Home(hash, k, |s|), r.value, |s|))
    ensures r.Some? ==> forall e :: 0 <= e < Off(Home(hash, k, |s|), r.value, |s|) ==>
                          !Stop(s[Pos(Home(hash, k, |s|), e, |s|)], k)
  {
    var h := Home(hash, k, |s|);
    match ProbeFrom(s, k, h, 0)
    case None => None
    case Some(d) =>
      OffPos(h, d, |s|);
      Some(Pos(h, d, |s|))
  }

  /** The probe gives up only when no slot at all would stop it. */
  lemma ProbeExhausted<K, V>(s: seq<Slot<K, V>>, k: K, hash: K -> nat)
    requires |s| > 0
    ensures GetIndex(s, k, hash).None? <==> forall i :: 0 <= i < |s| ==> !Stop(s[i], k)
  {
    var h := Home(hash, k, |s|);
    if GetIndex(s, k, hash).None? {
      forall i | 0 <= i < |s| ensures !Stop(s[i], k) {
        assert Pos(h, Off(h, i, |s|), |s|) == i;
      }
    }
  }

  /** If `k` is stored on the array, the probe for `k` finds its slot before
      any FREE slot. */
  lemma ProbeFinds<K, V>(s: seq<Slot<K, V>>, hash: K -> nat, p: nat)
    requires DistinctKeys(s) && Reachable(s, hash)
    requires p < |s| && s[p].Occupied?
    ensures GetIndex(s, s[p].key, hash) == Some(p)
  {
    var k := s[p].key;
    var n := |s|;
    var h := Home(hash, k, n);
    var d := Off(h, p, n);
    assert PathClear(s, h, d);
    forall e | 0 <= e < d
      ensures !Stop(s[Pos(h, e, n)], k)
    {
      var q := Pos(h, e, n);
      OffPos(h, e, n);
      assert q != p;
      assert !s[q].Free?;
    }
    var r := ProbeFrom(s, k, h, 0);
    assert Stop(s[Pos(h, d, n)], k);
    assert r.Some?;
    assert r.value == d;
  }

  /** The probe for an absent key never lands on an OCCUPIED slot. */
  lemma ProbeMisses<K, V>(s: seq<Slot<K, V>>, hash: K -> nat, k: K)
    requires |s| > 0
    requires k !in Contents(s)
    ensures GetIndex(s, k, hash).Some? ==> s[GetIndex(s, k, hash).value].Free?
  {
    ContentsAbsentIff(s, k);
  }

  /** The source's probe loop terminates exactly when the array has a FREE
      slot or stores `k`. */
  ghost predicate ProbeHalts<K, V>(s: seq<Slot<K, V>>, k: K)
  {
    HasFree(s) || k in Contents(s)
  }

  /** Termination of `get_index`, both directions. */
  lemma ProbeHaltsIff<K, V>(s: seq<Slot<K, V>>, hash: K -> nat, k: K)
    requires |s| > 0
    ensures GetIndex(s, k, hash).Some? <==> ProbeHalts(s, k)
  {
    ProbeExhausted(s, k, hash);
    ContentsAbsentIff(s, k);
    if GetIndex(s, k, hash).Some? {
      var i := GetIndex(s, k, hash).value;
      if !s[i].Free? {
        ContentsHasKey(s, i);
      }
    }
    if HasFree(s) {
      var i :| 0 <= i < |s| && s[i].Free?;
      assert Stop(s[i], k);
    }
    if k in Contents(s) {
      var i := ContentsWitness(s, k);
      assert Stop(s[i], k);
    }
  }

  /** What `get_index` returns on a well-formed array: the slot holding
      `k` with its stored value when `k` is stored, else a FREE slot. */
  lemma GetIndexSpec<K, V>(s: seq<Slot<K, V>>, hash: K -> nat, k: K)
    requires DistinctKeys(s) && Reachable(s, hash)
    requires ProbeHalts(s, k)
    ensures GetIndex(s, k, hash).Some?
    ensures k in Contents(s) ==> s[GetIndex(s, k, hash).value] == Occupied(k, Contents(s)[k])
    ensures k !in Contents(s) ==> s[GetIndex(s, k, hash).value].Free?
  {
    ProbeHaltsIff(s, hash, k);
    if k in Contents(s) {
      var p := ContentsWitness(s, k);
      ProbeFinds(s, hash, p);
    } else {
      ProbeMisses(s, hash, k);
    }
  }

  /** Non-FREE slots stay non-FREE: a clear path stays clear. */
  lemma PathClearMono<K, V>(s: seq<Slot<K, V>>, s': seq<Slot<K, V>>, start: nat, d: nat)
    requires |s| == |s'| && start < |s| && d <= |s|
    requires forall q :: 0 <= q < |s| && !s[q].Free? ==> !s'[q].Free?
    requires PathClear(s, start, d)
    ensures PathClear(s', start, d)
  {
  }

  /** Writing a non-FREE slot keeps every stored key reachable, provided a
      newly placed key is itself reachable at its slot. */
  lemma ReachableUpdate<K, V>(s: seq<Slot<K, V>>, hash: K -> nat, p: nat, x: Slot<K, V>)
    requires Reachable(s, hash)
    requires p < |s| && !x.Free?
    requires x.Occupied? && !(s[p].Occupied? && s[p].key == x.key) ==>
               PathClear(s, Home(hash, x.key, |s|), Off(Home(hash, x.key, |s|), p, |s|))
    ensures Reachable(s[p := x], hash)
  {
    var s' := s[p := x];
    var n := |s|;
    forall i | 0 <= i < n && s'[i].Occupied?
      ensures PathClear(s', Home(hash, s'[i].key, n), Off(Home(hash, s'[i].key, n), i, n))
    {
      var h := Home(hash, s'[i].key, n);
      assert PathClear(s, h, Off(h, i, n));
      PathClearMono(s, s', h, Off(h, i, n));
    }
  }

  /** `get_index` as the source writes it: a while loop stepping
      `index = (index + 1) % capacity_`, here bounded by `capacity_` steps. */
  method GetIndexLoop<K(==), V>(s: seq<Slot<K, V>>, k: K, hash: K -> nat) returns (r: Option<nat>)
    requires |s| > 0
    ensures r == GetIndex(s, k, hash)
  {
    var n := |s|;
    var h := hash(k) % n;
    var index := h;
    var steps := 0;
    while steps < n && !s[index].Free?
      invariant 0 <= steps <= n
      invariant index < n
      invariant steps < n ==> index == Pos(h, steps, n)
      invariant ProbeFrom(s, k, h, 0) == ProbeFrom(s, k, h, steps)
    {
      if s[index].Occupied? && s[index].key == k {
        return Some(index);
      }
      if steps + 1 < n {
        StepPos(h, steps, n);
      }
      index := (index + 1) % n;
      steps := steps + 1;
    }
    if steps < n {
      return Some(index);
    }
    return None;
  }
}
