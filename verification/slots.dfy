/**
  The slot array of fast_hash_map (`node` with its `Status`) and the
  abstraction that maps an array of slots to the key-value map it stores.
 */
module Slots {

  /** A `node`: FREE, OCCUPIED with its pair, or DELETED (a tombstone). */
  datatype Slot<K, V> = Free | Occupied(key: K, value: V) | Deleted

  /** No two OCCUPIED slots hold the same key. */
  ghost predicate DistinctKeys<K, V>(s: seq<Slot<K, V>>)
  {
    forall i, j :: 0 <= i < j < |s| && s[i].Occupied? && s[j].Occupied? ==> s[i].key != s[j].key
  }

  /** No OCCUPIED slot holds key `k`. */
  ghost predicate KeyAbsent<K, V>(s: seq<Slot<K, V>>, k: K)
  {
    forall i :: 0 <= i < |s| && s[i].Occupied? ==> s[i].key != k
  }

  predicate HasFree<K, V>(s: seq<Slot<K, V>>)
  {
    exists i :: 0 <= i < |s| && s[i].Free?
  }

  predicate NoDeleted<K, V>(s: seq<Slot<K, V>>)
  {
    forall i :: 0 <= i < |s| ==> !s[i].Deleted?
  }

  /** A freshly allocated array: `new node[n]{}`. */
  function FreshSlots<K, V>(n: nat): (s: seq<Slot<K, V>>)
    ensures |s| == n
    ensures forall i :: 0 <= i < n ==> s[i].Free?
  {
    seq(n, _ => Free)
  }

  /** The map stored by the OCCUPIED slots (read in slot order). */
  ghost function Contents<K, V>(s: seq<Slot<K, V>>): map<K, V>
    decreases |s|
  {
    if |s| == 0 then map[]
    else
      var m := Contents(s[..|s| - 1]);
      match s[|s| - 1]
      case Occupied(k, v) => m[k := v]
      case _ => m
  }

  /** The OCCUPIED pairs in slot order: what `for (i = 0; i < capacity_; ++i)
      if (arr_[i].status == OCCUPIED) ...` visits. */
  function Entries<K, V>(s: seq<Slot<K, V>>): seq<(K, V)>
    decreases |s|
  {
    if |s| == 0 then []
    else
      var e := Entries(s[..|s| - 1]);
      match s[|s| - 1]
      case Occupied(k, v) => e + [(k, v)]
      case _ => e
  }

  /** The map obtained by writing the pairs of `l` into `m` in order, later
      pairs overwriting earlier ones with the same key. */
  ghost function Upsert<K, V>(m: map<K, V>, l: seq<(K, V)>): map<K, V>
    decreases |l|
  {
    if |l| == 0 then m
    else Upsert(m, l[..|l| - 1])[l[|l| - 1].0 := l[|l| - 1].1]
  }

  /** Number of FREE slots. */
  function FreeCount<K, V>(s: seq<Slot<K, V>>): (n: nat)
    ensures n <= |s|
  {
    if |s| == 0 then 0
    else (if s[0].Free? then 1 else 0) + FreeCount(s[1..])
  }

  lemma DistinctPrefix<K, V>(s: seq<Slot<K, V>>, n: nat)
    requires n <= |s|
    requires DistinctKeys(s)
    ensures DistinctKeys(s[..n])
  {
  }

  /** A key held by no slot is not stored. */
  lemma {:induction false} ContentsAbsent<K, V>(s: seq<Slot<K, V>>, k: K)
    requires KeyAbsent(s, k)
    ensures k !in Contents(s)
    decreases |s|
  {
    if |s| > 0 {
      ContentsAbsent(s[..|s| - 1], k);
    }
  }

  /** Every stored key is held by some OCCUPIED slot, with its value. */
  lemma {:induction false} ContentsWitness<K, V>(s: seq<Slot<K, V>>, k: K) returns (i: nat)
    requires k in Contents(s)
    ensures i < |s| && s[i] == Occupied(k, Contents(s)[k])
    decreases |s|
  {
    var n := |s| - 1;
    if s[n].Occupied? && s[n].key == k {
      i := n;
    } else {
      i := ContentsWitness(s[..n], k);
    }
  }

  /** With distinct keys, every OCCUPIED slot's pair is in the map. */
  lemma {:induction false} ContentsAt<K, V>(s: seq<Slot<K, V>>, i: nat)
    requires DistinctKeys(s)
    requires i < |s| && s[i].Occupied?
    ensures s[i].key in Contents(s) && Contents(s)[s[i].key] == s[i].value
    decreases |s|
  {
    var n := |s| - 1;
    if i < n {
      DistinctPrefix(s, n);
      ContentsAt(s[..n], i);
    }
  }

  /** Every key held by an OCCUPIED slot is stored. */
  lemma {:induction false} ContentsHasKey<K, V>(s: seq<Slot<K, V>>, i: nat)
    requires i < |s| && s[i].Occupied?
    ensures s[i].key in Contents(s)
    decreases |s|
  {
    var n := |s| - 1;
    if i < n {
      ContentsHasKey(s[..n], i);
    }
  }

  /** A key is stored iff some OCCUPIED slot holds it. */
  lemma ContentsAbsentIff<K, V>(s: seq<Slot<K, V>>, k: K)
    ensures k !in Contents(s) <==> KeyAbsent(s, k)
  {
    if k in Contents(s) {
      var i := ContentsWitness(s, k);
    } else {
      forall i | 0 <= i < |s| && s[i].Occupied?
        ensures s[i].key != k
      {
        ContentsHasKey(s, i);
      }
    }
  }

  /** Writing a fresh pair into a non-OCCUPIED slot adds it to the map. */
  lemma {:induction false} ContentsFill<K, V>(s: seq<Slot<K, V>>, p: nat, k: K, v: V)
    requires p < |s| && !s[p].Occupied?
    requires KeyAbsent(s, k)
    ensures Contents(s[p := Occupied(k, v)]) == Contents(s)[k := v]
    decreases |s|
  {
    var n := |s| - 1;
    var s' := s[p := Occupied(k, v)];
    assert s'[..n] == if p == n then s[..n] else s[..n][p := Occupied(k, v)];
    if p < n {
      ContentsFill(s[..n], p, k, v);
    }
  }

  /** Overwriting the value of an OCCUPIED slot updates that key only. */
  lemma {:induction false} ContentsOverwrite<K, V>(s: seq<Slot<K, V>>, p: nat, v: V)
    requires DistinctKeys(s)
    requires p < |s| && s[p].Occupied?
    ensures Contents(s[p := Occupied(s[p].key, v)]) == Contents(s)[s[p].key := v]
    decreases |s|
  {
    var n := |s| - 1;
    var s' := s[p := Occupied(s[p].key, v)];
    assert s'[..n] == if p == n then s[..n] else s[..n][p := Occupied(s[p].key, v)];
    if p < n {
      DistinctPrefix(s, n);
      ContentsOverwrite(s[..n], p, v);
    }
  }

  /** Turning an OCCUPIED slot into a tombstone removes exactly its key. */
  lemma {:induction false} ContentsErase<K, V>(s: seq<Slot<K, V>>, p: nat)
    requires DistinctKeys(s)
    requires p < |s| && s[p].Occupied?
    ensures Contents(s[p := Deleted]) == Contents(s) - {s[p].key}
    decreases |s|
  {
    var n := |s| - 1;
    var s' := s[p := Deleted];
    assert s'[..n] == if p == n then s[..n] else s[..n][p := Deleted];
    DistinctPrefix(s, n);
    if p < n {
      ContentsErase(s[..n], p);
    } else {
      ContentsAbsent(s[..n], s[p].key);
    }
  }

  /** An array with distinct keys and fewer stored keys than slots has a
      slot that is not OCCUPIED. */
  lemma {:induction false} NonOccupiedWitness<K, V>(s: seq<Slot<K, V>>) returns (i: nat)
    requires DistinctKeys(s)
    requires |Contents(s)| < |s|
    ensures i < |s| && !s[i].Occupied?
    decreases |s|
  {
    var n := |s| - 1;
    if !s[n].Occupied? {
      i := n;
    } else {
      DistinctPrefix(s, n);
      ContentsAbsent(s[..n], s[n].key);
      i := NonOccupiedWitness(s[..n]);
    }
  }

  /** A fresh array stores nothing. */
  lemma FreshEmpty<K, V>(n: nat)
    ensures Contents(FreshSlots<K, V>(n)) == map[]
    ensures DistinctKeys(FreshSlots<K, V>(n)) && NoDeleted(FreshSlots<K, V>(n))
  {
    var s := FreshSlots<K, V>(n);
    if Contents(s) != map[] {
      var k :| k in Contents(s);
      var i := ContentsWitness(s, k);
    }
  }

  /** Writing the OCCUPIED pairs of `s` in slot order into an empty map
      rebuilds `Contents(s)`: re-inserting `Entries` loses nothing. */
  lemma {:induction false} EntriesRebuild<K, V>(s: seq<Slot<K, V>>)
    ensures Upsert(map[], Entries(s)) == Contents(s)
    decreases |s|
  {
    if |s| > 0 {
      var n := |s| - 1;
      var e := Entries(s[..n]);
      EntriesRebuild(s[..n]);
      if s[n].Occupied? {
        assert (e + [(s[n].key, s[n].value)])[..|e|] == e;
      }
    }
  }

  /** With distinct keys there is one entry per stored key. */
  lemma {:induction false} EntriesCount<K, V>(s: seq<Slot<K, V>>)
    requires DistinctKeys(s)
    ensures |Entries(s)| == |Contents(s)|
    decreases |s|
  {
    if |s| > 0 {
      var n := |s| - 1;
      DistinctPrefix(s, n);
      EntriesCount(s[..n]);
      if s[n].Occupied? {
        ContentsAbsent(s[..n], s[n].key);
      }
    }
  }

  /** Filling a FREE slot uses up exactly one FREE slot. */
  lemma {:induction false} FreeCountFill<K, V>(s: seq<Slot<K, V>>, p: nat, x: Slot<K, V>)
    requires p < |s| && s[p].Free? && !x.Free?
    ensures FreeCount(s[p := x]) == FreeCount(s) - 1
    decreases |s|
  {
    if p > 0 {
      assert s[p := x][1..] == s[1..][p - 1 := x];
      FreeCountFill(s[1..], p - 1, x);
    }
    else {
      assert s[p := x][1..] == s[1..];
    }
  }

  /** Two arrays that agree on which slots are FREE have as many FREE slots. */
  lemma {:induction false} FreeCountSame<K, V>(s: seq<Slot<K, V>>, s': seq<Slot<K, V>>)
    requires |s| == |s'|
    requires forall i :: 0 <= i < |s| ==> (s[i].Free? <==> s'[i].Free?)
    ensures FreeCount(s) == FreeCount(s')
    decreases |s|
  {
    if |s| > 0 {
      FreeCountSame(s[1..], s'[1..]);
    }
  }

  /** No FREE slot is counted iff there is none. */
  lemma {:induction false} FreeCountZero<K, V>(s: seq<Slot<K, V>>)
    ensures FreeCount(s) == 0 <==> !HasFree(s)
    decreases |s|
  {
    if |s| > 0 {
      FreeCountZero(s[1..]);
      if HasFree(s[1..]) {
        var i :| 0 <= i < |s| - 1 && s[1..][i].Free?;
        assert s[i + 1].Free?;
      }
      if HasFree(s) && !s[0].Free? {
        var i :| 0 <= i < |s| && s[i].Free?;
        assert s[1..][i - 1].Free?;
      }
    }
  }

  /** No two pairs of `l` share a key. */
  ghost predicate DistinctFirsts<K, V>(l: seq<(K, V)>)
  {
    forall i, j :: 0 <= i < j < |l| ==> l[i].0 != l[j].0
  }

  /** A key that is neither in `m` nor in `l` is not in the result. */
  lemma {:induction false} UpsertAbsent<K, V>(m: map<K, V>, l: seq<(K, V)>, k: K)
    requires k !in m
    requires forall i :: 0 <= i < |l| ==> l[i].0 != k
    ensures k !in Upsert(m, l)
    decreases |l|
  {
    if |l| > 0 {
      UpsertAbsent(m, l[..|l| - 1], k);
    }
  }

  /** With distinct keys every pair of `l` survives in the result. */
  lemma {:induction false} UpsertHas<K, V>(m: map<K, V>, l: seq<(K, V)>, i: nat)
    requires DistinctFirsts(l)
    requires i < |l|
    ensures l[i].0 in Upsert(m, l) && Upsert(m, l)[l[i].0] == l[i].1
    decreases |l|
  {
    var n := |l| - 1;
    if i < n {
      UpsertHas(m, l[..n], i);
    }
  }

  /** Pairs with distinct keys written into an empty map give one key each. */
  lemma {:induction false} UpsertSize<K, V>(l: seq<(K, V)>)
    requires DistinctFirsts(l)
    ensures |Upsert(map[], l)| == |l|
    decreases |l|
  {
    if |l| > 0 {
      var n := |l| - 1;
      UpsertSize(l[..n]);
      UpsertAbsent(map[], l[..n], l[n].0);
    }
  }

  /** In an array of FREE slots every slot is counted. */
  lemma {:induction false} FreeCountAll<K, V>(s: seq<Slot<K, V>>)
    requires forall i :: 0 <= i < |s| ==> s[i].Free?
    ensures FreeCount(s) == |s|
    decreases |s|
  {
    if |s| > 0 {
      FreeCountAll(s[1..]);
    }
  }
}
