/**
  The fixed capacity schedule of fast_hash_map: the table's capacity is
  always one of these primes, and growth moves to the next one.
 */
module Schedule {

  /** `primes_`: the 34 capacities, in increasing order. */
  const Primes: seq<nat> := [
    7, 13, 31, 61, 127, 251, 509, 1021, 2039, 4093, 8191, 16381, 32749,
    65521, 131071, 262139, 524287, 1048573, 2097143, 4194301, 8388593,
    16777213, 33554393, 67108859, 134217689, 268435399, 536870909,
    1073741789, 2147483647, 4294967291, 8589934583, 17179869143,
    34359738337, 68719476731
  ]

  /** Index of the largest capacity. */
  const Last: nat := |Primes| - 1

  /** Each capacity exceeds the previous one by at least two. */
  lemma PrimesGrow(i: nat)
    requires i + 1 < |Primes|
    ensures Primes[i] + 2 <= Primes[i + 1]
  {
  }

  /** No capacity exceeds the last one. */
  lemma {:induction false} PrimesBelowLast(i: nat)
    requires i < |Primes|
    ensures 7 <= Primes[i] <= Primes[Last]
    decreases Last - i
  {
    if i < Last {
      PrimesGrow(i);
      PrimesBelowLast(i + 1);
    }
  }

  /** `std::lower_bound(primes_.begin(), primes_.end(), c)`: the first
      index whose prime is at least `c`, or `|Primes|` if there is none. */
  function LowerBound(c: nat): (r: nat)
    ensures r <= |Primes|
    ensures forall i :: 0 <= i < r ==> Primes[i] < c
    ensures r < |Primes| ==> c <= Primes[r]
  {
    LowerBoundFrom(c, 0)
  }

  function LowerBoundFrom(c: nat, i: nat): (r: nat)
    requires i <= |Primes|
    requires forall j :: 0 <= j < i ==> Primes[j] < c
    ensures i <= r <= |Primes|
    ensures forall j :: 0 <= j < r ==> Primes[j] < c
    ensures r < |Primes| ==> c <= Primes[r]
    decreases |Primes| - i
  {
    if i == |Primes| || c <= Primes[i] then i else LowerBoundFrom(c, i + 1)
  }

  /** The schedule index the sizing constructors pick for a minimum
      capacity `c`: the first prime `>= c`, or the last one if `c` is
      larger than every prime. */
  function SchedIndex(c: nat): (r: nat)
    ensures r < |Primes|
    ensures c <= Primes[Last] ==> c <= Primes[r] && (r > 0 ==> Primes[r - 1] < c)
    ensures c > Primes[Last] ==> r == Last
  {
    var i := LowerBound(c);
    if i == |Primes| then Last
    else
      PrimesBelowLast(i);
      i
  }
}
