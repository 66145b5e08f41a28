# fast_hash_map in Dafny

A model of `fast_hash_map<Key, Value, Hash>`. This is a single-header C++ hash map using open addressing with linear probing:

- It keeps a heap array of nodes. Each node is FREE, OCCUPIED (holding a key/value pair) or DELETED (a tombstone left by `erase`).
- It keeps the number of stored pairs in `size_`.
- It keeps an index `index_` into a fixed schedule of 34 prime capacities (7, 13, 31, …, 68719476731).
- Before each `insert`, and before `operator[]` adds a key, `check_capacity` tests `size_ > capacity_ / 2`. If the test passes, the map moves to the next prime and re-inserts every OCCUPIED pair into a fresh array.
- `get_index` walks forward from `hash(key) % capacity_` until it reaches a FREE slot or the slot holding the key. It steps over tombstones and never reuses them.

The model is a value `Table(size, index, slots)`:

- `capacity_` is `|slots|`.
- The hasher is a parameter `hash: K -> nat` of every operation.
- Every operation is a pure function that returns the new table.
- The meaning of a table is the abstract map `Contents(slots)`: every OCCUPIED slot's key mapped to its value.

The invariant `Valid` holds that:

- keys are distinct;
- every stored key can be reached from its home slot through slots that are not FREE;
- `size_ == |Contents|`;
- the capacity is the schedule entry `index_`;
- the load is at most `capacity / 2 + 1`.

Every public operation is proved to keep `Valid`, and its effect is stated on `Contents`.

The probe is bounded by `capacity_` steps. It returns `None` exactly where the C++ loop would never terminate, which happens when there is no FREE slot and the key is absent (`ProbeHaltsIff`). The operations that probe take that termination condition (`ProbeHalts`) as a precondition rather than assuming it. `operator==` takes the condition for its slot loop to end (`Equality.LoopHaltsFrom`): each key it reaches must have a halting probe, and keys after the first mismatch are not probed.

The condition is reachable. Tombstones do not count towards growth, and the probe never turns a DELETED slot back into FREE. So repeated insert/erase of one key on a default map eats up its FREE slots. After seven rounds, every further probe for an absent key diverges (`Scenarios.TombstonesExhaust`).

Modules and files:

| file | module | contents |
|---|---|---|
| `wrappers.dfy` | `Wrappers` | `Option` |
| `schedule.dfy` | `Schedule` | the prime schedule and `std::lower_bound` |
| `slots.dfy` | `Slots` | nodes, the abstract map `Contents`, the slot-order OCCUPIED pairs `Entries` that the copy and rehash loops visit (fast_hash_map.h:47-51, 59-63, 274-278), slot-level lemmas |
| `probe.dfy` | `Probe` | `get_index`, its termination and its correctness on well-formed arrays |
| `table.dfy` | `HashMap` | the class fields, `size()` and `capacity()` (`Table.Size`, `Table.Capacity`, fast_hash_map.h:164-172), the invariant, the growth test `NeedsGrowth` (fast_hash_map.h:266), `check_capacity`, `insert`, `erase`, `contains`, `at`, `operator[]` |
| `lifecycle.dfy` | `Lifecycle` | constructors, `clear`, copy and move |
| `equality.dfy` | `Equality` | `operator==` and `operator!=` |
| `properties.dfy` | `Properties` | lemmas relating several operations |
| `scenarios.dfy` | `Scenarios` | concrete runs from the functional test, and tombstone exhaustion |

## Model

| member | source | states |
|---|---|---|
| Schedule.PrimesGrow | fast_hash_map.h:211 | each capacity in the schedule is at least two more than the one before |
| Schedule.PrimesBelowLast | fast_hash_map.h:211 | every capacity is between 7 and the last prime |
| Schedule.LowerBound | fast_hash_map.h:25 | the result is the first schedule index whose prime is at least `c`: every earlier prime is smaller; `|Primes|` when none is large enough |
| Schedule.SchedIndex | fast_hash_map.h:25-26 | the sizing constructors' index: the smallest prime at least `c` (the previous prime is below `c`), or the last index when `c` exceeds every prime |
| Slots.FreshSlots | fast_hash_map.h:20 | a fresh array of `n` nodes, all FREE |
| Slots.FreshEmpty | fast_hash_map.h:20 | a fresh array stores nothing, has distinct keys and no tombstones |
| Slots.ContentsWitness | fast_hash_map.h:12-17 | every key of the abstract map sits in an OCCUPIED node holding its value |
| Slots.ContentsAt | fast_hash_map.h:12-17 | with distinct keys, every OCCUPIED node's pair is in the abstract map |
| Slots.ContentsAbsentIff | fast_hash_map.h:12-17 | a key is absent from the abstract map iff no OCCUPIED node holds it |
| Slots.ContentsFill | fast_hash_map.h:104 | writing an OCCUPIED node for an absent key into a non-OCCUPIED slot adds exactly that pair |
| Slots.ContentsOverwrite | fast_hash_map.h:100 | overwriting the value of an OCCUPIED node updates exactly that key |
| Slots.ContentsErase | fast_hash_map.h:114 | turning an OCCUPIED node into DELETED removes exactly its key |
| Slots.NonOccupiedWitness | fast_hash_map.h:266 | with distinct keys and fewer stored keys than slots, some slot is not OCCUPIED |
| Slots.EntriesRebuild | fast_hash_map.h:274-278 | re-inserting the OCCUPIED pairs in slot order rebuilds exactly the abstract map |
| Slots.EntriesCount | fast_hash_map.h:274-278 | with distinct keys, the number of OCCUPIED pairs is the number of stored keys |
| Slots.FreeCountFill | fast_hash_map.h:104 | occupying a FREE slot removes one FREE slot |
| Slots.FreeCountZero | fast_hash_map.h:217 | no FREE slot is left iff the FREE count is zero |
| Slots.UpsertHas | fast_hash_map.h:39-42 | inserting a list with distinct keys stores every listed pair |
| Slots.UpsertSize | fast_hash_map.h:39-42 | inserting a list with distinct keys into an empty map gives one entry per element |
| Probe.Home | fast_hash_map.h:216 | the probe's start `hasher_(key) % capacity_` lies inside the array |
| Probe.Off | fast_hash_map.h:222 | the number of wrapped steps from the home slot to slot `i`, inverse of the walk position |
| Probe.StepPos | fast_hash_map.h:222 | one `(index + 1) % capacity_` step moves the walk one position on |
| Probe.ProbeFrom | fast_hash_map.h:217-223 | the first stopping slot (FREE, or OCCUPIED by the key) from step `j` on, no earlier stop; or no stop at all |
| Probe.GetIndex | fast_hash_map.h:214-225 | the slot returned stops the probe and is never a tombstone; every slot before it on the walk is non-FREE and does not stop it |
| Probe.GetIndexLoop | fast_hash_map.h:214-225 | the `while` loop as written, stepping modulo the capacity, returns what `GetIndex` returns |
| Probe.ProbeExhausted | fast_hash_map.h:217 | the probe fails iff no slot of the array would stop it |
| Probe.ProbeFinds | fast_hash_map.h:219-220 | on a well-formed array the probe for a stored key returns that key's slot |
| Probe.ProbeMisses | fast_hash_map.h:224 | the probe for an absent key can only stop on a FREE slot |
| Probe.ProbeHaltsIff | fast_hash_map.h:217-224 | the loop terminates iff a FREE slot exists or the key is stored |
| Probe.GetIndexSpec | fast_hash_map.h:214-225 | when the probe terminates: the stored key's node with its value, else a FREE slot |
| Probe.ReachableUpdate | fast_hash_map.h:104 | writing a non-FREE node keeps every stored key reachable from its home |
| HashMap.Fresh | fast_hash_map.h:27-28 | the sizing constructors' allocation at schedule entry `index`: size 0, capacity `Primes[index]`, every node FREE |
| HashMap.FreshValid | fast_hash_map.h:20 | an all-FREE table at any schedule entry is valid, empty and free of tombstones |
| HashMap.SpareRoom | fast_hash_map.h:266 | a well-formed array with no tombstones and fewer keys than slots has a FREE slot |
| HashMap.Fill | fast_hash_map.h:104-105 | occupying the FREE slot the probe found adds exactly `k -> v`, adds one to the size and keeps the invariant |
| HashMap.Overwrite | fast_hash_map.h:100 | updating an OCCUPIED node changes only its key's value; size and FREE slots unchanged |
| HashMap.Place | fast_hash_map.h:96-106 | insert without the capacity check: the map becomes `C[k := v]`, and the size grows iff `k` was absent |
| HashMap.PlaceAll | fast_hash_map.h:274-278 | re-inserting a list that fits never grows, keeps the invariant and upserts the list into the map |
| HashMap.Grow | fast_hash_map.h:266-280 | moves to the next prime, keeps the same map and size, leaves no tombstones, load at most half |
| HashMap.CheckCapacity | fast_hash_map.h:264-283 | grows iff `size_ > capacity_ / 2` and reports it; otherwise leaves the table untouched; the map is never changed |
| HashMap.Insert | fast_hash_map.h:93-107 | the map becomes `C[k := v]`, the size grows iff `k` was absent, the index grows iff the check fired; the invariant is kept |
| HashMap.InsertAll | fast_hash_map.h:39-42 | inserting a list in order upserts it into the map; no growth when it fits the current capacity |
| HashMap.Contains | fast_hash_map.h:119-123 | true iff the key is stored |
| HashMap.At | fast_hash_map.h:139-147 | the stored value iff the key is stored; None where the source throws `out_of_range` |
| HashMap.Erase | fast_hash_map.h:109-117 | removes exactly `k` from the map; the size drops iff it was stored; an absent key leaves the table as it was; no slot becomes FREE |
| HashMap.IndexOp | fast_hash_map.h:125-137 | the returned slot holds `k` with its stored value; a stored key changes nothing; an absent key adds `k -> default` after a possible growth |
| HashMap.IndexAssign | fast_hash_map.h:125-137 | assigning through `operator[]` makes the map `C[k := v]`, with the size growing iff `k` was absent |
| Lifecycle.New | fast_hash_map.h:20 | the default map: size 0, index 0, capacity 7, all FREE |
| Lifecycle.NewValid | fast_hash_map.h:20 | the default map is valid and empty |
| Lifecycle.Clear | fast_hash_map.h:150-157 | `clear()` returns to size 0, index 0, capacity 7, all FREE |
| Lifecycle.ToUnsigned64 | fast_hash_map.h:25 | the `int` hint compared as `unsigned long long`, by the C++ conversion rule: the unique value below `2^64` congruent to the hint modulo `2^64` |
| Lifecycle.WithCapacity | fast_hash_map.h:22-29 | the capacity is the smallest prime not below a non-negative hint; a negative hint selects the last prime |
| Lifecycle.WithCapacityValid | fast_hash_map.h:22-29 | a capacity-hint map is valid and empty |
| Lifecycle.FromList | fast_hash_map.h:31-43 | sized at the first prime `>= 2 * |list|`, valid, holding the list upserted in order |
| Lifecycle.Copy | fast_hash_map.h:45-52 | the copy holds the same map, size, index and capacity, without tombstones |
| Lifecycle.CopyAssign | fast_hash_map.h:54-66 | the target holds exactly `other`'s map and size |
| Lifecycle.Move | fast_hash_map.h:68-74 | the new map takes `other` unchanged; `other` becomes size 0, index 0, capacity 7, all FREE |
| Lifecycle.MoveAssign | fast_hash_map.h:76-91 | the target becomes `other`; `other` becomes size 0, index 0, capacity 7, all FREE |
| Equality.AllFoundFrom | fast_hash_map.h:179-188 | the slot loop of `operator==`, run whenever it terminates, returns true iff every OCCUPIED pair from slot `i` on is stored in the other map |
| Equality.HaltsFrom | fast_hash_map.h:179-188 | the slot loop terminates when the probe for every remaining OCCUPIED key halts |
| Equality.KeysHalt | fast_hash_map.h:184 | the slot loop terminates when every key of the left map is stored in the right one or the right one has a FREE slot |
| Equality.FoundMeansEqual | fast_hash_map.h:174-189 | equal sizes plus every pair found in the other map iff the two abstract maps are equal |
| Equality.SubmapSameSize | fast_hash_map.h:176-177 | a submap with as many keys as the map is the map |
| Equality.Equal | fast_hash_map.h:174-189 | `operator==`, whenever its loop terminates, is true iff the two maps store the same pairs |
| Equality.NotEqual | fast_hash_map.h:191-194 | `operator!=` is true iff the stored pairs differ |
| Properties.InsertThenAt | test.cpp:13-18 | after `insert({k, v})`, `contains(k)` holds and `at(k)` is `v` |
| Properties.InsertKeepsOthers | fast_hash_map.h:93-107 | `insert` leaves `at` of every other key unchanged, whenever the probes for that key before and after terminate |
| Properties.InsertTwice | fast_hash_map.h:98-101 | inserting a key twice keeps one entry, holding the second value, whether or not either insert grows the table (given a next prime whenever the second insert grows it) |
| Properties.EraseThenAbsent | test.cpp:25-27 | after `erase(k)`, `contains(k)` is false and `at(k)` fails |
| Properties.EraseKeepsOthers | fast_hash_map.h:109-117 | `erase(k)` leaves `at` of every other key unchanged |
| Properties.IndexPresent | test.cpp:21-22 | `operator[]` on a stored key changes nothing and yields its value; assigning through it updates the value and keeps the size |
| Properties.IndexAbsent | fast_hash_map.h:128-135 | `operator[]` on an absent key stores the default value and adds one to the size |
| Properties.FromListRoundTrip | test.cpp:67-68 | an initializer list with distinct keys gives size `|list|`, and each key looks up to its value |
| Properties.ClearForgets | test.cpp:30-32 | after `clear()` no key is contained |
| Properties.CopyIsEqual | test.cpp:52-58 | a copy compares equal to its original, both ways |
| Properties.CopyAssignIsEqual | fast_hash_map.h:54-66 | after copy assignment the target compares equal to the source |
| Properties.MoveIsEqual | test.cpp:60-62 | the move target equals the original; the moved-from map is valid and empty, and equals the original iff that was empty |
| Properties.MoveAssignIsEqual | fast_hash_map.h:76-91 | after move assignment the target equals what `other` held, and `other` is a valid empty map |
| Scenarios.ThreePairs | test.cpp:67-69 | the three-pair initializer list of the test has size 3 and capacity 7 |
| Scenarios.HintHundred | fast_hash_map.h:22-29 | a capacity hint of 100 gives capacity 127 |
| Scenarios.Churn | fast_hash_map.h:93-117 | each insert-then-erase round on an empty table keeps it valid and empty, turning exactly one FREE slot into a tombstone |
| Scenarios.TombstonesExhaust | fast_hash_map.h:114 | seven insert/erase rounds on a default map leave capacity 7, size 0 and no FREE slot, so the probe for the key cannot terminate |

## Left out

- `print()` (fast_hash_map.h:196-203): output only.
- Memory management is not modelled: allocation, `delete[]`, the destructor, and the `this != &other` self-assignment guards. Replacing the array is a value update, and a self-assignment cannot be expressed on values.
- The commented-out quadratic and double-hashing probes (fast_hash_map.h:227-262): they are dead code.
- The `Hash` functor is not modelled. It becomes a parameter `hash: K -> nat`, the value of `hasher_(key)` as a `size_t`.
- The conversion of `hasher_(key) % capacity_` to the `int` local in `get_index` (fast_hash_map.h:216) is not modelled. The remainder is kept as a natural below the capacity.
- The `int` fields `size_`, `index_` and `capacity_` are modelled as unbounded naturals. The last five primes (from 4294967291 on) do not fit an `int`, so the source's narrowing of them is not modelled.
- Lifecycle.WithCapacity: a negative hint is modelled as selecting the last prime, 68719476731, with an unbounded capacity. The source narrows that prime into its `int` field and then allocates, which the model does not follow.
- HashMap.Insert, HashMap.CheckCapacity: require that growth, when it fires, has a next prime. Past the last prime the source reads `primes_` out of range.
- Non-termination of `get_index` is not modelled as behaviour. Every operation that probes requires the exact condition for its loops to end: `ProbeHalts` for a single probe, `Equality.LoopHaltsFrom` for the slot loop of `operator==`. `Scenarios.TombstonesExhaust` shows the condition can fail.
- The exception `std::out_of_range` from `at` is not modelled as an exception. It becomes `None`.
- `Value{}`, the value `operator[]` default-constructs, is not modelled as a constructor. It is a parameter `dflt`.
- Iterators, `begin`/`end` and a backing element count are not modelled: this header does not have them.
- The benchmarks and the `flat_hash_map.hpp` comparison in test.cpp are not modelled, and flat_hash_map.hpp is not part of this model.
