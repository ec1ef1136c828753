# Open-addressing hash table, modelled in Dafny

This project models the core of a small Java hash table library:

- `Hashtable`: a fixed array of `HashObject` references, a `size` counter,
  and the `insert`/`search` loops. Both loops start at `h1(key)` and step by
  `h2(key)` modulo the capacity.
- `LinearProbing` and `DoubleHashing`: the two subclasses that supply
  `h1`/`h2`.
- `HashObject`: an entry holding a key, a frequency counter and a probe
  counter.
- `TwinPrimeGenerator`: picks a prime capacity.

The Dafny is organised one module per concern:

- `wrappers.dfy` (module `Wrappers`): `Option`
- `java_lang.dfy` (module `JavaLang`): Java `int` wrap-around (`Wrap32`, `Inc`), Java's truncating `%` (`JavaRem`), `Integer.toString` and a parser for it
- `number_theory.dfy` (module `NumberTheory`): Euclidean division facts, `Gcd`, extended Euclid (`Bezout`), cancellation by a coprime factor
- `twin_prime_generator.dfy` (module `TwinPrimeGenerator`): `isPrime` and `generateTwinPrime` as methods with loops, proved against the predicates `Prime` and `TwinLow`
- `hashing.dfy` (module `Hashing`): `positiveMod`, the two strategies' `h1`/`h2`, the probe sequence and its coverage/distinctness lemmas
- `table_spec.dfy` (module `TableSpec`): a value-level picture of the table (a sequence of optional `(key, frequency, probes)` entries) and the functions `Insert`/`Search` saying what the Java methods do to it, with the lemmas the table promises
- `hash_object.dfy` (module `HashObjects`): `class HashObject` with its mutable counters
- `hashtable.dfy` (module `Hashtables`): `class Hashtable` with the array, the `size` field, and `Insert`/`Search` loops proved against `TableSpec`

How the class is tied to the specification:

- `Hashtable` keeps ghost state beside the array:
  - `slots`: the value picture of the array.
  - `inserts`: the number of `insert` calls.
  - `slotOf`: the slot each object sits in. It shows that no object sits in two slots, so bumping one object's counter changes one slot only.
- `Valid()` ties the ghost state to the array and keeps the invariant `Placed`: every stored key is found by walking its own probe sequence.
- `Insert` and `Search` state their new `slots` as `TableSpec.Insert`/`TableSpec.Search` of the old ones.
- Everything the table promises is then proved about those functions.

The subclasses become a `Strategy` datatype stored in the table. Keys are a
type parameter with equality. `key.hashCode()` is a function `K -> int32`
given to the constructor. `key.toString()` is a function parameter of
`ToString`.

Where a description of this library differs from the code, the model follows
the code (`Hashtable.java`):
- `insert` returns nothing and increments `size` on every call, duplicates included.
- There is no probe cap and no table-full error.
- The probe counter of every object passed over is incremented, and `search`
  also increments the counter of every object it examines, the match included.

## Model

| member | source | states |
|---|---|---|
| `JavaLang.JavaRem` | Hashtable.java:129 | Java's `%`: `quotient * divisor + r == dividend`, `|r| < |divisor|`, and `r` has the dividend's sign (zero or negative for a negative dividend) |
| `JavaLang.Inc` | HashObject.java:43 | `x++` on an `int`: one more below `Integer.MAX_VALUE`, `Integer.MIN_VALUE` at it |
| `JavaLang.IncWrap` | Hashtable.java:63 | counting with `++` from 0 gives the call count reduced to 32 bits, so `size` is always the wrapped number of `insert` calls |
| `JavaLang.ParseIntToString` | HashObject.java:80 | the decimal text of an int parses back to that int, so the numbers in `toString` are recoverable |
| `Hashing.PositiveMod` | Hashtable.java:128-133 | for a positive divisor the result is in `[0, divisor)` and congruent to the dividend (it is the Euclidean remainder); for divisor -1 it is 0 |
| `Hashing.LinearH1` | LinearProbing.java:27-29 | the home slot is in `[0, capacity)` |
| `Hashing.LinearH2` | LinearProbing.java:38-40 | the step is 1 for every key and capacity |
| `Hashing.DoubleH1` | DoubleHashing.java:27-29 | the home slot is in `[0, capacity)` |
| `Hashing.DoubleH2` | DoubleHashing.java:39-41 | for capacity > 2 the step is in `[1, capacity - 2]`, so never 0 and never a multiple of the capacity; at capacity 1 it is 1; capacity 2 (a division by zero in Java) is excluded |
| `Hashing.SameHomeSlot` | LinearProbing.java:27-29 | linear probing and double hashing give every key the same home slot |
| `Hashing.H2` | Hashtable.java:54 | the step of either strategy is positive, below the capacity (or 1 at capacity 1), and `hash + stepSize` never exceeds `Integer.MAX_VALUE` for any slot index `hash` |
| `Hashing.Probe` | Hashtable.java:52-55 | every index the loops visit stays in `[0, capacity)` |
| `Hashing.ProbeClosedForm` | Hashtable.java:48-55 | the i-th index visited is `(h1 + i * h2) mod capacity` |
| `Hashing.ProbeRepeats` | Hashtable.java:52-55 | the sequence repeats with period `capacity`, so a slot not reached in `capacity` probes is never reached |
| `Hashing.ProbesDistinct` | Hashtable.java:54 | with a step coprime to the capacity, the first `capacity` indices are pairwise distinct |
| `Hashing.ProbesCover` | Hashtable.java:54 | with a step coprime to the capacity, every slot is among the first `capacity` indices |
| `Hashing.PrimeCoprime` | DoubleHashing.java:40 | a prime capacity is coprime to every step in `[1, capacity)` |
| `Hashing.StepCoprime` | DoubleHashing.java:39-41 | the step is coprime to the capacity: always for linear probing, and for double hashing when the capacity is prime |
| `Hashing.ProbeSequenceIsPermutation` | LinearProbing.java:38-40 | linear probing, and double hashing over a prime capacity, visit every slot exactly once in the first `capacity` probes |
| `TableSpec.FirstStop` | Hashtable.java:52 | the loop stops at the first probe whose slot is null or holds an equal key, and at none before it |
| `TableSpec.BumpPathExact` | Hashtable.java:53 | after n passes, exactly the slots among the first n probes have had their probe counters incremented, once each |
| `TableSpec.InsertEffect` | Hashtable.java:57-61 | insert puts `(key, 1, 0)` in a null stop slot, or increments the frequency of the equal key found there; every other slot keeps its key and frequency |
| `TableSpec.InsertBumpsPassedSlots` | Hashtable.java:52-55 | during insert, each slot passed over has its probe count incremented by one; slots off the path are untouched |
| `TableSpec.InsertNew` | Hashtable.java:52-58 | inserting a key not stored yet fills the first null slot of its probe sequence with frequency 1; every earlier probe holds another key |
| `TableSpec.InsertDuplicate` | Hashtable.java:57-61 | inserting a stored key increments that entry's frequency by one and leaves every slot's occupancy as it was (no new object) |
| `TableSpec.InsertStoredKeys` | Hashtable.java:47-64 | after insert the stored keys are the old ones plus key |
| `TableSpec.InsertKeepsPlaced` | Hashtable.java:47-64 | insert keeps every stored key at the end of its own probe walk |
| `TableSpec.InsertKeepsOtherPlaced` | Hashtable.java:57-58 | a key stored elsewhere still stops at its own slot after insert |
| `TableSpec.InsertThenSearch` | Hashtable.java:47-85 | after insert(key), search(key) reaches and reports the slot where key was placed, and that slot holds key |
| `TableSpec.PlacedKeysUnique` | Hashtable.java:52-61 | no two slots hold equal keys |
| `TableSpec.SearchFindsStored` | Hashtable.java:77-85 | search reports a slot exactly when the key is stored, and that slot holds the key; otherwise it reaches a null slot |
| `TableSpec.SearchOnlyProbes` | Hashtable.java:72-86 | search changes no key, no frequency and no slot's occupancy |
| `TableSpec.SearchBumpsExamined` | Hashtable.java:77-83 | search increments by one the probe count of every object it examines, the match included, and of no other |
| `TableSpec.NullSlotReachable` | Hashtable.java:52 | with a coprime step, any null slot guarantees that the loop stops within `capacity` probes |
| `HashObjects.HashObject.constructor` | HashObject.java:24-28 | a new entry holds the key, frequency 1 and probe count 0 |
| `HashObjects.HashObject.IncrementFrequency` | HashObject.java:42-44 | frequency is incremented (with `int` wrap-around); the probe count and the key are unchanged |
| `HashObjects.HashObject.SetProbeCount` | HashObject.java:51-53 | the probe count becomes the argument; the frequency and the key are unchanged |
| `HashObjects.HashObject.IncrementProbeCount` | Hashtable.java:53 | the probe count is incremented (with `int` wrap-around); the frequency and the key are unchanged |
| `HashObjects.HashObject.Equals` | HashObject.java:62-71 | true exactly when the other object is non-null and has an equal key; the counters play no part, and an object equals itself |
| `HashObjects.HashObject.ToString` | HashObject.java:79-81 | the text splits at its last two spaces into the key's text, the frequency and the probe count, which parse back to the stored values |
| `Hashtables.Hashtable.constructor` | Hashtable.java:20-24 | stores the capacity; the array has `capacity` slots, all null; `size` is 0; the table invariant holds |
| `Hashtables.Hashtable.Walk` | Hashtable.java:48-55 | the loop shared by insert and search ends at key's first stop slot, with the probe counter of every object passed over incremented |
| `Hashtables.Hashtable.PassSlot` | Hashtable.java:52-54 | one turn of the loop: the object passed over gets its probe count incremented, and the next index is the next probe |
| `Hashtables.Hashtable.LoopEnds` | Hashtable.java:52 | when the loop condition fails, the index is key's first stop |
| `Hashtables.Hashtable.BumpSlot` | Hashtable.java:53 | incrementing the probe counter of the object in one slot changes that slot's picture only |
| `Hashtables.Hashtable.PlaceAt` | Hashtable.java:57-63 | a fresh object in a null slot, or the existing object's frequency incremented; no other slot's reference changes; `size` is incremented |
| `Hashtables.Hashtable.Insert` | Hashtable.java:47-64 | the new slots are `TableSpec.Insert` of the old; `size` grows by one with wrap-around on every call; only the stop slot's reference can change, to a fresh object when it was null; the invariant is kept |
| `Hashtables.Hashtable.Search` | Hashtable.java:72-86 | the new slots are `TableSpec.Search` of the old; the result is null exactly when the walk reached a null slot, and otherwise is the object in the found slot, whose key is key; `size` is unchanged |
| `Hashtables.Hashtable.GetSize` | Hashtable.java:93-95 | the number of insert calls, as a wrapping `int` |
| `Hashtables.Hashtable.GetCapacity` | Hashtable.java:102-104 | the number of slots |
| `Hashtables.Hashtable.KeysUnique` | Hashtable.java:57-61 | no two slots of a valid table hold objects with equal keys |
| `Hashtables.Hashtable.NullSlotLetsLoopsEnd` | Hashtable.java:52 | while any slot is null, insert and search stop for every key: always under linear probing, and under double hashing when the capacity is prime |
| `Hashtables.NextSlot` | Hashtable.java:54 | `(hash + stepSize) % capacity` in Java `int` arithmetic computes the next probe, without overflow |
| `Hashtables.ProbesKeepPlaced` | Hashtable.java:78 | changing only probe counters keeps every stored key findable |
| `Hashtables.InsertThenSearchFinds` | Hashtable.java:47-85 | on one table, insert(key) followed by search(key) returns a non-null object whose key is key |
| `TwinPrimeGenerator.NoSmallDivisorMeansPrime` | TwinPrimeGenerator.java:21-26 | no divisor `i` with `i * i <= n` means no divisor at all below n |
| `TwinPrimeGenerator.IsPrime` | TwinPrimeGenerator.java:19-27 | true exactly when n is prime (false below 2) |
| `TwinPrimeGenerator.FirstTwinFrom` | TwinPrimeGenerator.java:39-42 | the first `i` in a range with `i` and `i + 2` prime, scanning upward, or none |
| `TwinPrimeGenerator.GenerateTwinPrime` | TwinPrimeGenerator.java:38-45 | a result p has `p - 2` and p prime with `min <= p - 2` and `p <= max`, and no smaller twin pair starts in `[min, p - 2)`; `None` (the exception) exactly when no twin pair starts in `[min, max - 2]` |
| `TwinPrimeGenerator.ScanLimitAsWritten` | TwinPrimeGenerator.java:39 | the loop bound `max - 2` computed in 32-bit `int`: exact for `max >= Integer.MIN_VALUE + 2`, wrapped to a large positive value below that |
| `TwinPrimeGenerator.GenerateTwinPrimeAsWrittenEscapesRange` | TwinPrimeGenerator.java:39-41 | with the wrapped bound, `generateTwinPrime(0, Integer.MIN_VALUE + 1)` returns 5, which exceeds max |

## Left out

- `HashtableExperiment` and `ExperimentArguments` are not part of this model. They hold file, random and date key sources, argument parsing and console output.
- `Hashtable.printTable` and `TwinPrimeGenerator.main` only print.
- `isPrime` bounds its loop with `i <= Math.sqrt(n)`. The model uses `i * i <= n`, which is the same test for the non-negative ints involved; floating point is not modelled.
- Keys' `hashCode`, `equals` and `toString` are foreign code:
  - `hashCode` is a function `K -> int32` given to the table.
  - `equals` is Dafny equality.
  - `toString` is a function argument of `ToString`.
- Keys are plain values (`K(!new)`), not heap objects that could change under the table.
- `getKey` is the read of the immutable `key` field; there is no separate member.
- `Hashtables.Hashtable.Insert`: requires that the loop stops (`Reaches`: some probe among the first `capacity` is null or holds key). The Java loop runs forever otherwise. `NullSlotLetsLoopsEnd` shows when this holds.
- `Hashtables.Hashtable.Search`: requires `Reaches`, for the same reason.
- `Hashtables.Hashtable.Insert`: requires `WellFormed`, which excludes:
  - capacities ≤ 0, where `h1` divides by zero;
  - capacity 2 under double hashing, where `h2` divides by zero;
  - double-hashing capacities above 2^30 + 1, where `hash + stepSize` could overflow `int`.
- `Hashtables.Hashtable.constructor`: requires a non-negative capacity (Java throws `NegativeArraySizeException` otherwise).
- `HashObjects.HashObject.Equals` takes a `HashObject?`. The case of an argument of another class (false in Java via `getClass()`) is not modelled.
- `HashObjects.HashObject.IncrementProbeCount`: `Hashtable.java:53` calls `incrementProbeCount`, which `HashObject.java` does not declare. It is modelled as `setProbeCount(probeCount + 1)`.
- `Hashtables.Hashtable.Search`: the Java loop bumps each object and then compares its key. The model walks the same path with the `insert` loop (bump each non-matching object) and then bumps the match, if any. The final state and result are the same.
- `TwinPrimeGenerator.GenerateTwinPrimeAsWritten` models the wrapped loop bound only. It does not model the further wrap of `i++` past `Integer.MAX_VALUE`, which the exhibited input never reaches.

## Findings

| source | as written | input that shows it | evidently intended | confidence | as-written member | corrected member |
|---|---|---|---|---|---|---|
| TwinPrimeGenerator.java:39 | the loop bound `max - 2` is computed in `int` and wraps for `max < Integer.MIN_VALUE + 2` | `generateTwinPrime(0, Integer.MIN_VALUE + 1)`: the bound wraps to `Integer.MAX_VALUE` and the call returns 5, outside `[min, max]` | no twin pair lies in an empty range, so the call throws `IllegalArgumentException` | not executed | `TwinPrimeGenerator.GenerateTwinPrimeAsWritten`, exhibited by `TwinPrimeGenerator.GenerateTwinPrimeAsWrittenEscapesRange` | `TwinPrimeGenerator.GenerateTwinPrime` |
