# Hash tables for nine-character codes, in Dafny

This project models the hash-table layer of PJBL-HASH, a Java comparison of
four fixed-capacity hash tables. Each table stores `Registro` records, and
each record wraps a nine-character code. The four tables are:

- separate chaining;
- linear probing;
- quadratic probing;
- double hashing.

All four implement the `HashTable` interface. It offers:

- `inserir` (insert) and `buscar` (search);
- the `colisoes` (collisions) and `tamanho` (size) counters;
- distribution statistics: `getMaiorLista` (largest bucket), `getTresMaioresListas` (three largest buckets) and `getGaps` (smallest, largest and mean gap between occupied positions).

The modules follow the source:

| module | file | models |
|---|---|---|
| `Records` | records.dfy | `Registro`: the length-checked constructor, `getCodigo`, `equals`, `hashCode` |
| `HashTable` | hash_table.dfy | the interface's default statistics: largest list 0, no top three, gaps `[0, 0, 0]`. The three open-addressing tables inherit the first two unchanged; each overrides `getGaps` with its own scan of the slots |
| `HashFunctions` | hash_functions.dfy | the Horner hashes in Java `int`/`long` arithmetic with `& 0x7FFFFFFF`, as pure functions; the shared masked accumulator loop, proved against them |
| `ProbeSequences` | probe_sequences.dfy | the rehash steps in Java `int` arithmetic (32-bit wrap, truncating `%`, normalisation of a negative index); the k-th probe of each strategy and its closed form |
| `OpenAddressing` | open_addressing.dfy | what the three open-addressing tables share: the slot array as a value, the probe path, where an insert stops and what it does, the placement invariant that makes search complete |
| `Statistics` | statistics.dfy | the `getGaps` scan (the same loop in all four tables) and the priority-queue selection of `getTresMaioresListas` |
| `LinearProbing`, `QuadraticProbing`, `DoubleHashing` | linear_probing.dfy, quadratic_probing.dfy, double_hashing.dfy | the three classes over an `array<Slot>`, with their probe loops |
| `Chaining` | chaining.dfy | the chaining class over an `array<seq<Record>>` (autoria/ChainingHashTable.java and src/ChainingHashTable.java contain the same code) |

Each table is a Dafny class. Its fields are the Java fields, and its methods
follow the Java loops step by step. Each method is proved against a
specification function of the old state:

- `InsertOutcome`, `AfterInsert` and `Attempts` for open addressing;
- a single-bucket update for chaining.

Lemmas then give those functions their meaning:

- an insert finds a record exactly when it is stored;
- a dropped insert has met `capacity` other records;
- a successful insert fills exactly one free slot;
- the invariant that every stored record sits behind occupied slots on its own path is preserved, and it makes `buscar` complete.

`inserir` returns nothing in Java. Here it returns an `Outcome`: `Inserted`,
`AlreadyPresent` or `Rejected`. This makes the silent cases observable.

Where the code differs from its own comments, the model follows the code:

- The comment on `rehashQuadratico` gives `h(k) + i + i²`, but `inserir` and `buscar` pass it the index they already advanced. So the k-th probe is `h + k(k+1)(k+2)/3`, not `h + k + k²` (`QuadraticProbe`, `QuadraticClosedForm`). With capacity 10 it reaches only three slots.
- The message of the `Registro` constructor says nine *digits*, but the check is on the length only. Any nine characters are accepted.

## Model

| member | source | states |
|---|---|---|
| Records.NewRecord | src/Registro.java:4-9 | construction succeeds exactly when the code has length 9, whatever its characters; the record then returns the argument unchanged as its code |
| Records.Equals | src/Registro.java:12-17 | `equals` is true exactly for a record object with the same code; false for null and for any other class |
| Records.EqualsIsEquivalence | src/Registro.java:12-17 | record equality is reflexive, symmetric and transitive, and coincides with the value equality the tables compare with |
| Records.HashCode | src/Registro.java:19-22 | `hashCode` is the string hash of the code (a parameter here), so it agrees with every record `equals` accepts: their codes have the same hash |
| Records.EqualRecordsEqualHashCodes | src/Registro.java:19-22 | equal records have equal hash codes, for any string hash |
| HashFunctions.LinearWide | autoria/LinearProbingHashTable.java:14-18 | the linear-probing `long` fold as written, wrapping at 64 bits; its value lies in [0, 2^64) |
| HashFunctions.Horner | autoria/ChainingHashTable.java:18-24 | the masked Horner fold lies in [0, 2^31) |
| HashFunctions.MaskedIntStep | autoria/ChainingHashTable.java:21 | wrapping at 32 bits and then masking with `0x7FFFFFFF` is the exact value reduced mod 2^31 |
| HashFunctions.MaskedHornerLoop | autoria/QuadraticProbingHashTable.java:13-21 | the `int` accumulator loop with the mask computes the Horner fold mod 2^31 at every step (the loop of the chaining, quadratic and double-hashing hashes) |
| HashFunctions.LinearHashIsLow31Bits | autoria/LinearProbingHashTable.java:13-20 | the 64-bit wrapping fold with A = 2654435761, masked once at the end, equals the fold reduced mod 2^31 at every step |
| HashFunctions.ZerosHashToZero | src/ChainingHashTable.java:18-25 | a run of '0' characters hashes to 0 under any multiplier, so leading zeros contribute nothing |
| HashFunctions.DigitSumBound | autoria/DoubleHashingHashTable.java:12-19 | on decimal digits the first double hash never wraps: at most 9 per character, 81 for a code |
| ProbeSequences.RehashLinear | autoria/LinearProbingHashTable.java:22-24 | `rehash` moves to the next slot, in [0, m), and wraps from the last slot to slot 0 |
| ProbeSequences.RehashQuadratic | autoria/QuadraticProbingHashTable.java:23-27 | `rehashQuadratico` is a truncating remainder in (−m, m); after the table's normalisation it is the 32-bit-wrapped `indice + t + t²` reduced mod m |
| ProbeSequences.RehashDouble | autoria/DoubleHashingHashTable.java:45 | `(h1 + tentativas * h2) % length` is a truncating remainder in (−m, m); after normalisation it is the 32-bit-wrapped `h1 + t·h2` reduced mod m |
| ProbeSequences.LinearProbe | autoria/LinearProbingHashTable.java:22-24 | the k-th linear probe, (h + k) mod m, lies in [0, m) |
| ProbeSequences.QuadraticProbe | autoria/QuadraticProbingHashTable.java:38-44 | the k-th quadratic probe as the loop computes it, each step adding k + k² to the previous index with 32-bit wrap; it lies in [0, m) |
| ProbeSequences.DoubleProbe | autoria/DoubleHashingHashTable.java:45-49 | the k-th double-hashing probe, (h1 + k·h2) with 32-bit wrap, reduced mod m; it lies in [0, m) |
| ProbeSequences.NormalizedRemainder | autoria/QuadraticProbingHashTable.java:41-44 | Java's truncating `%` followed by the `if (indice < 0) indice += m; indice %= m` normalisation is the Euclidean remainder, always in [0, m) |
| ProbeSequences.LinearProbeStep | autoria/LinearProbingHashTable.java:22-24 | one `rehash` moves attempt k to attempt k+1: the k-th probe is (h + k) mod m |
| ProbeSequences.QuadraticProbeStep | autoria/QuadraticProbingHashTable.java:23-27 | `rehashQuadratico` applied to the current index, then normalised, gives the next probe of the cumulative sequence |
| ProbeSequences.QuadraticOffsetClosedForm | autoria/QuadraticProbingHashTable.java:40 | the offsets accumulated after k steps sum to k(k+1)(k+2)/3 |
| ProbeSequences.QuadraticClosedForm | autoria/QuadraticProbingHashTable.java:38-44 | for capacity at most 46339 no `int` arithmetic wraps, and the k-th probe is (h + k(k+1)(k+2)/3) mod m |
| ProbeSequences.QuadraticCapacityTen | autoria/QuadraticProbingHashTable.java:40-44 | with capacity 10 every one of the 10 probes lands on h, h+2 or h+8 (mod 10) |
| ProbeSequences.DoubleProbeStart | autoria/DoubleHashingHashTable.java:36 | the first double-hashing probe is `hash1` itself |
| ProbeSequences.DoubleProbeStep | autoria/DoubleHashingHashTable.java:45-49 | the index computed at attempt k, after normalisation, is the k-th probe (h1 + k·h2) mod m in `int` arithmetic |
| ProbeSequences.DoubleClosedForm | autoria/DoubleHashingHashTable.java:45 | for capacity at most 46340 no `int` arithmetic wraps, and the k-th probe is (h1 + k·h2) mod m |
| OpenAddressing.PrimaryIndex | autoria/QuadraticProbingHashTable.java:20 | the primary index of each strategy lies in [0, capacity) |
| OpenAddressing.StepSize | autoria/DoubleHashingHashTable.java:21-30 | `hash2` is 1 + (Horner-7 mod (capacity − 1)): in [1, capacity − 1], never 0 |
| OpenAddressing.Path | autoria/LinearProbingHashTable.java:31-38 | an insert visits at most `capacity` indices, all in [0, capacity) |
| OpenAddressing.Stop | autoria/LinearProbingHashTable.java:31-38 | the attempt at which the probe loop leaves the path, between the starting attempt and `capacity` |
| OpenAddressing.Decide | autoria/LinearProbingHashTable.java:31-43 | an insert is dropped exactly when every slot on the path holds another record; a duplicate is reported only when a path slot holds r; an insert happens only when a path slot is free |
| OpenAddressing.Attempts | autoria/LinearProbingHashTable.java:31-38 | the collisions an insert adds: every attempt before it probes a slot holding another record, the slot at it (when fewer than `capacity`) is free or holds r, and it is at most `capacity` |
| OpenAddressing.InsertOutcome | autoria/LinearProbingHashTable.java:27-44 | an insert is dropped exactly when it uses all `capacity` attempts |
| OpenAddressing.AfterInsert | autoria/LinearProbingHashTable.java:40-43 | an insert keeps the number of slots; a successful one writes r into the free slot where the loop stopped, any other leaves the slots as they were |
| OpenAddressing.LocatedInsert | autoria/DoubleHashingHashTable.java:39-55 | the attempt where the loop stops decides the insert: on a slot holding r it is a duplicate with r stored; on a free slot r was absent and filling that slot adds r and keeps the invariant with size + 1; after `capacity` attempts it is dropped with r absent |
| OpenAddressing.StopScan | autoria/LinearProbingHashTable.java:31-38 | the probe loop passes only slots holding another record, one collision each, and halts at the first free or matching slot |
| OpenAddressing.LayoutNoDuplicates | autoria/LinearProbingHashTable.java:27-44 | under the placement invariant no record is stored twice |
| OpenAddressing.StoredMembership | autoria/LinearProbingHashTable.java:41 | a record is stored exactly when some slot holds it |
| OpenAddressing.StoredBound | autoria/LinearProbingHashTable.java:68-70 | a table never holds more records than slots |
| OpenAddressing.StoredFill | autoria/LinearProbingHashTable.java:41-42 | filling one free slot with r adds r and nothing else |
| OpenAddressing.StoredEmpty | autoria/LinearProbingHashTable.java:7-11 | a table of `null` slots stores nothing |
| OpenAddressing.StopOnStored | autoria/LinearProbingHashTable.java:47-60 | a stored record is met on its own probe path before any free slot |
| OpenAddressing.DecideMeaning | autoria/LinearProbingHashTable.java:31-43 | the loop exit decides the insert: an equal record means present, a free slot means inserted, no exit before `capacity` attempts means dropped |
| OpenAddressing.InsertKeepsLayout | autoria/LinearProbingHashTable.java:40-43 | storing the record at the free slot where the loop stopped keeps every record behind occupied slots on its path |
| OpenAddressing.InsertFindsStored | autoria/QuadraticProbingHashTable.java:34-37 | an insert returns on a duplicate exactly when the record is stored; it drops the record exactly when all `capacity` probed slots hold other records, and then has counted `capacity` collisions |
| OpenAddressing.InsertFillsOneSlot | autoria/DoubleHashingHashTable.java:52-55 | a successful insert sets exactly one `null` slot; a duplicate or a dropped insert changes no slot |
| OpenAddressing.InsertAddsRecord | autoria/DoubleHashingHashTable.java:39-55 | after an insert the stored records gain r unless it was dropped, and their number grows by one exactly when a slot was filled |
| OpenAddressing.InsertKeepsInvariant | autoria/QuadraticProbingHashTable.java:29-53 | every insert preserves the placement invariant |
| OpenAddressing.FoundAt | autoria/LinearProbingHashTable.java:32-34 | a loop exit at an occupied slot means the slot holds r, r is stored, and the insert is a duplicate |
| OpenAddressing.FreeAt | autoria/LinearProbingHashTable.java:40-43 | a loop exit at a free slot means r is not stored, and filling that slot keeps the invariant and adds r |
| OpenAddressing.PathFull | autoria/LinearProbingHashTable.java:40 | using all `capacity` attempts means r is not stored and the insert is dropped |
| OpenAddressing.LinearPathCovers | autoria/LinearProbingHashTable.java:22-24 | every slot lies on every linear-probing path |
| OpenAddressing.LinearRejectsOnlyWhenFull | autoria/LinearProbingHashTable.java:31-43 | linear probing drops a record only when every slot holds another record |
| OpenAddressing.QuadraticRejectsWithFreeSlots | autoria/QuadraticProbingHashTable.java:34-52 | with capacity 10 quadratic probing drops a record once the three slots it reaches hold other records, however many of the other seven are free |
| LinearProbing.HashIndex | autoria/LinearProbingHashTable.java:13-20 | the 64-bit `funcaoHash` loop computes the primary index |
| LinearProbing.LinearProbingTable.constructor | autoria/LinearProbingHashTable.java:7-11 | `capacity` `null` slots, counters 0, nothing stored |
| LinearProbing.LinearProbingTable.Locate | autoria/LinearProbingHashTable.java:28-38 | the probe loop stops at attempt `Stop`, on the path index, adding one collision per attempt; the slots are not touched |
| LinearProbing.LinearProbingTable.Insert | autoria/LinearProbingHashTable.java:27-44 | outcome, new slots and collision count are those of the insert specification on the old slots; size grows by one exactly on `Inserted`; the invariant is kept |
| LinearProbing.LinearProbingTable.Search | autoria/LinearProbingHashTable.java:47-60 | `buscar` is true exactly when the record is stored |
| LinearProbing.LinearProbingTable.Size | autoria/LinearProbingHashTable.java:68-70 | the size counter is the number of stored records, at most the capacity |
| LinearProbing.LinearProbingTable.LargestList | src/HashTable.java:12 | this table does not override `getMaiorLista`, so it reports the interface default 0 |
| LinearProbing.LinearProbingTable.TopThreeLists | src/HashTable.java:13 | this table does not override `getTresMaioresListas`, so it reports the interface default, an empty list |
| LinearProbing.LinearProbingTable.Collisions | autoria/LinearProbingHashTable.java:63-65 | the collision counter is non-negative |
| LinearProbing.LinearProbingTable.Gaps | autoria/LinearProbingHashTable.java:112-137 | the gap summary of the non-null, non-`DELETED` slots, three values with 0 ≤ min ≤ mean ≤ max |
| LinearProbing.FreeSlotMeansNoRejection | autoria/LinearProbingHashTable.java:31-43 | while fewer records than slots are stored, a linear-probing insert never drops the record |
| LinearProbing.FullTableHoldsCapacity | autoria/LinearProbingHashTable.java:40-43 | a table whose every slot is occupied, without repeats, stores exactly `capacity` records |
| QuadraticProbing.HashIndex | autoria/QuadraticProbingHashTable.java:13-21 | `funcaoHash` computes the primary index |
| QuadraticProbing.QuadraticProbingTable.constructor | autoria/QuadraticProbingHashTable.java:7-11 | `capacity` `null` slots, counters 0, nothing stored |
| QuadraticProbing.QuadraticProbingTable.Locate | autoria/QuadraticProbingHashTable.java:31-45 | the probe loop with the cumulative quadratic step stops at attempt `Stop`, one collision per attempt |
| QuadraticProbing.QuadraticProbingTable.Insert | autoria/QuadraticProbingHashTable.java:29-53 | outcome, new slots and collision count are those of the insert specification; size grows by one exactly on `Inserted` |
| QuadraticProbing.QuadraticProbingTable.Search | autoria/QuadraticProbingHashTable.java:55-73 | `buscar` is true exactly when the record is stored |
| QuadraticProbing.QuadraticProbingTable.Size | autoria/QuadraticProbingHashTable.java:81-83 | the size counter is the number of stored records, at most the capacity |
| QuadraticProbing.QuadraticProbingTable.LargestList | src/HashTable.java:12 | this table does not override `getMaiorLista`, so it reports the interface default 0 |
| QuadraticProbing.QuadraticProbingTable.TopThreeLists | src/HashTable.java:13 | this table does not override `getTresMaioresListas`, so it reports the interface default, an empty list |
| QuadraticProbing.QuadraticProbingTable.Collisions | autoria/QuadraticProbingHashTable.java:76-78 | the collision counter is non-negative |
| QuadraticProbing.QuadraticProbingTable.Gaps | autoria/QuadraticProbingHashTable.java:136-161 | the gap summary of the non-null, non-`DELETED` slots, three values with 0 ≤ min ≤ mean ≤ max |
| DoubleHashing.Hash1 | autoria/DoubleHashingHashTable.java:12-19 | `hash1` computes the primary index |
| DoubleHashing.Hash2 | autoria/DoubleHashingHashTable.java:21-30 | `hash2` computes the step size |
| DoubleHashing.DoubleHashingTable.constructor | autoria/DoubleHashingHashTable.java:6-10 | `capacity` `null` slots, counters 0, nothing stored |
| DoubleHashing.DoubleHashingTable.Locate | autoria/DoubleHashingHashTable.java:34-50 | the probe loop starting at `hash1` and stepping by `hash2` stops at attempt `Stop`, one collision per attempt |
| DoubleHashing.DoubleHashingTable.Insert | autoria/DoubleHashingHashTable.java:33-56 | outcome, new slots and collision count are those of the insert specification; size grows by one exactly on `Inserted` |
| DoubleHashing.DoubleHashingTable.Search | autoria/DoubleHashingHashTable.java:59-78 | `buscar` is true exactly when the record is stored |
| DoubleHashing.DoubleHashingTable.Size | autoria/DoubleHashingHashTable.java:86-88 | the size counter is the number of stored records, at most the capacity |
| DoubleHashing.DoubleHashingTable.LargestList | src/HashTable.java:12 | this table does not override `getMaiorLista`, so it reports the interface default 0 |
| DoubleHashing.DoubleHashingTable.TopThreeLists | src/HashTable.java:13 | this table does not override `getTresMaioresListas`, so it reports the interface default, an empty list |
| DoubleHashing.DoubleHashingTable.Collisions | autoria/DoubleHashingHashTable.java:81-83 | the collision counter is non-negative |
| DoubleHashing.DoubleHashingTable.Gaps | autoria/DoubleHashingHashTable.java:130-155 | the gap summary of the non-null slots, three values with 0 ≤ min ≤ mean ≤ max |
| Chaining.BucketOf | autoria/ChainingHashTable.java:18-24 | the bucket index lies in [0, capacity) |
| Chaining.BucketIndex | autoria/ChainingHashTable.java:18-24 | `funcaoHash` computes the masked Horner-37 value mod capacity |
| Chaining.ContentsMembership | autoria/ChainingHashTable.java:34-37 | a record is stored exactly when some bucket holds it |
| Chaining.ContentsLookup | autoria/ChainingHashTable.java:41-44 | in a well-formed table a record is stored exactly when its own bucket holds it |
| Chaining.TotalLengthUpdate | autoria/ChainingHashTable.java:35-36 | replacing one bucket changes the total length by the difference |
| Chaining.ContentsAppend | autoria/ChainingHashTable.java:35 | appending r to a bucket adds r and nothing else |
| Chaining.EmptyBuckets | autoria/ChainingHashTable.java:13-15 | empty buckets: nothing stored, total length 0, well-formed |
| Chaining.NoRepeatsCount | autoria/ChainingHashTable.java:34-37 | a bucket without repeats holds as many distinct records as entries |
| Chaining.ContentsCount | autoria/ChainingHashTable.java:34-37 | with each record in its hash bucket and no repeats, the number of stored records is the total bucket length |
| Chaining.ContentsHomes | autoria/ChainingHashTable.java:28 | a stored record hashes to one of the existing buckets |
| Chaining.AppendKeepsWellFormed | autoria/ChainingHashTable.java:34-37 | appending a record absent from its bucket keeps every record in its hash bucket and no bucket holding a record twice |
| Chaining.ChainingTable.constructor | autoria/ChainingHashTable.java:8-16 | `capacity` empty buckets, counters 0, nothing stored |
| Chaining.ChainingTable.Insert | autoria/ChainingHashTable.java:27-38 | collisions grow by the bucket's length before the insert, duplicate or not; only the hashed bucket changes, gaining r exactly when it was absent; size grows by one exactly then; the stored set gains r; never `Rejected` |
| Chaining.ChainingTable.Search | autoria/ChainingHashTable.java:41-44 | `buscar` is membership in the hashed bucket, which is membership in the table |
| Chaining.ChainingTable.Size | autoria/ChainingHashTable.java:52-54 | the size counter is the number of stored records and the total bucket length |
| Chaining.ChainingTable.Collisions | autoria/ChainingHashTable.java:47-49 | the collision counter is non-negative |
| Chaining.ChainingTable.LargestList | autoria/ChainingHashTable.java:125-131 | the result is at least every bucket's length and is a bucket's length, or 0 |
| Chaining.ChainingTable.TopThreeLists | autoria/ChainingHashTable.java:133-146 | the first (at most) three lengths polled from a max-queue of the non-empty bucket lengths |
| Chaining.ChainingTable.Gaps | autoria/ChainingHashTable.java:148-174 | the gap summary of the non-empty buckets, three values with 0 ≤ min ≤ mean ≤ max |
| Chaining.TopThreeHeadIsLargest | src/ChainingHashTable.java:130-151 | when some bucket is non-empty, the first of the top three is a bucket length and no bucket is longer, so it equals `getMaiorLista` |
| Chaining.NonEmptyLengthsMembership | src/ChainingHashTable.java:140-144 | a value is queued exactly when it is the length of a non-empty bucket |
| Chaining.EmptyTableStatistics | src/HashTable.java:13-14 | a chaining table with every bucket empty reports exactly the interface defaults: no top-three lengths and gaps [0, 0, 0] |
| Chaining.LeadingZerosBucket | src/ChainingHashTable.java:18-25 | with ten buckets the code "00000000d" lands in bucket d, for d from 1 to 5 |
| Chaining.FirstFiveCodes | src/ChainingHashTable.java:28-41 | inserting "000000001" to "000000005" into a fresh ten-bucket table gives 0 collisions and size 5 |
| Statistics.Gaps | autoria/ChainingHashTable.java:148-174 | `getGaps` returns the gap summary: [min, max, floor(sum / count)] of the gaps, or [0, 0, 0] with no gap |
| Statistics.Scan | autoria/ChainingHashTable.java:156-167 | the scan's running minimum, maximum, sum and count describe the gaps between consecutive occupied positions |
| Statistics.GapsNonNegative | autoria/ChainingHashTable.java:159 | every gap `i − prev − 1` is non-negative |
| Statistics.MeanBetween | autoria/ChainingHashTable.java:173 | the mean rounded down lies between the smallest and the largest gap |
| Statistics.SumBetweenMinMax | autoria/ChainingHashTable.java:160-162 | count·min ≤ sum ≤ count·max |
| Statistics.GapSummaryBounds | src/ChainingHashTable.java:153-179 | every gap result has three values with 0 ≤ min ≤ mean ≤ max, and is [0, 0, 0] with fewer than two occupied positions |
| Statistics.GapExample | autoria/ChainingHashTable.java:148-174 | occupied positions 2, 5 and 9 give [2, 3, 2] |
| Statistics.InsertDescSpec | autoria/ChainingHashTable.java:137 | adding to the queue keeps its poll order non-increasing and adds exactly the value |
| Statistics.SortDescSpec | autoria/ChainingHashTable.java:134-139 | the queue's poll order is non-increasing and a permutation of the values added |
| Statistics.TakeSpec | autoria/ChainingHashTable.java:141-144 | polling n times yields min(n, size) values in order, taken from the queue, none smaller than a value left in it |
| Statistics.TopThreeSpec | autoria/ChainingHashTable.java:133-146 | the top three have length min(3, count), are non-increasing, are taken from the input, and dominate every value left out |
| Statistics.TopThreeHead | src/ChainingHashTable.java:147-148 | the first value polled is an input value and no input value is larger |

## Left out

- `estatisticas()` in every table prints to the console, using `double` averages and formatted strings. Its gap loop is the one modelled as `getGaps`. The quadratic table's printed probe trace is not modelled either.
- `getFatorCarga` is a `double` division and is not modelled.
- `autoria/Main.java` (random data, files, timing, reports) is not part of this model; nor are `autoria/ResultadoExperimento.java` and `JUSTIFICATIVA_FUNCOES_HASH.java`.
- `Registro.hashCode` uses Java's `String.hashCode`, which is not part of this model. The string hash is a parameter of `Records.HashCode`.
- The quadratic table's warning on a dropped insert is a console print. The model signals it as the `Rejected` outcome.
- The `colisoes` and `tamanho` counters are unbounded integers. Java `int` overflow of the counters is not modelled.
- A Java `String` is a sequence of UTF-16 units; here a code is a sequence of Dafny characters (Unicode scalar values). A character outside the Basic Multilingual Plane counts once here and twice in Java (two surrogates), so for such codes the length check of `Registro` and the hashes differ from Java's. For characters inside that plane both agree.
- `DELETED` is kept as the `Deleted` slot state. No operation writes it, so the invariant excludes it. The branches that test for it are still modelled as written.
- A `null` argument is not represented: `new Registro(null)` throws at `codigo.length()`, and `inserir(null)` and `buscar(null)` throw at `getCodigo()`. Here `string` and `Record` values cannot be null.
- A negative capacity makes every Java constructor throw `NegativeArraySizeException`; the model's capacity is a `nat`, so that case is not represented. A capacity of 0 makes every Java `% tabela.length` throw; a capacity of 1 makes double hashing's `% (tabela.length - 1)` throw. The model states these as preconditions: `slots.Length >= 1`, `slots.Length >= 2` and `buckets.Length >= 1`.
- `LinkedList.contains` and `add` are modelled as sequence membership and append. `PriorityQueue` is modelled by the order in which `poll` returns its values, not as a heap.
- ProbeSequences.QuadraticClosedForm: holds only for capacity at most 46339 and k ≤ capacity. Beyond that `int` arithmetic wraps, and the table follows `QuadraticProbe`, which models the wrap.
- ProbeSequences.DoubleClosedForm: holds only for capacity at most 46340. Beyond that the table follows `DoubleProbe`, which models the wrap.
- Double hashing is not proved to visit every slot when the step is coprime to the capacity. Only linear probing's full coverage is proved (`LinearRejectsOnlyWhenFull`).
- LinearProbing.LinearProbingTable.Collisions, QuadraticProbing.QuadraticProbingTable.Collisions, DoubleHashing.DoubleHashingTable.Collisions and Chaining.ChainingTable.Collisions: state only that the counter is non-negative. What the counter counts is stated by each table's `Insert`.
