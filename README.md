# simplecache core in Dafny

This project models the two data structures at the centre of simplecache, a small distributed cache written in Go:

- **`lru/lru.go`**, the byte-budgeted LRU store. `Cache` keeps a recency list, most recently used at the front. It also keeps an index from key to list element and a byte counter `nBytes`. `Add` inserts or updates at the front and then evicts from the back while the counter exceeds a non-zero `maxBytes`. `Get` moves a hit to the front. `RemoveOldest` evicts the back entry and reports it to `OnEvicted`.
- **`consistenthash/consistenthash.go`**, the consistent-hash ring. `Map` has the following parts:
  - `Add` places `replicas` virtual nodes per owner on the ring. Each node is named `strconv.Itoa(i) + owner`.
  - the ring is sorted;
  - each virtual-node value is mapped to the owner that wrote it last;
  - `Get` routes a key to the first ring value at or above its hash, wrapping around to the first value.

Files:

| file | module | contents |
|---|---|---|
| `go_types.dfy` | `GoTypes` | `byte`, `uint32`, Go strings as byte sequences, `Option` |
| `lru_model.dfy` | `LruModel` | the abstract LRU state (a sequence of entries plus the counter), the functions that specify every `Cache` operation, and the lemmas about them |
| `lru.dfy` | `Lru` | `Cache` as a class over element objects, a sequence for `ll` and a map for `cache`; each method is proved against the `LruModel` functions |
| `consistent_hash.dfy` | `ConsistentHash` | `Itoa`, the node values and map writes, sorting, binary search, the successor rule, and `Map` as a class |
| `consistent_hash_test.dfy` | `ConsistentHashTest` | the routing example of `Test_Hashing`, proved for the ring in that test |

**The LRU store.** The list is a sequence with the front at index 0.

- The elements are objects.
  - An update overwrites the value in place, and both the list and the index see the change.
  - A ghost field `entries` holds the abstract state.
  - `Valid()` says four things: the list and the index agree; `entries` is what the list holds; the budget is not negative; the counter is within a non-zero budget.
- `Value.Len()` is the function `size`.
- `OnEvicted` is a flag `notify` plus the log `evictions` of the pairs it would be called with.

**The ring.** Both the hash and the default `crc32.ChecksumIEEE` are parameters.

- `New` takes `fn` as an `Option<Hash>` and the checksum as a separate function.
- `sort.Ints` is an insertion sort (`SortInts`). Its output is sorted and a permutation, and `SortedUnique` proves that only one sequence meets that contract.
- `sort.Search` is a bisection (`Search`) with a linear reference definition (`FirstAtLeast`).

## Model

| member | source | states |
|---|---|---|
| Lru.Cache.constructor | lru/lru.go:31-38 | the new cache is valid and empty, with counter 0 and the given budget, sizes and callback |
| Lru.Element.constructor | lru/lru.go:19-22 | a list element (Go's `entry` behind a `*list.Element`) with an immutable key and an overwritable value; built by the push at line 80 |
| Lru.Cache.Len | lru/lru.go:89-91 | the list length equals the number of keys in the index |
| Lru.Cache.LookupIndex | lru/lru.go:13 | while list and index agree, the keys are distinct and the index finds a key exactly when the list holds it, with the same value |
| Lru.Cache.Get | lru/lru.go:45-52 | returns the value stored under the key, or none; a hit moves the entry to the front (`Touch`); the index, counter and eviction log are unchanged; every element left in the list was already there or is newly allocated, so calls can follow one another |
| Lru.Cache.MoveToFront | lru/lru.go:47 | the indexed element becomes the front of the list; the other elements keep their order; every element left in the list was already there or is newly allocated, so calls can follow one another |
| Lru.Cache.RemoveOldest | lru/lru.go:56-67 | on a non-empty list: the back entry leaves the list and the index, the counter drops by its key length plus its size, and the pair is logged when a callback is set; on an empty list nothing changes; a valid cache stays valid; every element left in the list was already there or is newly allocated, so calls can follow one another |
| Lru.Cache.Add | lru/lru.go:73-87 | the new state is `AddOutcome`: insert or update at the front, counter as written, then evict from the back; evicted pairs are logged in eviction order; the cache stays valid; every element left in the list was already there or is newly allocated, so calls can follow one another |
| Lru.Cache.InsertOrUpdate | lru/lru.go:74-83 | entries become `Put` (the key and value at the front, any old entry for the key unlinked); the counter becomes `PutBytes`; every element left in the list was already there or is newly allocated, so calls can follow one another |
| Lru.Cache.Update | lru/lru.go:74-78 | a present key moves to the front with its value overwritten in place; the counter is unchanged, as written; every element left in the list was already there or is newly allocated, so calls can follow one another |
| Lru.Cache.Insert | lru/lru.go:79-83 | an absent key gets a new front element and an index entry; the counter grows by the key length plus the value size; every element left in the list was already there or is newly allocated, so calls can follow one another |
| Lru.Cache.SetFront | lru/lru.go:77 | overwrites the front element's value; the list and index are unchanged and only the front entry changes |
| Lru.Cache.EvictOverBudget | lru/lru.go:84-86 | the loop terminates; the result is `Evict` of the state before it; the counter ends within a non-zero budget; every element left in the list was already there or is newly allocated, so calls can follow one another |
| Lru.Cache.AddFixed | lru/lru.go:73-87 | the corrected `Add`: a counter that starts equal to the true byte total stays equal to it, so the bytes held never exceed a non-zero budget; every element left in the list was already there or is newly allocated, so calls can follow one another |
| Lru.Cache.UpdateFixed | lru/lru.go:74-78 | the corrected update step: the counter changes by the new size minus the replaced size (`PutBytesFixed`); every element left in the list was already there or is newly allocated, so calls can follow one another |
| Lru.AddAddRemoveAdd | lru/lru.go:56-87 | on an 8-byte budget: adding a 6-byte entry and then a 4-byte one evicts and reports the first; `RemoveOldest` then evicts the second, and a 2-byte `Add` leaves exactly that entry with counter 2 |
| LruModel.Touch | lru/lru.go:45-52 | definition: a hit puts the found entry in front of the list with that key unlinked; a miss leaves the list alone (its properties are `TouchShape`) |
| LruModel.Put | lru/lru.go:74-83 | definition: the new entry in front of the list with any old entry for the key unlinked (properties: `PutIsMapUpdate`, `PutShape`) |
| LruModel.PutBytes | lru/lru.go:77-78 | definition, as written: an update leaves the counter as it was (the delta is `size(v) - size(v)`), an insert adds the key length plus the value size (line 82); the drift it causes is `PutBytesDrift` |
| LruModel.PutBytesFixed | lru/lru.go:77-78 | definition, as evidently intended: an update changes the counter by the new size minus the replaced size; exactness is `PutBytesFixedExact` |
| LruModel.Bytes | lru/lru.go:62 | definition: the charge of one entry, `len(key) + value.Len()`, as subtracted at line 62 and added at line 82 |
| LruModel.Evict | lru/lru.go:84-86 | definition of the eviction loop's outcome: the entries kept, the final counter, and the evicted entries in eviction order (properties: `EvictShape`, `EvictWithinBudget`, `EvictOlderFirst`) |
| LruModel.AddOutcome | lru/lru.go:73-87 | definition: the insert/update step with the as-written counter, then the eviction loop (properties: `AddKeepsBudget`, `TouchedSurvivesAdd`) |
| LruModel.EvictShape | lru/lru.go:84-86 | eviction keeps a prefix (the most recently used entries) and removes the rest strictly from the back; the counter drops by exactly the evicted bytes; with budget 0 nothing is evicted |
| LruModel.EvictKeepsPrefix | lru/lru.go:84-86 | kept and evicted entries account for the whole list, and the kept entries are its prefix |
| LruModel.EvictFromBack | lru/lru.go:57 | the j-th evicted entry is the j-th entry from the back |
| LruModel.EvictCharges | lru/lru.go:62 | the difference between the counter and the true byte total survives eviction unchanged |
| LruModel.EvictLoopStep | lru/lru.go:84-86 | one loop turn preserves the overall eviction outcome and the counter's gap to the true total |
| LruModel.EvictWithinBudget | lru/lru.go:84-86 | if the counter's excess over the true total is within a non-zero budget, eviction ends within budget, and the last entry evicted was needed to get there |
| LruModel.EvictOlderFirst | lru/lru.go:55-57 | least recently used first: of two evicted entries, the one nearer the back is evicted earlier |
| LruModel.AddKeepsBudget | lru/lru.go:73-87 | whatever the drift, `Add` keeps the counter within a non-zero budget if it was within it before |
| LruModel.TouchedSurvivesAdd | lru/lru.go:45-52 | an entry read just before an `Add` of another key sits second; eviction removes it only after every older entry |
| LruModel.PutIsMapUpdate | lru/lru.go:73-83 | as a dictionary, the insert/update step is exactly `m[k := v]`; the key reads back `v` and other keys read as before |
| LruModel.PutShape | lru/lru.go:74-83 | the insert/update step keeps keys distinct and puts the key first; the key set gains the key; the list grows by one exactly when the key was absent |
| LruModel.TouchShape | lru/lru.go:45-52 | `Get` on a hit moves the found entry to the front and keeps the others in order; the list is a permutation with the same dictionary; a miss changes nothing |
| LruModel.KeySetSize | lru/lru.go:89-91 | with distinct keys, the number of entries equals the number of keys |
| LruModel.KeySetMembers | lru/lru.go:13 | a key is in the key set exactly when some entry carries it |
| LruModel.LookupIsAsMap | lru/lru.go:46 | a lookup in the list agrees with the dictionary the list denotes |
| LruModel.KeySetIsAsMapKeys | lru/lru.go:13 | the key set is the domain of the dictionary the list denotes |
| LruModel.LookupAt | lru/lru.go:46-49 | with distinct keys, a lookup finds the entry at its own index |
| LruModel.LookupAbsent | lru/lru.go:51 | a key no entry carries is not found, and unlinking it changes nothing |
| LruModel.LookupNoneAbsent | lru/lru.go:51 | a key that is not found is carried by no entry |
| LruModel.WithoutKeyMembers | lru/lru.go:59 | unlinking a key removes exactly the entries for that key |
| LruModel.WithoutKeyDistinct | lru/lru.go:59 | unlinking keeps keys distinct |
| LruModel.AsMapWithoutKey | lru/lru.go:59-61 | unlinking a key removes exactly that key from the dictionary |
| LruModel.MultisetWithoutKey | lru/lru.go:47 | unlinking a present key removes exactly one entry, its own |
| LruModel.SumWithoutKey | lru/lru.go:62 | unlinking a present key releases exactly its bytes |
| LruModel.PutBytesDrift | lru/lru.go:77-78 | as written, updating a present key widens the counter's drift from the true total by the old size minus the new size; inserting a new key does not |
| LruModel.PutGapBound | lru/lru.go:74-83 | after the insert/update step, the counter's excess over the true total is at most the old counter |
| LruModel.DriftWitness | lru/lru.go:77-78 | a concrete case: replacing a 5-byte value with a 1-byte value leaves the counter at 6 while 2 bytes are held |
| LruModel.PutBytesFixedExact | lru/lru.go:74-83 | with the corrected delta, a counter equal to the true total stays equal after the insert/update step |
| Lru.UnlinkHolds | lru/lru.go:59 | unlinking elements from the list unlinks their entries from the abstract state |
| Lru.UnlinkKeys | lru/lru.go:47 | unlinking keeps exactly the other elements, in order, and their keys |
| Lru.Unlink | lru/lru.go:47 | definition: the list with the element for a key taken out and the others in order, the unlink inside `ll.MoveToFront` (properties: `UnlinkHolds`, `UnlinkKeys`) |
| Lru.KeysOfDistinct | lru/lru.go:89-91 | a list of distinct keys has as many keys as elements |
| Lru.IndexedDropLast | lru/lru.go:59-61 | removing the back element and its index entry keeps the list and the index consistent |
| Lru.IndexedMoveFront | lru/lru.go:47 | moving an indexed element to the front keeps the list and the index consistent |
| Lru.IndexedPushFront | lru/lru.go:80-81 | pushing a new element and indexing it keeps the list and the index consistent |
| Lru.Cache.SizeAgrees | lru/lru.go:12-13 | the index has as many keys as the list has elements |
| ConsistentHash.Itoa | consistenthash/consistenthash.go:42 | `strconv.Itoa` of a non-negative number: a non-empty run of decimal digits, with no leading zero (0 is the single digit `0`), whose value is the number |
| ConsistentHash.ItoaInjective | consistenthash/consistenthash.go:42 | different replica numbers give different node-name prefixes |
| ConsistentHash.Reps | consistenthash/consistenthash.go:41 | definition: the number of turns of `for i := 0; i < m.replicas; i++`, 0 for a negative count |
| ConsistentHash.NodeHash | consistenthash/consistenthash.go:42 | definition: `int(m.hash([]byte(strconv.Itoa(i) + key)))`, the uint32 taken as a natural number |
| ConsistentHash.OwnerNodes | consistenthash/consistenthash.go:41-43 | definition: the values one owner appends, in loop order (properties: `OwnerNodesShape`) |
| ConsistentHash.Nodes | consistenthash/consistenthash.go:40-43 | definition: the values `Add` appends for all owners, in argument order (properties: `NodesCount`, `NodesMembers`) |
| ConsistentHash.RecordOwner | consistenthash/consistenthash.go:41-44 | definition: the map after one owner's writes `m.hashMap[hash] = key` (properties: `RecordOwnerKeys`, `RecordOwnerShape`) |
| ConsistentHash.Record | consistenthash/consistenthash.go:40-44 | definition: the map after all owners' writes, in order (properties: `RecordKeys`, `RecordLastWins`, `RecordOwners`) |
| ConsistentHash.OwnerNodesShape | consistenthash/consistenthash.go:41-45 | one owner contributes exactly `replicas` values, the i-th being the hash of `Itoa(i) + owner` |
| ConsistentHash.NodesCount | consistenthash/consistenthash.go:39-46 | `Add` appends exactly `replicas × len(owners)` values |
| ConsistentHash.NodesMembers | consistenthash/consistenthash.go:39-46 | the values appended are exactly the virtual nodes of the added owners |
| ConsistentHash.RecordOwnerKeys | consistenthash/consistenthash.go:44 | one owner's writes add exactly its node values to the map's domain |
| ConsistentHash.RecordOwnerShape | consistenthash/consistenthash.go:44 | one owner's node values map to that owner; other values keep their old owner |
| ConsistentHash.RecordKeys | consistenthash/consistenthash.go:39-46 | `Add` adds exactly the appended values to the map's domain; untouched values keep their owner |
| ConsistentHash.WrittenLastFront | consistenthash/consistenthash.go:40 | the last writer of a value stays its last writer when a later owner that does not write it is dropped |
| ConsistentHash.RecordLastWins | consistenthash/consistenthash.go:40-45 | on a collision the owner listed last wins: a value maps to the last owner with a node there |
| ConsistentHash.RecordOwners | consistenthash/consistenthash.go:40-45 | every owner in the map after `Add` was there before or is one of the added owners |
| ConsistentHash.InsertSorted | consistenthash/consistenthash.go:47 | inserting into a sorted ring keeps it sorted and adds exactly one copy of the value |
| ConsistentHash.SortInts | consistenthash/consistenthash.go:47 | `sort.Ints`: sorted output that is a permutation of the input, duplicates kept |
| ConsistentHash.SortedHead | consistenthash/consistenthash.go:47 | the head of a sorted ring is its least value |
| ConsistentHash.SortedTail | consistenthash/consistenthash.go:47 | dropping the head keeps a ring sorted and removes one copy of the head |
| ConsistentHash.SameHead | consistenthash/consistenthash.go:47 | two sorted arrangements of the same values start with the same value |
| ConsistentHash.SortedUnique | consistenthash/consistenthash.go:47 | a sorted permutation is unique, so any correct sort gives the same ring (insertion sort versus Go's pdqsort) |
| ConsistentHash.Search | consistenthash/consistenthash.go:61-63 | the bisection of `sort.Search` stays within its bounds |
| ConsistentHash.FirstAtLeast | consistenthash/consistenthash.go:61-63 | linear reference: every index before the result holds a smaller value, and the value at the result (if any) is at least the hash |
| ConsistentHash.SearchFindsFirst | consistenthash/consistenthash.go:61-63 | on a sorted ring, the bisection on any consistent window returns the linear reference's index |
| ConsistentHash.SearchIsFirstAtLeast | consistenthash/consistenthash.go:61-63 | on a sorted ring, `sort.Search` over the whole ring is the first index whose value is at least the hash |
| ConsistentHash.FirstAtLeastIs | consistenthash/consistenthash.go:61-63 | that first index is unique |
| ConsistentHash.Successor | consistenthash/consistenthash.go:61-65 | definition: `m.keys[idx % len(m.keys)]` with `idx` the first index at or above the hash (characterised by `SuccessorIs`) |
| ConsistentHash.OwnerOf | consistenthash/consistenthash.go:65 | definition: the map read `m.hashMap[v]`, Go's zero string `""` for a missing value |
| ConsistentHash.ModWrap | consistenthash/consistenthash.go:65 | `idx % len(m.keys)` for an index found by the search: the index itself, or 0 once the search runs off the end |
| ConsistentHash.SuccessorIs | consistenthash/consistenthash.go:61-65 | on a sorted non-empty ring, the routing rule picks exactly the ring value that is the least one at or above the hash, or the least value overall when the hash is above them all (wrap-around), in both directions |
| ConsistentHash.Map.constructor | consistenthash/consistenthash.go:20-31 | an empty ring and map with the given replica count, using the injected hash or else the default checksum |
| ConsistentHash.Map.Add | consistenthash/consistenthash.go:39-48 | the ring becomes the sorted permutation of the old ring plus every appended value; the map becomes `Record` (last write wins); the ring and map stay consistent, and every owner in the map was added |
| ConsistentHash.Map.AddReplicas | consistenthash/consistenthash.go:41-45 | the inner loop appends exactly one owner's `replicas` node values, in order, and maps each to that owner |
| ConsistentHash.AddStep | consistenthash/consistenthash.go:40 | one turn of the outer loop appends and records one more owner's nodes |
| ConsistentHash.AddKeepsValid | consistenthash/consistenthash.go:39-48 | after `Add`, every ring value is in the map, every map value is on the ring, and every mapped owner was added |
| ConsistentHash.Map.Get | consistenthash/consistenthash.go:55-66 | the empty key gives `""`; otherwise the owner of the successor of the key's hash on the ring; on a valid ring the result is always an added owner (totality) |
| ConsistentHash.GetIsSuccessor | consistenthash/consistenthash.go:55-66 | if a ring value is the successor of the key's hash, `Get` returns that value's owner |
| ConsistentHashTest.Clamp64 | consistenthash/consitenthash_test.go:10 | the result is within int64 range, equals the input when it already is, and is the nearer bound otherwise (the saturation of `strconv.ParseInt` on a range error) |
| ConsistentHashTest.Atoi | consistenthash/consitenthash_test.go:10 | `strconv.Atoi` with its error ignored: the fast path for 1 to 18 bytes, `ParseInt` otherwise; the result is always in int64 range (its values are `AtoiDecimal`, `AtoiNegative`, `AtoiOverflowFirst`) |
| ConsistentHashTest.AtoiFast | consistenthash/consitenthash_test.go:10 | the fast path of `strconv.Atoi`: an optional sign then one or more digits, 0 for anything else; the value of at most 18 digits needs no saturation |
| ConsistentHashTest.ScanDigits | consistenthash/consitenthash_test.go:10 | the digit loop of `strconv.ParseUint(s, 10, 64)`: the first non-digit byte gives a syntax error and the first digit past 2^64 - 1 a range error, whichever comes first; a parsed value fits 64 unsigned bits |
| ConsistentHashTest.ParseUint | consistenthash/consitenthash_test.go:10 | definition: `strconv.ParseUint(s, 10, 64)`, a syntax error for the empty string |
| ConsistentHashTest.ParseInt | consistenthash/consitenthash_test.go:10 | `strconv.ParseInt(s, 10, 0)` with its error ignored: a syntax error gives 0, a range error the bound on the side of the sign; the result is in int64 range |
| ConsistentHashTest.ScanDecimal | consistenthash/consitenthash_test.go:10 | a run of digits whose value fits 64 unsigned bits is parsed without error to its decimal value |
| ConsistentHashTest.ScanRangeSticks | consistenthash/consitenthash_test.go:10 | once the digit loop has overflowed, no later byte (digit or not) changes the outcome |
| ConsistentHashTest.AtoiDecimal | consistenthash/consitenthash_test.go:10 | a run of digits whose value fits int64 parses to that value, on the fast and the slow path |
| ConsistentHashTest.AtoiNegative | consistenthash/consitenthash_test.go:10 | a minus sign before such digits parses to the negated value |
| ConsistentHashTest.AtoiOverflowFirst | consistenthash/consitenthash_test.go:10 | overflow is reported before a later non-digit: twenty nines and `x` give the largest int64, nineteen nines and `x` give 0 |
| ConsistentHashTest.AtoiItoa | consistenthash/consitenthash_test.go:10 | parsing the decimal form of a number in int64 range gives the number back |
| ConsistentHashTest.TestHash | consistenthash/consitenthash_test.go:9-12 | the test's hash `uint32(Atoi(s))` maps a name of one to nine digits to its decimal value |
| ConsistentHashTest.NineDigits | consistenthash/consitenthash_test.go:10-11 | a name of one to nine digits parses to its value, which is below 2^32, so `uint32` keeps it |
| ConsistentHashTest.DecimalBound | consistenthash/consitenthash_test.go:10 | n decimal digits denote a value below 10^n |
| ConsistentHashTest.ShortDecimal | consistenthash/consitenthash_test.go:10 | at most 18 digits denote a value that fits int64 |
| ConsistentHashTest.TwoDigitHash | consistenthash/consitenthash_test.go:9-12 | a two-digit key hashes to its decimal value |
| ConsistentHashTest.DigitNodeHash | consistenthash/consitenthash_test.go:15 | the i-th virtual node of a one-digit owner d hashes to `10·i + d` |
| ConsistentHashTest.DigitOwnerNodes | consistenthash/consitenthash_test.go:15 | a one-digit owner d gets the three nodes d, 10+d and 20+d |
| ConsistentHashTest.ThreeOwnerNodes | consistenthash/consitenthash_test.go:15-16 | three one-digit owners get their nine nodes in order |
| ConsistentHashTest.FirstRing | consistenthash/consitenthash_test.go:15-16 | `Add("6", "4", "2")` appends 6, 16, 26, 4, 14, 24, 2, 12, 22 |
| ConsistentHashTest.EightNodes | consistenthash/consitenthash_test.go:32-33 | `Add("8")` appends 8, 18, 28 |
| ConsistentHashTest.KeyHashes | consistenthash/consitenthash_test.go:18-23 | the test keys hash to 2, 11, 23 and 27 |
| ConsistentHashTest.RouteBySet | consistenthash/consitenthash_test.go:25-29 | the successor depends only on the set of ring values, not their order |
| ConsistentHashTest.FirstTargets | consistenthash/consitenthash_test.go:18-23 | on the first ring, 2, 11, 23 and 27 have successors 2, 12, 24 and 2 (wrap-around) |
| ConsistentHashTest.SecondTargets | consistenthash/consitenthash_test.go:33-36 | with 8, 18 and 28 added, 27 now has successor 28 |
| ConsistentHashTest.RouteFirst | consistenthash/consitenthash_test.go:18-29 | on any sorted arrangement of the first ring, the routing rule gives those successors |
| ConsistentHashTest.RouteSecond | consistenthash/consitenthash_test.go:33-42 | on the second ring the same, with 27 to 28 |
| ConsistentHashTest.OwnersFirst | consistenthash/consitenthash_test.go:16 | after the first `Add`, 2 and 12 map to "2" and 24 maps to "4" |
| ConsistentHashTest.OwnersSecond | consistenthash/consitenthash_test.go:33 | `Add("8")` maps 28 to "8" and leaves 2, 12 and 24 as they were |
| ConsistentHashTest.FirstRouting | consistenthash/consitenthash_test.go:18-29 | a ring holding the first test's values and owners, under any hash giving the test keys 2, 11, 23, 27, routes "2", "11", "23", "27" to "2", "2", "4", "2" |
| ConsistentHashTest.SecondRouting | consistenthash/consitenthash_test.go:33-42 | the same ring with 8, 18, 28 added and 28 owned by "8" routes them to "2", "2", "4", "8" |
| ConsistentHashTest.FirstPhase | consistenthash/consitenthash_test.go:16-29 | after `Add("6", "4", "2")`, keys "2", "11", "23", "27" route to "2", "2", "4", "2" |
| ConsistentHashTest.SecondPhase | consistenthash/consitenthash_test.go:33-42 | after `Add("8")` they route to "2", "2", "4", "8" |
| ConsistentHashTest.AddEight | consistenthash/consitenthash_test.go:33-42 | adding "8" to the first ring makes the four keys route to "2", "2", "4", "8" |
| ConsistentHashTest.TestHashing | consistenthash/consitenthash_test.go:8-43 | the whole test: routing before and after `Add("8")` is exactly what the test expects |

## Left out

- `http.go`, `peers.go`, `singlefilght/singleflight.go` and `simplecache_test.go` (the HTTP pool, peer picking, request coalescing and the `Group` cache) are not part of this model.
- `crc32.ChecksumIEEE` is a foreign library routine. It is the `checksum` parameter of `Map`'s constructor, and no property of CRC-32 is used.
- `container/list` is a doubly linked list in Go. Here it is a sequence of element objects. The element objects are shared between the list and the index, so in-place updates are still seen through both. The links between list nodes are not modelled.
- `Value.Len()` is a function to natural numbers fixed per cache. A negative `Len()` is not modelled.
- `OnEvicted` is a flag plus a log of the pairs it is called with. What the callback itself does is not modelled.
- Lru.Cache.constructor: `OnEvicted` is an exported field that callers may reassign after `New`; the model fixes `notify` at construction, so switching the callback on or off between operations is not modelled.
- Lru.Cache.constructor: requires `maxBytes >= 0`. With a negative budget the eviction loop of `Add` never ends once the list is empty.
- Lru.Cache.Add: the counter is an unbounded integer. The int64 overflow of `nBytes` and `maxBytes` is not modelled.
- Lru.Cache.Add: `Valid()` asks for the counter to be within a non-zero budget. As written the counter can drift from the true byte total in either direction (see Findings), so this does not bound the bytes actually held. `AddFixed` does bound them.
- ConsistentHash.Map.Get: requires a non-empty ring when the key is non-empty. Go's code takes `idx % len(m.keys)` and panics on an empty ring, and no result for an empty ring is modelled. The repository reaches that case: `HTTPPool.Set()` with no peers builds an empty ring (http.go:77-78), and `PickPeer` then calls `Get` on it (http.go:89), which panics for any non-empty key.
- ConsistentHash.SortInts: it is an insertion sort, not Go's pdqsort. `SortedUnique` shows the sorted ring is the same.
- ConsistentHash.NodeHash: `int(uint32)` is taken exactly, because Go's `int` here is 64 bits.
- ConsistentHashTest.Atoi: `strconv` is Go's standard library and not part of this model's sources; `Atoi`, `ParseInt` and `ParseUint` follow Go's implementation for base 10 on a 64-bit platform. Their error results are not modelled (the test discards them), nor are underscores and other bases, which base 10 rejects as syntax errors anyway.
- ConsistentHashTest.TestHashing: the test's iteration over a Go map and its `t.Errorf` reporting are not modelled. The four lookups are checked as a sequence.
- Concurrency: neither structure is safe for concurrent use in Go, and none is modelled.

## Findings

| source | as written | input that shows it | evidently intended | confidence | as-written member | corrected member |
|---|---|---|---|---|---|---|
| lru/lru.go:77-78 | the new value is stored before the size delta is computed, so `value.Len() - entry.value.Len()` is always 0 and an update never changes `nBytes` | a cache holding key "k" with a 5-byte value; `Add("k", a 1-byte value)` leaves `nBytes` at 6 while 2 bytes are held | `nBytes` changes by the new size minus the replaced size, so it stays equal to the bytes held | not executed | LruModel.PutBytesDrift | LruModel.PutBytesFixedExact |
