# dsa_rust core in Dafny

A Dafny model of the data structures and algorithms of the `dsa_rust`
crate. It covers five parts:

- the separate-chaining `HashMap` (`new`, `len`, `is_empty`,
  `key_to_index`, `resize`, `insert`, `get`, `get_mut`, `remove`,
  `contains_key`);
- its four iterators: borrowed pairs, keys, values, and the owning
  `IntoPairs`;
- the growable stack `Vector` (`new`, `push`, `pop`, `peek`, `grow`);
- the pangram classifier `is_pangram`;
- the two slice sorts `merge_sort` and `quicksort` with
  `lomuto_partition`.

The model is built from pure functions on immutable datatypes. Loops are
kept as methods with invariants wherever the source's loop is the point:
- the merge loop;
- the partition loop;
- the pangram counting and judging loops;
- the iterator-draining `for` loops.

A Rust `&mut` operation becomes a function that returns the new value,
together with whatever the operation returns.

Files:

| file | module | models |
|---|---|---|
| `wrappers.dfy` | `Wrappers` | `Option` |
| `seqs.dfy` | `Seqs` | reversal, sortedness, sorted-permutation uniqueness |
| `hashmap.dfy` | `HashMaps` | `hashmap.rs`: layout, invariant, operations |
| `hashmap_lemmas.dfy` | `HashMapLemmas` | sequences of inserts, growth, load bound, the source's map tests |
| `hashmap_iter.dfy` | `HashMapIter` | `iter.rs`: the four iterators and the `for` loops over them |
| `vector.dfy` | `Vectors` | `vector.rs` |
| `pangram.dfy` | `Pangrams` | `pangram.rs` |
| `merge_sort.dfy` | `MergeSort` | `merge_sort.rs` |
| `quicksort.dfy` | `Quicksort` | `quicksort.rs` |
| `sort_tests.dfy` | `SortTests` | the integer tests both sorting files share |

Main modelling choices:

- **Hashing.** The hasher is a parameter `hash: K -> nat`. A key's bucket
  among `n` buckets is `hash(k) % n`, as in `key_to_index`.
- **Map meaning.** What a map holds is defined by `HashMaps.Lookup`. It is
  a first-match search over all pairs in bucket order, with no hashing.
  Every operation is specified against `Lookup`, and `get` is proved to
  agree with it.
- **Map invariant.** `HashMaps.Valid` states three things:
  - `items` is the number of stored pairs;
  - every pair sits in the bucket its key hashes to;
  - no key occurs twice.
- **`get_mut`** returns the position, inside the key's bucket, of the value
  the `&mut V` designates. `HashMaps.WriteThrough` is a store through that
  reference.
- **Borrowed iterators.** `Pairs`, `Keys` and `Values` carry the same state
  `(map, bucket, pair)`, so they share the datatype `HashMapIter.Cursor`.
  `HashMapIter.Remaining` is the sequence a cursor has still to yield.
  `IntoPairs` pops from the back of each bucket, so it yields each bucket
  reversed (`HashMapIter.Drain`).
- **Sorting.** A `&mut [T]` slice is a `seq<int>`. Each sort returns the
  slice's final contents. `PartialOrd` is modelled by the integer order.
- **Pangram letter counts.** The counts are the multiplicities in the
  lowercased text. The classification is proved equivalent to statements
  about the multiset of letters: a permutation of the alphabet for Perfect,
  and a strict superset of it for Good.

`insert` guards against a map with no buckets
(`src/datastructures/hashmap/hashmap.rs:63`), but `get`, `get_mut`, `remove`
and `contains_key` do not: on a new map they compute `% 0` and panic. The
`rust_doc_example` test copies the documentation example of the standard
library's `HashMap`, which answers "not found" on an empty map. The model
keeps the code's behaviour as `HashMaps.GetAsWritten`,
`HashMaps.GetMutAsWritten`, `HashMaps.RemoveAsWritten` and
`HashMaps.ContainsKeyAsWritten`, and records the difference under Findings.
The operations the rest of the model uses answer "not found" there, which is
the evidently intended behaviour.

## Model

| member | source | states |
|---|---|---|
| HashMaps.New | src/datastructures/hashmap/hashmap.rs:17-22 | a new map has no buckets, no items, and no key maps to anything |
| HashMaps.NewValid | src/datastructures/hashmap/hashmap.rs:17-22 | a new map satisfies the map invariant |
| HashMaps.LenCountsKeys | src/datastructures/hashmap/hashmap.rs:24-26 | under the invariant, `len` is the number of distinct keys the map holds, and a key is among them exactly when a lookup finds it |
| HashMaps.IsEmptyIffNoKeys | src/datastructures/hashmap/hashmap.rs:24-30 | `is_empty` holds exactly when `len` is 0, and exactly when no key maps to a value |
| HashMaps.KeyToIndex | src/datastructures/hashmap/hashmap.rs:32-40 | the bucket index is below the bucket count |
| HashMaps.Position | src/datastructures/hashmap/hashmap.rs:108-112 | `None` exactly when no pair of the bucket has the key; otherwise the first slot holding the key |
| HashMaps.Find | src/datastructures/hashmap/hashmap.rs:84-88 | `None` exactly when no pair has the key; a found value is paired with the key in the bucket |
| HashMaps.KeyInOwnBucket | src/datastructures/hashmap/hashmap.rs:67-73 | with keys placed by their hash, a pair is stored somewhere exactly when it is stored in its key's own bucket |
| HashMaps.BucketLookup | src/datastructures/hashmap/hashmap.rs:79-89 | for a valid map, searching only the key's own bucket gives the same answer as searching every bucket |
| HashMaps.GrownCount | src/datastructures/hashmap/hashmap.rs:43-46 | the new bucket count is larger than the old one |
| HashMaps.PushPair | src/datastructures/hashmap/hashmap.rs:53-55 | appending a pair to its key's bucket keeps every pair placed by its hash and adds exactly that pair |
| HashMaps.Distribute | src/datastructures/hashmap/hashmap.rs:48-57 | the rehash produces the requested number of buckets, every pair in its key's bucket, and exactly the input pairs |
| HashMaps.Resize | src/datastructures/hashmap/hashmap.rs:42-60 | resize moves to 4 buckets or doubles, keeps the item count and exactly the same pairs, places them by the new count, and keeps the invariant |
| HashMaps.ResizeKeepsLookup | src/datastructures/hashmap/hashmap.rs:42-60 | every key maps to the same value before and after a resize |
| HashMaps.ReplaceValue | src/datastructures/hashmap/hashmap.rs:70-71 | overwriting the value of a found key keeps the invariant, maps the key to the new value and changes no other key |
| HashMaps.AppendPair | src/datastructures/hashmap/hashmap.rs:72-75 | appending a pair for an absent key keeps the invariant with one more item, maps the key to its value and changes no other key |
| HashMaps.SwapRemove | src/datastructures/hashmap/hashmap.rs:115 | `swap_remove` shortens the bucket by one, removes exactly the chosen pair, and moves the last pair into its slot |
| HashMaps.RemovePairLookups | src/datastructures/hashmap/hashmap.rs:113-116 | removing a key's pair from pairs with unique keys makes the key absent and leaves every other key's value |
| HashMaps.RemoveAt | src/datastructures/hashmap/hashmap.rs:110-116 | swap-removing a found key's pair keeps the invariant with one item fewer, makes the key absent and changes no other key |
| HashMaps.GetAsWritten | src/datastructures/hashmap/hashmap.rs:79-89 | `get` as written fails with a remainder by zero exactly when the map has no buckets, and otherwise answers what the map holds |
| HashMaps.GetMutAsWritten | src/datastructures/hashmap/hashmap.rs:91-101 | `get_mut` as written fails with a remainder by zero exactly when the map has no buckets, and otherwise designates the same slot as the corrected `get_mut` |
| HashMaps.RemoveAsWritten | src/datastructures/hashmap/hashmap.rs:103-117 | `remove` as written fails with a remainder by zero exactly when the map has no buckets, and otherwise has the same result and effect as the corrected `remove` |
| HashMaps.ContainsKeyAsWritten | src/datastructures/hashmap/hashmap.rs:119-130 | `contains_key` as written fails with a remainder by zero exactly when the map has no buckets, and otherwise answers as the corrected `contains_key` |
| HashMaps.QueriesOnNewMapPanic | src/datastructures/hashmap/hashmap.rs:17-22 | on a new map, which holds no key, `get`, `get_mut`, `remove` and `contains_key` as written all panic |
| HashMaps.Get | src/datastructures/hashmap/hashmap.rs:79-89 | `get` returns exactly the value the map holds for the key, also when there are no buckets |
| HashMaps.GetMut | src/datastructures/hashmap/hashmap.rs:91-101 | `get_mut` finds a slot exactly when the key is present; that slot is in the key's bucket, holds the key and holds the key's value |
| HashMaps.WriteThrough | src/datastructures/hashmap/hashmap.rs:91-101 | a store through the `get_mut` reference keeps the invariant, maps the key to the stored value and changes nothing else |
| HashMaps.NeedsResize | src/datastructures/hashmap/hashmap.rs:63 | the integer trigger fires exactly when the map has no buckets or its load factor exceeds three quarters; when it does not fire there is room for one more item |
| HashMaps.Insert | src/datastructures/hashmap/hashmap.rs:62-77 | insert keeps the invariant, returns the previous value, maps the key to the new value, changes no other key, counts a new key once, and resizes exactly when the map has no buckets or holds more than three quarters as many items as buckets |
| HashMaps.Remove | src/datastructures/hashmap/hashmap.rs:103-117 | remove keeps the invariant, returns the removed value, makes the key absent, changes no other key, decrements the count only on success, and leaves the map untouched when the key is absent |
| HashMaps.ContainsKey | src/datastructures/hashmap/hashmap.rs:119-130 | `contains_key` holds exactly when `get` finds the key, and exactly when some pair has the key |
| HashMapLemmas.InsertAll | src/datastructures/hashmap/hashmap.rs:62-77 | after a sequence of inserts, every key maps to the value inserted last for it, and keys never inserted keep their old value |
| HashMapLemmas.InsertAllRetrievable | src/datastructures/hashmap/hashmap.rs:62-89 | every inserted key is found with its last inserted value, across any number of resizes |
| HashMapLemmas.FreshInsertStep | src/datastructures/hashmap/hashmap.rs:62-77 | inserting a new key adds one item and resizes exactly when the trigger fires |
| HashMapLemmas.FreshInsertsGrowth | src/datastructures/hashmap/hashmap.rs:42-77 | inserting distinct keys into a new map counts each once, and the bucket count follows the 3/4 trigger with doubling |
| HashMapLemmas.GrowthToTen | src/datastructures/hashmap/hashmap.rs:43-46 | along inserts of new keys into a new map the bucket count is 4 after one insert, 8 after five and 16 after ten |
| HashMapLemmas.TenInsertsSixteenBuckets | src/datastructures/hashmap/hashmap.rs:62-77 | ten distinct keys give ten items in sixteen buckets, each key found with its value |
| HashMapLemmas.DistinctRetrievable | src/datastructures/hashmap/hashmap.rs:62-89 | after inserting distinct keys into a new map, `get` finds each key with its value |
| HashMapLemmas.InsertKeepsLoadBound | src/datastructures/hashmap/hashmap.rs:62-65 | insert keeps the map at least 4 buckets wide and at most one item above three quarters full, so it never holds more items than buckets |
| HashMapLemmas.InsertGetRemoveScenario | src/datastructures/hashmap/hashmap.rs:136-150 | the source's `insert` test: length 1, found, removed with its value, length 0, then absent |
| HashMapLemmas.FourInsertsThenQueries | src/datastructures/hashmap/hashmap.rs:152-194 | for four distinct keys: four items, an absent key not contained, removal of the fourth returning its value with three items left, the third key still found, another absent key not found |
| HashMapLemmas.BookReviewsScenario | src/datastructures/hashmap/hashmap.rs:152-194 | the source's documentation example with its own titles and reviews |
| HashMapIter.Start | src/datastructures/hashmap/iter.rs:42-48 | `into_iter` on `&map` (and `keys`, `values`) starts a cursor that will yield every pair of the map in bucket order |
| HashMapIter.PairsNext | src/datastructures/hashmap/iter.rs:16-32 | `next` yields `None` exactly when nothing remains, with the cursor past the last bucket; otherwise it yields the first remaining pair, the rest remain, and the cursor moves strictly forward in (bucket, slot) order |
| HashMapIter.KeysNext | src/datastructures/hashmap/iter.rs:99-115 | `Keys::next` yields the key of the first remaining pair, or `None` exactly when nothing remains |
| HashMapIter.ValuesNext | src/datastructures/hashmap/iter.rs:143-159 | `Values::next` yields the value of the first remaining pair, or `None` exactly when nothing remains |
| HashMapIter.CollectPairs | src/datastructures/hashmap/iter.rs:195-198 | a `for` loop over `&map` sees exactly the remaining pairs, in order |
| HashMapIter.CollectKeys | src/datastructures/hashmap/iter.rs:215-218 | a `for` loop over `keys()` sees the keys of the remaining pairs, in order |
| HashMapIter.CollectValues | src/datastructures/hashmap/iter.rs:229-232 | a `for` loop over `values()` sees the values of the remaining pairs, in order |
| HashMapIter.IterationYieldsEntries | src/datastructures/hashmap/iter.rs:188-198 | iterating a valid map yields `len` pairs with distinct keys, and yields `(k, v)` exactly when the map maps `k` to `v` |
| HashMapIter.IntoIter | src/datastructures/hashmap/iter.rs:79-84 | the owning iterator will yield every bucket back to front, first bucket first |
| HashMapIter.IntoNext | src/datastructures/hashmap/iter.rs:58-70 | `IntoPairs::next` yields `None` exactly when nothing remains; otherwise it yields the first remaining pair and the rest remain; the buckets it skips were empty, it changes no bucket but the one it stops at, and it never moves backwards |
| HashMapIter.PopBack | src/datastructures/hashmap/iter.rs:60 | `bucket.pop()` changes only the current bucket and neither the bucket index nor the item count |
| HashMapIter.Exhaust | src/datastructures/hashmap/iter.rs:58-70 | once `next` has returned `None`, every bucket from the starting one on is empty, the earlier ones are untouched and the item count is unchanged |
| HashMapIter.ConsumedMapIsEmpty | src/datastructures/hashmap/iter.rs:58-84 | consuming a map from `into_iter` to exhaustion leaves no pair in any bucket while the stale item count remains |
| HashMapIter.CollectInto | src/datastructures/hashmap/iter.rs:202-204 | a `for` loop over the owned map sees exactly the remaining pairs, in order |
| HashMapIter.DrainPermutesFlatten | src/datastructures/hashmap/iter.rs:58-70 | draining buckets from the back yields a permutation of the stored pairs |
| HashMapIter.IntoIterationYieldsEntries | src/datastructures/hashmap/iter.rs:200-204 | consuming a valid map yields `len` pairs with distinct keys, and yields `(k, v)` exactly when the map maps `k` to `v` |
| Vectors.Len | src/datastructures/vector.rs:22-24 | `len` is zero exactly when nothing is stored and never exceeds the capacity of a valid vector |
| Vectors.Capacity | src/datastructures/vector.rs:19-21 | the capacity of a valid vector holds all live elements |
| Vectors.New | src/datastructures/vector.rs:25-32 | a new vector is empty with capacity 0 |
| Vectors.Grow | src/datastructures/vector.rs:66-97 | grow keeps the elements and takes the capacity from 0 to 1 or doubles it, so it stays a power of two |
| Vectors.Push | src/datastructures/vector.rs:34-44 | push appends the element, grows only when full, and keeps the elements within the capacity |
| Vectors.Pop | src/datastructures/vector.rs:46-54 | pop answers `None` exactly on an empty vector; otherwise it removes and returns the last element, never shrinking the capacity |
| Vectors.Peek | src/datastructures/vector.rs:56-63 | peek answers what pop would return |
| Vectors.PushPop | src/datastructures/vector.rs:34-54 | pop after push returns the pushed element and the old contents |
| Vectors.PushAll | src/datastructures/vector.rs:34-44 | pushing a sequence appends it in order and keeps the elements within the capacity |
| Vectors.PopAll | src/datastructures/vector.rs:46-54 | popping until `None` returns the elements back to front |
| Vectors.PopTimes | src/datastructures/vector.rs:46-54 | `n` pops remove the last `n` elements, or all of them, and keep the capacity |
| Vectors.PushThenPopAll | src/datastructures/vector.rs:125-167 | pushing then popping returns the pushed sequence reversed, after which pop and peek find nothing |
| Vectors.PushAllCapacity | src/datastructures/vector.rs:34-44 | the capacity after pushes into a new vector depends only on how many elements were pushed |
| Vectors.CapacityIsLeastPowerOfTwo | src/datastructures/vector.rs:66-97 | after `n > 0` pushes the capacity is a power of two at least `n` and below `2n` |
| Vectors.PushCapacities | src/datastructures/vector.rs:104-123 | one push gives capacity 1; ten pushes give length 10 and capacity 16 |
| Pangrams.ToLower | src/string/pangram.rs:30 | capitals map to their lowercase letters; every other character is unchanged |
| Pangrams.Lowercase | src/string/pangram.rs:30 | lowercasing works character by character, keeps the length, and leaves no capital letter |
| Pangrams.LowercaseCounts | src/string/pangram.rs:30 | after lowercasing, a letter occurs as often as it and its capital did before, a capital not at all, and every other character as often as before |
| Pangrams.Letter | src/string/pangram.rs:22 | the counter's keys are lowercase letters |
| Pangrams.Alphabet | src/string/pangram.rs:22 | the counter's key string holds every lowercase letter exactly once and nothing else, in alphabetical order |
| Pangrams.CountLetters | src/string/pangram.rs:22-42 | the counting loop reports Bad exactly when some character is not whitespace, punctuation or a lowercase letter (on lowercased text, a capital cannot occur); otherwise each letter's count is its number of occurrences |
| Pangrams.Judge | src/string/pangram.rs:44-60 | Bad exactly when a letter is missing, Perfect exactly when each letter occurs once, Good exactly when all occur and one repeats |
| Pangrams.IsPangram | src/string/pangram.rs:17-61 | `is_pangram` agrees with the count-based classification for every text |
| Pangrams.CountIsLetterMultiplicity | src/string/pangram.rs:30-42 | a letter's count is its multiplicity among the text's letters |
| Pangrams.OnceEachIffAlphabet | src/string/pangram.rs:44-57 | every letter counted once exactly when the text's letters are a permutation of the alphabet |
| Pangrams.SomeRepeatIffMoreLetters | src/string/pangram.rs:44-60 | all letters counted with one repeated exactly when the letters contain the alphabet and more than 26 letters |
| Pangrams.PerfectIffAlphabetPermutation | src/string/pangram.rs:5-13 | Perfect exactly when the text is ASCII, has no disallowed character, and its letters, ignoring case, are a permutation of the alphabet |
| Pangrams.GoodIffAlphabetAndMore | src/string/pangram.rs:5-13 | Good exactly when the text is ASCII, has no disallowed character, and its letters contain the alphabet with some letter repeated |
| Pangrams.CaseInsensitive | src/string/pangram.rs:30 | a text classifies like its lowercase form |
| Pangrams.BadExamples | src/string/pangram.rs:98-105 | the source's Bad tests: a leading underscore, "abc", the empty text and a lone space are Bad |
| Pangrams.AlphabetIsPerfect | src/string/pangram.rs:83-89 | the source's first Perfect test: the alphabet is Perfect |
| MergeSort.TakeLeft | src/sorting/merge_sort.rs:20-24 | taking the strictly smaller left head keeps the merged prefix sorted, counted and below both remaining heads |
| MergeSort.TakeRight | src/sorting/merge_sort.rs:24-27 | taking the right head on a tie or when it is smaller keeps the merge state |
| MergeSort.AppendRemainder | src/sorting/merge_sort.rs:30-34 | once one run is exhausted, appending the other's rest gives a sorted permutation of both runs with the full length |
| MergeSort.Merge | src/sorting/merge_sort.rs:16-36 | merging two sorted runs gives a sorted permutation of their concatenation |
| MergeSort.MergeSort | src/sorting/merge_sort.rs:4-37 | the result is sorted and a permutation of the input; slices shorter than 2 are unchanged |
| Quicksort.Swap | src/sorting/quicksort.rs:21 | a swap exchanges the two positions, keeps the others and keeps the multiset |
| Quicksort.PartitionStep | src/sorting/quicksort.rs:19-24 | one loop step keeps: prefix at most the pivot, middle above it, pivot last, same multiset |
| Quicksort.PlacePivot | src/sorting/quicksort.rs:26-27 | the final swap puts the original last element at `i` with smaller-or-equal elements before it and larger ones after |
| Quicksort.LomutoPartition | src/sorting/quicksort.rs:14-28 | the returned index is in range and holds the original last element, everything before it is at most it, everything after is larger, same multiset |
| Quicksort.Assemble | src/sorting/quicksort.rs:9-11 | a sorted lower part, the pivot and a sorted upper part form a sorted sequence |
| Quicksort.Quicksort | src/sorting/quicksort.rs:3-12 | the result is sorted and a permutation of the input; slices shorter than 2 are unchanged |
| SortTests.TwoElements | src/sorting/merge_sort.rs:56-61 | the only sorted arrangement of `[42, 24]` is `[24, 42]` |
| SortTests.AlreadySorted | src/sorting/merge_sort.rs:63-68 | the only sorted arrangement of `[1, 2, 3, 4, 5]` is itself |
| SortTests.ReverseSorted | src/sorting/merge_sort.rs:70-76 | the only sorted arrangement of `[5, 4, 3, 2, 1]` is `[1, 2, 3, 4, 5]` |
| SortTests.Shuffled | src/sorting/merge_sort.rs:78-83 | the only sorted arrangement of `[5, 2, 4, 1, 3]` is `[1, 2, 3, 4, 5]` |
| SortTests.MergeSortTests | src/sorting/merge_sort.rs:42-83 | `merge_sort` on the six integer test arrays gives the expected arrays |
| SortTests.QuicksortTests | src/sorting/quicksort.rs:34-75 | `quicksort` on the six integer test arrays gives the expected arrays |
| Seqs.SortedUnique | src/sorting/merge_sort.rs:42-83 | two sorted permutations of each other are equal, so sortedness plus permutation fixes a sort's output |

## Left out

- `entry.rs` (the Entry API): the file declares only the entry types. Its `entry`, `or_insert`, `and_modify` and indexing are not implemented in any file of the crate.
- HashMaps.KeyToIndex: `DefaultHasher` and its 64-bit output are not modelled. The hash is an arbitrary `K -> nat` parameter, so the `u64` conversions around `%` are not modelled.
- Borrowed queries (`K: Borrow<Q>`): lookups take a `K`.
- Capacity hints (`Vec::with_capacity`): they have no observable effect.
- `usize` overflow of `items`, the bucket count and the vector capacity: integers are unbounded.
- Vectors.Grow: the raw allocation, reallocation and allocation-failure path are not modelled. The zero-sized-type assertions and the `isize::MAX` guard are left out too; that guard compares a value with the maximum of its own type, so it is never true.
- Lifetimes and borrow rules: borrowed iterators hold the map by value. The single-writer discipline is left to Rust.
- HashMapIter.IntoNext: the owning iterator pops pairs but, like the source, never decrements the drained map's `items`. The model keeps that count unchanged.
- HashMapIter.CollectInto is a recursive function rather than a loop. The `for` loop it stands for is the same repeated `next`.
- The iterator tests' `BOOKS.contains` checks are covered generally by HashMapIter.IterationYieldsEntries and HashMapIter.IntoIterationYieldsEntries, rather than stated for those five books.
- Pangrams.CountLetters: the per-letter counter is a `u32` in the source. Its overflow after 2^32 occurrences is not modelled.
- Unicode: only ASCII text can be anything but Bad. `to_lowercase`, `is_whitespace` and `is_ascii_punctuation` are therefore modelled on ASCII only.
- The Perfect and Good pangram test sentences other than the alphabet are not stated as lemmas. Their letter counts are proved in general by Pangrams.PerfectIffAlphabetPermutation and Pangrams.GoodIffAlphabetAndMore.
- The sorts are generic in the source (`merge_sort` over `PartialOrd + Copy`, `quicksort` and `lomuto_partition` over `PartialOrd`) and are modelled on integers. The strings test of both sorting files is therefore left out.
- Quicksort.LomutoPartition requires a non-empty slice. The source computes `len - 1` on an unsigned length, and `quicksort` only calls it on slices of at least two elements.
- `println!` output in the tests.

## Findings

| source | as written | input that shows it | evidently intended | confidence | as-written member | corrected member |
|---|---|---|---|---|---|---|
| src/datastructures/hashmap/hashmap.rs:79-89 | `get` computes `hash % buckets.len()` before it looks at any bucket. `get_mut`, `remove` and `contains_key` do the same. | `HashMap::new().get(&5)`: a new map has zero buckets, so `% 0` panics | a map with no buckets holds nothing, so the answer is `None` (or `false`), as for any absent key | high; not executed | HashMaps.GetAsWritten, HashMaps.GetMutAsWritten, HashMaps.RemoveAsWritten, HashMaps.ContainsKeyAsWritten, HashMaps.QueriesOnNewMapPanic | HashMaps.Get, HashMaps.GetMut, HashMaps.Remove, HashMaps.ContainsKey |
