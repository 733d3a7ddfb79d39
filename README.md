# ntl containers in Dafny

A model of the container core of `ntl`, a hand-written C++ container library.
It covers five structures, each kept on an explicit buffer or chain of nodes with counters:

- `Array<T>`, a growable array, with its three sorts and two searches;
- `Map<K, V>`, a hash map with linear probing, and its three 64-bit string hashes;
- `String`, a growable, NUL-terminated string;
- `List<T>`, a singly linked list with a sentinel head, plus the `Stack` and `Queue` built on it;
- `Bitset<N>`, a bitset that stores one `'0'`/`'1'` byte per bit.

Modelling conventions:

- Elements and values are `int`.
- `Size` is `nat`. An `I64` result of -1 is the integer -1.
- A `VERIFY(...)` check of the library is a `requires` clause.
- Behaviour the C++ leaves undefined is also excluded by `requires`: a read or a write outside a buffer, a dereference of null, or a probe loop that never ends.
- Every class updates its fields in place, as the C++ does. A `class` holds the same fields, and an `array` stands for each heap buffer.
- Each method is proved against specification functions over sequences. Lemmas about those functions state what the library promises.

Files (one module each):

| file | module | models |
|---|---|---|
| base.dfy | Base | `Option`, the wrap of `Size` decrements at 2^64, decimal rendering (`std::to_string`) |
| buffers.dfy | Buffers | the element-copy loops shared by the buffers |
| sort_spec.dfy | SortSpec | `algorithms::Sort` / `algorithms::Search`, sortedness, merge, binary and front/back search |
| ntl_array.dfy | NtlArray | `Array<T>` |
| hashing.dfy | Hashing | `hashDJB2`, `hashSDBM`, `hashFNV1a` over `bv64` (arithmetic modulo 2^64) |
| ntl_map.dfy | NtlMap | `Map<K, V>` with integral keys and string keys |
| ntl_string.dfy | NtlString | `String` |
| ntl_list.dfy | NtlList | `List<T>` and its `Node` |
| ntl_stack.dfy, ntl_queue.dfy | NtlStack, NtlQueue | `Stack<T>`, `Queue<T>` |
| ntl_bitset.dfy | NtlBitset | `Bitset<N>` |

The model follows the code as written, including where it departs from its own documentation:

- Array:
  - `Insert(x, i)` grows only when `i` reaches the capacity. On a full array an index below the capacity makes the shift write one slot past the buffer.
  - `Remove` returns the element that moved into the removed slot.
  - The copy constructor allocates the copied array's capacity but reports twice the size.
  - Merge sort of at most one element installs a one-slot buffer.
  - After either of those two, `Insert(x)` can pass its capacity check and write one slot past the buffer.
  - `GetSubArray` passes the sorted flag as the keep-sorted policy.
  - `GetNeighbors` answers the found slot itself as the right neighbour.
  - `ToString` of an empty array is `"Array("`.
  - `binarySearch` answers a one-element range without comparing.
- Map:
  - The copy constructors count every copied pair twice.
  - `Remove` leaves no tombstone, which can cut probe chains.
- String:
  - `Replace(c, '\0')` shortens the string even when `c` is absent.
  - `Resize` allocates exactly `capacity` slots.
  - `Replace(String, String)` doubles the capacity when the new length fits, not when it does not.
- List:
  - `RemoveElement` decrements the size unconditionally.
  - `Clear` does not reset the tail.
  - `FindElement` answers the last node when the value is absent.

Each of these is stated in a contract. Where the behaviour is evidently a bug, "## Findings" pairs it with a corrected member.

## Model

| member | source | states |
|---|---|---|
| Base.DecrementSize | ntl/src/data/List.hpp:419 | `m_size--` on a `Size`: one less when positive; 0 wraps around to 2^64 - 1 |
| Base.NatToDecimal | ntl/src/data/String.cpp:137 | the decimal text of a `Size`: at least one digit, all digits, no leading zero |
| Base.IntToDecimal | ntl/src/data/String.cpp:135 | the decimal text of an `int`: non-empty, with a leading `-` exactly for negative numbers |
| Base.DecimalRoundTrip | ntl/src/data/String.cpp:137 | reading back the decimal text of `n` gives `n` |
| Base.DecimalInjective | ntl/src/data/String.cpp:137 | different numbers have different decimal texts |
| Hashing.Finish | ntl/src/data/Map.hpp:630 | SDBM's result is odd and below 2^63; DJB2 and FNV-1a return the accumulator unchanged |
| Hashing.CBytes | ntl/src/data/Map.hpp:616 | the bytes a C-string loop reads: the longest prefix without a zero byte, ending at a zero byte or at the end |
| Hashing.FoldConcat | ntl/src/data/Map.hpp:612-645 | hashing a concatenation resumes from the first part's accumulator: the hashes are computed byte by byte, first byte first |
| Hashing.HashExamples | ntl/src/data/Map.hpp:612-645 | published reference values: the empty key hashes to each seed (1 for SDBM); `"a"` is 177670 under DJB2 and 0xaf63dc4c8601ec8c under FNV-1a; bytes after a zero byte are ignored |
| Hashing.FoldCString | ntl/src/data/Map.hpp:616-617 | the shared byte loop folds exactly the bytes before the terminating zero, starting from the algorithm's seed |
| Hashing.HashDJB2 | ntl/src/data/Map.hpp:612-620 | DJB2: start at 5381, `h := 33h + c` modulo 2^64 for every byte |
| Hashing.HashSDBM | ntl/src/data/Map.hpp:623-631 | SDBM: `h := c + (h << 6) + (h << 16) - h` modulo 2^64; the result is odd and below 2^63 |
| Hashing.HashFNV1a | ntl/src/data/Map.hpp:634-645 | FNV-1a: start at 14695981039346656037, `h := (h xor c) * 1099511628211` modulo 2^64 |
| Hashing.CalculateHash | ntl/src/data/Map.hpp:591-609 | the dispatcher answers the selected algorithm's hash |
| SortSpec.SortedPermutationUnique | ntl/src/data/Array.hpp:801-819 | two sorted permutations of the same elements are equal, so every sort strategy leaves the same array |
| SortSpec.SortedAroundPivot | ntl/src/data/Array.hpp:1059-1071 | a sorted part at most the pivot, the pivot, then a sorted part above it, is sorted |
| SortSpec.SortedInsertion | ntl/src/data/Array.hpp:1042-1050 | inserting `v` after the elements at most `v` and before those above it keeps a sequence sorted |
| SortSpec.MergeTakeLeft | ntl/src/data/Array.hpp:1102-1104 | the merge takes the left head while it is at most the right head, so ties go to the left run |
| SortSpec.MergeTakeRight | ntl/src/data/Array.hpp:1105-1107 | when the right head is smaller the merge takes it first |
| SortSpec.MergePermutation | ntl/src/data/Array.hpp:1098-1109 | a merge is a permutation of the two runs together |
| SortSpec.MergeSorted | ntl/src/data/Array.hpp:1098-1109 | merging two sorted runs gives a sorted run |
| SortSpec.MergeSortCorrect | ntl/src/data/Array.hpp:1082-1119 | merge sort's result is sorted and a permutation of its input |
| SortSpec.SortedIsMergeSort | ntl/src/data/Array.hpp:801-819 | any sorted permutation of `s` is merge sort's result on `s` |
| SortSpec.BinarySearchAsWritten | ntl/src/data/Array.hpp:1001-1021 | the answer is -1 or an index inside the searched range |
| SortSpec.BinarySearchComplete | ntl/src/data/Array.hpp:1001-1021 | in a sorted range holding `x`, the search answers an index that holds `x`, so -1 means "absent" |
| SortSpec.BinarySearchFinds | ntl/src/data/Array.hpp:1001-1021 | in a sorted range, an index holding `x` guarantees an answer inside the array that holds `x` |
| SortSpec.BinarySearchMayAnswerWrongIndex | ntl/src/data/Array.hpp:1003-1004 | a one-element range is answered without comparing: looking for 7 in [5] answers 0, and looking for 2 in [1, 3] answers 1 |
| SortSpec.BinarySearchChecked | ntl/src/data/Array.hpp:1001-1021 | the corrected search answers -1 or an index inside the range that holds `x` |
| SortSpec.BinarySearchCheckedExact | ntl/src/data/Array.hpp:1001-1021 | on a sorted range the corrected search answers -1 exactly when `x` is absent from the range |
| SortSpec.BinarySearchCheckedFinds | ntl/src/data/Array.hpp:1001-1021 | in a sorted range, an index holding `x` guarantees the corrected search does not answer -1 |
| SortSpec.BinarySearchAgrees | ntl/src/data/Array.hpp:1001-1021 | whenever the as-written answer holds `x`, the corrected search gives the same answer; on [5] looking for 7 they differ (0 against -1) |
| SortSpec.FrontBack | ntl/src/data/Array.hpp:1024-1037 | front/back search answers an index in [from, to] holding `x`, or -1 exactly when no such index exists |
| SortSpec.FrontBackNearestEnd | ntl/src/data/Array.hpp:1024-1037 | the answer is the occurrence nearest to an end of the range: no index closer to either end holds `x` |
| NtlArray.FindIn | ntl/src/data/Array.hpp:822-827 | `Find` answers -1 or a live index; on an unsorted array -1 exactly when `x` is absent, and otherwise an index holding `x` |
| NtlArray.FindSortedComplete | ntl/src/data/Array.hpp:822-827 | on a sorted array `Find` finds every element that is present |
| NtlArray.RenderPrefixIsJoin | ntl/src/data/Array.hpp:987-990 | after `i` elements the text is the first `i` elements joined by `, `, followed by `)\n` after the last element and by `, ` otherwise |
| NtlArray.RenderWhole | ntl/src/data/Array.hpp:984-993 | the loop's text after every element is `ArrayText` |
| NtlArray.ArrayTextShape | ntl/src/data/Array.hpp:984-993 | an empty array renders as `Array(` with no closing bracket; a non-empty one ends with `)\n` |
| NtlArray.ArrayTextExample | ntl/src/data/Array.hpp:984-993 | [8, 16, 32] renders as `Array(8, 16, 32)\n` |
| NtlArray.RemoveLoopReadsAsWritten | ntl/src/data/Array.hpp:746-747 | the slots read by the shift loop of `Remove(index)`, as written, are index + 1 up to and including `m_used` |
| NtlArray.RemoveReadsPastTheBuffer | ntl/src/data/Array.hpp:746-747 | on a full array the loop reads slot `m_used`, one past the end of the buffer |
| NtlArray.InsertAtWritesAsWritten | ntl/src/data/Array.hpp:718-723 | the slots written by the shift of `Insert(x, i)`, as written: `m_used` down to `i` |
| NtlArray.InsertAtWritesPastTheBuffer | ntl/src/data/Array.hpp:713-719 | on a full array (size = buffer length) with an index below the capacity the growth test is false, and the first write is slot `m_used`, one past the buffer |
| NtlArray.InsertionProbesAsWritten | ntl/src/data/Array.hpp:1044-1047 | the slots the inner loop of insertion sort compares, as written, starting at `i - 1` |
| NtlArray.InsertionProbesReachMinusOne | ntl/src/data/Array.hpp:1045 | when every slot before `i` exceeds the value being inserted, the loop, as written, ends by reading slot -1 |
| NtlArray.InsertionSortReadsBeforeTheBuffer | ntl/src/data/Array.hpp:1045 | sorting [2, 1] reads slot 0 and then slot -1 |
| NtlArray.InsertAtOverflowExample | ntl/src/data/Array.hpp:659-730 | `Array a(2)`, `Insert(1)`, `Insert(2)`: size, capacity and buffer length are all 2, so `Insert(3, 0)` does not grow and first writes slot 2 of the 2-slot buffer |
| NtlArray.CopyThenInsertOverflows | ntl/src/data/Array.hpp:666-672 | a copy of a one-element array of capacity 1 has a 1-slot buffer but reports capacity 2, so `Insert(x)` does not grow and writes slot 1; the corrected copy reports capacity 1 and grows |
| NtlArray.SmallMergeSortThenInsertOverflows | ntl/src/data/Array.hpp:1074-1090 | a one-element array of capacity 4 has a 1-slot buffer after merge sort, so `Insert(x)` does not grow and writes slot 1; the corrected sort keeps the 4-slot buffer |
| NtlArray.Swapped | ntl/src/data/Array.hpp:760-762 | a swap exchanges the two slots and leaves every other slot alone |
| NtlArray.SwapPermutes | ntl/src/data/Array.hpp:756-765 | a swap inside a range permutes the range and leaves everything outside it unchanged |
| NtlArray.QuickSortCombine | ntl/src/data/Array.hpp:1068-1070 | partitioning, then sorting both sides in place, sorts the range as a permutation of the original range |
| NtlArray.PartitionTake | ntl/src/data/Array.hpp:1141-1143 | a partition step on an element at most the pivot swaps it into the low part and keeps the partition invariant |
| NtlArray.PartitionSkip | ntl/src/data/Array.hpp:1140-1145 | a partition step on an element above the pivot keeps the partition invariant |
| NtlArray.PartitionFinish | ntl/src/data/Array.hpp:1147-1150 | the final swap puts the pivot at `i + 1`, with smaller-or-equal elements before it and larger ones after it |
| NtlArray.FrontBackPrefix | ntl/src/data/Array.hpp:826 | front/back search over the live range gives the same answer on the live elements as on the whole buffer |
| NtlArray.RenderSlots | ntl/src/data/Array.hpp:984-993 | the rendering loop over the live slots produces `ArrayText` of the contents |
| NtlArray.AppendRendered | ntl/src/data/Array.hpp:988-989 | one loop round appends the element's decimal text and `)\n` after the last element or `, ` otherwise |
| NtlArray.Array.constructor | ntl/src/data/Array.hpp:659-663 | requires capacity > 0; the result is empty, sorted, with that capacity, a buffer of that size and the given policies |
| NtlArray.Array.Copy | ntl/src/data/Array.hpp:666-672 | the same elements in order, flag and policies; a buffer of the copied array's capacity, but a reported capacity of 2 × size |
| NtlArray.Array.CopySized | ntl/src/data/Array.hpp:666-672 | the copy constructor corrected: the same elements, flag and policies, and a reported capacity equal to the buffer's length, the copied array's capacity |
| NtlArray.Array.CopyWithCapacity | ntl/src/data/Array.hpp:675-683 | requires the capacity to exceed the size; the same elements, flag and policies, and exactly that capacity |
| NtlArray.Array.Resize | ntl/src/data/Array.hpp:785-798 | requires c ≥ size and c > capacity; a new buffer of c slots with the same elements, size and flag |
| NtlArray.Array.PlaceLast | ntl/src/data/Array.hpp:697-698 | writes x at the old size and counts it; earlier slots are unchanged |
| NtlArray.Array.PlaceAt | ntl/src/data/Array.hpp:718-723 | shifts slots [i, size) up by one and writes x at i |
| NtlArray.Array.Insert | ntl/src/data/Array.hpp:691-707 | a full growable array doubles first, and a full fixed one is rejected; the answer is the old size; with keep-sorted, the contents are sorted and are the old ones plus x; otherwise x follows the old contents and the flag is cleared |
| NtlArray.Array.InsertAt | ntl/src/data/Array.hpp:710-730 | requires i ≤ size; doubles only when i reaches the capacity; with keep-sorted, sorted contents plus x; otherwise the old slots [0, i), then x, then the old [i, size), and the flag is cleared |
| NtlArray.Array.InsertAtChecked | ntl/src/data/Array.hpp:710-730 | `Insert(x, i)` corrected: it doubles when the size reaches the capacity, keeps size ≤ capacity ≤ buffer length, and the contents are as for `InsertAt` |
| NtlArray.Array.InsertionSort | ntl/src/data/Array.hpp:1040-1056 | sorts the live slots as a permutation of the old ones, sets the flag, and leaves the buffer's tail alone (with the `j >= 0` test first) |
| NtlArray.Array.InsertionStep | ntl/src/data/Array.hpp:1043-1049 | given a sorted prefix of `i` slots, inserting slot `i` makes the prefix of `i + 1` slots sorted and a permutation of what it was |
| NtlArray.Array.Remove | ntl/src/data/Array.hpp:743-753 | requires index < size; size drops by one, capacity and flag are kept, the prefix stays and the suffix moves down; the answer is the element now at the index (the removed one if it was last) |
| NtlArray.Array.RemoveElement | ntl/src/data/Array.hpp:733-740 | answers `Find(x)`; on -1 nothing changes, otherwise that slot is removed |
| NtlArray.Array.Swap | ntl/src/data/Array.hpp:756-765 | requires both indices < size; exchanges exactly those two slots, permutes the contents and clears the flag |
| NtlArray.Array.Clear | ntl/src/data/Array.hpp:768-773 | empty and sorted, the same capacity, a fresh buffer |
| NtlArray.Array.ClearWithCapacity | ntl/src/data/Array.hpp:776-782 | empty and sorted with capacity c, a fresh buffer of c slots |
| NtlArray.Array.Find | ntl/src/data/Array.hpp:822-827 | -1 on an empty array, otherwise binary search when the flag is set and front/back search when it is not |
| NtlArray.Array.FindInRange | ntl/src/data/Array.hpp:830-844 | -1 on an empty array; an explicit binary search requires the sorted flag; otherwise it answers the requested search over [from, to] |
| NtlArray.Array.FrontBackSearch | ntl/src/data/Array.hpp:1024-1037 | the two-ended loop answers `FrontBack` of the buffer |
| NtlArray.Array.Get | ntl/src/data/Array.hpp:847-851 | requires index < size; answers that live element |
| NtlArray.Array.GetFirst | ntl/src/data/Array.hpp:861-863 | answers slot 0, the first element when the array is not empty |
| NtlArray.Array.GetLast | ntl/src/data/Array.hpp:871-873 | answers the last element |
| NtlArray.Array.GetNeighbors | ntl/src/data/Array.hpp:881-895 | both absent when x is not found; the left neighbour is the slot before the found one if there is one; the right neighbour is the found slot itself |
| NtlArray.Array.GetSubArray | ntl/src/data/Array.hpp:898-912 | requires from < to < size; a fresh array holding [from, to), with size and capacity to − from, the flag copied and keep-sorted set to the flag |
| NtlArray.Array.IsEqual | ntl/src/data/Array.hpp:915-929 | true exactly when both arrays have the same size and equal elements slot by slot |
| NtlArray.Array.ToString | ntl/src/data/Array.hpp:984-993 | the text is `ArrayText` of the contents |
| NtlArray.Array.Partition | ntl/src/data/Array.hpp:1134-1155 | the Lomuto partition around the last slot: answers k with the pivot at k, at most the pivot before it, above it after it, the range permuted, and the flag cleared by its swaps |
| NtlArray.Array.QuickSortRange | ntl/src/data/Array.hpp:1059-1071 | sorts [from, to] as a permutation of itself; the flag is set unless the array is empty |
| NtlArray.Array.MergeSortBuffer | ntl/src/data/Array.hpp:1082-1119 | a fresh buffer whose first `n` slots are the sorted input; one slot when n ≤ 1, otherwise `capacity` slots |
| NtlArray.Array.MergeRuns | ntl/src/data/Array.hpp:1098-1109 | the merge loop fills the new buffer with `Merge` of the two runs |
| NtlArray.Array.MergeSort | ntl/src/data/Array.hpp:1074-1079 | the buffer is replaced by the sorted contents (one slot for at most one element) and the flag is set; size and capacity are kept |
| NtlArray.Array.MergeSortSized | ntl/src/data/Array.hpp:1074-1090 | merge sort corrected: an array of at most one element keeps its buffer; otherwise a buffer of `capacity` slots holds the sorted contents; size ≤ capacity ≤ buffer length is kept |
| NtlArray.Array.DynamicSort | ntl/src/data/Array.hpp:1122-1131 | merge sort (a fresh buffer) above 64 elements and insertion sort in place otherwise; either way the contents become the sorted permutation |
| NtlArray.Array.QuickSortAll | ntl/src/data/Array.hpp:810 | quicksort over [0, size − 1] sorts the contents in place |
| NtlArray.Array.Sort | ntl/src/data/Array.hpp:801-819 | every strategy leaves the contents sorted, a permutation of the old ones (the same sorted array), with the flag set (quicksort of an empty array leaves the flag unchanged) |
| NtlMap.HomeSlot | ntl/src/data/Map.hpp:578-588 | `keyToIndex` is below the capacity; a non-negative integral key below 2^64 gives key mod capacity |
| NtlMap.Probe | ntl/src/data/Map.hpp:564-575 | the probe walk answers only a used slot holding the key |
| NtlMap.LocateFinds | ntl/src/data/Map.hpp:564-575 | in a healthy table, `find` of a stored key reaches the slot that holds it |
| NtlMap.LocateExact | ntl/src/data/Map.hpp:564-575 | in a healthy table, `find` succeeds exactly when the key is stored |
| NtlMap.LookupExact | ntl/src/data/Map.hpp:459-463 | in a healthy table, the looked-up value is `v` exactly when the pair (k, v) is stored |
| NtlMap.InsertedFinds | ntl/src/data/Map.hpp:475-494 | after `Insert(k, v)` the key is found with value v |
| NtlMap.InsertedCount | ntl/src/data/Map.hpp:475-494 | inserting an existing key keeps the number of used slots; a new key adds one |
| NtlMap.InsertedLookup | ntl/src/data/Map.hpp:475-494 | after `Insert(k, v)`, k maps to v and every other key maps to what it did before |
| NtlMap.InsertedHealthy | ntl/src/data/Map.hpp:475-494 | `Insert` keeps every used key reachable from its home slot and the keys distinct |
| NtlMap.InsertedStored | ntl/src/data/Map.hpp:475-494 | after `Insert(k, v)` the stored pairs are (k, v) and the old pairs with other keys |
| NtlMap.InsertedAll | ntl/src/data/Map.hpp:475-494 | `Insert` of a healthy table: healthy afterwards, k maps to v, every other key and every other stored pair unchanged |
| NtlMap.Place | ntl/src/data/Map.hpp:530-537 | placing into the first free slot along the probe sequence keeps the table size |
| NtlMap.PlaceStored | ntl/src/data/Map.hpp:530-537 | placing x adds exactly the pair of x |
| NtlMap.PlaceReachable | ntl/src/data/Map.hpp:530-537 | placing x keeps every used key reachable from its home slot |
| NtlMap.PlaceCount | ntl/src/data/Map.hpp:530-537 | placing a used entry adds one used slot |
| NtlMap.PlaceDistinct | ntl/src/data/Map.hpp:530-537 | placing an entry whose key is not stored keeps the keys distinct |
| NtlMap.Rehash | ntl/src/data/Map.hpp:513-541 | re-probing into a larger table keeps the number of used slots |
| NtlMap.RehashReachable | ntl/src/data/Map.hpp:526-538 | after re-probing every used key is reachable from its new home slot |
| NtlMap.RehashStored | ntl/src/data/Map.hpp:526-538 | re-probing keeps exactly the stored pairs |
| NtlMap.RehashDistinct | ntl/src/data/Map.hpp:526-538 | re-probing a table with distinct keys keeps them distinct |
| NtlMap.RehashPairs | ntl/src/data/Map.hpp:526-538 | re-probing keeps the set of (key, value) pairs |
| NtlMap.RehashHealthy | ntl/src/data/Map.hpp:513-541 | re-probing a table with distinct keys gives a healthy table |
| NtlMap.RehashLookup | ntl/src/data/Map.hpp:513-541 | `Resize` keeps the key → value mapping |
| NtlMap.RehashAll | ntl/src/data/Map.hpp:513-541 | `Resize` of a healthy table gives a healthy table with the same lookup for every key |
| NtlMap.RemovedMisses | ntl/src/data/Map.hpp:497-510 | after `Remove(k)` the key is no longer stored and `find` misses it |
| NtlMap.RemovedFacts | ntl/src/data/Map.hpp:497-510 | `Remove` frees one used slot, keeps the keys distinct and keeps every pair with another key |
| NtlMap.RemovedDistinct | ntl/src/data/Map.hpp:497-510 | freeing a slot keeps the keys distinct |
| NtlMap.RemovedKeepsOthers | ntl/src/data/Map.hpp:497-510 | freeing the slot of one key keeps every pair with another key |
| NtlMap.RemovedAll | ntl/src/data/Map.hpp:497-510 | `Remove` frees one used slot; with distinct keys the key is gone and `find` misses it; every other pair is kept |
| NtlMap.RemoveBreaksProbeChain | ntl/src/data/Map.hpp:502 | in a two-slot table holding keys 0 and 2 (both at home slot 0), removing key 0 leaves key 2 stored but unfindable by `find` |
| NtlMap.GrownCapacity | ntl/src/data/Map.hpp:476-477 | inserting pairs never shrinks the capacity, and a fixed map keeps it |
| NtlMap.GrowableNeverStalls | ntl/src/data/Map.hpp:476-477 | a growable map whose grow factor is at most 1 always reaches a free slot or the key: every `Insert` finishes |
| NtlMap.SlotsTextIsListing | ntl/src/data/Map.hpp:413-424 | the rendering loop lists exactly the used entries in slot order |
| NtlMap.ListingEnd | ntl/src/data/Map.hpp:422-423 | the listing ends with `, ` exactly when the size counter exceeds the number of used entries |
| NtlMap.ToStringExample | ntl/src/data/Map.hpp:409-429 | a 10-slot map given (1, 100) and then (2, 200) renders as `Map(1 : 100, 2 : 200)` |
| NtlMap.CopySizeExample | ntl/src/data/Map.hpp:368-382 | copying a map with one pair reports size 2; the corrected copy reports 1 |
| NtlMap.Map.CopyAgrees | ntl/src/data/Map.hpp:376-381 | a map holding the same pairs as another stores exactly the same pairs and, when the other is healthy, answers the same lookup for every key |
| NtlMap.AppendEntry | ntl/src/data/Map.hpp:417-423 | one rendered entry: key, ` : `, value, then `, ` when more follow |
| NtlMap.AppendSlot | ntl/src/data/Map.hpp:413-424 | one loop round keeps the text equal to the rendering of the slots seen so far, and counts the used ones |
| NtlMap.AppendKey | ntl/src/data/Map.hpp:417 | an integral key appends its decimal text and a string key all its characters, `'\0'` included |
| NtlMap.Map.GetSize | ntl/src/data/Map.hpp:544-546 | the counter, which is the number of used slots whenever the counter is accurate |
| NtlMap.Map.constructor | ntl/src/data/Map.hpp:357-365 | size 0, every slot unused, the given capacity, algorithm and policies; a non-empty table finds no key |
| NtlMap.Map.KeyToIndex | ntl/src/data/Map.hpp:578-588 | `HomeSlot` of the key: below the capacity, key mod capacity for integral keys, hash mod capacity for string keys |
| NtlMap.Map.FindEntry | ntl/src/data/Map.hpp:564-575 | the linear probe from the home slot answers the slot of the key, or none on reaching an unused slot |
| NtlMap.Map.Exists | ntl/src/data/Map.hpp:442-444 | true when `find` succeeds; in a healthy table, exactly when the key is stored |
| NtlMap.Map.Find | ntl/src/data/Map.hpp:466-472 | the slot of the key, which is used and holds the key; none exactly when the key is not stored (in a healthy table) |
| NtlMap.Map.Get | ntl/src/data/Map.hpp:459-463 | requires the key to be found; answers its value, a stored pair |
| NtlMap.Map.PlaceEntry | ntl/src/data/Map.hpp:530-537 | the probe loop of `Resize` writes the entry into the first free slot from its home slot |
| NtlMap.Map.Resize | ntl/src/data/Map.hpp:513-541 | requires c ≥ size and c > capacity; a fresh table of c slots holding the re-probed entries; the size is kept |
| NtlMap.Map.PutEntry | ntl/src/data/Map.hpp:479-493 | the probe loop of `Insert` overwrites the value of an existing key, or fills the first free slot and counts one more |
| NtlMap.Map.Insert | ntl/src/data/Map.hpp:475-494 | doubles first when growable and size ≥ capacity × grow factor; afterwards k maps to v, other keys keep their values, and the size grows by one exactly for a new key |
| NtlMap.Map.Remove | ntl/src/data/Map.hpp:497-510 | requires the key to be found; frees its slot, decrements the size, and keeps every pair with another key; the key is gone |
| NtlMap.Map.At | ntl/src/data/Map.hpp:447-456 | a found key answers its value and changes nothing; a missing key is inserted with the default value 0, which is answered |
| NtlMap.Map.InsertDefault | ntl/src/data/Map.hpp:450-452 | `Insert(k, {})` inside `At`: k then maps to 0 and other keys are unchanged |
| NtlMap.Map.InsertAll | ntl/src/data/Map.hpp:376-381 | the copy loop inserts every used entry of the copied map: the same pairs, healthy, and the counter advanced by their number |
| NtlMap.Map.CopyEntry | ntl/src/data/Map.hpp:380 | one copied entry, a key not yet present, is inserted and counted |
| NtlMap.Map.Copy | ntl/src/data/Map.hpp:368-382 | the same pairs and lookups and the same policies; the counter starts at the copied map's size and grows again with each `Insert`, ending at twice the size |
| NtlMap.Map.CopyCounted | ntl/src/data/Map.hpp:368-382 | the corrected copy: the same pairs and lookups, with an accurate counter equal to the copied map's size |
| NtlMap.Map.CopyWithCapacity | ntl/src/data/Map.hpp:385-401 | the copy, then `Resize(c)`: capacity c, the same pairs and lookups |
| NtlMap.Map.ToString | ntl/src/data/Map.hpp:409-429 | `Map(`, the used entries in slot order as `key : value` separated by `, `, then `)` |
| NtlString.CStr | ntl/src/data/String.cpp:63-70 | the characters of a C string: the longest prefix without a `'\0'` |
| NtlString.CStrOfPlain | ntl/src/data/String.cpp:63-70 | a text without `'\0'` is its own C string |
| NtlString.LowerAfterUpper | ntl/src/data/String.cpp:268-276 | case mapping keeps the length, and lower-casing after upper-casing is plain lower-casing |
| NtlString.UpperAfterLower | ntl/src/data/String.cpp:268-276 | case mapping keeps the length, and upper-casing after lower-casing is plain upper-casing |
| NtlString.IndexOf | ntl/src/data/String.cpp:172-180 | the first index holding c, or -1 exactly when c is absent |
| NtlString.ReplaceAllProperties | ntl/src/data/String.cpp:257-262 | replacing every a by b keeps the length and, when b differs from a, leaves no a; when b did not occur, replacing b by a undoes it |
| NtlString.RemoveFirstOrLast | ntl/src/data/String.cpp:245-255 | one character shorter: the first `a` cut out, or the last character dropped when `a` is absent |
| NtlString.RemoveFirstCounts | ntl/src/data/String.cpp:145 | removing a character that occurs removes exactly one occurrence of it |
| NtlString.RemoveMissingDropsLast | ntl/src/data/String.cpp:245-255 | `Remove('x')` on "abc" leaves "ab" |
| NtlString.FirstOccurrenceFrom | ntl/src/data/String.cpp:187-204 | the first index at or after `from` where the pattern occurs, or -1 when there is none |
| NtlString.FirstOccurrence | ntl/src/data/String.cpp:187-204 | the first index where the pattern occurs, or -1 |
| NtlString.ReplaceFirstProperties | ntl/src/data/String.cpp:182-242 | only the first occurrence is rewritten, the length changes by len(new) − len(old), and nothing changes when the pattern is absent |
| NtlString.CutChoice | ntl/src/data/String.cpp:246-255 | once the search stops at slot k, cutting slot k (or the last slot when k is the length) is `RemoveFirstOrLast` |
| NtlString.Splice | ntl/src/data/String.cpp:221-232 | the three copy loops build prefix, replacement and suffix in a new buffer |
| NtlString.String.constructor | ntl/src/data/String.cpp:52-55 | empty, capacity 1024, a buffer of capacity + 1 slots with the terminator |
| NtlString.String.FromChar | ntl/src/data/String.cpp:57-61 | just that character, capacity 1024 |
| NtlString.String.FromCString | ntl/src/data/String.cpp:63-70 | the C string's characters, capacity twice their number |
| NtlString.String.Copy | ntl/src/data/String.cpp:74-78 | the same characters, capacity twice their number |
| NtlString.String.Move | ntl/src/data/String.cpp:80 | takes over the other string's buffer and contents; the other string becomes a fresh empty default string |
| NtlString.String.Resize | ntl/src/data/String.cpp:156-170 | requires c ≥ length + 1 and c > capacity; a buffer of exactly c slots with the same contents |
| NtlString.String.AppendString | ntl/src/data/String.cpp:87-102 | old contents then the other's (itself allowed); when the new length reaches the capacity, the capacity becomes twice the new length |
| NtlString.String.AppendRun | ntl/src/data/String.cpp:94-99 | the copy loop appends `n` characters of a buffer and writes the terminator |
| NtlString.String.AppendCString | ntl/src/data/String.cpp:104-119 | old contents then the C string's characters, with the same growth rule |
| NtlString.String.AppendText | ntl/src/data/String.cpp:87-119 | old contents then every character of the given text, `'\0'` included, with the same growth rule |
| NtlString.String.AppendChar | ntl/src/data/String.cpp:121-133 | old contents then the character, with the same growth rule |
| NtlString.String.AppendInt | ntl/src/data/String.cpp:135 | old contents then the decimal text of the `int` |
| NtlString.String.AppendSize | ntl/src/data/String.cpp:137 | old contents then the decimal text of the `Size` |
| NtlString.String.AppendBool | ntl/src/data/String.cpp:143 | old contents then `true` or `false` |
| NtlString.String.Clear | ntl/src/data/String.cpp:147-154 | empty, the same capacity, a fresh buffer |
| NtlString.String.Find | ntl/src/data/String.cpp:172-180 | the first index of the character, or -1 when it is absent |
| NtlString.String.ReplaceChar | ntl/src/data/String.cpp:244-266 | with b ≠ `'\0'` every a becomes b and the length is kept; with `'\0'` the result is `RemoveFirstOrLast` |
| NtlString.String.CutFirst | ntl/src/data/String.cpp:245-255 | the `'\0'` branch: search, shift left, decrement; the result is `RemoveFirstOrLast` |
| NtlString.String.CutAt | ntl/src/data/String.cpp:251-255 | drops slot k (the last slot when k is the length) and moves the rest down |
| NtlString.String.ReplaceEvery | ntl/src/data/String.cpp:257-262 | every a becomes b |
| NtlString.String.Remove | ntl/src/data/String.cpp:145 | `Replace(c, '\0')`: `RemoveFirstOrLast` of the old contents |
| NtlString.String.RemoveChecked | ntl/src/data/String.cpp:145 | corrected `Remove`: the first c is cut out, removing one occurrence, when c occurs; otherwise nothing changes |
| NtlString.String.FindPattern | ntl/src/data/String.cpp:185-204 | requires a non-empty pattern whose only `'\0'` may be its last character; the answer is the first index below the length where the pattern occurs in the text followed by its terminator, or -1; for a pattern without `'\0'` that is `FirstOccurrence` |
| NtlString.NulFreeOccursAt | ntl/src/data/String.cpp:191-198 | a pattern without `'\0'` occurs in the terminated text exactly where it occurs in the text |
| NtlString.TrailingNulPatternFound | ntl/src/data/String.cpp:185-204 | in "xa" the pattern "a\0" is found at index 1: its `'\0'` matches the terminator |
| NtlString.String.MatchesAt | ntl/src/data/String.cpp:191-198 | the inner loop answers whether the pattern occurs at index i of the text followed by its terminator |
| NtlString.String.ReplaceString | ntl/src/data/String.cpp:182-242 | requires a non-empty pattern; the pattern or the replacement may be the string itself; the contents become `ReplaceFirst`; the capacity doubles exactly when a different-length replacement happens |
| NtlString.String.OverwriteAt | ntl/src/data/String.cpp:209-212 | the equal-length branch overwrites the occurrence in place |
| NtlString.String.SpliceAt | ntl/src/data/String.cpp:213-239 | the different-length branch: prefix, replacement, suffix in a new buffer; the capacity doubles |
| NtlString.String.ToLowerCase | ntl/src/data/String.cpp:268-271 | every live character lower-cased, the length kept |
| NtlString.String.ToUpperCase | ntl/src/data/String.cpp:273-276 | every live character upper-cased, the length kept |
| NtlString.String.Get | ntl/src/data/String.cpp:284-287 | requires index < length; answers that character |
| NtlString.String.IsEqual | ntl/src/data/String.cpp:291-301 | true exactly when the lengths and all characters agree |
| NtlString.String.IsEqualCString | ntl/src/data/String.cpp:303-306 | `strcmp == 0`: the C strings of both texts agree |
| NtlString.String.AssignString | ntl/src/data/String.cpp:333-343 | the other's contents and capacity, a fresh buffer |
| NtlString.String.AssignCString | ntl/src/data/String.cpp:345-360 | the C string's characters; the capacity grows like an append |
| NtlString.Concat | ntl/src/data/String.cpp:393-399 | a fresh string holding left then right |
| NtlString.ConcatCString | ntl/src/data/String.cpp:401-407 | a fresh string holding left then the C string's characters |
| NtlString.ConcatChar | ntl/src/data/String.cpp:409-415 | a fresh string holding left then the character |
| NtlString.ConcatInt | ntl/src/data/String.cpp:417-427 | a fresh string holding left then the decimal text of the number |
| NtlString.ConcatSize | ntl/src/data/String.cpp:429-435 | a fresh string holding left then the decimal text of the size |
| NtlString.ConcatBool | ntl/src/data/String.cpp:453-459 | a fresh string holding left then `true` or `false` |
| NtlList.FirstIndex | ntl/src/data/List.hpp:404-405 | the index of the first node holding x |
| NtlList.Without | ntl/src/data/List.hpp:406-408 | unlinking position k drops exactly that element |
| NtlList.StopIndex | ntl/src/data/List.hpp:458-465 | where the `FindElement` loop stops: the first x, or the last node when x is absent |
| NtlList.AgreeOnCommonIsEqual | ntl/src/data/List.hpp:502-510 | for equal lengths, agreeing on the common prefix is equality |
| NtlList.ListTextOf | ntl/src/data/List.hpp:531-548 | the rendering loop's text is `List(`, the values separated by `, `, then `)\n` |
| NtlList.ListTextExample | ntl/src/data/List.hpp:531-548 | [2, 4, 8, 16] renders as `List(2, 4, 8, 16)\n` |
| NtlList.List.constructor | ntl/src/data/List.hpp:322-326 | empty, size 0, the tail at the sentinel |
| NtlList.List.Copy | ntl/src/data/List.hpp:329-342 | fresh nodes holding the same values in order, the same size, the tail at the last node |
| NtlList.List.Link | ntl/src/data/List.hpp:384-392 | links a fresh node after position i, moving the tail when that node was last |
| NtlList.List.Unlink | ntl/src/data/List.hpp:430-435 | unlinks the node after position i, moving the tail back when it was last |
| NtlList.List.InsertFront | ntl/src/data/List.hpp:350-364 | prepends x, counts it, and sets the tail when the list was empty |
| NtlList.List.InsertBack | ntl/src/data/List.hpp:367-377 | appends x, counts it, and the tail is the new node |
| NtlList.List.InsertAfter | ntl/src/data/List.hpp:380-397 | puts x right after the node, counts it, and moves the tail when the node was the tail |
| NtlList.List.RemoveElement | ntl/src/data/List.hpp:400-422 | unlinks the first node holding x exactly when x is present, and reports whether it did; the counter is decremented either way |
| NtlList.List.RemoveElementCorrected | ntl/src/data/List.hpp:400-422 | the same unlinking, with the counter decremented only on success, so an accurate counter stays accurate |
| NtlList.List.FindAndUnlink | ntl/src/data/List.hpp:401-417 | the search loop of `RemoveElement`: unlinks the first x, or changes nothing |
| NtlList.List.RemoveAfter | ntl/src/data/List.hpp:425-438 | requires the node and its successor to exist; unlinks exactly the successor, decrements the size and fixes the tail |
| NtlList.List.Clear | ntl/src/data/List.hpp:441-452 | empty with size 0, but the tail still points at the old last node |
| NtlList.List.ClearCorrected | ntl/src/data/List.hpp:441-452 | empty with size 0 and the tail back at the sentinel |
| NtlList.List.FindElement | ntl/src/data/List.hpp:455-466 | null exactly on an empty list; otherwise the node where the search stops, which holds x exactly when x is present |
| NtlList.List.GetHead | ntl/src/data/List.hpp:469-471 | the sentinel |
| NtlList.List.GetFront | ntl/src/data/List.hpp:474-476 | null exactly on an empty list; otherwise the first node, holding the first value |
| NtlList.List.GetBack | ntl/src/data/List.hpp:479-481 | with a correct tail: the sentinel when empty, otherwise the last node, holding the last value |
| NtlList.List.IsEmpty | ntl/src/data/List.hpp:484-486 | true exactly when there are no values |
| NtlList.List.GetSize | ntl/src/data/List.hpp:489-491 | the number of values whenever the counter is accurate |
| NtlList.List.IsEqual | ntl/src/data/List.hpp:494-513 | equal counters and agreement on the common prefix; with accurate counters, exactly equal contents |
| NtlList.List.ToString | ntl/src/data/List.hpp:531-548 | the text is `ListText` of the contents |
| NtlList.InsertExample | ntl/src/data/List.hpp:350-377 | `InsertFront(2)`, then `InsertBack(8)`, then `InsertAfter` the node of 2 with 4 gives [2, 4, 8] with size 3 |
| NtlList.StaleTailExample | ntl/src/data/List.hpp:441-452 | after `Clear` the tail is stale; after the corrected clear it is not |
| NtlList.RemoveMissingExample | ntl/src/data/List.hpp:419 | removing a missing value from an empty list gives size 2^64 − 1, and 0 with the corrected method |
| NtlStack.Stack.constructor | ntl/src/data/Stack.hpp:95-96 | an empty stack |
| NtlStack.Stack.Push | ntl/src/data/Stack.hpp:99-101 | x goes on top |
| NtlStack.Stack.Pop | ntl/src/data/Stack.hpp:104-108 | answers the top and removes it |
| NtlStack.Stack.Peek | ntl/src/data/Stack.hpp:111-113 | the top element |
| NtlStack.Stack.GetSize | ntl/src/data/Stack.hpp:116-118 | the number of elements |
| NtlStack.Stack.IsEmpty | ntl/src/data/Stack.hpp:121-123 | true exactly when there are no elements |
| NtlStack.PushThenPop | ntl/src/data/Stack.hpp:99-108 | LIFO: a pop right after a push answers the pushed value and restores the stack |
| NtlStack.StackExample | ntl/src/data/Stack.hpp:99-123 | pushing 2, 4, 8 gives top 8 and size 3; popping gives 8, 4, 2 and leaves it empty |
| NtlStack.PushedExample | ntl/src/data/Stack.hpp:99-101 | pushing 2, 4, 8 onto a new stack leaves 8, 4, 2 from the top |
| NtlQueue.Queue.constructor | ntl/src/data/Queue.hpp:95-96 | an empty queue |
| NtlQueue.Queue.Put | ntl/src/data/Queue.hpp:99-101 | x joins the back |
| NtlQueue.Queue.Get | ntl/src/data/Queue.hpp:104-108 | answers the front and removes it |
| NtlQueue.Queue.Peek | ntl/src/data/Queue.hpp:111-113 | the front element |
| NtlQueue.Queue.GetSize | ntl/src/data/Queue.hpp:116-118 | the number of elements |
| NtlQueue.Queue.IsEmpty | ntl/src/data/Queue.hpp:121-123 | true exactly when there are no elements |
| NtlQueue.PutThenGet | ntl/src/data/Queue.hpp:99-108 | FIFO: on a non-empty queue, a put and then a get answers the old front and leaves the rest followed by the new value |
| NtlQueue.QueueExample | ntl/src/data/Queue.hpp:99-123 | putting 2, 4, 8 gives front 2 and size 3; getting gives 2, 4, 8 and leaves it empty |
| NtlQueue.PutExample | ntl/src/data/Queue.hpp:99-101 | putting 2, 4, 8 into a new queue leaves 2, 4, 8 from the front |
| NtlBitset.FlipByte | ntl/src/data/Bitset.hpp:361 | a flipped byte is `'0'` or `'1'`, and the opposite of a bit byte |
| NtlBitset.FlipTwice | ntl/src/data/Bitset.hpp:360-362 | flipping twice restores the bit |
| NtlBitset.AndOfBits | ntl/src/data/Bitset.hpp:450 | the byte-wise `&` of `'0'`/`'1'` bytes is a bit byte, and is `'1'` exactly when both are |
| NtlBitset.AndBinary | ntl/src/data/Bitset.hpp:445-454 | the byte-wise `&` of two bit sequences is the logical AND, bit by bit |
| NtlBitset.CountBounds | ntl/src/data/Bitset.hpp:390-397 | the count is at most the size, and 0 exactly when no bit is set |
| NtlBitset.CountUpdate | ntl/src/data/Bitset.hpp:345-352 | changing one bit changes the count by what that bit contributed |
| NtlBitset.DigitsOfBinary | ntl/src/data/Bitset.hpp:471 | rendering `m_bits[i] - '0'` of bit bytes gives the text of 0/1 digits |
| NtlBitset.RenderedAllBits | ntl/src/data/Bitset.hpp:467-477 | the rendering loop gives `Bitset(`, the digits, then `)\n` unless the size is 0 |
| NtlBitset.BitsetTextExample | ntl/src/data/Bitset.hpp:467-477 | bits 0010 render as `Bitset(0010)\n` |
| NtlBitset.Bitset.constructor | ntl/src/data/Bitset.hpp:281-285 | size N, capacity N + 1, every bit clear |
| NtlBitset.Bitset.Copy | ntl/src/data/Bitset.hpp:296-302 | the same size, capacity and bytes in a fresh buffer |
| NtlBitset.Bitset.Assign | ntl/src/data/Bitset.hpp:305-314 | requires distinct objects; the other's size, capacity and bytes in a fresh buffer |
| NtlBitset.Bitset.Move | ntl/src/data/Bitset.hpp:317-327 | takes over the other's buffer; the other is left with size and capacity 0 and no bits |
| NtlBitset.Bitset.MoveAssign | ntl/src/data/Bitset.hpp:330-342 | requires distinct objects; takes over the other's buffer and empties it |
| NtlBitset.Bitset.IsSet | ntl/src/data/Bitset.hpp:385-387 | on a valid bitset, bit i is set exactly when `ToString` shows `1` for it (its byte minus `'0'` is 1); a bit that is not set is stored as `'0'` |
| NtlBitset.Bitset.Get | ntl/src/data/Bitset.hpp:365-372 | the byte of bit i: `'0'` or `'1'` on a valid bitset, and `'1'` exactly when the bit is set |
| NtlBitset.Bitset.GetSize | ntl/src/data/Bitset.hpp:375-377 | the number of bits, which fits in the buffer |
| NtlBitset.Bitset.GetCapacity | ntl/src/data/Bitset.hpp:380-382 | the length of the buffer, at least the number of bits |
| NtlBitset.Bitset.Set | ntl/src/data/Bitset.hpp:345-347 | bit i becomes set and no other byte changes; the count grows by one exactly when the bit was clear |
| NtlBitset.Bitset.ResetBit | ntl/src/data/Bitset.hpp:350-352 | bit i becomes clear and no other byte changes; the count drops by one exactly when the bit was set |
| NtlBitset.Bitset.Reset | ntl/src/data/Bitset.hpp:355-357 | all N bits clear, the terminating slot untouched |
| NtlBitset.Bitset.Flip | ntl/src/data/Bitset.hpp:360-362 | bit i is set afterwards exactly when it was `'0'` before; no other byte changes |
| NtlBitset.Bitset.GetCount | ntl/src/data/Bitset.hpp:390-397 | the number of set bits among the first N, at most N, and 0 exactly when none is set |
| NtlBitset.Bitset.IsNone | ntl/src/data/Bitset.hpp:400-406 | true exactly when the count is 0 |
| NtlBitset.Bitset.IsAny | ntl/src/data/Bitset.hpp:409-415 | true exactly when the count is positive |
| NtlBitset.Bitset.IsEqual | ntl/src/data/Bitset.hpp:418-432 | true exactly when the sizes match and every bit matches |
| NtlBitset.Bitset.And | ntl/src/data/Bitset.hpp:445-454 | requires equal sizes; a fresh N-bit bitset whose bit i is set exactly when it is set in both operands |
| NtlBitset.Bitset.ToString | ntl/src/data/Bitset.hpp:467-477 | `Bitset(`, one digit per bit, then `)\n` unless the size is 0 |
| NtlBitset.AndInto | ntl/src/data/Bitset.hpp:449-451 | the loop of `operator&` writes the byte-wise `&` of every slot |
| NtlBitset.AppendBit | ntl/src/data/Bitset.hpp:471-473 | one loop round appends the bit's digit, then `)\n` after the last bit |
| NtlBitset.FlipExample | ntl/src/data/Bitset.hpp:360-415 | flipping a clear bit of a new bitset gives count 1, `IsAny` and not `IsNone`; flipping it back clears it |

## Left out

- The `algorithms::Hash` selector's other members and the `default` error branches of the dispatchers: the model's datatypes have only the cases that are handled.
- Floating point: the `double`/`float` overloads of `String::Append` and of `operator+`. The grow factor of `Map` is an exact `real`, so `m_capacity * m_grow_factor` is not rounded.
- Raw memory: `delete`, leaks and destructors. The `ArrayChunk` wrapper is not modelled either. Arrays hold plain `int`.
- Iterators, `operator<<`, `operator[]` and the `+=`/`-=`/`==`/`!=` operator forwards. They only call the modelled members.
- `String::GetHash`: it calls `hash::Combine`, which is not part of this model.
- The one-line getters of `Array` (`IsEmpty`, `GetSize`, `GetCapacity`, `GetData`), of `String` (`GetCString`, `GetLength`, `GetSize`, `GetCapacity`, `IsEmpty`) and `List::GetData`: each answers a field, which the model's contracts name directly.
- The case mapping is ASCII only. The C library's `tolower`/`toupper` depend on the locale.
- Map keys are `int` or text, and a text key's bytes are its characters modulo 256. A `'\0'` inside a text key ends its hash, as in C.
- The `Size` counters are `nat`: the increments of the size counters are not wrapped at 2^64. Only the decrements, which can wrap in practice, are.
- `int index` in `Map::Insert`, `Remove` and `Resize` is not narrowed to 32 bits.
- `String::Find` answers -1 rather than `Size(-1)` (2^64 − 1).
- NtlMap.Map.At: answers the value rather than a reference to it.
- NtlBitset.Bitset.Get: answers the byte rather than a writable reference to it.
- NtlMap.Map.Copy: requires distinct keys and a counter no larger than the capacity, so that the re-inserting loop is known to finish.
- NtlMap.Map.CopyWithCapacity: requires the same as `Copy`, plus what `Resize(c)` requires.
- NtlMap.Map.Insert: requires `InsertReady`, meaning the table can grow or the probe loop reaches the key or a free slot. A full fixed table loops forever in the library.
- NtlList.List.InsertAfter: requires the node to belong to this list. The library cannot check that.
- NtlList.List.RemoveAfter: requires the node to belong to this list, for the same reason.
- NtlList.List.ToString: requires a non-empty list. On an empty list the library dereferences null.
- NtlStack.Stack.Pop and NtlStack.Stack.Peek: require a non-empty stack, for the same reason.
- NtlQueue.Queue.Get and NtlQueue.Queue.Peek: also require a non-empty queue.
- NtlString.String.Remove: requires a non-empty string. On an empty string the unconditional decrement wraps and writes out of bounds.
- NtlString.String.ReplaceChar: requires `b ≠ '\0'` or a non-empty string, for the same reason: `Replace(a, '\0')` on an empty string wraps its length.
- NtlString.String.FindPattern: requires that only the pattern's last character may be `'\0'`. An earlier `'\0'` in the pattern can match the terminator and let the comparison at `String.cpp:193` read the slots past it, which hold stale characters or lie beyond the buffer.
- NtlString.String.MatchesAt: requires the same of the pattern, for the same reason.
- NtlString.String.ReplaceString: requires that a different-length replacement fits the capacity, because the inverted growth test at `String.cpp:217` would otherwise overrun the new buffer; the suffix loop at `String.cpp:230-231` reads slots past the live part, which stay within the doubled buffer in the case modelled. It also requires a pattern without `'\0'`: a trailing `'\0'` matches the terminator, and the replacement then overwrites the terminator or the splice reads past it, leaving no well-formed string to state a contract about. A pattern or replacement that shares the string's buffer without being the string itself cannot arise, since every string owns its buffer.
- NtlArray.Array.Insert: requires `used < data.Length` when the array does not grow. After the copy constructor or a merge sort of at most one element, the library's capacity check passes and the write at `Array.hpp:697` lands one slot past the buffer (see "## Findings"). `CopySized` and `MergeSortSized` keep size ≤ capacity ≤ buffer length, and `Insert` preserves it.
- NtlArray.Array.InsertAt: requires `used < data.Length` when the array does not grow. On a full array with an index below the capacity the library does not grow and the shift at `Array.hpp:718-719` writes slot `m_used`, past the buffer (see "## Findings"). `InsertAtChecked` grows on the size instead.
- NtlArray.Array.ToString: builds its text through `RenderSlots`, a loop over the live slots.

## Findings

| source | as written | input that shows it | evidently intended | confidence | as-written member | corrected member |
|---|---|---|---|---|---|---|
| ntl/src/data/Array.hpp:746-747 | the shift loop of `Remove` runs `i < m_used` and copies `m_data[i + 1]` | removing from a full array reads slot `m_used`, one past the buffer | stop the loop at `m_used - 1` | not executed | NtlArray.RemoveReadsPastTheBuffer | NtlArray.Array.Remove |
| ntl/src/data/Array.hpp:713-719 | `Insert(x, i)` grows only when `a_index >= m_capacity`, then shifts from slot `m_used` down | `Array a(2)`, `Insert(1)`, `Insert(2)`, `Insert(3, 0)` writes slot 2 of a 2-slot buffer | grow when `m_used >= m_capacity` | not executed | NtlArray.InsertAtOverflowExample | NtlArray.Array.InsertAtChecked |
| ntl/src/data/Array.hpp:666-672 | the copy constructor allocates `a_other.m_capacity` slots but sets `m_capacity` to `m_used * 2` | copying a one-element array of capacity 1, then `Insert(x)`, writes slot 1 of a 1-slot buffer | report the allocated capacity | not executed | NtlArray.CopyThenInsertOverflows | NtlArray.Array.CopySized |
| ntl/src/data/Array.hpp:1085-1087 | merge sort of at most one element installs a one-slot buffer and keeps `m_capacity` | `Array a(4)`, `Insert(3)`, merge sort, `Insert(4)` writes slot 1 of a 1-slot buffer | keep the buffer when there is nothing to sort | not executed | NtlArray.SmallMergeSortThenInsertOverflows | NtlArray.Array.MergeSortSized |
| ntl/src/data/Array.hpp:1045 | `m_data[j].value > temp.value && j >= 0` evaluates the element before testing the index | insertion sort of [2, 1] reads slot -1 | test `j >= 0` first | not executed | NtlArray.InsertionSortReadsBeforeTheBuffer | NtlArray.Array.InsertionSort |
| ntl/src/data/Array.hpp:1003-1004 | a one-element range answers its index without comparing | `Find(7)` on the sorted array [5] answers 0; `Find(2)` on [1, 3] answers 1 | compare the element and answer -1 on a mismatch | not executed | SortSpec.BinarySearchMayAnswerWrongIndex | SortSpec.BinarySearchChecked |
| ntl/src/data/Map.hpp:369,380 | the copy constructor starts `m_used` at the copied map's size, then `Insert` counts every pair again | copying a map holding one pair reports size 2 | start the counter at 0 | not executed | NtlMap.CopySizeExample | NtlMap.Map.CopyCounted |
| ntl/src/data/String.cpp:246-255 | `Replace(c, '\0')` decrements the length even when `c` is absent | `Remove('x')` on "abc" leaves "ab" | leave the string unchanged | not executed | NtlString.RemoveMissingDropsLast | NtlString.String.RemoveChecked |
| ntl/src/data/List.hpp:441-452 | `Clear` does not reset `m_tail` | after `InsertBack(1)` and `Clear`, the tail still points at the freed node | set the tail back to the sentinel | not executed | NtlList.StaleTailExample | NtlList.List.ClearCorrected |
| ntl/src/data/List.hpp:419 | `RemoveElement` decrements `m_size` whether or not it removed a node | `RemoveElement(5)` on an empty list gives size 2^64 − 1 | decrement only on success | not executed | NtlList.RemoveMissingExample | NtlList.List.RemoveElementCorrected |

The as-written behaviour stays in the operations that model the library: `Array::Find`, `Map`'s copy constructors, `String::Remove`, `List::Clear` and `List::RemoveElement`. The corrected members sit beside them, each with its intended property proved.
