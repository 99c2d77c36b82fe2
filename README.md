# Non-comparison sorts

A Dafny model of the five integer sorts in `main.cpp`, with proofs about them:

- `countingSortNonStable` counts every value, then writes each value of the range as often as it was counted;
- `countingSortStable` counts, takes prefix sums and scatters the input from the right into an output array;
- `lsdRadixSort` runs one stable counting pass per decimal digit (`countingSortForRadix`), from the least significant digit up;
- `msdRadixSort` distributes into ten buckets by the most significant digit and recurses on every bucket (`msdRadixSortHelper`, `getDigit`, `getMaxDigits`);
- `bucketSort` spreads the values over `floor(sqrt(n))` buckets by their share of the value range, sorts each bucket and concatenates them.

`isSorted` is modelled as well.

The model is imperative, like the program. Each sort is a method on an `array<int>`, and its loops are `while` loops with invariants. Every sort is proved to leave the array sorted and a permutation of its input: `Sorted(a[..])` and equal multisets. Since such a result is unique (`SortSpec.SortedUnique`), all five sorts produce the same array.

Modules follow the program's structure:

- `SortSpec`: sortedness and `isSorted`.
- `Utilities`: `max_element`/`min_element`, powers of ten, C++ truncating `/` and `%`, `getDigit` and `getMaxDigits`, plus the loop that copies a bucket back into the array.
- `Keyed`: the order every distribution pass produces.
  - Each pass gives every element a small integer key. For the counting sorts the key is the value minus the minimum. For the radix sorts it is a decimal digit. For bucket sort it is a bucket index.
  - `Gather(s, key, k)` lists, key by key in increasing order, the elements with that key in input order.
  - `Dest(s, key, i)` is the slot the element at `i` is written to.
  - The lemmas state that `Gather` is a permutation, ordered by key and stable, and that `Dest` is a bijection onto the output slots.
- `CountingSort`, `RadixSort`, `BucketSort`: the sorts themselves.

## Model

| member | source | states |
|---|---|---|
| SortSpec.IsSorted | main.cpp:204-209 | the result is true exactly when every element is at most the next one |
| SortSpec.SortedUnique | main.cpp:253-279 | two sorted permutations of the same input are equal, so every sort the program compares yields the same array |
| SortSpec.SampleResult | main.cpp:253-279 | on the sample array `{64, 34, 25, 12, 22, 11, 90, 88, 45, 50}` the only result a sort can give is `{11, 12, 22, 25, 34, 45, 50, 64, 88, 90}` |
| Utilities.MaxOf | main.cpp:16 | the result is an element of the input and no element exceeds it |
| Utilities.MinOf | main.cpp:17 | the result is an element of the input and no element is below it |
| Utilities.GetDigit | main.cpp:144-146 | the digit with C++ truncating division and remainder lies in (-10, 10); for a non-negative number it is `(num / 10^digit) % 10`; for a negative number it is at most 0 |
| Utilities.TruncatedDigit | main.cpp:145 | the facts above, for any positive power |
| Utilities.NegativeDigit | main.cpp:145 | a negative element's digit is negative or zero: `getDigit(-7, 0) == -7` would index outside the ten buckets, while `getDigit(-10, 0) == 0` and `getDigit(-7, 1) == 0` select bucket 0 |
| Utilities.NumDigitsBounds | main.cpp:152-155 | the number of decimal digits of `v >= 0` is the least `d` with `v < 10^d` |
| Utilities.GetMaxDigits | main.cpp:148-157 | 0 for an empty input; otherwise the digit count of the maximum (0 when the maximum is at most 0); every element is below `10^digits`; when `digits > 0` some element is at least `10^(digits-1)` |
| Utilities.ModSplit | main.cpp:77 | the remainder modulo `10e` is the digit at `e` times `e` plus the remainder modulo `e` |
| Utilities.DigitOrder | main.cpp:77 | a smaller digit at `e` gives a smaller remainder modulo `10e` |
| Utilities.DigitTie | main.cpp:77 | with equal digits at `e`, remainders modulo `10e` compare as the remainders modulo `e` |
| Utilities.CopyBucket | main.cpp:174-176 | the bucket lands at `a[start..start+|bucket|]`; nothing else changes (this is also the copy loop at 137-139) |
| Keyed.BucketIndex | main.cpp:124-125 | the clamped bucket index is below `numBuckets`, and it is at least 0 for every value not below the minimum |
| Keyed.FilterMembers | main.cpp:165-168 | a bucket holds input elements with its key |
| Keyed.FilterAppend | main.cpp:165-168 | bucketing a concatenation concatenates the buckets |
| Keyed.GatherMembers | main.cpp:58-63 | the gathered output holds input elements with keys below the bound |
| Keyed.GatherBelow | main.cpp:58-63 | the gathered output is a permutation of the elements whose keys lie in `[0, k)` |
| Keyed.GatherSize | main.cpp:53-56 | the length of the first `k` key blocks is the number of elements with key below `k`; it is the value prefix sums leave in `count[k-1]` |
| Keyed.GatherPermutation | main.cpp:58-66 | when every key is below the bound, the gathered output is a permutation of the input |
| Keyed.GatherPrefix | main.cpp:53-56 | the blocks of fewer keys form a prefix of the output |
| Keyed.GatherAt | main.cpp:61 | the block of key `k` starts after all elements with smaller keys and holds the key-`k` elements in input order |
| Keyed.GatherOrdered | main.cpp:58-63 | the output is ordered by key |
| Keyed.GatherStable | main.cpp:58-63 | stability: the elements with any one key leave the pass in the order they entered it |
| Keyed.DestCorrect | main.cpp:59-62 | each element's write index lies in `[0, n)`, inside its key's block, and the final output holds that element there |
| Keyed.DestStable | main.cpp:59-62 | of two elements with the same key, the earlier one is written to the lower slot |
| Keyed.DestInjective | main.cpp:59-62 | two elements never share a slot, so each of the `n` slots is written exactly once |
| Keyed.SlotBlock | main.cpp:59-62 | every output slot lies in the block of the key of the element it holds |
| CountingSort.ShiftFilterRepeat | main.cpp:29-33 | the elements with offset `k` from the minimum are all `k + minVal`, so writing that value `count[k]` times reproduces them |
| CountingSort.CountingOrder | main.cpp:13-67 | the order both counting sorts produce is sorted and a permutation of the input |
| CountingSort.CountKeys | main.cpp:23-25 | afterwards `count[k]` is the number of elements with key `k`; this is also the counting loop at 49-51 and 76-79 |
| CountingSort.WriteCounts | main.cpp:28-34 | writing each offset's value as often as it was counted yields the elements grouped by value, in increasing order |
| CountingSort.WriteRun | main.cpp:30-33 | `count[i]` copies of `v` are appended at `idx`, the count drops to 0, no other count changes, and `a[next..]` is unchanged |
| CountingSort.CountingSortNonStable | main.cpp:13-35 | the array ends sorted and a permutation of its input (an empty array is unchanged) |
| CountingSort.PrefixSums | main.cpp:53-56 | afterwards `count[k]` is the number of elements with key at most `k` |
| CountingSort.ScatterCounts | main.cpp:59-62 | at each step of the right-to-left scan, `count[key] - 1` is `Dest` of the element and lies in `[0, n)`, and lowering the count keeps the count invariant |
| CountingSort.ScatterPlaced | main.cpp:61 | the slots written so far hold the final output |
| CountingSort.ScatterDone | main.cpp:58-63 | when the scan ends, the output is `Gather` of the input |
| CountingSort.ScatterFromRight | main.cpp:58-63 | the output array becomes the stable key order of the input |
| CountingSort.PlaceOne | main.cpp:60-62 | one scan step writes the element at `i` to slot `Dest` of `output` and to no other slot, lowers the count of its key to that slot, and so preserves the count and placement invariants |
| CountingSort.StableCountingPass | main.cpp:45-66 | the array becomes the stable key order of its old contents (this also models lines 72-93) |
| CountingSort.CountingSortStable | main.cpp:38-67 | the array ends sorted, a permutation of its input, and equal to the stable value order |
| RadixSort.RadixDigit | main.cpp:77 | for a non-negative value the C++ digit `(v / exp) % 10` lies in `[0, 10)` and is the key the pass uses |
| RadixSort.CountingSortForRadix | main.cpp:70-94 | the array becomes the stable order by the digit at `exp` of its old contents, a permutation of them |
| RadixSort.BlockAppend | main.cpp:87-91 | a prefix sorted modulo `10e` with smaller digits, followed by a block sorted modulo `e` with one digit, is sorted modulo `10e` |
| RadixSort.GatherDigitSorted | main.cpp:103-105 | a pass by the digit at `e` over a sequence sorted modulo `e` leaves it sorted modulo `10e` |
| RadixSort.LsdStep | main.cpp:103-105 | one pass keeps the elements and their bounds and takes sortedness modulo `exp` to sortedness modulo `10 exp` |
| RadixSort.LsdDone | main.cpp:103 | once `exp` exceeds the maximum, sortedness modulo `exp` is sortedness |
| RadixSort.DigitPasses | main.cpp:103-105 | the digit loop ends with a sorted permutation |
| RadixSort.LsdRadixSort | main.cpp:97-106 | for non-negative input the array ends sorted and a permutation of its input |
| RadixSort.SortedModSmall | main.cpp:103 | below the modulus, order modulo `m` is plain order |
| RadixSort.Distribute | main.cpp:162-168 | bucket `c` holds, in order, the elements of `arr[left..right]` whose digit at `digit` is `c` |
| RadixSort.MsdStep | main.cpp:172-183 | appending a bucket sorted by the lower digits keeps the written part a sorted permutation of the buckets so far |
| RadixSort.MsdDone | main.cpp:172-183 | after the tenth bucket the written part is a permutation of the range, sorted modulo `10^(digit+1)` |
| RadixSort.PlaceBuckets | main.cpp:171-183 | the placement loop writes the buckets into `arr[left..right]`, sorted modulo `10^(digit+1)`, and changes nothing outside |
| RadixSort.PlaceNext | main.cpp:172-183 | one round of the placement loop writes bucket `i` right after the buckets below it, changes only the slots that bucket occupies, keeps the rest of the array outside `arr[left..right]` as it was, and extends the sorted permutation by one bucket |
| RadixSort.PlaceBucket | main.cpp:173-182 | one round writes one bucket, sorts it when it has two or more elements, and touches only its slots |
| RadixSort.MsdRadixSortHelper | main.cpp:159-184 | nothing changes when `left >= right` or `digit < 0`; otherwise only `arr[left..right]` changes, and it becomes a permutation of itself sorted modulo `10^(digit+1)` |
| RadixSort.MsdRadixSort | main.cpp:187-191 | for non-negative input the array ends sorted and a permutation of its input |
| BucketSort.FloorSqrt | main.cpp:117 | the number of buckets is the integer square root: `r*r <= n < (r+1)*(r+1)` |
| BucketSort.FloorSqrtPositive | main.cpp:117-118 | a non-empty input gets at least one bucket, so the `numBuckets == 0` branch never runs |
| BucketSort.BucketIndexInRange | main.cpp:124-125 | for every value of the input the scaled index lies in `[0, numBuckets)`, so the clamp never applies |
| BucketSort.BucketMonotone | main.cpp:124-125 | the bucket index never decreases as the value grows |
| BucketSort.BucketOrder | main.cpp:124-125 | a value in a lower bucket is smaller than a value in a higher one |
| BucketSort.MinimumInFirstBucket | main.cpp:124 | the minimum goes to bucket 0 |
| BucketSort.AllEqualOneBucket | main.cpp:114-126 | when all values are equal the range is 1 and every value lands in bucket 0 |
| BucketSort.Wrap32 | main.cpp:124 | a 32-bit `int` result lies in `[-2^31, 2^31)` and is congruent to the exact one modulo `2^32` |
| BucketSort.BucketIndex32 | main.cpp:124-125 | the index as computed in 32-bit `int` never exceeds the last bucket, and it equals the exact index whenever the product `(num - minVal) * numBuckets` fits in an `int` |
| BucketSort.BucketIndexOverflow | main.cpp:117-126 | with nine elements from 0 to 999999999, the 32-bit index of the maximum is -1 |
| BucketSort.Insert | main.cpp:131 | inserting into a sorted sequence gives a sorted sequence with one more copy of the value |
| BucketSort.SortSeq | main.cpp:131 | the result is sorted and a permutation of the bucket |
| BucketSort.DistributeBuckets | main.cpp:120-127 | `numBuckets` buckets; bucket `b` holds, in input order, the elements whose clamped index is `b` |
| BucketSort.SortBuckets | main.cpp:130-132 | every bucket becomes a sorted permutation of itself |
| BucketSort.ConcatStep | main.cpp:136-140 | appending the next sorted bucket keeps the written prefix a sorted permutation of the buckets so far |
| BucketSort.AppendBucket | main.cpp:137-139 | one round writes bucket `b` after the buckets below it, changes no other slot, and keeps that invariant |
| BucketSort.Concatenate | main.cpp:135-140 | writing the sorted buckets back in index order fills the `n` slots with a sorted permutation of the input |
| BucketSort.BucketSort | main.cpp:109-141 | the array ends sorted and a permutation of its input |

## Left out

- `printArray`, `measureTime`, the three generators and `main` (lines 193-301) are out: output, clocks and randomness.
- GetDigit fixes the base to 10. The program's `getDigit` has a defaulted `base` parameter, but every call uses the default.
- `pow` in `getDigit` is modelled as the exact integer `Pow10`. `sqrt` in `bucketSort` is modelled as the exact integer square root `FloorSqrt`. No floating-point rounding is modelled.
- `std::sort` on each bucket is modelled as `SortSeq`, an insertion sort. Only its result, a sorted permutation, is used, and no stability is claimed for it.
- 32-bit overflow is not modelled: `maxVal - minVal + 1`, `(num - minVal) * numBuckets`, `exp *= 10` and the `range`-sized `count` vector all use unbounded integers. The only exception is the one finding below.
- LsdRadixSort, MsdRadixSort, CountingSortForRadix and MsdRadixSortHelper require non-negative input, so nothing is stated about their behaviour on negative input. In the program a negative element's digit is negative or zero (`NegativeDigit`). A non-zero negative digit met during a pass indexes outside the ten counts or buckets. A zero digit simply selects bucket 0. When the maximum is at most 0, no pass runs: `maxVal / exp > 0` fails at once in `lsdRadixSort`, and `getMaxDigits` returns 0 so `msdRadixSortHelper` returns at once. An input such as `[-1, -3]` is therefore left as it is, unsorted.
- CountingSortForRadix: the program's digit `(arr[i] / exp) % 10` is modelled by Dafny's Euclidean `/` and `%`. `RadixDigit` proves this equals the C++ truncating digit on the non-negative inputs the precondition admits.
- `countingSortStable` and `countingSortForRadix` have the same count / prefix-sum / scan / copy-back body. It is modelled once, as `StableCountingPass`, parametrised by the key (value minus minimum, or digit at `exp`).
- The copy `arr = output` is modelled as an element-wise copy into the same array. Reallocation of the vector is not modelled.
- The bucket vectors of `msdRadixSortHelper` and `bucketSort` are modelled as sequences of sequences, not as separately allocated vectors.

## Findings

| source | as written | input that shows it | evidently intended | confidence | as-written member | corrected member |
|---|---|---|---|---|---|---|
| main.cpp:124 | `((num - minVal) * numBuckets) / range` is computed in 32-bit `int`, so the product can overflow and the index can be negative | nine elements from 0 to 999999999: `numBuckets` is 3, `999999999 * 3` wraps to -1294967299, and the index is -1, outside `buckets` | the exact scaled index, for example computed in 64 bits, which always lies in `[0, numBuckets)` | not executed; signed overflow is undefined in C++ and the value shown is the usual two's-complement result | BucketSort.BucketIndex32, BucketSort.BucketIndexOverflow | BucketSort.BucketIndexInRange |
