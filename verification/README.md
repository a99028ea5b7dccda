# Sorting library model

A Dafny model of the hand-written sorting library in `SortingAlgorithms/Algorithms/`:

- the generic comparison sorts `BubbleSort`, `HeapSort`, `MergeSort` and `QuickSort`;
- the `int[]` sorts `SelectionSort`, `ShellSort` and `InsertionSort`;
- the distribution sorts `CountingSort`, `RadixSort` and `BucketSort`;
- `TreeSort`.

The model proves each routine correct. Every routine ends with a sorted permutation of its input. The routines that work on a range leave everything outside the range alone. Bubble sort and merge sort are stable. Each documented no-op case and each exception is stated exactly.

How the C# is modelled:

- **In-place routines.** Each one is a method from the array's contents to the contents it leaves behind. Internally, a local sequence is updated at exactly the indices the C# code writes. Each loop of the source is a loop of the model or a method of its own.
- **Exceptions.** A routine that can throw returns `Outcome<seq<int>>` from module `Runtime`: either `Done(contents)` or `Thrown(exception)`. For every input the contracts admit, each exception the library raises comes before the first write to the array, so a thrown call leaves the array as it was. `Thrown` carries no array contents, so the model could not express a partial write anyway (see "Left out" for the inputs where one happens).
- **Comparisons.** A `Comparison<T>` is a function `cmp: (T, T) -> int`, inspected only through the sign of its result. The generic sorts require it to be a total preorder: total and transitive, with ties allowed.
- **Stability.** `Order.Stable(cmp, a, r)` says that for every key `k`, the elements equivalent to `k` appear in `r` in the same order as in `a`.
- **Machine integers.** `int` arithmetic is written out where it matters (`Runtime.Wrap32`, `Runtime.Quot`, `Runtime.Rem`). This covers radix sort's `exp *= 10`, `Math.Abs(int.MinValue)`, counting sort's `max + 1`, and bucket sort's index computation. C#'s `/` and `%` truncate toward zero, so they get their own definitions.

The code documents only two assumptions. Bucket sort assumes "the range of values is not too large" (`BucketSort.cs` line 14). Counting sort assumes non-negative values or a known range (`CountingSort.cs` line 14, with the comment at lines 31-32). The early returns are `array.Length <= 1` in bubble, heap, merge, quick and bucket sort (`BubbleSort.cs` line 17, `BucketSort.cs` lines 20-21) and `array.Length == 0` in counting sort (`CountingSort.cs` lines 19-20). Selection, shell, insertion, tree and radix sort have none. The model follows the code at every edge:

- Radix sort reads `array[0]` with no length check (`RadixSort.cs` line 20), so an empty array throws `IndexOutOfRangeException`.
- `Math.Abs(int.MinValue)` makes radix sort throw `OverflowException` (`RadixSort.cs` lines 20-24).
- Counting sort throws `OverflowException` on `int.MaxValue`, because `max + 1` wraps to a negative array size (`CountingSort.cs` line 36).
- Bucket sort throws `OverflowException` for a negative `bucketCount` (`new List<int>[bucketCount]`, line 32) and `IndexOutOfRangeException` for zero buckets (line 43).
- Bucket sort's index `(array[i] - minValue) * (bucketCount - 1) / range` (line 42) is computed in wrapped `int` arithmetic, and on values that span most of the `int` range it goes wrong in three ways:
  - it can return an unsorted array (see Findings);
  - it can throw `IndexOutOfRangeException` at line 43: on `[0, 300000000]` with 10 buckets the product wraps to -1594967296 and the index is -5;
  - it can throw `DivideByZeroException` at line 42: on `[int.MinValue, int.MaxValue]`, `range` wraps to 0 at line 39.

  `BucketSort.SortAsWritten` states which exception comes out: that of the first element that gets no bucket.

Radix sort's offset digit table is sound for every other `int`, including negatives of several digits, and `RadixSort.Sort` proves it.

The modules follow the source files, plus three shared ones:

- `Runtime`: exceptions, `int` arithmetic, truncating division.
- `Order`: sortedness, swaps, stability.
- `Distribution`: the stable distribution into numbered buckets that radix sort and bucket sort share.

## Model

| member | source | states |
|---|---|---|
| Runtime.Wrap32 | SortingAlgorithms/Algorithms/CountingSort.cs:36 | unchecked `int` arithmetic: the result is an `int` congruent to the exact value modulo 2^32, and equal to it when the exact value fits |
| Runtime.Abs | SortingAlgorithms/Algorithms/RadixSort.cs:20-24 | `Math.Abs` throws `OverflowException` exactly for `int.MinValue`; otherwise it returns `x` or `-x`, whichever is non-negative |
| Runtime.Quot | SortingAlgorithms/Algorithms/RadixSort.cs:45 | C#'s `x / m` truncates toward zero: `q * m` is the multiple of `m` nearest `x` on the side of zero |
| Runtime.Rem | SortingAlgorithms/Algorithms/RadixSort.cs:45 | C#'s `x % m`: `x == (x / m) * m + x % m`, and the remainder has the sign of `x` and a magnitude below `m` |
| Order.Swap | SortingAlgorithms/Algorithms/QuickSort.cs:40 | the tuple exchange `(a[i], a[j]) = (a[j], a[i])` exchanges the two positions, keeps every other one and keeps the bag of elements |
| Order.SwapNeighboursStable | SortingAlgorithms/Algorithms/BubbleSort.cs:26-30 | exchanging two neighbours only when they compare `> 0` keeps the relative order of every group of equal elements |
| Order.PairClass | SortingAlgorithms/Algorithms/BubbleSort.cs:26-29 | exchanging two neighbours that are not both equivalent to `k` keeps the order of the elements equivalent to `k` |
| Order.Extremes | SortingAlgorithms/Algorithms/BucketSort.cs:23-29 | the min/max scan returns elements of the array that bound every element from below and above |
| MergeSort.MergeBag | SortingAlgorithms/Algorithms/MergeSort.cs:48-71 | the merge of two runs holds exactly the elements of both |
| MergeSort.MergeSorted | SortingAlgorithms/Algorithms/MergeSort.cs:49-58 | merging two sorted runs gives a sorted run |
| MergeSort.MergeStable | SortingAlgorithms/Algorithms/MergeSort.cs:51-58 | taking the left head on a tie (`<= 0`) makes the merge stable: for every key, the equivalent elements of the left run come first, then those of the right run, each in their own order |
| MergeSort.TakeLeftClass | SortingAlgorithms/Algorithms/MergeSort.cs:51-53 | taking the left head extends the stable order of the rest of the merge |
| MergeSort.TakeRightClass | SortingAlgorithms/Algorithms/MergeSort.cs:55-57 | a right head that is strictly smaller than the left head shares no class with any left element, so taking it keeps the stable order |
| MergeSort.Mid | SortingAlgorithms/Algorithms/MergeSort.cs:24 | the midpoint splits `[left, right]` into two non-empty, strictly shorter halves, so the recursion terminates |
| MergeSort.MergeHeads | SortingAlgorithms/Algorithms/MergeSort.cs:48-59 | the first merge loop stops with one run used up; the written range holds the start of the merge, and the rest of the merge is what remains of the runs |
| MergeSort.TakeHead | SortingAlgorithms/Algorithms/MergeSort.cs:51-58 | one iteration writes the next element of the merge and advances exactly the run it came from |
| MergeSort.Advance | SortingAlgorithms/Algorithms/MergeSort.cs:51-58 | the element the comparison selects is the next element of the merge, and what remains merges into the rest |
| MergeSort.Drained | SortingAlgorithms/Algorithms/MergeSort.cs:61-71 | once one run is used up, the rest of the merge is the rest of the other run |
| MergeSort.CopyRest | SortingAlgorithms/Algorithms/MergeSort.cs:61-71 | the two copy loops write the rest of the remaining run right after the written range |
| MergeSort.Merge | SortingAlgorithms/Algorithms/MergeSort.cs:34-72 | `[left, right]` becomes the merge of the two halves, written in order from `left` with `leftSize + rightSize` elements; nothing outside the range changes |
| MergeSort.Assemble | SortingAlgorithms/Algorithms/MergeSort.cs:22-31 | sorting both halves and then merging them stably sorts the range and leaves the rest of the array unchanged |
| MergeSort.AssembleMerge | SortingAlgorithms/Algorithms/MergeSort.cs:26-30 | the merge of stable sorts of two runs is a stable sort of their concatenation |
| MergeSort.Sort | SortingAlgorithms/Algorithms/MergeSort.cs:17-32 | arrays of length 0 or 1, and `left >= right`, leave the array unchanged; otherwise `[left, right]` becomes a stable sorted permutation of itself and the rest is untouched |
| QuickSort.Partition | SortingAlgorithms/Algorithms/QuickSort.cs:30-45 | Lomuto partition: it returns `left <= p <= right` with the old `a[right]` at `p`, elements comparing `<= 0` to it before `p` and `> 0` after `p`; it permutes only `[left, right]` |
| QuickSort.PartitionStep | SortingAlgorithms/Algorithms/QuickSort.cs:35-42 | one scan step keeps the low part (`<= pivot`), the high part (`> pivot`), the bag and the untouched rest |
| QuickSort.PlacePivot | SortingAlgorithms/Algorithms/QuickSort.cs:43-44 | the final exchange puts the pivot between the two parts and establishes what `Partition` returns |
| QuickSort.AroundPivot | SortingAlgorithms/Algorithms/QuickSort.cs:24-26 | a sorted low part, the pivot, then a sorted high part form a sorted range |
| QuickSort.Assemble | SortingAlgorithms/Algorithms/QuickSort.cs:22-27 | partition plus the two recursive sorts sort the range and leave the rest of the array unchanged |
| QuickSort.Sort | SortingAlgorithms/Algorithms/QuickSort.cs:17-28 | arrays of length 0 or 1, and `left >= right`, leave the array unchanged; otherwise `[left, right]` becomes a sorted permutation of itself and the rest is untouched |
| HeapSort.Heapify | SortingAlgorithms/Algorithms/HeapSort.cs:42-67 | if the subtrees below `i` are max-heaps, sifting down makes the subtree at `i` one; only positions in `[i, heapSize)` move, and the bag is kept |
| HeapSort.StaysPut | SortingAlgorithms/Algorithms/HeapSort.cs:61 | when neither child beats the element at `i`, the heap is already whole |
| HeapSort.SiftStep | SortingAlgorithms/Algorithms/HeapSort.cs:44-65 | exchanging `i` with its larger child repairs the order at `i` and leaves only the child's subtree to fix |
| HeapSort.RootIsMax | SortingAlgorithms/Algorithms/HeapSort.cs:29-32 | the root of a max-heap is at least every element of the heap |
| HeapSort.BuildHeap | SortingAlgorithms/Algorithms/HeapSort.cs:22-26 | the build loop turns the array into a max-heap without changing its contents |
| HeapSort.Extract | SortingAlgorithms/Algorithms/HeapSort.cs:29-36 | one extraction step keeps the loop invariant: a max-heap on `[0, i)`, a sorted suffix from `i`, and every heap element at most every suffix element |
| HeapSort.RootToEnd | SortingAlgorithms/Algorithms/HeapSort.cs:32 | exchanging the root with position `i` extends the sorted suffix by one |
| HeapSort.SiftKeepsSuffix | SortingAlgorithms/Algorithms/HeapSort.cs:35 | sifting down inside `[0, i)` keeps the suffix and its bound over the heap |
| HeapSort.Sort | SortingAlgorithms/Algorithms/HeapSort.cs:15-37 | arrays of length 0 or 1 are unchanged; otherwise the array ends sorted and a permutation of the input |
| BubbleSort.Pass | SortingAlgorithms/Algorithms/BubbleSort.cs:23-32 | one pass permutes only the prefix `[0, m)`, keeps every group of equal elements in order, and leaves a greatest prefix element at `m - 1`; a pass without an exchange has changed nothing and has seen a sorted prefix |
| BubbleSort.Compare | SortingAlgorithms/Algorithms/BubbleSort.cs:26-31 | one comparison-and-exchange step keeps the pass invariant |
| BubbleSort.EndPass | SortingAlgorithms/Algorithms/BubbleSort.cs:32-34 | the pass invariant at the end of the inner loop gives what `Pass` promises, including the soundness of the early exit |
| BubbleSort.JoinSorted | SortingAlgorithms/Algorithms/BubbleSort.cs:34 | a sorted prefix, a sorted suffix and every prefix element before every suffix element make a sorted array, so breaking out early is sound |
| BubbleSort.Sort | SortingAlgorithms/Algorithms/BubbleSort.cs:15-36 | arrays of length 0 or 1 are unchanged; otherwise the result is a stable sorted permutation of the input |
| SelectionSort.MinIndex | SortingAlgorithms/Algorithms/SelectionSort.cs:20-27 | the inner loop finds `i <= minIndex < n` holding a least element of `a[i..]`, the first one among equal minima |
| SelectionSort.Sort | SortingAlgorithms/Algorithms/SelectionSort.cs:15-36 | arrays of length 0 or 1 are unchanged; otherwise the result is a sorted permutation of the input |
| ShellSort.HalvingsShape | SortingAlgorithms/Algorithms/ShellSort.cs:19 | the gaps `n/2, n/4, ...` are positive and strictly decreasing, and the last one is 1 whenever there is one |
| ShellSort.GapInsert | SortingAlgorithms/Algorithms/ShellSort.cs:24-30 | inserting `array[i]` into its chain extends the gap-sorted prefix to `[0, i]`, keeps the bag and leaves positions after `i` alone |
| ShellSort.HoleStep | SortingAlgorithms/Algorithms/ShellSort.cs:26-29 | shifting a strictly greater element up one gap moves the hole down one gap and keeps the chain order around it |
| ShellSort.ChainPlaced | SortingAlgorithms/Algorithms/ShellSort.cs:30 | dropping `temp` into the hole leaves every chain in order |
| ShellSort.GapPass | SortingAlgorithms/Algorithms/ShellSort.cs:22-31 | one pass with a gap leaves every chain `gap` apart in order and keeps the bag |
| ShellSort.OneSorted | SortingAlgorithms/Algorithms/ShellSort.cs:19-22 | after the pass with gap 1 the array is sorted |
| ShellSort.Sort | SortingAlgorithms/Algorithms/ShellSort.cs:15-33 | the passes run over exactly the gaps `n/2, n/4, ..., 1`; for `n < 2` the array is unchanged; the result is a sorted permutation of the input |
| InsertionSort.InsertKey | SortingAlgorithms/Algorithms/InsertionSort.cs:19-26 | the key lands at `pos` behind every element not greater than it and in front of the strictly greater ones, which is why equal keys keep their order; `[0, i]` is then sorted, the bag is kept and positions after `i` are untouched |
| InsertionSort.ShiftStep | SortingAlgorithms/Algorithms/InsertionSort.cs:21-25 | one shift past a strictly greater key keeps the shifting invariant with the hole one place further left |
| InsertionSort.Land | SortingAlgorithms/Algorithms/InsertionSort.cs:21-26 | writing the key into the hole once its predecessor is not greater gives exactly what `InsertKey` promises |
| InsertionSort.InsertedSorted | SortingAlgorithms/Algorithms/InsertionSort.cs:26 | placing the key between the not-greater prefix and the shifted greater keys leaves `[0, i]` sorted |
| InsertionSort.Sort | SortingAlgorithms/Algorithms/InsertionSort.cs:15-28 | arrays of length 0 or 1 are unchanged; otherwise the result is a sorted permutation of the input |
| CountingSort.CountOccurrences | SortingAlgorithms/Algorithms/CountingSort.cs:38-42 | after the counting loop, `count[v]` is the number of occurrences of `v`, for every `v` the count array covers |
| CountingSort.Overwrite | SortingAlgorithms/Algorithms/CountingSort.cs:44-53 | with exact counts, the rewrite loops produce the sorted permutation of the array |
| CountingSort.WriteCopies | SortingAlgorithms/Algorithms/CountingSort.cs:48-52 | the inner loop writes `value` exactly as often as it occurs, after the smaller values, and leaves the other counts alone |
| CountingSort.Append | SortingAlgorithms/Algorithms/CountingSort.cs:50-51 | writing one more copy of `value`, while an unwritten copy remains, stays within the array and keeps the written prefix sorted and a sub-bag of the input |
| CountingSort.Next | SortingAlgorithms/Algorithms/CountingSort.cs:46-48 | once every copy of `value` is written, the written prefix holds exactly the values up to `value` |
| CountingSort.AllWritten | SortingAlgorithms/Algorithms/CountingSort.cs:46-53 | after the last value, the written prefix is the whole array, sorted and a permutation of the input |
| CountingSort.Sort | SortingAlgorithms/Algorithms/CountingSort.cs:17-54 | an empty array is unchanged; `InvalidOperationException` exactly when some element is negative; `OverflowException` exactly when there is none and some element is `int.MaxValue` (the wrapped `max + 1` is a negative size); otherwise a sorted permutation |
| RadixSort.Digit | SortingAlgorithms/Algorithms/RadixSort.cs:45 | the digit index `(x / exp) % 10 + 9` under truncating division lies in `[0, 18]`: at least 9 for non-negative `x` and at most 9 for negative `x` |
| RadixSort.Key | SortingAlgorithms/Algorithms/RadixSort.cs:45 | the part of `x` below the divisor, with the sign of `x`: the order that the passes so far have established |
| RadixSort.KeyDecompose | SortingAlgorithms/Algorithms/RadixSort.cs:45 | the key one decimal place up is the signed digit at `e` followed by the key below `e` |
| RadixSort.KeyStep | SortingAlgorithms/Algorithms/RadixSort.cs:56-61 | comparing by the key below `10 e` is comparing by digit first and by the key below `e` among equal digits |
| RadixSort.DigitMonotone | SortingAlgorithms/Algorithms/RadixSort.cs:45 | for numbers below `10 exp` in magnitude, the digit at `exp` never decreases with the value |
| RadixSort.Tally | SortingAlgorithms/Algorithms/RadixSort.cs:42-47 | after the count loop, `count[d]` is the number of elements with digit index `d` |
| RadixSort.PrefixSums | SortingAlgorithms/Algorithms/RadixSort.cs:49-53 | after the prefix sums, `count[d]` is the number of elements with digit index at most `d`, which is the end of bucket `d` in the pass result |
| RadixSort.PlaceOne | SortingAlgorithms/Algorithms/RadixSort.cs:58-60 | one step of the backward scan writes `array[i]` at `count[digit] - 1`, its place in the stable pass result, and decrements that count |
| RadixSort.Place | SortingAlgorithms/Algorithms/RadixSort.cs:56-61 | in the stable pass result, `array[i]` sits after the start of its bucket and after the earlier elements with the same digit |
| RadixSort.ScanDown | SortingAlgorithms/Algorithms/RadixSort.cs:56-61 | the backward loop fills every position of the output with the element the stable pass result has there |
| RadixSort.ScatterBy | SortingAlgorithms/Algorithms/RadixSort.cs:39-61 | the output array ends as the stable distribution of the array by digit |
| RadixSort.CountingSortByDigit | SortingAlgorithms/Algorithms/RadixSort.cs:36-68 | one pass is the stable distribution of the array into the 19 digit buckets, a permutation of the array |
| RadixSort.PassKeySorted | SortingAlgorithms/Algorithms/RadixSort.cs:36-68 | a pass with divisor `e` over an array in order by the key below `e` leaves it in order by the key below `10 e` |
| RadixSort.PassKeepsSorted | SortingAlgorithms/Algorithms/RadixSort.cs:28-30 | an extra pass whose divisor is more than a tenth of every magnitude keeps a sorted array sorted |
| RadixSort.MaxMagnitude | SortingAlgorithms/Algorithms/RadixSort.cs:19-25 | an empty array fails at `array[0]`; `Math.Abs` overflows exactly when some element is `int.MinValue`; otherwise `max` is the largest magnitude |
| RadixSort.NextDivisor | SortingAlgorithms/Algorithms/RadixSort.cs:28 | the wrapped `exp *= 10` moves from one divisor of the run to the next: powers of ten up to 10^9, then the wrapped values |
| RadixSort.PassStep | SortingAlgorithms/Algorithms/RadixSort.cs:28-30 | each pass of the `exp` loop extends the order established so far |
| RadixSort.Finish | SortingAlgorithms/Algorithms/RadixSort.cs:28 | when `max / exp` reaches 0 the array is sorted |
| RadixSort.Passes | SortingAlgorithms/Algorithms/RadixSort.cs:27-31 | the `exp` loop, with its wrapped divisor, leaves a sorted permutation of the input |
| RadixSort.Sort | SortingAlgorithms/Algorithms/RadixSort.cs:17-32 | `IndexOutOfRangeException` exactly on an empty array, `OverflowException` exactly when `int.MinValue` occurs, and otherwise a sorted permutation, negative numbers included |
| Distribution.BucketsBag | SortingAlgorithms/Algorithms/BucketSort.cs:40-44 | when every element has a bucket, the concatenated buckets hold exactly the input |
| Distribution.PickedSorted | SortingAlgorithms/Algorithms/RadixSort.cs:56-61 | a bucket keeps the relative order of its elements in the input, so a distribution of an ordered sequence has ordered buckets |
| Distribution.BucketsLex | SortingAlgorithms/Algorithms/RadixSort.cs:56-61 | the stable distribution of a sequence in key order is in digit-then-key order |
| Distribution.BucketsAt | SortingAlgorithms/Algorithms/BucketSort.cs:47-55 | element `k` of bucket `d` sits right after the earlier buckets in the concatenation |
| Distribution.PickedAt | SortingAlgorithms/Algorithms/RadixSort.cs:56-61 | element `i` of the input is the element of its bucket that follows the earlier elements with the same digit |
| BucketSort.IndexInRange | SortingAlgorithms/Algorithms/BucketSort.cs:42-43 | with `bucketCount >= 1` and exact arithmetic, every value in `[minValue, maxValue]` gets a bucket index in `[0, bucketCount)` |
| BucketSort.IndexBounds | SortingAlgorithms/Algorithms/BucketSort.cs:42-43 | with buckets, some bucket; with none, the missing bucket 0 |
| BucketSort.IndexMonotone | SortingAlgorithms/Algorithms/BucketSort.cs:42 | the exact bucket index never decreases with the value |
| BucketSort.Index32 | SortingAlgorithms/Algorithms/BucketSort.cs:39-42 | the index as written, in wrapped `int` arithmetic: it can only throw `DivideByZeroException` or `OverflowException` |
| BucketSort.Index32Exact | SortingAlgorithms/Algorithms/BucketSort.cs:39-42 | where no intermediate value leaves the `int` range, the wrapped index is the exact one |
| BucketSort.DistributeBy | SortingAlgorithms/Algorithms/BucketSort.cs:32-44 | the distribution loop succeeds exactly when every element has a bucket, and then bucket `b` holds the elements with index `b` in array order; otherwise it throws `IndexOutOfRangeException` |
| BucketSort.DistributeUntil | SortingAlgorithms/Algorithms/BucketSort.cs:40-44 | the loop runs up to the end or to the first element without a bucket, with the elements before it distributed |
| BucketSort.DistributeStep | SortingAlgorithms/Algorithms/BucketSort.cs:43 | `buckets[bucketIndex].Add(array[i])` extends the distribution by one element |
| BucketSort.AllIndexed | SortingAlgorithms/Algorithms/BucketSort.cs:39-43 | with exact arithmetic, every element has a bucket exactly when `bucketCount > 0` |
| BucketSort.DistributeExact | SortingAlgorithms/Algorithms/BucketSort.cs:32-44 | with exact arithmetic, distribution fails exactly when there are no buckets |
| BucketSort.DistributeWrapped | SortingAlgorithms/Algorithms/BucketSort.cs:32-44 | with the index as written, distribution succeeds exactly when every index computation succeeds and names an existing bucket; otherwise it throws the exception of the first element that gets no bucket (`DivideByZeroException` or `OverflowException` from line 42, `IndexOutOfRangeException` from line 43) |
| BucketSort.FirstFailureAt | SortingAlgorithms/Algorithms/BucketSort.cs:40-43 | when element `i` is the first one without a bucket, the loop's exception is that of `i`: the exception of its index computation, or `IndexOutOfRangeException` for an index outside the bucket array |
| BucketSort.DistributeTry | SortingAlgorithms/Algorithms/BucketSort.cs:40-44 | with a fallible index, the loop stops at the first element whose index throws or has no bucket, and reports that exception or `IndexOutOfRangeException` |
| BucketSort.WriteBlock | SortingAlgorithms/Algorithms/BucketSort.cs:51-54 | the inner `foreach` writes the bucket's values from `index` on, in order |
| BucketSort.SortedBucket | SortingAlgorithms/Algorithms/BucketSort.cs:50 | whatever order the built-in sort leaves a bucket in, every value in it still has that bucket's index |
| BucketSort.GatherStep | SortingAlgorithms/Algorithms/BucketSort.cs:48-54 | writing back the sorted bucket `b` extends the gathered prefix: it has the elements of buckets `0..b` in bucket-then-value order |
| BucketSort.Gather | SortingAlgorithms/Algorithms/BucketSort.cs:47-55 | writing back the sorted buckets produces a permutation of the array, in bucket-then-value order, of exactly `array.Length` elements |
| BucketSort.IndexOrderSorted | SortingAlgorithms/Algorithms/BucketSort.cs:42 | because the exact index is monotone, bucket-then-value order is value order |
| BucketSort.LeastGreatest | SortingAlgorithms/Algorithms/BucketSort.cs:23-29 | the scanned `minValue` and `maxValue` are the least and greatest elements |
| BucketSort.Sort | SortingAlgorithms/Algorithms/BucketSort.cs:18-56 | the corrected routine, with an exact index: length 0 or 1 unchanged, a negative `bucketCount` throws `OverflowException`, zero buckets throw `IndexOutOfRangeException`, otherwise a sorted permutation |
| BucketSort.SortAsWritten | SortingAlgorithms/Algorithms/BucketSort.cs:18-56 | the routine as written, with the wrapped index: length 0 or 1 unchanged, a negative `bucketCount` throws `OverflowException`; otherwise it succeeds exactly when every element gets a bucket, and then returns a permutation in bucket-then-value order under the wrapped index; when it fails, it throws the exception of the first element without a bucket |
| BucketSort.WitnessIndices | SortingAlgorithms/Algorithms/BucketSort.cs:42 | with 10 buckets over `[0, 2000000000]`, 238609294 goes to bucket 1 but 2000000000 wraps around to bucket 0 |
| BucketSort.WitnessMisordered | SortingAlgorithms/Algorithms/BucketSort.cs:18-56 | on `[0, 238609294, 2000000000]` with 10 buckets, every result the as-written routine can produce is unsorted |
| BucketSort.WitnessRun | SortingAlgorithms/Algorithms/BucketSort.cs:18-56 | the as-written routine on `[0, 238609294, 2000000000]` with 10 buckets completes and returns an unsorted array |
| BucketSort.NegativeIndexRun | SortingAlgorithms/Algorithms/BucketSort.cs:39-43 | the as-written routine on `[0, 300000000]` with 10 buckets throws `IndexOutOfRangeException`: the wrapped product gives the index -5 |
| BucketSort.ZeroRangeRun | SortingAlgorithms/Algorithms/BucketSort.cs:39-42 | the as-written routine on `[int.MinValue, int.MaxValue]` throws `DivideByZeroException`: the wrapped `range` is 0 |
| TreeSort.Insert | SortingAlgorithms/Algorithms/TreeSort.cs:38-49 | `Insert` adds exactly one occurrence of the value and keeps the node's own value; an empty place gets a leaf |
| TreeSort.InsertSearchTree | SortingAlgorithms/Algorithms/TreeSort.cs:43-46 | `Insert` keeps the search-tree order: smaller values to the left, duplicates and greater values to the right |
| TreeSort.InOrderContents | SortingAlgorithms/Algorithms/TreeSort.cs:53-59 | the in-order sequence holds exactly the contents of the tree |
| TreeSort.VisitAppends | SortingAlgorithms/Algorithms/TreeSort.cs:53-59 | the traversal appends exactly the in-order sequence to the list it is given |
| TreeSort.InOrderSorted | SortingAlgorithms/Algorithms/TreeSort.cs:53-59 | the in-order sequence of a search tree is sorted |
| TreeSort.Traversal | SortingAlgorithms/Algorithms/TreeSort.cs:26-28 | the in-order list of the tree built from the array is sorted, holds exactly the array's elements, and is exactly as long as the array, so the write-back loop stays in bounds |
| TreeSort.Build | SortingAlgorithms/Algorithms/TreeSort.cs:20-24 | the build loop yields a search tree holding exactly the array's elements |
| Order.CopyInto | SortingAlgorithms/Algorithms/TreeSort.cs:30-33 | an element-by-element copy loop, here tree sort's write-back and in radix sort the copy of `output` into the array (`RadixSort.cs` lines 63-67), leaves the array equal to the copied list |
| TreeSort.Sort | SortingAlgorithms/Algorithms/TreeSort.cs:17-34 | an empty array is unchanged; otherwise the array ends sorted and a permutation of the input, which also means the in-order list was exactly as long as the array |

## Left out

- Null arrays (`array == null`) cannot be expressed, because a sequence is never null. `comparison ??= Comparer<T>.Default.Compare` is not modelled: the comparison is always given, and it is required to be a total preorder.
- MergeSort.Sort and QuickSort.Sort require `left` and `right` to lie within the array whenever the array has two or more elements and `left < right`. With out-of-range indices the C# code throws `ArgumentException` from `Array.Copy` (`MergeSort.cs` lines 44-45) or `IndexOutOfRangeException` from an array access, possibly after earlier recursive calls have already written part of the array. For example, `MergeSort.Sort([5, 4, 3], 0, 3)` first merges `[0..1]` into `[4, 5, 3]`, and only then does the copy of the right half throw. `Outcome.Thrown` carries no array contents, so the model cannot express such a partial write, and it leaves these inputs out.
- MergeSort.Mid: `(left + right) / 2` is computed exactly. In C# the sum overflows only for arrays of more than 2^30 elements, which the model does not bound.
- Recursion depth is not modelled. This covers stack overflow in quick sort on sorted input, in merge sort, in heap sort's recursive `Heapify`, and in tree sort's degenerate trees. Memory exhaustion is not modelled either, for example counting sort's `new int[max + 1]` or the bucket lists.
- HeapSort.Heapify has a ghost parameter `lo`. It says which part of the array is already a heap: `i` during the build phase, 0 during extraction. It is not part of the C# signature.
- TreeSort: the mutable `TreeNode` objects are modelled as an immutable tree. `Insert` returns the tree that the C# mutations leave behind.
- BucketSort: the built-in `List<int>.Sort()` on each bucket is replaced by the verified `InsertionSort.Sort`. Only the sorted permutation it returns is relied on, and for `int` that result is unique.
- InsertionSort, SelectionSort and ShellSort sort `int[]`, where stability cannot be observed. `InsertionSort.InsertKey` still states that a key lands behind every element not greater than it.
- RadixSort.Passes: the number of passes is not stated. For magnitudes of at least 10^9 the wrapped `exp *= 10` gives extra passes with divisors that are not powers of ten. The model proves the array still ends sorted.
- `TimSort.cs` and `CubeSort.cs` each delegate to `Array.Sort`. `SortingHelpers.cs`, `Transaction.cs`, the benchmarks and the other projects are benchmark scaffolding and data fixtures, not sorting logic.

## Findings

| source | as written | input that shows it | evidently intended | confidence | as-written member | corrected member |
|---|---|---|---|---|---|---|
| SortingAlgorithms/Algorithms/BucketSort.cs:42 | `(array[i] - minValue) * (bucketCount - 1) / range` is computed in 32-bit `int`, so the product wraps around once the values span more than about `int.MaxValue / (bucketCount - 1)` | `[0, 238609294, 2000000000]` with `bucketCount = 10`: 238609294 goes to bucket 1, 2000000000 wraps to bucket 0, and the result is `[0, 2000000000, 238609294]`. Wider spans throw instead: `[0, 300000000]` gives the index -5 and `IndexOutOfRangeException`, and `[int.MinValue, int.MaxValue]` wraps `range` to 0 and throws `DivideByZeroException` | the class comment at `BucketSort.cs` line 14 assumes only that "the range of values is not too large"; intended is an index computed without overflow (for instance in `long`), which is monotone in the value and yields a sorted array | not executed | BucketSort.SortAsWritten, BucketSort.WitnessRun, BucketSort.WitnessMisordered, BucketSort.NegativeIndexRun, BucketSort.ZeroRangeRun | BucketSort.Sort, BucketSort.IndexOrderSorted |
