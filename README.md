# Dataset analyzers: a verified Dafny model

The program reads a dataset of integers from a binary file and runs four
analyzers over it, one after another:

- **statistics**: minimum, maximum, mean, median and mode;
- **duplicates**: how many values repeat an earlier one;
- **missing**: how many integers between the minimum and the maximum are absent;
- **random search**: how many of 100 random probes in [0, 999] occur in the data.

Every analyzer copies the caller's buffer into a private buffer (the
`Analyzer` base constructor), sorts the copy in place with a selection sort,
and scans the sorted copy. The random search looks each probe up with a
recursive binary search.

This project models those parts in Dafny and proves what they compute.

- `sequences.dfy` (module `Sequences`) holds the shared vocabulary:
  - sortedness;
  - the set of distinct values, integer ranges and the sum;
  - minimum and maximum;
  - general facts about these, for example that a dataset has exactly one sorted arrangement and that the sum ignores order.
- `sorting.dfy` (module `Sorting`) holds the in-place selection sort on an `array<int>` prefix.
- `searching.dfy` (module `Searching`) holds the recursive binary search, as a function that reads the buffer.
- `scans.dfy` (module `Scans`) holds one function per analyzer scan. Each function says what its loop computes. The theorems beside them say what that quantity means for the dataset:
  - size minus the number of distinct values;
  - the absent integers of [min, max];
  - the most frequent value;
  - the number of probes that occur;
  - the width of the sum.
- `analyzers.dfy` (module `Analyzers`) holds the rest:
  - the four analyzer classes, each with a private `values` buffer and `size` field;
  - the scanning loops, as methods proved against the `Scans` functions;
  - `AnalyzeAll`, which runs the analyzers in the program's order on one buffer.

The classes share no base type. The base constructor is the method `CopyValues`, which every analyzer's constructor calls.

The program's use of `rand()` is replaced by a parameter. `SearchAnalyser.Analyze` takes the 100 raw draws as `draws: seq<nat>` and reduces each with `% 1000`, as the program does.

The binary search takes its midpoint as `(start + end) / 2`, following `main.cpp:212`. The overflow-safe form is `start + (end - start) / 2`. On the non-negative indices that occur, the two are the same value.

## Model

| member | source | states |
|---|---|---|
| Sorting.SelectionSort | main.cpp:197-208 | The first `size` cells end sorted and are a permutation of what they held. Cells from `size` on are untouched. For `size <= 1`, and for an already sorted prefix, the buffer is left exactly as it was. |
| Sorting.IndexOfMin | main.cpp:199-203 | The inner scan returns an index in [start, size) whose value is at most every value there, and strictly below every value before it (the first minimum). |
| Sorting.Swap | main.cpp:204-206 | Exchanging through a temporary swaps the two cells and keeps the multiset of the buffer. |
| Sorting.SelectionStep | main.cpp:198-207 | Swapping the minimum of the unsorted part into position i extends the sorted, below-the-rest prefix by one. |
| Sorting.SortOutcome | main.cpp:197-208 | When the outer loop ends, the prefix is sorted and a permutation of the input prefix. It equals the input when the input was sorted. |
| Sequences.SortedPermutationUnique | main.cpp:197-208 | Two sorted arrangements of the same values are equal. So sorting is idempotent, and every analyzer's sorted copy is the same sequence. |
| Searching.BinarySearchRecursive | main.cpp:210-218 | A true result always comes with an occurrence of the key in [start, end]. On a sorted range the result is true exactly when the key occurs there. An empty range (start > end) gives false. |
| Searching.NarrowLeft | main.cpp:214-215 | In a sorted range, a key below the middle value occurs in the range exactly when it occurs left of the middle. |
| Searching.NarrowRight | main.cpp:216-217 | In a sorted range, a key above the middle value occurs in the range exactly when it occurs right of the middle. |
| Searching.BinarySearch | main.cpp:220-222 | On a sorted prefix of length size, the result is true exactly when the key occurs in it. A true result always means the key occurs. Size 0 gives false. |
| Analyzers.CopyValues | main.cpp:70-75 | Returns a fresh buffer of length s holding the caller's first s values. The caller's buffer is only read. |
| Analyzers.DuplicatesAnalyser.constructor | main.cpp:93 | The analyzer owns a fresh copy of the caller's first s values. |
| Analyzers.CountRepeats | main.cpp:97-99 | The loop counts the positions i >= 1 whose value equals its predecessor's (`AdjacentEqualCount`). |
| Analyzers.DuplicatesAnalyser.Analyze | main.cpp:95-101 | The copy ends sorted and permuted. The duplicate count equals size minus the number of distinct values of the data as given. |
| Scans.DuplicateCount | main.cpp:96-100 | On sorted data, the adjacent-equal count is the size minus the number of distinct values. |
| Analyzers.MissingAnalyser.constructor | main.cpp:109 | The analyzer owns a fresh copy of the caller's first s values. |
| Analyzers.SumGaps | main.cpp:113-117 | The loop adds gap - 1 for every gap greater than 1 between neighbours (`GapSum`). |
| Analyzers.MissingAnalyser.Analyze | main.cpp:111-119 | The copy ends sorted and permuted. The result is 0 for at most one value. Otherwise it equals the number of integers of [min, max] absent from the data, which is (max - min + 1) minus the number of distinct values. It is 0 exactly when the values cover [min, max]. |
| Analyzers.MissingOutcome | main.cpp:111-119 | The gap sum of a sorted arrangement states those facts about the unsorted input. |
| Scans.MissingValues | main.cpp:118 | The missing numbers between lo and hi are the integers of [lo, hi] that do not occur. |
| Scans.GapSumCountsAbsent | main.cpp:113-117 | On sorted nonempty data, the gap sum is (last - first + 1) minus the number of distinct values. |
| Scans.MissingCount | main.cpp:112-118 | On sorted nonempty data, the gap sum is the size of the set of absent integers of [first, last]. It is 0 exactly when the distinct values are that whole range. |
| Analyzers.SearchAnalyser.constructor | main.cpp:127-129 | The analyzer owns a fresh, sorted permutation of the caller's first s values. The caller's buffer is unchanged. |
| Analyzers.SearchAnalyser.Analyze | main.cpp:131-140 | The found count is the number of the 100 probes `draw % 1000` that occur in the dataset. It lies in 0..100 and is 0 on an empty dataset. |
| Scans.Probes | main.cpp:135 | Each probe is its draw reduced with `% 1000`, so it lies in [0, 999]. |
| Scans.Hits | main.cpp:133-138 | Counts the probes that occur. It is at most the number of probes, equals it exactly when every probe occurs, and is 0 exactly when none does. |
| Scans.HitsPermutation | main.cpp:127-138 | The hit count depends only on the dataset's values, so counting on the sorted copy gives the answer for the data as given. |
| Scans.FullRangeAllFound | main.cpp:134-137 | If the dataset holds every value of [0, 999], every probe is found. |
| Analyzers.StatisticsAnalyser.constructor | main.cpp:148 | The analyzer owns a fresh copy of the caller's first s values. |
| Analyzers.StatisticsAnalyser.Analyze | main.cpp:150-191 | The copy ends sorted and permuted. It states each statistic: (1) min and max are the dataset's minimum and maximum, and also the ends of the sorted copy; (2) the sum is the sum of the data as given; (3) the median values are read at the middle indices; (4) the mode is a value of greatest frequency in the input, the smallest such value, and modeCount is its number of occurrences. |
| Analyzers.SumValues | main.cpp:157-158 | The sum loop accumulates exactly the sum of the first n cells. |
| Analyzers.MedianIndices | main.cpp:163-166 | The median indices lie within the data, are symmetric about the middle (their sum is n - 1), and are equal or adjacent. |
| Analyzers.MedianValues | main.cpp:162-166 | The median branch reads the cells at the median indices: the two middle ones for even size, the middle one twice for odd size. |
| Analyzers.ModeScan | main.cpp:168-181 | The run-length scan with a strict `>` ends at the first longest run of equal values. The mode is the value of that run, and modeCount is its length. |
| Analyzers.StatisticsOutcome | main.cpp:151-181 | For a sorted arrangement of the input: its ends are the input's minimum and maximum; its sum is the input's sum; and its first longest run gives the input's most frequent value, the smallest one if there is a tie, with its number of occurrences. |
| Sequences.Minimum | main.cpp:153 | The minimum occurs in the data and is at most every value. |
| Sequences.Maximum | main.cpp:154 | The maximum occurs in the data and is at least every value. |
| Sequences.SortedEnds | main.cpp:151-154 | A sorted arrangement of nonempty data starts at its minimum and ends at its maximum. |
| Sequences.SumPermutation | main.cpp:157-158 | The sum does not depend on the order of the values, so the sum of the sorted copy is the sum of the input. |
| Scans.RunAt | main.cpp:172-175 | The run of equal values ending at index j has a length between 1 and j + 1. |
| Scans.RunCounts | main.cpp:171-175 | On sorted data, the run ending at j counts every occurrence of s[j] up to j. |
| Scans.ModeIsMostFrequent | main.cpp:168-181 | On sorted data, the first longest run gives the most frequent value. It occurs c times, no value occurs more often, and every value occurring c times is at least as large. |
| Scans.SumBounds | main.cpp:157-158 | A sum of n 32-bit values lies between n times the smallest and n times the largest 32-bit value. |
| Scans.SumFitsLongLong | main.cpp:157-158 | With fewer than 2^31 values of 32 bits, every running sum fits in a 64-bit `long long`. So the accumulation cannot overflow. |
| Analyzers.AnalyzeAll | main.cpp:250-268 | It takes nonempty data only, as `main` rejects size <= 0, and builds the analyzers in the program's order. Each report describes the caller's data as given: (1) min and max are its minimum and maximum; (2) the sum is its sum; (3) the mode is a most frequent value, with its count; (4) duplicates is size minus distinct values; (5) missing is the number of absent integers of [min, max]; (6) found is the number of probes that occur. |

## Left out

- Reading and writing the binary data file is not modelled: `BinaryReader`, `readValues`, `createBinaryFile`, `writeBinary` and the console output of `main`. The dataset is a parameter.
- `srand`, `time` and `rand` are not modelled. The search analyzer receives the raw draws as a parameter, and the reduction `% 1000` is kept.
- The report strings and their formatting are not modelled. Each analyzer returns the numbers the string is built from.
- Mean and median as `double` are not modelled, because floating point is out of scope. The statistics return the integer sum (the mean is the real quotient of sum by size) and the two middle values `medianLow` and `medianHigh` (the median is their average).
- The virtual `analyze` dispatch, the destructor and the unused `cloneValues` are not modelled. The classes share no base type: each carries the base class's two fields itself and calls `CopyValues`.
- StatisticsAnalyser.Analyze: requires size > 0. The source reads `values[0]` with no check, which is undefined on an empty dataset; `main` never builds the analyzer in that case.
- SelectionSort: `size` is a `nat`. A negative size in the source is also a no-op, and no caller passes one.
- MissingAnalyser.Analyze: 32-bit `int` wrap-around is not modelled. This covers the difference of neighbours and the accumulated `missing`; all integers are unbounded here. The difference overflows once two neighbours are 2^31 or more apart. The accumulated `missing` overflows only once the minimum and the maximum are more than 2^31 apart.
- BinarySearchRecursive: does not model 32-bit overflow of `start + end`, which can happen only for buffers of more than 2^30 values.
- MedianValues: the 32-bit addition of the two middle values before the division by 2.0 is not modelled, because the median is returned as its two middle values.
- SumValues: accumulates in unbounded integers. `SumFitsLongLong` shows that the source's `long long` cannot overflow for `int` inputs.
