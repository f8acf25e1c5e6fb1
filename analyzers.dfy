/**
 The four analyzers of main.cpp. Each one owns a private copy of the
 caller's integer buffer (the Analyzer base constructor copies it cell by
 cell), sorts that copy in place and scans it. The classes share no base
 type: the base constructor is the method CopyValues, which every analyzer's
 constructor calls, and each class carries the base's two fields itself.
 */
module Analyzers {
  import opened Sequences
  import opened Sorting
  import opened Searching
  import opened Scans

  /** The number of random probes the search analyzer draws. */
  const ProbeCount := 100

  /**
   The Analyzer base constructor: a fresh buffer of length s holding the
   first s values of the caller's buffer. The caller's buffer is only read.
   */
  method CopyValues(v: array<int>, s: nat) returns (copy: array<int>)
    requires s <= v.Length
    ensures fresh(copy) && copy.Length == s
    ensures copy[..] == v[..s]
  {
    copy := new int[s];
    var i := 0;
    while i < s
      invariant 0 <= i <= s
      invariant forall k :: 0 <= k < i ==> copy[k] == v[k]
    {
      copy[i] := v[i];
      i := i + 1;
    }
  }

  /**
   The scan of the duplicates analyzer: the number of positions i >= 1
   below size whose value equals its predecessor's.
   */
  method CountRepeats(values: array<int>, size: nat) returns (dupCount: nat)
    requires size <= values.Length
    ensures dupCount == AdjacentEqualCount(values[..size])
  {
    dupCount := 0;
    if size == 0 {
      return;
    }
    var i := 1;
    while i < size
      invariant 1 <= i <= size
      invariant dupCount == AdjacentEqualCount(values[..i])
    {
      assert values[..i + 1][..i] == values[..i];
      if values[i] == values[i - 1] {
        dupCount := dupCount + 1;
      }
      i := i + 1;
    }
  }

  /**
   The scan of the missing analyzer: for every gap greater than 1 between
   neighbours below size, add gap - 1.
   */
  method SumGaps(values: array<int>, size: nat) returns (missing: int)
    requires size <= values.Length
    ensures missing == GapSum(values[..size])
  {
    missing := 0;
    if size == 0 {
      return;
    }
    var i := 1;
    while i < size
      invariant 1 <= i <= size
      invariant missing == GapSum(values[..i])
    {
      assert values[..i + 1][..i] == values[..i];
      if values[i] - values[i - 1] > 1 {
        missing := missing + (values[i] - values[i - 1] - 1);
      }
      i := i + 1;
    }
  }

  /** Counts how many sorted neighbours repeat a value. */
  class DuplicatesAnalyser {
    var values: array<int>
    var size: nat

    ghost predicate Valid()
      reads this
    {
      values.Length == size
    }

    constructor (v: array<int>, s: nat)
      requires s <= v.Length
      ensures Valid() && fresh(values)
      ensures values[..] == v[..s]
    {
      var copy := CopyValues(v, s);
      values := copy;
      size := s;
    }

    /**
     Sort the private copy, then count the positions i >= 1 whose value equals
     its predecessor's: one for every occurrence beyond the first of a value.
     */
    method Analyze() returns (dupCount: nat)
      requires Valid()
      modifies values
      ensures Valid()
      ensures Sorted(values[..]) && multiset(values[..]) == multiset(old(values[..]))
      ensures dupCount == AdjacentEqualCount(values[..])
      ensures dupCount == size - |Elements(old(values[..]))|
    {
      ghost var input := values[..];
      assert input == values[..size];
      SelectionSort(values, size);
      ghost var sorted := values[..];
      assert sorted == values[..size];
      dupCount := CountRepeats(values, size);
      assert sorted[..size] == sorted;
      DuplicateCount(sorted);
      SameElements(sorted, input);
    }
  }

  /** Counts the integers between the smallest and the largest value that are absent. */
  class MissingAnalyser {
    var values: array<int>
    var size: nat

    ghost predicate Valid()
      reads this
    {
      values.Length == size
    }

    constructor (v: array<int>, s: nat)
      requires s <= v.Length
      ensures Valid() && fresh(values)
      ensures values[..] == v[..s]
    {
      var copy := CopyValues(v, s);
      values := copy;
      size := s;
    }

    /**
     Sort the private copy, then add gap - 1 for every gap greater than 1
     between neighbours. The result is the number of integers of [min, max]
     that do not occur: 0 for at most one value and for a contiguous range.
     */
    method Analyze() returns (missing: int)
      requires Valid()
      modifies values
      ensures Valid()
      ensures Sorted(values[..]) && multiset(values[..]) == multiset(old(values[..]))
      ensures missing == GapSum(values[..])
      ensures size <= 1 ==> missing == 0
      ensures size > 0 ==> missing == |MissingValues(Minimum(old(values[..])), Maximum(old(values[..])), old(values[..]))|
      ensures size > 0 ==> missing == (Maximum(old(values[..])) - Minimum(old(values[..])) + 1) - |Elements(old(values[..]))|
      ensures size > 0 ==> (missing == 0 <==> Elements(old(values[..])) == Range(Minimum(old(values[..])), Maximum(old(values[..]))))
    {
      ghost var input := values[..];
      assert input == values[..size];
      SelectionSort(values, size);
      ghost var sorted := values[..];
      assert sorted == values[..size];
      missing := SumGaps(values, size);
      assert sorted[..size] == sorted;
      MissingOutcome(sorted, input);
    }
  }

  /** What the missing count says about the unsorted input. */
  lemma MissingOutcome(sorted: seq<int>, input: seq<int>)
    requires Sorted(sorted) && multiset(sorted) == multiset(input)
    ensures |sorted| <= 1 ==> GapSum(sorted) == 0
    ensures |input| > 0 ==> GapSum(sorted) == |MissingValues(Minimum(input), Maximum(input), input)|
    ensures |input| > 0 ==> GapSum(sorted) == (Maximum(input) - Minimum(input) + 1) - |Elements(input)|
    ensures |input| > 0 ==> (GapSum(sorted) == 0 <==> Elements(input) == Range(Minimum(input), Maximum(input)))
  {
    SameElements(sorted, input);
    SameLength(sorted, input);
    if |sorted| > 0 {
      SortedEnds(sorted, input);
      MissingCount(sorted);
      assert MissingValues(sorted[0], sorted[|sorted| - 1], input)
          == MissingValues(sorted[0], sorted[|sorted| - 1], sorted);
    }
  }

  /** Sorts its copy when constructed, then looks up random probes by binary search. */
  class SearchAnalyser {
    var values: array<int>
    var size: nat

    ghost predicate Valid()
      reads this, values
    {
      values.Length == size && Sorted(values[..])
    }

    /**
     Copy the caller's values and sort the copy. The caller's buffer is left
     exactly as it was: the sort only ever touches the fresh copy.
     */
    constructor (v: array<int>, s: nat)
      requires s <= v.Length
      ensures Valid() && fresh(values)
      ensures multiset(values[..]) == multiset(v[..s])
      ensures v[..] == old(v[..])
    {
      var copy := CopyValues(v, s);
      assert copy[..s] == copy[..];
      SelectionSort(copy, s);
      assert copy[..s] == copy[..];
      values := copy;
      size := s;
    }

    /**
     Draw 100 values, reduce each with % 1000 and count those the binary
     search finds. The count is the number of probes that occur in the
     dataset, between 0 and 100. The draws stand for the successive results
     of rand(), which the caller supplies.
     */
    method Analyze(draws: seq<nat>) returns (foundCount: nat)
      requires Valid()
      requires |draws| == ProbeCount
      ensures foundCount == Hits(Probes(draws), values[..])
      ensures foundCount <= ProbeCount
      ensures size == 0 ==> foundCount == 0
    {
      ghost var probes := Probes(draws);
      foundCount := 0;
      var i := 0;
      while i < ProbeCount
        invariant 0 <= i <= ProbeCount
        invariant foundCount == Hits(probes[..i], values[..])
      {
        assert probes[..i + 1][..i] == probes[..i];
        var randomValue := draws[i] % 1000;
        if BinarySearch(values, randomValue, size) {
          foundCount := foundCount + 1;
        }
        i := i + 1;
      }
      assert probes[..ProbeCount] == probes;
    }
  }

  /**
   The integer results of the statistics report. The mean is the real
   quotient of sum by size, and the median is the real average of medianLow
   and medianHigh (equal for odd size).
   */
  datatype Statistics = Statistics(
    minVal: int, maxVal: int, sum: int,
    medianLow: int, medianHigh: int,
    mode: int, modeCount: nat)

  /**
   The indices the median is read from in a sorted buffer of n values:
   size/2 - 1 and size/2 for even n, size/2 twice for odd n. They lie as
   far from the front as from the back, at most one apart.
   */
  function MedianIndices(n: nat): (idx: (nat, nat))
    requires n > 0
    ensures idx.0 <= idx.1 < n
    ensures idx.0 + idx.1 == n - 1
    ensures idx.1 - idx.0 <= 1
  {
    if n % 2 == 0 then (n / 2 - 1, n / 2) else (n / 2, n / 2)
  }

  /** Minimum, maximum, sum, middle values and mode of the dataset. */
  class StatisticsAnalyser {
    var values: array<int>
    var size: nat

    ghost predicate Valid()
      reads this
    {
      values.Length == size
    }

    constructor (v: array<int>, s: nat)
      requires s <= v.Length
      ensures Valid() && fresh(values)
      ensures values[..] == v[..s]
    {
      var copy := CopyValues(v, s);
      values := copy;
      size := s;
    }

    /**
     Sort the private copy; the minimum and maximum are its ends, the sum
     is accumulated front to back, the median values are read at the middle
     indices, and the mode comes from one run-length scan in which a longer
     run replaces the current mode only when strictly longer.
     */
    method Analyze() returns (st: Statistics)
      requires Valid() && size > 0
      modifies values
      ensures Valid()
      ensures Sorted(values[..]) && multiset(values[..]) == multiset(old(values[..]))
      ensures st.minVal == values[0] && st.maxVal == values[size - 1]
      ensures st.minVal == Minimum(old(values[..])) && st.maxVal == Maximum(old(values[..]))
      ensures st.sum == Sum(old(values[..]))
      ensures st.medianLow == values[MedianIndices(size).0]
      ensures st.medianHigh == values[MedianIndices(size).1]
      ensures exists k :: IsFirstLongestRun(values[..], k, st.modeCount) && st.mode == values[k]
      ensures multiset(old(values[..]))[st.mode] == st.modeCount
      ensures forall x :: multiset(old(values[..]))[x] <= st.modeCount
      ensures forall x :: multiset(old(values[..]))[x] == st.modeCount ==> st.mode <= x
    {
      ghost var input := values[..];
      assert input == values[..size];
      SelectionSort(values, size);
      ghost var sorted := values[..];
      assert sorted == values[..size];

      var minVal := values[0];
      var maxVal := values[size - 1];

      var sum := SumValues(values, size);

      var medianLow, medianHigh := MedianValues(values, size);

      var mode, modeCount := ModeScan(values, size);
      ghost var modeIndex :| IsFirstLongestRun(sorted, modeIndex, modeCount) && mode == sorted[modeIndex];

      st := Statistics(minVal, maxVal, sum, medianLow, medianHigh, mode, modeCount);
      assert sorted[..size] == sorted;
      StatisticsOutcome(sorted, input, modeIndex, modeCount);
      assert values[..] == sorted && old(values[..]) == input;
    }
  }

  /**
   The median branch of the statistics: the two middle cells of an even
   count, or the middle cell twice for an odd count.
   */
  method MedianValues(values: array<int>, size: nat) returns (medianLow: int, medianHigh: int)
    requires 0 < size <= values.Length
    ensures medianLow == values[MedianIndices(size).0]
    ensures medianHigh == values[MedianIndices(size).1]
  {
    if size % 2 == 0 {
      medianLow, medianHigh := values[size / 2 - 1], values[size / 2];
    } else {
      medianLow, medianHigh := values[size / 2], values[size / 2];
    }
  }

  /** The sum loop of the statistics: the first n cells accumulated front to back. */
  method SumValues(values: array<int>, n: nat) returns (sum: int)
    requires n <= values.Length
    ensures sum == Sum(values[..n])
  {
    sum := 0;
    var i := 0;
    while i < n
      invariant 0 <= i <= n
      invariant sum == Sum(values[..i])
    {
      assert values[..i + 1][..i] == values[..i];
      sum := sum + values[i];
      i := i + 1;
    }
  }

  /**
   The mode loop of the statistics: walk the cells counting the current run
   of equal values, and take a run as the new mode only when it is strictly
   longer than the longest seen so far, so the first longest run wins.
   */
  method ModeScan(values: array<int>, size: nat) returns (mode: int, modeCount: nat)
    requires 0 < size == values.Length
    ensures exists k :: IsFirstLongestRun(values[..], k, modeCount) && mode == values[k]
  {
    ghost var s := values[..];
    mode := values[0];
    modeCount := 1;
    var currentCount := 1;
    ghost var modeIndex := 0;
    var i := 1;
    while i < size
      invariant 1 <= i <= size
      invariant currentCount == RunAt(s, i - 1)
      invariant 0 <= modeIndex < i && mode == s[modeIndex]
      invariant modeCount == RunAt(s, modeIndex)
      invariant forall j :: 0 <= j < i ==> RunAt(s, j) <= modeCount
      invariant forall j :: 0 <= j < modeIndex ==> RunAt(s, j) < modeCount
    {
      RunAtNext(s, i - 1);
      if values[i] == values[i - 1] {
        currentCount := currentCount + 1;
      } else {
        currentCount := 1;
      }
      if currentCount > modeCount {
        modeCount := currentCount;
        mode := values[i];
        modeIndex := i;
      }
      i := i + 1;
    }
    assert IsFirstLongestRun(s, modeIndex, modeCount);
  }

  /** What the statistics read from the sorted copy say about the unsorted input. */
  lemma StatisticsOutcome(sorted: seq<int>, input: seq<int>, modeIndex: int, modeCount: int)
    requires Sorted(sorted) && multiset(sorted) == multiset(input) && |sorted| > 0
    requires IsFirstLongestRun(sorted, modeIndex, modeCount)
    ensures |input| > 0 && sorted[0] == Minimum(input) && sorted[|sorted| - 1] == Maximum(input)
    ensures Sum(sorted) == Sum(input)
    ensures multiset(input)[sorted[modeIndex]] == modeCount
    ensures forall x :: multiset(input)[x] <= modeCount
    ensures forall x :: multiset(input)[x] == modeCount ==> sorted[modeIndex] <= x
  {
    SumPermutation(sorted, input);
    ModeIsMostFrequent(sorted, modeIndex, modeCount);
    SortedEnds(sorted, input);
  }

  /** The four reports of one run over a dataset. */
  datatype Reports = Reports(stats: Statistics, duplicates: nat, missing: int, found: nat)

  /**
   The order in which the program runs the analyzers on one dataset
   (statistics, duplicates, missing, search), each built from the same
   caller buffer. Because every analyzer sorts only its own copy, each
   report describes the caller's data as given, which stays unchanged.
   */
  method AnalyzeAll(data: array<int>, size: nat, draws: seq<nat>) returns (r: Reports)
    requires 0 < size <= data.Length && |draws| == ProbeCount
    ensures r.stats.minVal == Minimum(data[..size]) && r.stats.maxVal == Maximum(data[..size])
    ensures r.stats.sum == Sum(data[..size])
    ensures multiset(data[..size])[r.stats.mode] == r.stats.modeCount
    ensures forall x :: multiset(data[..size])[x] <= r.stats.modeCount
    ensures r.duplicates == size - |Elements(data[..size])|
    ensures r.missing == |MissingValues(Minimum(data[..size]), Maximum(data[..size]), data[..size])|
    ensures r.found == Hits(Probes(draws), data[..size])
  {
    ghost var d := data[..size];
    var stats := new StatisticsAnalyser(data, size);
    var st := stats.Analyze();

    var dup := new DuplicatesAnalyser(data, size);
    var duplicates := dup.Analyze();

    var miss := new MissingAnalyser(data, size);
    var missing := miss.Analyze();

    var search := new SearchAnalyser(data, size);
    var found := search.Analyze(draws);
    HitsPermutation(Probes(draws), search.values[..], d);
    r := Reports(st, duplicates, missing, found);
  }
}
