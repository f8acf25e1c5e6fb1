/**
 What the analyzers' scanning loops compute, as functions over the sorted
 dataset, and what those quantities mean for the dataset itself: the
 duplicate count, the missing-value count, the longest run (the mode), the
 number of search probes found, and the width the statistics sum needs.
 */
module Scans {
  import opened Sequences

  // ---------------------------------------------------------------------
  // Duplicates (main.cpp, DuplicatesAnalyser::analyze)
  // ---------------------------------------------------------------------

  /** The number of positions i >= 1 with s[i] == s[i - 1]. */
  function AdjacentEqualCount(s: seq<int>): nat
  {
    if |s| <= 1 then 0
    else AdjacentEqualCount(s[..|s| - 1]) + (if s[|s| - 1] == s[|s| - 2] then 1 else 0)
  }

  /**
   On a sorted dataset each adjacent equal pair is one occurrence beyond the
   first of its value, so the count is the size minus the number of distinct
   values; in particular it is 0 for at most one element and for all-distinct data.
   */
  lemma {:induction false} DuplicateCount(s: seq<int>)
    requires Sorted(s)
    ensures AdjacentEqualCount(s) == |s| - |Elements(s)|
  {
    if |s| == 1 {
      assert Elements(s) == {s[0]};
    } else if |s| > 1 {
      SortedPrefix(s, |s| - 1);
      DuplicateCount(s[..|s| - 1]);
      DistinctStep(s);
    }
  }

  /**
   Appending the last value of a sorted dataset adds a new distinct value
   exactly when it differs from its predecessor.
   */
  lemma DistinctStep(s: seq<int>)
    requires Sorted(s) && |s| > 1
    ensures |Elements(s)| == |Elements(s[..|s| - 1])| + (if s[|s| - 1] == s[|s| - 2] then 0 else 1)
  {
    var p, x := s[..|s| - 1], s[|s| - 1];
    ElementsSnoc(s);
    if x != s[|s| - 2] {
      LastIsNew(s);
    } else {
      assert x in Elements(p) by {
        assert x == p[|p| - 1];
      }
      assert Elements(p) + {x} == Elements(p);
    }
  }

  /** The distinct values of s are those of its prefix plus its last value. */
  lemma ElementsSnoc(s: seq<int>)
    requires |s| > 0
    ensures Elements(s) == Elements(s[..|s| - 1]) + {s[|s| - 1]}
  {
  }

  /** In a sorted dataset a last value unlike its predecessor occurs nowhere before. */
  lemma LastIsNew(s: seq<int>)
    requires Sorted(s) && |s| > 1 && s[|s| - 1] != s[|s| - 2]
    ensures s[|s| - 1] !in Elements(s[..|s| - 1])
  {
  }

  // ---------------------------------------------------------------------
  // Missing values (main.cpp, MissingAnalyser::analyze)
  // ---------------------------------------------------------------------

  /** The sum of gap - 1 over the adjacent gaps s[i] - s[i - 1] greater than 1. */
  function GapSum(s: seq<int>): int
  {
    if |s| <= 1 then 0
    else
      var gap := s[|s| - 1] - s[|s| - 2];
      GapSum(s[..|s| - 1]) + (if gap > 1 then gap - 1 else 0)
  }

  /** The integers between lo and hi that do not occur in s. */
  function MissingValues(lo: int, hi: int, s: seq<int>): (m: set<int>)
    ensures forall x :: x in m <==> lo <= x <= hi && x !in s
  {
    Range(lo, hi) - Elements(s)
  }

  /** Summing the gaps counts each absent value of [first, last] once. */
  lemma {:induction false} GapSumCountsAbsent(s: seq<int>)
    requires Sorted(s) && |s| > 0
    ensures GapSum(s) == (s[|s| - 1] - s[0] + 1) - |Elements(s)|
  {
    if |s| == 1 {
      assert Elements(s) == {s[0]};
    } else {
      SortedPrefix(s, |s| - 1);
      GapSumCountsAbsent(s[..|s| - 1]);
      DistinctStep(s);
    }
  }

  /**
   On a sorted nonempty dataset, the gap sum is the number of integers of
   [min, max] absent from it, that is (max - min + 1) minus the number of
   distinct values; it is 0 exactly when the values cover that range.
   */
  lemma MissingCount(s: seq<int>)
    requires Sorted(s) && |s| > 0
    ensures GapSum(s) == |MissingValues(s[0], s[|s| - 1], s)|
    ensures GapSum(s) == (s[|s| - 1] - s[0] + 1) - |Elements(s)|
    ensures GapSum(s) == 0 <==> Elements(s) == Range(s[0], s[|s| - 1])
  {
    var lo, hi := s[0], s[|s| - 1];
    GapSumCountsAbsent(s);
    RangeSize(lo, hi);
    assert Elements(s) <= Range(lo, hi);
    assert Range(lo, hi) == MissingValues(lo, hi, s) + Elements(s);
    assert MissingValues(lo, hi, s) !! Elements(s);
    if GapSum(s) == 0 {
      assert MissingValues(lo, hi, s) == {};
    }
  }

  // ---------------------------------------------------------------------
  // Mode (main.cpp, StatisticsAnalyser::analyze, the run-length scan)
  // ---------------------------------------------------------------------

  /** The length of the run of equal values that ends at index j. */
  function RunAt(s: seq<int>, j: nat): (r: nat)
    requires j < |s|
    ensures 1 <= r <= j + 1
  {
    if j == 0 || s[j] != s[j - 1] then 1 else RunAt(s, j - 1) + 1
  }

  /** A run continues at j + 1 when s[j + 1] repeats s[j] and restarts otherwise. */
  lemma RunAtNext(s: seq<int>, j: nat)
    requires j + 1 < |s|
    ensures RunAt(s, j + 1) == if s[j + 1] == s[j] then RunAt(s, j) + 1 else 1
  {
  }

  /**
   The run ending at index k is a longest run of s, of length c, and no run
   ending earlier is that long: the scan's strict > keeps the first run to
   reach the maximum.
   */
  ghost predicate IsFirstLongestRun(s: seq<int>, k: int, c: int)
  {
    && 0 <= k < |s|
    && c == RunAt(s, k)
    && (forall j :: 0 <= j < |s| ==> RunAt(s, j) <= c)
    && (forall j :: 0 <= j < k ==> RunAt(s, j) < c)
  }

  /** In a sorted s, the run ending at j holds every occurrence of s[j] up to j. */
  lemma {:induction false} RunCounts(s: seq<int>, j: nat)
    requires Sorted(s) && j < |s|
    ensures multiset(s[..j + 1])[s[j]] == RunAt(s, j)
  {
    if j > 0 {
      assert s[..j + 1] == s[..j] + [s[j]];
      if s[j] == s[j - 1] {
        assert s[..j] == s[..j - 1] + [s[j - 1]];
        RunCounts(s, j - 1);
      } else {
        assert s[j] !in s[..j];
      }
    }
  }

  /** The last index at which v occurs in s. */
  lemma {:induction false} LastOccurrence(s: seq<int>, v: int) returns (j: nat)
    requires v in s
    ensures j < |s| && s[j] == v
    ensures j == |s| - 1 || s[j + 1] != v
  {
    if s[|s| - 1] == v {
      j := |s| - 1;
    } else {
      j := LastOccurrence(s[..|s| - 1], v);
    }
  }

  /**
   In a sorted s, the run ending at the last occurrence j of a value holds
   every occurrence of it.
   */
  lemma RunAtLastOccurrence(s: seq<int>, j: nat)
    requires Sorted(s) && j < |s|
    requires j == |s| - 1 || s[j + 1] != s[j]
    ensures multiset(s)[s[j]] == RunAt(s, j)
  {
    var p, q := s[..j + 1], s[j + 1..];
    assert s == p + q;
    RunCounts(s, j);
    assert s[j] !in q by {
      if j < |s| - 1 {
        assert forall i :: 0 <= i < |q| ==> s[j] < q[i] by {
          assert forall i :: 0 <= i < |q| ==> s[j + 1] <= q[i];
        }
      }
    }
  }

  /**
   On a sorted dataset the first longest run gives the frequency-table mode:
   its value occurs c times, no value occurs more often, and every value that
   occurs c times is at least as large (the first seen in ascending order).
   */
  lemma ModeIsMostFrequent(s: seq<int>, k: int, c: int)
    requires Sorted(s) && IsFirstLongestRun(s, k, c)
    ensures multiset(s)[s[k]] == c
    ensures forall v :: multiset(s)[v] <= c
    ensures forall v :: multiset(s)[v] == c ==> s[k] <= v
  {
    if k < |s| - 1 {
      RunAtNext(s, k);
    }
    RunAtLastOccurrence(s, k);
    forall v ensures multiset(s)[v] <= c && (multiset(s)[v] == c ==> s[k] <= v) {
      if v in s {
        var j := LastOccurrence(s, v);
        RunAtLastOccurrence(s, j);
        assert RunAt(s, j) <= c;
        if multiset(s)[v] == c {
          assert !(j < k);
        }
      }
    }
  }

  // ---------------------------------------------------------------------
  // Random search (main.cpp, SearchAnalyser::analyze)
  // ---------------------------------------------------------------------

  /** Every value the generator draws, reduced to a probe with % 1000. */
  function Probes(draws: seq<nat>): (probes: seq<int>)
    ensures |probes| == |draws|
    ensures forall i :: 0 <= i < |draws| ==> probes[i] == draws[i] % 1000
    ensures forall i :: 0 <= i < |draws| ==> 0 <= probes[i] <= 999
  {
    seq(|draws|, i requires 0 <= i < |draws| => draws[i] % 1000)
  }

  /**
   The number of probes that occur in the dataset. It is at most the number
   of probes; it is that number exactly when every probe occurs and 0
   exactly when none does (so always 0 on an empty dataset).
   */
  function Hits(probes: seq<int>, data: seq<int>): (r: nat)
    ensures r <= |probes|
    ensures r == |probes| <==> forall i :: 0 <= i < |probes| ==> probes[i] in data
    ensures r == 0 <==> forall i :: 0 <= i < |probes| ==> probes[i] !in data
  {
    if probes == [] then 0
    else
      var p := probes[..|probes| - 1];
      Hits(p, data) + (if probes[|probes| - 1] in data then 1 else 0)
  }

  /** The hit count depends on the dataset's values only, not on their order. */
  lemma {:induction false} HitsPermutation(probes: seq<int>, a: seq<int>, b: seq<int>)
    requires multiset(a) == multiset(b)
    ensures Hits(probes, a) == Hits(probes, b)
  {
    if probes != [] {
      HitsPermutation(probes[..|probes| - 1], a, b);
      var x := probes[|probes| - 1];
      assert x in a <==> x in multiset(a);
      assert x in b <==> x in multiset(b);
    }
  }

  /** A dataset holding every value of [0, 999] is hit by all probes. */
  lemma FullRangeAllFound(draws: seq<nat>, data: seq<int>)
    requires Range(0, 999) <= Elements(data)
    ensures Hits(Probes(draws), data) == |draws|
  {
  }

  // ---------------------------------------------------------------------
  // Statistics sum (main.cpp, StatisticsAnalyser::analyze, long long sum)
  // ---------------------------------------------------------------------

  /** The values a C++ int can hold. */
  predicate AllInt32(s: seq<int>)
  {
    forall i :: 0 <= i < |s| ==> -0x8000_0000 <= s[i] < 0x8000_0000
  }

  /** A sum of n 32-bit values lies within n times the 32-bit bounds. */
  lemma {:induction false} SumBounds(s: seq<int>)
    requires AllInt32(s)
    ensures -0x8000_0000 * |s| <= Sum(s) <= 0x7FFF_FFFF * |s|
  {
    if s != [] {
      SumBounds(s[..|s| - 1]);
    }
  }

  /**
   The running sum of fewer than 2^31 values of 32 bits never leaves the
   range of a 64-bit long long, so the accumulation cannot overflow.
   */
  lemma SumFitsLongLong(s: seq<int>, i: nat)
    requires AllInt32(s) && |s| < 0x8000_0000 && i <= |s|
    ensures -0x8000_0000_0000_0000 <= Sum(s[..i]) < 0x8000_0000_0000_0000
  {
    assert AllInt32(s[..i]);
    SumBounds(s[..i]);
  }
}
