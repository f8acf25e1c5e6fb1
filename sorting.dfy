/**
 The shared sort: selection sort in place over the first `size` cells of an
 integer buffer (main.cpp, selection_sort).
 */
module Sorting {
  import opened Sequences

  /** Two permutations of each other that agree from n on permute their first n cells. */
  lemma PrefixPermutation(a: seq<int>, b: seq<int>, n: nat)
    requires n <= |a| == |b|
    requires multiset(a) == multiset(b) && a[n..] == b[n..]
    ensures multiset(a[..n]) == multiset(b[..n])
  {
    assert a == a[..n] + a[n..];
    assert b == b[..n] + b[n..];
    assert multiset(a[..n]) == multiset(a) - multiset(a[n..]);
    assert multiset(b[..n]) == multiset(b) - multiset(b[n..]);
  }

  /**
   The inner scan of the sort: the index of the first smallest value among
   values[start..size).
   */
  method IndexOfMin(values: array<int>, start: nat, size: nat) returns (minIndex: nat)
    requires start < size <= values.Length
    ensures start <= minIndex < size
    ensures forall k :: start <= k < size ==> values[minIndex] <= values[k]
    ensures forall k :: start <= k < minIndex ==> values[minIndex] < values[k]
  {
    minIndex := start;
    var j := start + 1;
    while j < size
      invariant start < j <= size
      invariant start <= minIndex < j
      invariant forall k :: start <= k < j ==> values[minIndex] <= values[k]
      invariant forall k :: start <= k < minIndex ==> values[minIndex] < values[k]
    {
      if values[j] < values[minIndex] {
        minIndex := j;
      }
      j := j + 1;
    }
  }

  /**
   The outer loop's invariant after i steps: every cell below i is at most
   every later cell below size (so the prefix is sorted and lies below the rest).
   */
  ghost predicate SortedUpTo(s: seq<int>, i: nat, size: nat)
    requires size <= |s|
  {
    forall a, b :: 0 <= a < b < size && a < i ==> s[a] <= s[b]
  }

  /**
   One outer step: swapping the minimum of the unsorted part into position i
   extends the sorted prefix by one.
   */
  lemma SelectionStep(a: seq<int>, b: seq<int>, i: nat, m: nat, size: nat)
    requires i <= m < size <= |a|
    requires b == a[i := a[m]][m := a[i]]
    requires SortedUpTo(a, i, size)
    requires forall k :: i <= k < size ==> a[m] <= a[k]
    ensures SortedUpTo(b, i + 1, size)
  {
  }

  /**
   What the finished loop leaves: a sorted permutation of the first size
   cells, which is the input itself when the input was sorted already.
   */
  lemma SortOutcome(s: seq<int>, o: seq<int>, i: nat, size: nat)
    requires size <= |s| == |o| && size - 1 <= i
    requires SortedUpTo(s, i, size) && multiset(s) == multiset(o) && s[size..] == o[size..]
    ensures Sorted(s[..size])
    ensures multiset(s[..size]) == multiset(o[..size])
    ensures Sorted(o[..size]) ==> s == o
  {
    PrefixPermutation(s, o, size);
    if Sorted(o[..size]) {
      SortedPermutationUnique(s[..size], o[..size]);
      assert s == s[..size] + s[size..];
      assert o == o[..size] + o[size..];
    }
  }

  /** Exchange two cells through a temporary, as the sort's inner step does. */
  method Swap(values: array<int>, i: nat, j: nat)
    requires i < values.Length && j < values.Length
    modifies values
    ensures values[..] == old(values[..])[i := old(values[j])][j := old(values[i])]
    ensures multiset(values[..]) == multiset(old(values[..]))
  {
    var temp := values[i];
    values[i] := values[j];
    values[j] := temp;
  }

  /**
   For each position i below size - 1, find the index of the smallest value
   in values[i..size) and swap it into position i. Only the cells below size
   are read or written; size <= 1 leaves the buffer as it was.
   */
  method SelectionSort(values: array<int>, size: nat)
    requires size <= values.Length
    modifies values
    ensures Sorted(values[..size])
    ensures multiset(values[..size]) == multiset(old(values[..size]))
    ensures values[size..] == old(values[size..])
    ensures size <= 1 ==> values[..] == old(values[..])
    ensures Sorted(old(values[..size])) ==> values[..] == old(values[..])
  {
    var i := 0;
    while i < size - 1
      invariant 0 <= i <= size
      invariant SortedUpTo(values[..], i, size)
      invariant multiset(values[..]) == multiset(old(values[..]))
      invariant values[size..] == old(values[size..])
    {
      var minIndex := IndexOfMin(values, i, size);
      ghost var before := values[..];
      Swap(values, i, minIndex);
      SelectionStep(before, values[..], i, minIndex, size);
      i := i + 1;
    }
    SortOutcome(values[..], old(values[..]), i, size);
  }
}
