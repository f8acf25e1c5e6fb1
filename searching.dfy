/**
 The shared search: recursive binary search over the closed index range
 [start, end] of an integer buffer (main.cpp, binary_search_recursive and
 binary_search). It only reads the buffer.
 */
module Searching {
  import opened Sequences

  /**
   Halve [start, end] around mid = (start + end) / 2 until the key is found at
   mid or the range is empty (start > end). A true answer always comes with
   an occurrence of the key in the range; on a sorted range the answer is
   true exactly when the key occurs there. The range shrinks on every call.
   */
  function BinarySearchRecursive(values: array<int>, key: int, start: int, end: int): (found: bool)
    reads values
    requires 0 <= start <= end + 1 <= values.Length
    ensures found ==> key in values[start..end + 1]
    ensures Sorted(values[start..end + 1]) && key in values[start..end + 1] ==> found
    decreases end - start
  {
    if start > end then
      false
    else
      var mid := (start + end) / 2;
      if values[mid] == key then
        true
      else if key < values[mid] then
        NarrowLeft(values[start..end + 1], mid - start, key);
        assert values[start..end + 1][..mid - start] == values[start..mid];
        BinarySearchRecursive(values, key, start, mid - 1)
      else
        NarrowRight(values[start..end + 1], mid - start, key);
        assert values[start..end + 1][mid - start + 1..] == values[mid + 1..end + 1];
        BinarySearchRecursive(values, key, mid + 1, end)
  }

  /** A key below s[m] in a sorted s can only occur left of m. */
  lemma NarrowLeft(s: seq<int>, m: nat, key: int)
    requires m < |s| && key < s[m]
    ensures Sorted(s) ==> Sorted(s[..m]) && (key in s <==> key in s[..m])
  {
  }

  /** A key above s[m] in a sorted s can only occur right of m. */
  lemma NarrowRight(s: seq<int>, m: nat, key: int)
    requires m < |s| && s[m] < key
    ensures Sorted(s) ==> Sorted(s[m + 1..]) && (key in s <==> key in s[m + 1..])
  {
  }

  /** Search the first size cells: the range [0, size - 1], empty when size == 0. */
  function BinarySearch(values: array<int>, key: int, size: nat): (found: bool)
    reads values
    requires size <= values.Length
    ensures found ==> key in values[..size]
    ensures Sorted(values[..size]) ==> (found <==> key in values[..size])
    ensures size == 0 ==> !found
  {
    BinarySearchRecursive(values, key, 0, size - 1)
  }
}
