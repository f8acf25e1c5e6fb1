/**
 The vocabulary shared by the sort, the search and the four analyzers:
 sortedness, the set of distinct values of a dataset, integer ranges and
 the sum of a dataset, with the facts about them that several analyzers use.
 */
module Sequences {

  /** Non-decreasing order: the shape the sort produces and the search expects. */
  predicate Sorted(s: seq<int>)
  {
    forall i, j :: 0 <= i < j < |s| ==> s[i] <= s[j]
  }

  /** The distinct values of a dataset. */
  function Elements(s: seq<int>): (e: set<int>)
    ensures forall x :: x in e <==> x in s
  {
    set x | x in s
  }

  /** The integers lo, lo+1, ..., hi. */
  function Range(lo: int, hi: int): (r: set<int>)
    ensures forall x :: x in r <==> lo <= x <= hi
    decreases hi - lo
  {
    if lo > hi then {} else Range(lo, hi - 1) + {hi}
  }

  /** The sum of a dataset, accumulated from the front as a scanning loop does. */
  function Sum(s: seq<int>): int
  {
    if s == [] then 0 else Sum(s[..|s| - 1]) + s[|s| - 1]
  }

  /** The smallest value of a nonempty dataset. */
  function Minimum(s: seq<int>): (m: int)
    requires |s| > 0
    ensures m in s && forall x :: x in s ==> m <= x
  {
    if |s| == 1 then s[0]
    else
      var p := s[..|s| - 1];
      assert s == p + [s[|s| - 1]];
      var m := Minimum(p);
      if s[|s| - 1] < m then s[|s| - 1] else m
  }

  /** The largest value of a nonempty dataset. */
  function Maximum(s: seq<int>): (m: int)
    requires |s| > 0
    ensures m in s && forall x :: x in s ==> x <= m
  {
    if |s| == 1 then s[0]
    else
      var p := s[..|s| - 1];
      assert s == p + [s[|s| - 1]];
      var m := Maximum(p);
      if s[|s| - 1] > m then s[|s| - 1] else m
  }

  /** A range of integers has hi - lo + 1 members (none when hi < lo). */
  lemma {:induction false} RangeSize(lo: int, hi: int)
    ensures |Range(lo, hi)| == if lo <= hi then hi - lo + 1 else 0
    decreases hi - lo
  {
    if lo <= hi {
      RangeSize(lo, hi - 1);
      assert hi !in Range(lo, hi - 1);
    }
  }

  /** Two datasets with the same occurrences have the same distinct values. */
  lemma SameElements(a: seq<int>, b: seq<int>)
    requires multiset(a) == multiset(b)
    ensures Elements(a) == Elements(b)
  {
    forall x | x in a ensures x in b {
      assert x in multiset(a);
    }
    forall x | x in b ensures x in a {
      assert x in multiset(b);
    }
  }

  lemma {:induction false} SumConcat(a: seq<int>, b: seq<int>)
    ensures Sum(a + b) == Sum(a) + Sum(b)
    decreases |b|
  {
    if b == [] {
      assert a + b == a;
    } else {
      var b' := b[..|b| - 1];
      assert (a + b)[..|a + b| - 1] == a + b';
      SumConcat(a, b');
    }
  }

  /** Removing the element at index k takes exactly s[k] off the sum. */
  lemma SumRemove(s: seq<int>, k: nat)
    requires k < |s|
    ensures Sum(s) == Sum(s[..k] + s[k + 1..]) + s[k]
  {
    assert s == s[..k] + [s[k]] + s[k + 1..];
    SumConcat(s[..k] + [s[k]], s[k + 1..]);
    SumConcat(s[..k], [s[k]]);
    SumConcat(s[..k], s[k + 1..]);
    assert Sum([s[k]]) == s[k] by {
      assert [s[k]][..0] == [];
    }
  }

  /** The sum does not depend on the order of the elements. */
  lemma {:induction false} SumPermutation(a: seq<int>, b: seq<int>)
    requires multiset(a) == multiset(b)
    ensures Sum(a) == Sum(b)
    decreases |a|
  {
    if a != [] {
      var n := |a| - 1;
      var x := a[n];
      assert a == a[..n] + [x];
      assert x in multiset(b);
      var k :| 0 <= k < |b| && b[k] == x;
      var b' := b[..k] + b[k + 1..];
      assert b == b[..k] + [x] + b[k + 1..];
      assert multiset(b) == multiset(b[..k]) + multiset{x} + multiset(b[k + 1..]);
      assert multiset(a) == multiset(a[..n]) + multiset{x};
      assert multiset(b') == multiset(b[..k]) + multiset(b[k + 1..]);
      assert multiset(a[..n]) == multiset(a) - multiset{x} == multiset(b) - multiset{x};
      assert multiset(a[..n]) == multiset(b');
      SumPermutation(a[..n], b');
      SumRemove(b, k);
    } else {
      assert |b| == |multiset(b)| == 0;
    }
  }

  /** In a sorted dataset every value is at most the last one. */
  lemma SortedLastIsMax(s: seq<int>, x: int)
    requires Sorted(s) && x in s
    ensures x <= s[|s| - 1]
  {
  }

  /** A sorted arrangement of a nonempty dataset starts at its minimum and ends at its maximum. */
  lemma SortedEnds(s: seq<int>, d: seq<int>)
    requires Sorted(s) && multiset(s) == multiset(d) && |s| > 0
    ensures |d| > 0 && s[0] == Minimum(d) && s[|s| - 1] == Maximum(d)
  {
    SameLength(s, d);
    SameElements(s, d);
    assert Minimum(d) in Elements(s) && Maximum(d) in Elements(s);
    assert s[0] in Elements(d) && s[|s| - 1] in Elements(d);
  }

  /** A prefix of a sorted dataset is sorted. */
  lemma SortedPrefix(s: seq<int>, n: nat)
    requires Sorted(s) && n <= |s|
    ensures Sorted(s[..n])
  {
  }

  /** Permutations have the same length. */
  lemma SameLength(a: seq<int>, b: seq<int>)
    requires multiset(a) == multiset(b)
    ensures |a| == |b|
  {
    assert |a| == |multiset(a)| == |multiset(b)| == |b|;
  }

  /** Sorted permutations end in the same (largest) value. */
  lemma LastEqual(a: seq<int>, b: seq<int>)
    requires Sorted(a) && Sorted(b) && multiset(a) == multiset(b) && |a| == |b| > 0
    ensures a[|a| - 1] == b[|b| - 1]
  {
    var n := |a| - 1;
    assert a[n] in multiset(a);
    assert b[n] in multiset(b);
    SortedLastIsMax(b, a[n]);
    SortedLastIsMax(a, b[n]);
  }

  /** Removing equal last elements keeps two datasets permutations of each other. */
  lemma DropLast(a: seq<int>, b: seq<int>)
    requires multiset(a) == multiset(b) && |a| == |b| > 0 && a[|a| - 1] == b[|b| - 1]
    ensures multiset(a[..|a| - 1]) == multiset(b[..|b| - 1])
  {
    var n := |a| - 1;
    assert a == a[..n] + [a[n]] && b == b[..n] + [b[n]];
    assert multiset(a[..n]) == multiset(a) - multiset{a[n]};
    assert multiset(b[..n]) == multiset(b) - multiset{b[n]};
  }

  /** A dataset has exactly one sorted arrangement: sorting is idempotent. */
  lemma {:induction false} SortedPermutationUnique(a: seq<int>, b: seq<int>)
    requires Sorted(a) && Sorted(b) && multiset(a) == multiset(b)
    ensures a == b
    decreases |a|
  {
    if a != [] {
      SameLength(a, b);
      LastEqual(a, b);
      DropLast(a, b);
      var n := |a| - 1;
      SortedPrefix(a, n);
      SortedPrefix(b, n);
      SortedPermutationUnique(a[..n], b[..n]);
      assert a == a[..n] + [a[n]] && b == b[..n] + [b[n]];
    } else {
      assert |b| == |multiset(b)| == 0;
    }
  }
}
