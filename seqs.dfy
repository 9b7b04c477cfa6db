/**
 * Order-preserving filtering and a stable insertion sort over sequences: the
 * meaning given here to Kotlin's `filter` and to SQL's `WHERE` and `ORDER BY`.
 */
module Seqs {

  /** `r` is `s` with some elements left out and the rest in their original order. */
  predicate IsSubsequence<T(==)>(r: seq<T>, s: seq<T>)
  {
    if r == [] then true
    else if s == [] then false
    else if r[0] == s[0] then IsSubsequence(r[1..], s[1..])
    else IsSubsequence(r, s[1..])
  }

  /** The elements of `s` that satisfy `keep`, in order (Kotlin's `filter`). */
  function Filter<T(==,!new)>(s: seq<T>, keep: T -> bool): (r: seq<T>)
    ensures |r| <= |s|
    ensures forall x | x in r :: x in s && keep(x)
    ensures forall i | 0 <= i < |s| && keep(s[i]) :: s[i] in r
  {
    if s == [] then []
    else
      var rest := Filter(s[1..], keep);
      assert s == [s[0]] + s[1..];
      if keep(s[0]) then [s[0]] + rest else rest
  }

  /** Filtering keeps every occurrence of what it keeps and drops every other. */
  lemma {:induction false} FilterMultiset<T(!new)>(s: seq<T>, keep: T -> bool)
    ensures forall x :: multiset(Filter(s, keep))[x] == if keep(x) then multiset(s)[x] else 0
  {
    if s != [] {
      FilterMultiset(s[1..], keep);
      assert s == [s[0]] + s[1..];
    }
  }

  /** Filtering never reorders what it keeps. */
  lemma {:induction false} FilterIsSubsequence<T(!new)>(s: seq<T>, keep: T -> bool)
    ensures IsSubsequence(Filter(s, keep), s)
  {
    if s != [] {
      FilterIsSubsequence(s[1..], keep);
      var rest := Filter(s[1..], keep);
      if !keep(s[0]) && rest != [] {
        assert keep(rest[0]);
      }
    }
  }

  /** Filtering with a predicate that holds everywhere in `s` gives `s` back. */
  lemma {:induction false} FilterAll<T(!new)>(s: seq<T>, keep: T -> bool)
    requires forall i | 0 <= i < |s| :: keep(s[i])
    ensures Filter(s, keep) == s
  {
    if s != [] {
      FilterAll(s[1..], keep);
      assert s == [s[0]] + s[1..];
    }
  }

  /** Filtering distributes over concatenation. */
  lemma {:induction false} FilterConcat<T(!new)>(a: seq<T>, b: seq<T>, keep: T -> bool)
    ensures Filter(a + b, keep) == Filter(a, keep) + Filter(b, keep)
  {
    if a == [] {
      assert a + b == b;
    } else {
      FilterConcat(a[1..], b, keep);
      assert (a + b)[1..] == a[1..] + b;
    }
  }

  /** Filtering with a predicate that holds nowhere in `s` gives nothing. */
  lemma FilterNone<T(!new)>(s: seq<T>, keep: T -> bool)
    requires forall i | 0 <= i < |s| :: !keep(s[i])
    ensures Filter(s, keep) == []
  {
  }

  /** The filter keeps more than one element iff two positions of `s` satisfy `keep`. */
  lemma {:induction false} FilterHasTwo<T(!new)>(s: seq<T>, keep: T -> bool)
    ensures |Filter(s, keep)| > 1 <==> exists i, j | 0 <= i < j < |s| :: keep(s[i]) && keep(s[j])
  {
    if s != [] {
      FilterHasTwo(s[1..], keep);
      var rest := Filter(s[1..], keep);
      if exists i, j | 0 <= i < j < |s| :: keep(s[i]) && keep(s[j]) {
        var i, j :| 0 <= i < j < |s| && keep(s[i]) && keep(s[j]);
        if i == 0 {
          assert s[1..][j - 1] == s[j];
          assert s[j] in rest;
        } else {
          assert s[1..][i - 1] == s[i] && s[1..][j - 1] == s[j];
        }
      }
      if |Filter(s, keep)| > 1 && keep(s[0]) && |rest| <= 1 {
        assert rest[0] in s[1..];
        var k :| 0 <= k < |s| - 1 && s[1..][k] == rest[0];
        assert keep(s[k + 1]);
      }
    }
  }

  // ---------------------------------------------------------------------------
  // Sorting

  ghost predicate TotalOrder<T(!new)>(le: (T, T) -> bool)
  {
    forall a, b :: le(a, b) || le(b, a)
  }

  ghost predicate Transitive<T(!new)>(le: (T, T) -> bool)
  {
    forall a, b, c :: le(a, b) && le(b, c) ==> le(a, c)
  }

  predicate AdjacentSorted<T>(s: seq<T>, le: (T, T) -> bool)
  {
    forall i | 0 <= i < |s| - 1 :: le(s[i], s[i + 1])
  }

  predicate SortedBy<T>(s: seq<T>, le: (T, T) -> bool)
  {
    forall i, j | 0 <= i < j < |s| :: le(s[i], s[j])
  }

  /** Puts `x` in front of the first element it may precede. */
  function InsertBy<T(==)>(x: T, s: seq<T>, le: (T, T) -> bool): (r: seq<T>)
    ensures multiset(r) == multiset(s) + multiset{x}
    ensures |r| == |s| + 1
    ensures r[0] == x || (s != [] && r[0] == s[0])
  {
    if s == [] then [x]
    else if le(x, s[0]) then [x] + s
    else
      var r := [s[0]] + InsertBy(x, s[1..], le);
      assert s == [s[0]] + s[1..];
      r
  }

  /** Stable insertion sort: elements that compare equal keep their order. */
  function SortBy<T(==)>(s: seq<T>, le: (T, T) -> bool): (r: seq<T>)
    ensures multiset(r) == multiset(s)
    ensures |r| == |s|
  {
    if s == [] then []
    else
      var r := InsertBy(s[0], SortBy(s[1..], le), le);
      assert s == [s[0]] + s[1..];
      r
  }

  lemma {:induction false} InsertBySorted<T(!new)>(x: T, s: seq<T>, le: (T, T) -> bool)
    requires TotalOrder(le)
    requires AdjacentSorted(s, le)
    ensures AdjacentSorted(InsertBy(x, s, le), le)
  {
    if s != [] && !le(x, s[0]) {
      InsertBySorted(x, s[1..], le);
      assert le(s[0], x);
    }
  }

  lemma {:induction false} SortBySorted<T(!new)>(s: seq<T>, le: (T, T) -> bool)
    requires TotalOrder(le)
    ensures AdjacentSorted(SortBy(s, le), le)
  {
    if s != [] {
      SortBySorted(s[1..], le);
      InsertBySorted(s[0], SortBy(s[1..], le), le);
    }
  }

  /** For a transitive order, neighbours in order means every pair in order. */
  lemma {:induction false} AdjacentMeansSorted<T(!new)>(s: seq<T>, le: (T, T) -> bool)
    requires Transitive(le)
    requires AdjacentSorted(s, le)
    ensures SortedBy(s, le)
  {
    if |s| > 1 {
      AdjacentMeansSorted(s[1..], le);
      forall j | 1 <= j < |s| ensures le(s[0], s[j]) {
        if j > 1 {
          assert le(s[1], s[j]) by { assert s[1..][0] == s[1] && s[1..][j - 1] == s[j]; }
        }
      }
      forall i, j | 0 <= i < j < |s| ensures le(s[i], s[j]) {
        if i > 0 {
          assert s[1..][i - 1] == s[i] && s[1..][j - 1] == s[j];
        }
      }
    }
  }

  /** Sorting by a total, transitive order yields every pair in order. */
  lemma SortedPairwise<T(!new)>(s: seq<T>, le: (T, T) -> bool)
    requires TotalOrder(le) && Transitive(le)
    ensures SortedBy(SortBy(s, le), le)
  {
    SortBySorted(s, le);
    AdjacentMeansSorted(SortBy(s, le), le);
  }
}
