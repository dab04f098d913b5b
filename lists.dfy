/**
 * Ordering and filtering of query results. Django's `ordering` / `order_by`
 * and `filter` over a table become `SortBy` and `Filter` over a sequence of
 * rows; `SortBy` is a stable insertion sort, one of the orders the database
 * may return when keys tie. Also the size bound of a subset, used when
 * counting rows.
 */
module Lists {

  /** `le` compares any two values and comparisons chain. */
  ghost predicate TotalPreorder<T(!new)>(le: (T, T) -> bool) {
    && (forall a, b :: le(a, b) || le(b, a))
    && (forall a, b, c :: le(a, b) && le(b, c) ==> le(a, c))
  }

  /** Every earlier element is `le` every later one. */
  ghost predicate SortedBy<T>(s: seq<T>, le: (T, T) -> bool) {
    forall i, j :: 0 <= i < j < |s| ==> le(s[i], s[j])
  }

  lemma {:induction false} InsertedTailAbove<T(!new)>(h: T, x: T, s: seq<T>, r: seq<T>, le: (T, T) -> bool)
    requires TotalPreorder(le) && SortedBy([h] + s, le) && !le(x, h)
    requires multiset(r) == multiset(s) + multiset{x} && SortedBy(r, le)
    ensures SortedBy([h] + r, le)
  {
    assert le(h, x);
    forall j | 0 <= j < |r|
      ensures le(h, r[j])
    {
      assert r[j] in multiset(r);
      if r[j] != x {
        assert r[j] in multiset(s);
        var k :| 0 <= k < |s| && s[k] == r[j];
        assert ([h] + s)[0] == h && ([h] + s)[k + 1] == s[k];
        assert le(([h] + s)[0], ([h] + s)[k + 1]);
      }
    }
    forall i, j | 0 <= i < j < |[h] + r|
      ensures le(([h] + r)[i], ([h] + r)[j])
    {
      if i > 0 {
        assert ([h] + r)[i] == r[i - 1] && ([h] + r)[j] == r[j - 1];
      }
    }
  }

  /** Inserts `x` into the sorted `s` before the first element it is `le` to. */
  function Insert<T(!new)>(x: T, s: seq<T>, le: (T, T) -> bool): (r: seq<T>)
    requires TotalPreorder(le)
    requires SortedBy(s, le)
    ensures multiset(r) == multiset(s) + multiset{x}
    ensures SortedBy(r, le)
    decreases |s|
  {
    if s == [] then [x]
    else if le(x, s[0]) then
      assert forall j :: 0 <= j < |s| ==> le(x, s[j]);
      assert forall i, j :: 0 < i < j < |[x] + s| ==> ([x] + s)[i] == s[i - 1] && ([x] + s)[j] == s[j - 1];
      [x] + s
    else
      var tail := Insert(x, s[1..], le);
      assert [s[0]] + s[1..] == s;
      InsertedTailAbove(s[0], x, s[1..], tail, le);
      [s[0]] + tail
  }

  /** `s` rearranged into `le` order: a permutation of `s` that is sorted. */
  function SortBy<T(!new)>(s: seq<T>, le: (T, T) -> bool): (r: seq<T>)
    requires TotalPreorder(le)
    ensures multiset(r) == multiset(s)
    ensures SortedBy(r, le)
    decreases |s|
  {
    if s == [] then []
    else
      assert s == [s[0]] + s[1..];
      Insert(s[0], SortBy(s[1..], le), le)
  }

  /** The elements of `s` that satisfy `keep`, in their original order. */
  function Filter<T(!new)>(s: seq<T>, keep: T -> bool): (r: seq<T>)
    ensures forall x :: x in r <==> x in s && keep(x)
    ensures |r| <= |s|
    decreases |s|
  {
    if s == [] then []
    else if keep(s[0]) then [s[0]] + Filter(s[1..], keep)
    else Filter(s[1..], keep)
  }

  /** Filtering a sorted sequence leaves it sorted (the filter keeps the query's order). */
  lemma {:induction false} FilterKeepsOrder<T(!new)>(s: seq<T>, keep: T -> bool, le: (T, T) -> bool)
    requires SortedBy(s, le)
    ensures SortedBy(Filter(s, keep), le)
    decreases |s|
  {
    if s != [] {
      var t := s[1..];
      assert SortedBy(t, le) by {
        forall i, j | 0 <= i < j < |t|
          ensures le(t[i], t[j])
        {
          assert t[i] == s[i + 1] && t[j] == s[j + 1];
        }
      }
      FilterKeepsOrder(t, keep, le);
      if keep(s[0]) {
        var r := Filter(s, keep);
        var ft := Filter(t, keep);
        assert r == [s[0]] + ft;
        forall i, j | 0 <= i < j < |r|
          ensures le(r[i], r[j])
        {
          assert r[j] == ft[j - 1];
          assert ft[j - 1] in t;
          var k :| 0 <= k < |t| && t[k] == ft[j - 1];
          assert s[k + 1] == t[k];
          if i > 0 {
            assert r[i] == ft[i - 1];
          }
        }
      }
    }
  }

  /** No element occurs twice. */
  ghost predicate Distinct<T>(s: seq<T>) {
    forall i, j :: 0 <= i < j < |s| ==> s[i] != s[j]
  }

  /** Filtering a sequence without duplicates gives one without duplicates (`distinct()`). */
  lemma {:induction false} FilterKeepsDistinct<T(!new)>(s: seq<T>, keep: T -> bool)
    requires Distinct(s)
    ensures Distinct(Filter(s, keep))
    decreases |s|
  {
    if s != [] {
      var t := s[1..];
      assert forall i, j :: 0 <= i < j < |t| ==> t[i] == s[i + 1] && t[j] == s[j + 1];
      FilterKeepsDistinct(t, keep);
      forall k | 0 <= k < |t|
        ensures t[k] != s[0]
      {
        assert t[k] == s[k + 1];
      }
      if keep(s[0]) {
        var r := Filter(s, keep);
        var ft := Filter(t, keep);
        assert r == [s[0]] + ft;
        forall i, j | 0 <= i < j < |r|
          ensures r[i] != r[j]
        {
          assert r[j] == ft[j - 1] && ft[j - 1] in t;
          if i > 0 {
            assert r[i] == ft[i - 1];
            assert ft[i - 1] != ft[j - 1];
          } else {
            var k :| 0 <= k < |t| && t[k] == ft[j - 1];
          }
        }
      }
    }
  }

  /** A subset is never larger than the set that contains it. */
  lemma {:induction false} SubsetSize<T>(a: set<T>, b: set<T>)
    requires a <= b
    ensures |a| <= |b|
    decreases |a|
  {
    if a != {} {
      var x :| x in a;
      SubsetSize(a - {x}, b - {x});
    }
  }

  /** A sequence has no duplicates iff it holds every value at most once. */
  lemma {:induction false} DistinctIffSingleOccurrences<T>(s: seq<T>)
    ensures Distinct(s) <==> forall x :: multiset(s)[x] <= 1
    decreases |s|
  {
    if s != [] {
      var n := |s| - 1;
      var init := s[..n];
      assert s == init + [s[n]];
      DistinctIffSingleOccurrences(init);
      if Distinct(s) {
        forall i, j | 0 <= i < j < n
          ensures init[i] != init[j]
        {
          assert init[i] == s[i] && init[j] == s[j];
        }
        forall i | 0 <= i < n
          ensures init[i] != s[n]
        {
          assert init[i] == s[i];
        }
        assert s[n] !in multiset(init);
      }
      if forall x :: multiset(s)[x] <= 1 {
        assert forall x :: multiset(init)[x] <= multiset(s)[x];
        forall i, j | 0 <= i < j < |s|
          ensures s[i] != s[j]
        {
          assert init[i] == s[i];
          if j < n {
            assert init[j] == s[j];
          } else {
            assert s[i] in multiset(init);
          }
        }
      }
    }
  }

  /** Rearranging a sequence without duplicates gives one without duplicates. */
  lemma PermutationKeepsDistinct<T>(s: seq<T>, r: seq<T>)
    requires multiset(r) == multiset(s)
    requires Distinct(s)
    ensures Distinct(r)
  {
    DistinctIffSingleOccurrences(s);
    DistinctIffSingleOccurrences(r);
  }
}
