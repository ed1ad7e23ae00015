/** `Array.prototype.sort` with a comparator, as a stable insertion sort:
    `less(x, y)` says that `x` must come before `y`; elements that neither
    must precede keep their input order. */
module Sorting {
  import opened Seqs

  /** Inserts `x` into `sorted` after every element it need not precede. */
  function InsertBy<T(==)>(sorted: seq<T>, x: T, less: (T, T) -> bool): (r: seq<T>)
    ensures |r| == |sorted| + 1
    ensures multiset(r) == multiset(sorted) + multiset{x}
  {
    if sorted == [] then [x]
    else
      var init, last := sorted[..|sorted| - 1], sorted[|sorted| - 1];
      SplitLast(sorted);
      if less(x, last) then InsertBy(init, x, less) + [last] else sorted + [x]
  }

  /** Sorts `s`, inserting its elements in their input order. */
  function SortBy<T(==)>(s: seq<T>, less: (T, T) -> bool): (r: seq<T>)
    ensures |r| == |s|
    ensures multiset(r) == multiset(s)
  {
    if s == [] then []
    else
      assert s == s[..|s| - 1] + [s[|s| - 1]];
      InsertBy(SortBy(s[..|s| - 1], less), s[|s| - 1], less)
  }

  /** Sorting one more element inserts it into the sorted rest. */
  lemma SortBySnoc<T>(s: seq<T>, x: T, less: (T, T) -> bool)
    ensures SortBy(s + [x], less) == InsertBy(SortBy(s, less), x, less)
  {
    assert (s + [x])[..|s|] == s;
  }

  /** A list where no element must precede an earlier one is already sorted. */
  lemma {:induction false} SortByNoInversions<T>(s: seq<T>, less: (T, T) -> bool)
    requires forall i, j :: 0 <= i < j < |s| ==> !less(s[j], s[i])
    ensures SortBy(s, less) == s
  {
    if s != [] {
      var init, last := s[..|s| - 1], s[|s| - 1];
      assert forall i, j :: 0 <= i < j < |init| ==> !less(init[j], init[i]) by {
        forall i, j | 0 <= i < j < |init| ensures !less(init[j], init[i]) {
          assert init[i] == s[i] && init[j] == s[j];
        }
      }
      SortByNoInversions(init, less);
      assert SortBy(s, less) == InsertBy(init, last, less);
      if init != [] {
        assert !less(last, init[|init| - 1]) by {
          assert init[|init| - 1] == s[|s| - 2];
        }
        assert InsertBy(init, last, less) == init + [last];
      }
      SplitLast(s);
    }
  }

  /** `s` is in non-decreasing order of `key`. */
  predicate SortedByKey<T>(s: seq<T>, key: T -> int) {
    forall i, j :: 0 <= i < j < |s| ==> key(s[i]) <= key(s[j])
  }

  /** `less` orders the elements of `s` by `key`. */
  predicate LessIsKeyOrder<T(==,!new)>(s: seq<T>, less: (T, T) -> bool, key: T -> int) {
    forall x, y :: x in s && y in s ==> (less(x, y) <==> key(x) < key(y))
  }

  lemma {:induction false} InsertByKeySorted<T(!new)>(sorted: seq<T>, x: T, less: (T, T) -> bool, key: T -> int)
    requires SortedByKey(sorted, key)
    requires LessIsKeyOrder(sorted + [x], less, key)
    ensures SortedByKey(InsertBy(sorted, x, less), key)
  {
    if sorted != [] {
      var init, last := sorted[..|sorted| - 1], sorted[|sorted| - 1];
      assert x in sorted + [x] && last in sorted + [x];
      if less(x, last) {
        assert LessIsKeyOrder(init + [x], less, key) by {
          forall y | y in init + [x] ensures y in sorted + [x] {
            if y != x {
              assert y in init;
              assert y in sorted;
            }
          }
        }
        InsertByKeySorted(init, x, less, key);
        var front := InsertBy(init, x, less);
        forall y | y in front ensures key(y) <= key(last) {
          assert y in multiset(front);
          if y != x {
            assert y in multiset(init);
            var i :| 0 <= i < |init| && init[i] == y;
            assert sorted[i] == y;
          }
        }
        var r := front + [last];
        forall i, j | 0 <= i < j < |r| ensures key(r[i]) <= key(r[j]) {
          if j == |r| - 1 {
            assert r[i] in front;
          } else {
            assert r[i] == front[i] && r[j] == front[j];
          }
        }
      }
    }
  }

  /** When `less` is the order of a key, the result is sorted by that key. */
  lemma {:induction false} SortByKeySorted<T(!new)>(s: seq<T>, less: (T, T) -> bool, key: T -> int)
    requires LessIsKeyOrder(s, less, key)
    ensures SortedByKey(SortBy(s, less), key)
  {
    if s != [] {
      var init, last := s[..|s| - 1], s[|s| - 1];
      SplitLast(s);
      assert LessIsKeyOrder(init, less, key) by {
        forall y | y in init ensures y in s { }
      }
      SortByKeySorted(init, less, key);
      var sortedInit := SortBy(init, less);
      assert LessIsKeyOrder(sortedInit + [last], less, key) by {
        forall y | y in sortedInit + [last] ensures y in s {
          if y != last {
            assert y in multiset(sortedInit);
            assert y in multiset(init);
          }
        }
      }
      InsertByKeySorted(sortedInit, last, less, key);
    }
  }
}
