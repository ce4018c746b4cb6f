/** Stable sorting by an integer key, as `Array.prototype.sort` and `ORDER BY` are used by the service. */
module Sorting {

  ghost predicate SortedBy<T(!new)>(s: seq<T>, key: T -> int) {
    forall i, j | 0 <= i < j < |s| :: key(s[i]) <= key(s[j])
  }

  /** Inserts `x` into a sorted sequence, behind every element with the same key. */
  function InsertByKey<T>(s: seq<T>, x: T, key: T -> int): seq<T> {
    if s == [] || key(s[|s| - 1]) <= key(x) then s + [x]
    else InsertByKey(s[..|s| - 1], x, key) + [s[|s| - 1]]
  }

  function StableSort<T>(s: seq<T>, key: T -> int): seq<T> {
    if s == [] then [] else InsertByKey(StableSort(s[..|s| - 1], key), s[|s| - 1], key)
  }

  function WithKey<T>(s: seq<T>, key: T -> int, k: int): seq<T> {
    if s == [] then []
    else WithKey(s[..|s| - 1], key, k) + if key(s[|s| - 1]) == k then [s[|s| - 1]] else []
  }

  lemma {:induction false} InsertContents<T>(s: seq<T>, x: T, key: T -> int)
    ensures multiset(InsertByKey(s, x, key)) == multiset(s) + multiset{x}
  {
    if s == [] || key(s[|s| - 1]) <= key(x) {
    } else {
      InsertContents(s[..|s| - 1], x, key);
      assert s == s[..|s| - 1] + [s[|s| - 1]];
    }
  }

  lemma {:induction false} InsertSorted<T(!new)>(s: seq<T>, x: T, key: T -> int)
    requires SortedBy(s, key)
    ensures SortedBy(InsertByKey(s, x, key), key)
  {
    if s == [] || key(s[|s| - 1]) <= key(x) {
    } else {
      var front := s[..|s| - 1];
      InsertSorted(front, x, key);
      InsertContents(front, x, key);
      forall y | y in InsertByKey(front, x, key)
        ensures key(y) <= key(s[|s| - 1])
      {
        assert y in multiset(front) + multiset{x};
      }
    }
  }

  lemma {:induction false} InsertStable<T(!new)>(s: seq<T>, x: T, key: T -> int, k: int)
    requires SortedBy(s, key)
    ensures WithKey(InsertByKey(s, x, key), key, k) == WithKey(s + [x], key, k)
  {
    if s == [] || key(s[|s| - 1]) <= key(x) {
    } else {
      var front, last := s[..|s| - 1], s[|s| - 1];
      InsertStable(front, x, key, k);
      assert (s + [x])[..|s|] == s;
      assert (front + [x])[..|front|] == front;
      var inserted := InsertByKey(front, x, key) + [last];
      assert inserted[..|inserted| - 1] == InsertByKey(front, x, key);
      assert key(last) != key(x);
    }
  }

  /** Sorted, the same elements, and equal keys keep their order. */
  lemma {:induction false} StableSortCorrect<T(!new)>(s: seq<T>, key: T -> int)
    ensures SortedBy(StableSort(s, key), key)
    ensures multiset(StableSort(s, key)) == multiset(s)
    ensures forall k :: WithKey(StableSort(s, key), key, k) == WithKey(s, key, k)
  {
    if s != [] {
      var front, last := s[..|s| - 1], s[|s| - 1];
      StableSortCorrect(front, key);
      assert s == front + [last];
      InsertSorted(StableSort(front, key), last, key);
      InsertContents(StableSort(front, key), last, key);
      forall k
        ensures WithKey(StableSort(s, key), key, k) == WithKey(s, key, k)
      {
        InsertStable(StableSort(front, key), last, key, k);
        var t := StableSort(front, key);
        assert (t + [last])[..|t|] == t;
      }
    }
  }
}
