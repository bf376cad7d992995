/** Ordering of query results.

    The store's `ORDER BY <column> [DESC]` clauses and the JavaScript
    `sort((a, b) => a - b)` used by the percentile computation are both
    modelled by one stable insertion sort on an integer key; a descending
    order is an ascending order on the negated key. */
module Ordering {

  /** `s` is in non-decreasing order of `key`. */
  ghost predicate SortedBy<T>(s: seq<T>, key: T -> int) {
    forall i, j | 0 <= i < j < |s| :: key(s[i]) <= key(s[j])
  }

  /** Inserts `x` in front of the first element of `s` whose key is not
      smaller than its own. */
  function Insert<T>(x: T, s: seq<T>, key: T -> int): (r: seq<T>)
    ensures |r| == |s| + 1
  {
    if s == [] || key(x) <= key(s[0]) then [x] + s
    else [s[0]] + Insert(x, s[1..], key)
  }

  /** Insertion sort of `s` by `key` (stable: equal keys keep their order). */
  function SortBy<T>(s: seq<T>, key: T -> int): (r: seq<T>)
    ensures |r| == |s|
  {
    if s == [] then [] else Insert(s[0], SortBy(s[1..], key), key)
  }

  /** A bound below `x` and every element of `s` bounds the insertion. */
  lemma {:induction false} InsertAbove<T>(x: T, s: seq<T>, key: T -> int, b: int)
    requires b <= key(x)
    requires forall j | 0 <= j < |s| :: b <= key(s[j])
    ensures forall k | 0 <= k < |Insert(x, s, key)| :: b <= key(Insert(x, s, key)[k])
  {
    if s != [] && key(x) > key(s[0]) {
      InsertAbove(x, s[1..], key, b);
    }
  }

  /** Inserting into a sorted sequence keeps it sorted. */
  lemma {:induction false} InsertSorted<T>(x: T, s: seq<T>, key: T -> int)
    requires SortedBy(s, key)
    ensures SortedBy(Insert(x, s, key), key)
  {
    if s != [] && key(x) > key(s[0]) {
      var rest := Insert(x, s[1..], key);
      InsertSorted(x, s[1..], key);
      InsertAbove(x, s[1..], key, key(s[0]));
      var r := [s[0]] + rest;
      forall i, j | 0 <= i < j < |r| ensures key(r[i]) <= key(r[j]) {
        if i > 0 {
          assert r[i] == rest[i - 1] && r[j] == rest[j - 1];
        }
      }
    }
  }

  /** Insertion adds exactly `x` to the elements. */
  lemma {:induction false} InsertPermutes<T>(x: T, s: seq<T>, key: T -> int)
    ensures multiset(Insert(x, s, key)) == multiset(s) + multiset{x}
  {
    if s != [] && key(x) > key(s[0]) {
      InsertPermutes(x, s[1..], key);
      assert s == [s[0]] + s[1..];
    }
  }

  /** The sort is sorted and a permutation of its input. */
  lemma {:induction false} SortByCorrect<T>(s: seq<T>, key: T -> int)
    ensures SortedBy(SortBy(s, key), key)
    ensures multiset(SortBy(s, key)) == multiset(s)
  {
    if s != [] {
      SortByCorrect(s[1..], key);
      InsertSorted(s[0], SortBy(s[1..], key), key);
      InsertPermutes(s[0], SortBy(s[1..], key), key);
      assert s == [s[0]] + s[1..];
    }
  }

  /** Sorting a sequence that is already sorted leaves it as it is. */
  lemma {:induction false} SortSortedIsIdentity<T>(s: seq<T>, key: T -> int)
    requires SortedBy(s, key)
    ensures SortBy(s, key) == s
  {
    if s != [] {
      assert SortedBy(s[1..], key);
      SortSortedIsIdentity(s[1..], key);
      assert s == [s[0]] + s[1..];
    }
  }

  /** The number of elements of `s` that satisfy `f`. */
  function Count<T>(s: seq<T>, f: T -> bool): (n: nat)
    ensures n <= |s|
  {
    if s == [] then 0 else (if f(s[0]) then 1 else 0) + Count(s[1..], f)
  }

  lemma {:induction false} CountInsert<T>(x: T, s: seq<T>, key: T -> int, f: T -> bool)
    ensures Count(Insert(x, s, key), f) == Count(s, f) + (if f(x) then 1 else 0)
  {
    if s != [] && key(x) > key(s[0]) {
      CountInsert(x, s[1..], key, f);
    }
  }

  /** Sorting does not change how many elements satisfy a predicate. */
  lemma {:induction false} CountSortBy<T>(s: seq<T>, key: T -> int, f: T -> bool)
    ensures Count(SortBy(s, key), f) == Count(s, f)
  {
    if s != [] {
      CountSortBy(s[1..], key, f);
      CountInsert(s[0], SortBy(s[1..], key), key, f);
    }
  }

  /** Every element of a prefix satisfying `f` gives a lower bound. */
  lemma {:induction false} CountAtLeastPrefix<T>(s: seq<T>, k: nat, f: T -> bool)
    requires k <= |s|
    requires forall i | 0 <= i < k :: f(s[i])
    ensures Count(s, f) >= k
  {
    if k > 0 {
      CountAtLeastPrefix(s[1..], k - 1, f);
    }
  }

  /** No element of a suffix satisfying `f` gives an upper bound. */
  lemma {:induction false} CountAtMostPrefix<T>(s: seq<T>, k: nat, f: T -> bool)
    requires k <= |s|
    requires forall i | k <= i < |s| :: !f(s[i])
    ensures Count(s, f) <= k
  {
    if s != [] {
      if k == 0 {
        CountAtMostPrefix(s[1..], 0, f);
      } else {
        CountAtMostPrefix(s[1..], k - 1, f);
      }
    }
  }

  /** The elements of `s` that satisfy `f`, in their order. */
  function Filter<T>(s: seq<T>, f: T -> bool): (r: seq<T>)
    ensures |r| <= |s|
    ensures forall i | 0 <= i < |r| :: f(r[i])
  {
    if s == [] then []
    else (if f(s[0]) then [s[0]] else []) + Filter(s[1..], f)
  }

  /** The filter keeps every element that satisfies `f` as often as `s`
      holds it, and nothing else. */
  lemma {:induction false} FilterContents<T>(s: seq<T>, f: T -> bool)
    ensures forall x :: multiset(Filter(s, f))[x] == if f(x) then multiset(s)[x] else 0
  {
    if s != [] {
      FilterContents(s[1..], f);
      assert s == [s[0]] + s[1..];
    }
  }
}
