/**
  Python's `sorted(xs, key=k)` on integer keys, modelled as an insertion sort where
  each element goes in front of the first element whose key is at least its own.
*/
module Sorting {

  ghost predicate SortedBy<T>(s: seq<T>, key: T -> int) {
    forall i, j :: 0 <= i < j < |s| ==> key(s[i]) <= key(s[j])
  }

  ghost predicate StrictlySortedBy<T>(s: seq<T>, key: T -> int) {
    forall i, j :: 0 <= i < j < |s| ==> key(s[i]) < key(s[j])
  }

  /** `x` placed in front of the first element of `s` whose key is at least its own. */
  function Insert<T>(x: T, s: seq<T>, key: T -> int): (r: seq<T>)
    ensures multiset(r) == multiset(s) + multiset{x}
    ensures |r| == |s| + 1
  {
    if s == [] || key(x) <= key(s[0]) then [x] + s
    else
      assert s == [s[0]] + s[1..];
      [s[0]] + Insert(x, s[1..], key)
  }

  /** An element whose key bounds a sorted list from below can go in front of it. */
  lemma PrependSorted<T>(y: T, s: seq<T>, key: T -> int)
    requires SortedBy(s, key)
    requires forall i :: 0 <= i < |s| ==> key(y) <= key(s[i])
    ensures SortedBy([y] + s, key)
  {
    assert forall i :: 0 < i < |s| + 1 ==> ([y] + s)[i] == s[i - 1];
  }

  /** A lower bound on the keys of `x` and of `s` bounds the keys of the insertion. */
  lemma {:induction false} InsertLowerBound<T>(x: T, s: seq<T>, key: T -> int, bound: int)
    requires bound <= key(x)
    requires forall i :: 0 <= i < |s| ==> bound <= key(s[i])
    ensures forall i :: 0 <= i < |Insert(x, s, key)| ==> bound <= key(Insert(x, s, key)[i])
  {
    if s == [] || key(x) <= key(s[0]) {
      assert forall i :: 0 < i < |s| + 1 ==> ([x] + s)[i] == s[i - 1];
    } else {
      InsertLowerBound(x, s[1..], key, bound);
      var rest := Insert(x, s[1..], key);
      assert forall i :: 0 < i < |rest| + 1 ==> ([s[0]] + rest)[i] == rest[i - 1];
    }
  }

  /** Inserting into a sorted list keeps it sorted. */
  lemma {:induction false} InsertSorted<T>(x: T, s: seq<T>, key: T -> int)
    requires SortedBy(s, key)
    ensures SortedBy(Insert(x, s, key), key)
  {
    if s == [] || key(x) <= key(s[0]) {
      PrependSorted(x, s, key);
    } else {
      InsertSorted(x, s[1..], key);
      InsertLowerBound(x, s[1..], key, key(s[0]));
      PrependSorted(s[0], Insert(x, s[1..], key), key);
    }
  }

  /** `sorted(s, key=key)`: sorted by the key and a permutation of the input. */
  function SortBy<T>(s: seq<T>, key: T -> int): (r: seq<T>)
    ensures SortedBy(r, key)
    ensures multiset(r) == multiset(s)
    ensures |r| == |s|
  {
    if s == [] then []
    else
      assert s == [s[0]] + s[1..];
      InsertSorted(s[0], SortBy(s[1..], key), key);
      Insert(s[0], SortBy(s[1..], key), key)
  }

  /** Sorting a list that is already in key order changes nothing. */
  lemma {:induction false} SortOfSortedIsIdentity<T>(s: seq<T>, key: T -> int)
    requires SortedBy(s, key)
    ensures SortBy(s, key) == s
  {
    if s != [] {
      SortOfSortedIsIdentity(s[1..], key);
      assert s == [s[0]] + s[1..];
    }
  }

  /** Sorting keeps exactly the elements of the input. */
  lemma SortByMembers<T>(s: seq<T>, key: T -> int, x: T)
    ensures x in SortBy(s, key) <==> x in s
  {
    var r := SortBy(s, key);
    assert x in r <==> x in multiset(r);
    assert x in s <==> x in multiset(s);
  }
}
