/**
 * The ordering the database applies to a query with `.order(column)`: rows
 * sorted by an integer column. Ties keep their storage order, which is one of
 * the orders the database may return.
 */
module Sorting {

  predicate SortedBy<T>(s: seq<T>, key: T -> int) {
    forall i, j :: 0 <= i < j < |s| ==> key(s[i]) <= key(s[j])
  }

  /** Every key in `s` is at least `b`. */
  predicate AtLeast<T>(b: int, s: seq<T>, key: T -> int) {
    forall i :: 0 <= i < |s| ==> b <= key(s[i])
  }

  /** `x` placed before the first element whose key is not smaller. */
  function InsertBy<T>(x: T, s: seq<T>, key: T -> int): (r: seq<T>)
    requires SortedBy(s, key)
    ensures SortedBy(r, key)
    ensures |r| == |s| + 1
    ensures forall b :: AtLeast(b, s, key) && b <= key(x) ==> AtLeast(b, r, key)
    decreases |s|
  {
    if s == [] || key(x) <= key(s[0]) then
      assert AtLeast(key(x), s, key);
      [x] + s
    else
      var t := InsertBy(x, s[1..], key);
      assert AtLeast(key(s[0]), s[1..], key);
      assert AtLeast(key(s[0]), t, key);
      [s[0]] + t
  }

  /** Inserting adds exactly `x`. */
  lemma {:induction false} InsertByPermutes<T>(x: T, s: seq<T>, key: T -> int)
    requires SortedBy(s, key)
    ensures multiset(InsertBy(x, s, key)) == multiset(s) + multiset{x}
    decreases |s|
  {
    if s != [] && key(x) > key(s[0]) {
      InsertByPermutes(x, s[1..], key);
      assert s == [s[0]] + s[1..];
    }
  }

  /** The rows of `s` in ascending `key` order. */
  function SortBy<T>(s: seq<T>, key: T -> int): (r: seq<T>)
    ensures SortedBy(r, key)
    ensures |r| == |s|
    decreases |s|
  {
    if s == [] then []
    else InsertBy(s[0], SortBy(s[1..], key), key)
  }

  /** Sorting keeps exactly the rows it was given. */
  lemma {:induction false} SortByPermutes<T>(s: seq<T>, key: T -> int)
    ensures multiset(SortBy(s, key)) == multiset(s)
    decreases |s|
  {
    if s != [] {
      SortByPermutes(s[1..], key);
      InsertByPermutes(s[0], SortBy(s[1..], key), key);
      assert s == [s[0]] + s[1..];
    }
  }
}
