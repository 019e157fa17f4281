/** Ordering helpers: the stable `Array.prototype.sort` the placers call, and the ordered insertion
    of the `sortedlist` library the interval tree keeps its lists with. Both are library code
    outside this model; they are defined here by a stable insertion sort keyed by a real. */
module Sorting {

  ghost predicate SortedBy<T>(s: seq<T>, key: T -> real) {
    forall i, j :: 0 <= i < j < |s| ==> key(s[i]) <= key(s[j])
  }

  /** Inserts `x` before the first element whose key is not smaller. */
  function InsertSorted<T>(x: T, s: seq<T>, key: T -> real): (r: seq<T>)
    requires SortedBy(s, key)
    ensures SortedBy(r, key)
    ensures multiset(r) == multiset(s) + multiset{x}
    ensures |r| == |s| + 1
  {
    if s == [] || key(x) <= key(s[0]) then
      [x] + s
    else
      var rest := InsertSorted(x, s[1..], key);
      assert multiset(s) == multiset{s[0]} + multiset(s[1..]) by {
        assert s == [s[0]] + s[1..];
      }
      assert forall y | y in rest :: key(s[0]) <= key(y) by {
        forall y | y in rest ensures key(s[0]) <= key(y) {
          assert y in multiset(rest);
        }
      }
      [s[0]] + rest
  }

  /** A stable sort: elements with equal keys keep their relative order. */
  function SortBy<T>(s: seq<T>, key: T -> real): (r: seq<T>)
    ensures SortedBy(r, key)
    ensures multiset(r) == multiset(s)
    ensures |r| == |s|
  {
    if s == [] then []
    else
      assert s == [s[0]] + s[1..];
      InsertSorted(s[0], SortBy(s[1..], key), key)
  }
}
