/** `sorted(xs, key=...)` for the string keys the store sorts by: a stable
    insertion sort under Python's string order. */
module Sorting {
  import opened Text

  /** Every element's key is at most the key of every later element. */
  ghost predicate SortedBy<T>(s: seq<T>, key: T -> string) {
    forall i, j :: 0 <= i < j < |s| ==> Le(key(s[i]), key(s[j]))
  }

  /** An element whose key is at most every key of a sorted sequence can go
      in front of it. */
  lemma SortedCons<T>(y: T, s: seq<T>, key: T -> string)
    requires SortedBy(s, key)
    requires forall k :: 0 <= k < |s| ==> Le(key(y), key(s[k]))
    ensures SortedBy([y] + s, key)
  {
    forall i, j | 0 <= i < j < |[y] + s| ensures Le(key(([y] + s)[i]), key(([y] + s)[j])) {
      assert ([y] + s)[j] == s[j - 1];
      if i > 0 {
        assert ([y] + s)[i] == s[i - 1];
      }
    }
  }

  /** Puts `x` before the first element whose key is not below its own, so
      that an element inserted later in the sort stays ahead of equal keys. */
  function Insert<T(==)>(x: T, s: seq<T>, key: T -> string): (r: seq<T>)
    requires SortedBy(s, key)
    ensures SortedBy(r, key)
    ensures multiset(r) == multiset(s) + multiset{x}
    ensures forall k :: 0 <= k < |r| ==> r[k] == x || r[k] in s
  {
    if s == [] then [x]
    else if Le(key(x), key(s[0])) then
      forall k | 0 <= k < |s| ensures Le(key(x), key(s[k])) {
        if k > 0 {
          LeTransitive(key(x), key(s[0]), key(s[k]));
        }
      }
      SortedCons(x, s, key);
      assert s == [s[0]] + s[1..];
      [x] + s
    else
      var rest := Insert(x, s[1..], key);
      LeTotal(key(x), key(s[0]));
      forall k | 0 <= k < |rest| ensures Le(key(s[0]), key(rest[k])) {
        if rest[k] != x {
          var m :| 0 <= m < |s[1..]| && s[1..][m] == rest[k];
          assert s[m + 1] == rest[k];
        }
      }
      SortedCons(s[0], rest, key);
      assert s == [s[0]] + s[1..];
      [s[0]] + rest
  }

  /** `sorted(s, key=key)`: the elements of `s`, each as often as in `s`, in
      ascending order of their keys. */
  function SortBy<T(==)>(s: seq<T>, key: T -> string): (r: seq<T>)
    ensures SortedBy(r, key)
    ensures multiset(r) == multiset(s)
    ensures |r| == |s|
  {
    if s == [] then []
    else
      assert s == [s[0]] + s[1..];
      Insert(s[0], SortBy(s[1..], key), key)
  }
}
