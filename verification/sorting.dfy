/** The stable sort (`slice::sort_by`) that `BvhTree::build` applies before
    splitting, on a real-valued key. Modelled as a stable insertion sort:
    an element is placed before the first later element whose key is not
    smaller, so equal keys keep their input order. */
module Sorting {

  predicate SortedBy<T>(s: seq<T>, key: T -> real) {
    forall i, j | 0 <= i < j < |s| :: key(s[i]) <= key(s[j])
  }

  function Insert<T>(x: T, s: seq<T>, key: T -> real): (r: seq<T>)
    requires SortedBy(s, key)
    ensures SortedBy(r, key)
    ensures multiset(r) == multiset(s) + multiset{x}
    ensures |r| == |s| + 1
    ensures r[0] == x || (|s| > 0 && r[0] == s[0])
  {
    if |s| == 0 then [x]
    else if key(x) <= key(s[0]) then
      SortedCons(x, s, key);
      [x] + s
    else
      var rest := Insert(x, s[1..], key);
      assert s == [s[0]] + s[1..];
      assert |s| > 1 ==> key(s[0]) <= key(s[1]);
      SortedCons(s[0], rest, key);
      [s[0]] + rest
  }

  /** A head no larger than anything in a sorted tail gives a sorted sequence. */
  lemma SortedCons<T>(h: T, rest: seq<T>, key: T -> real)
    requires SortedBy(rest, key)
    requires |rest| > 0 ==> key(h) <= key(rest[0])
    ensures SortedBy([h] + rest, key)
  {
    var r := [h] + rest;
    forall i, j | 0 <= i < j < |r|
      ensures key(r[i]) <= key(r[j])
    {
      if i > 0 {
        assert r[i] == rest[i - 1] && r[j] == rest[j - 1];
      } else {
        assert r[j] == rest[j - 1];
        assert key(rest[0]) <= key(rest[j - 1]);
      }
    }
  }

  function Sort<T>(s: seq<T>, key: T -> real): (r: seq<T>)
    ensures SortedBy(r, key)
    ensures multiset(r) == multiset(s)
    ensures |r| == |s|
  {
    if |s| == 0 then []
    else
      assert s == [s[0]] + s[1..];
      Insert(s[0], Sort(s[1..], key), key)
  }
}
