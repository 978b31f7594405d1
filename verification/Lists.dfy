// `Iterator::filter` and the stable `sort_by_key` of the standard library.
module Lists {
  function Filter<T(!new)>(keep: T -> bool, s: seq<T>): (r: seq<T>)
    ensures |r| <= |s|
    ensures forall x :: x in r <==> x in s && keep(x)
    ensures (forall x :: x in s ==> keep(x)) ==> r == s
  {
    if s == [] then []
    else
      assert s == [s[0]] + s[1..];
      (if keep(s[0]) then [s[0]] else []) + Filter(keep, s[1..])
  }

  lemma {:induction false} FilterConcat<T(!new)>(keep: T -> bool, a: seq<T>, b: seq<T>)
    ensures Filter(keep, a + b) == Filter(keep, a) + Filter(keep, b)
  {
    if a == [] {
      assert a + b == b;
    } else {
      assert (a + b)[1..] == a[1..] + b;
      FilterConcat(keep, a[1..], b);
    }
  }

  predicate SortedBy<T>(key: T -> int, s: seq<T>) {
    forall i, j :: 0 <= i < j < |s| ==> key(s[i]) <= key(s[j])
  }

  // Inserts `x` before the first element whose key is not smaller.
  function Insert<T(!new)>(key: T -> int, x: T, s: seq<T>): (r: seq<T>)
    ensures |r| == |s| + 1
    ensures forall y :: y in r <==> y == x || y in s
    ensures SortedBy(key, s) ==> SortedBy(key, r)
  {
    if s == [] || key(x) <= key(s[0]) then [x] + s
    else
      var r := Insert(key, x, s[1..]);
      assert forall i :: 0 <= i < |r| ==> r[i] in r;
      [s[0]] + r
  }

  function StableSort<T(!new)>(key: T -> int, s: seq<T>): (r: seq<T>)
    ensures |r| == |s|
    ensures forall y :: y in r <==> y in s
    ensures SortedBy(key, r)
  {
    if s == [] then [] else Insert(key, s[0], StableSort(key, s[1..]))
  }
}
