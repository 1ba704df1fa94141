/** Python's `sorted(...)` applied to a set: the elements of the set in
    ascending order of a strict total order (`<` on `str` or on tuples). */
module Sorting {

  ghost predicate IsStrictTotalOrder<T(!new)>(less: (T, T) -> bool) {
    && (forall x :: !less(x, x))
    && (forall x, y, z :: less(x, y) && less(y, z) ==> less(x, z))
    && (forall x, y :: x != y ==> less(x, y) || less(y, x))
  }

  /** Each element strictly below every later one: ascending, no duplicates. */
  ghost predicate StrictlySorted<T>(s: seq<T>, less: (T, T) -> bool) {
    forall i, j :: 0 <= i < j < |s| ==> less(s[i], s[j])
  }

  predicate IsLeast<T>(m: T, s: set<T>, less: (T, T) -> bool) {
    m in s && forall y :: y in s ==> !less(y, m)
  }

  lemma {:induction false} LeastExists<T(!new)>(s: set<T>, less: (T, T) -> bool)
    requires IsStrictTotalOrder(less)
    requires s != {}
    ensures exists m :: IsLeast(m, s, less)
  {
    var x :| x in s;
    if s != {x} {
      LeastExists(s - {x}, less);
      var m :| IsLeast(m, s - {x}, less);
      if less(x, m) {
        assert IsLeast(x, s, less);
      } else {
        assert IsLeast(m, s, less);
      }
    } else {
      assert IsLeast(x, s, less);
    }
  }

  /** The elements of `s` in ascending order: repeatedly the least remaining one. */
  function SortSet<T(!new)>(s: set<T>, less: (T, T) -> bool): (r: seq<T>)
    requires IsStrictTotalOrder(less)
    ensures StrictlySorted(r, less)
    ensures forall x :: x in r <==> x in s
    ensures |r| == |s|
    decreases s
  {
    if s == {} then []
    else
      LeastExists(s, less);
      var m :| IsLeast(m, s, less);
      var rest := SortSet(s - {m}, less);
      assert forall y :: y in rest ==> less(m, y);
      [m] + rest
  }

  /** Two ascending sequences holding the same elements are the same sequence,
      so `sorted` of a set does not depend on how the set was built. */
  lemma {:induction false} SortedUnique<T(!new)>(a: seq<T>, b: seq<T>, less: (T, T) -> bool)
    requires IsStrictTotalOrder(less)
    requires StrictlySorted(a, less) && StrictlySorted(b, less)
    requires forall x :: x in a <==> x in b
    ensures a == b
  {
    if |a| > 0 { assert a[0] in a; }
    if |b| > 0 { assert b[0] in b; }
    if |a| > 0 && |b| > 0 {
      var i :| 0 <= i < |a| && a[i] == b[0];
      var j :| 0 <= j < |b| && b[j] == a[0];
      assert i == 0 || j == 0;
      forall x ensures x in a[1..] <==> x in b[1..] {
        if x in a[1..] {
          var i :| 1 <= i < |a| && a[i] == x;
          assert x != a[0] by { assert less(a[0], a[i]); }
          assert x in b;
          var j :| 0 <= j < |b| && b[j] == x;
          assert j != 0;
        }
        if x in b[1..] {
          var j :| 1 <= j < |b| && b[j] == x;
          assert x != b[0] by { assert less(b[0], b[j]); }
          assert x in a;
          var i :| 0 <= i < |a| && a[i] == x;
          assert i != 0;
        }
      }
      SortedUnique(a[1..], b[1..], less);
      assert a == [a[0]] + a[1..] && b == [b[0]] + b[1..];
    }
  }
}
