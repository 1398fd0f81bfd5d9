/**
 * `Array.prototype.sort` on integers with the comparators `(a, b) => a - b`
 * (ascending) and `(a, b) => b - a` (descending).  The order of equal
 * integers cannot be observed, so any sorting algorithm models it; this one
 * is insertion sort.
 */
module Sorting {

  datatype Direction = Ascending | Descending

  predicate Precedes(d: Direction, x: int, y: int)
  {
    if d == Ascending then x <= y else x >= y
  }

  predicate SortedBy(s: seq<int>, d: Direction)
  {
    forall i, j :: 0 <= i < j < |s| ==> Precedes(d, s[i], s[j])
  }

  lemma PrependSorted(h: int, t: seq<int>, d: Direction)
    requires SortedBy(t, d)
    requires forall y :: y in t ==> Precedes(d, h, y)
    ensures SortedBy([h] + t, d)
  {
    var r := [h] + t;
    forall i, j | 0 <= i < j < |r|
      ensures Precedes(d, r[i], r[j])
    {
      if i > 0 {
        assert r[i] == t[i - 1] && r[j] == t[j - 1];
      } else {
        assert r[j] in t;
      }
    }
  }

  function Insert(x: int, s: seq<int>, d: Direction): (r: seq<int>)
    requires SortedBy(s, d)
    ensures SortedBy(r, d)
    ensures multiset(r) == multiset(s) + multiset{x}
  {
    if |s| == 0 || Precedes(d, x, s[0]) then
      assert forall y :: y in s ==> Precedes(d, x, y) by {
        forall y | y in s
          ensures Precedes(d, x, y)
        {
          var k :| 0 <= k < |s| && s[k] == y;
          assert k == 0 || Precedes(d, s[0], s[k]);
        }
      }
      PrependSorted(x, s, d);
      [x] + s
    else
      var rest := Insert(x, s[1..], d);
      assert s == [s[0]] + s[1..];
      assert forall y :: y in rest ==> Precedes(d, s[0], y) by {
        forall y | y in rest
          ensures Precedes(d, s[0], y)
        {
          assert y in multiset(rest);
          assert y == x || y in s[1..];
          if y != x {
            var k :| 0 <= k < |s[1..]| && s[1..][k] == y;
            assert s[k + 1] == y;
          }
        }
      }
      PrependSorted(s[0], rest, d);
      [s[0]] + rest
  }

  /** The integers of `s`, sorted in direction `d`. */
  function Sort(s: seq<int>, d: Direction): (r: seq<int>)
    ensures SortedBy(r, d)
    ensures multiset(r) == multiset(s)
  {
    if |s| == 0 then []
    else
      assert s == [s[0]] + s[1..];
      Insert(s[0], Sort(s[1..], d), d)
  }

  lemma TailMultiset(s: seq<int>)
    requires |s| > 0
    ensures multiset(s[1..]) == multiset(s) - multiset{s[0]}
  {
    assert s == [s[0]] + s[1..];
  }

  /** Two sorted arrangements of the same integers start with the same one. */
  lemma SortedSameHead(a: seq<int>, b: seq<int>, d: Direction)
    requires SortedBy(a, d) && SortedBy(b, d)
    requires |a| > 0 && multiset(a) == multiset(b)
    ensures |b| > 0 && a[0] == b[0]
  {
    assert a[0] in multiset(b) && b[0] in multiset(a);
    var k :| 0 <= k < |b| && b[k] == a[0];
    var m :| 0 <= m < |a| && a[m] == b[0];
    assert Precedes(d, a[0], a[m]) || m == 0;
    assert Precedes(d, b[0], b[k]) || k == 0;
  }

  /** Two sorted arrangements of the same integers are equal. */
  lemma {:induction false} SortedUnique(a: seq<int>, b: seq<int>, d: Direction)
    requires SortedBy(a, d) && SortedBy(b, d)
    requires multiset(a) == multiset(b)
    ensures a == b
  {
    if |a| == 0 {
      assert |multiset(b)| == 0;
    } else {
      SortedSameHead(a, b, d);
      TailMultiset(a);
      TailMultiset(b);
      SortedUnique(a[1..], b[1..], d);
      assert a == [a[0]] + a[1..] && b == [b[0]] + b[1..];
    }
  }

  /** Sorting does not depend on the order of its input. */
  lemma SortOrderIndependent(a: seq<int>, b: seq<int>, d: Direction)
    requires multiset(a) == multiset(b)
    ensures Sort(a, d) == Sort(b, d)
  {
    SortedUnique(Sort(a, d), Sort(b, d), d);
  }
}
