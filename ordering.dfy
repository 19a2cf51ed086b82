/**
 * Strict total orders and the two sorts the SQL queries perform:
 * `SortDistinct` (GROUP BY / SELECT DISTINCT … ORDER BY: one copy of each key, ascending)
 * and `Sort` (ORDER BY over rows that may repeat a key).
 */
module Ordering {

  /** `lt` is irreflexive, transitive and relates any two distinct values one way or the other. */
  ghost predicate IsStrictTotalOrder<T(!new)>(lt: (T, T) -> bool) {
    && (forall x :: !lt(x, x))
    && (forall x, y, z :: lt(x, y) && lt(y, z) ==> lt(x, z))
    && (forall x, y :: x != y ==> lt(x, y) || lt(y, x))
  }

  /** Every element is `lt`-below every later one (so no element repeats). */
  predicate StrictlyAscending<T>(s: seq<T>, lt: (T, T) -> bool) {
    forall i, j :: 0 <= i < j < |s| ==> lt(s[i], s[j])
  }

  /** No element is `lt`-below an earlier one (repeats allowed). */
  predicate Ascending<T>(s: seq<T>, lt: (T, T) -> bool) {
    forall i, j :: 0 <= i < j < |s| ==> !lt(s[j], s[i])
  }

  /** Inserts `x` into a strictly ascending sequence, unless it is already there. */
  function InsertDistinct<T(==,!new)>(s: seq<T>, x: T, lt: (T, T) -> bool): (r: seq<T>)
    requires IsStrictTotalOrder(lt) && StrictlyAscending(s, lt)
    ensures StrictlyAscending(r, lt)
    ensures forall y :: y in r <==> y in s || y == x
  {
    if s == [] then [x]
    else if x == s[0] then s
    else if lt(x, s[0]) then
      assert forall j | 0 < j < |s| :: lt(x, s[j]) by {
        forall j | 0 < j < |s| ensures lt(x, s[j]) {
          assert lt(x, s[0]) && lt(s[0], s[j]);
        }
      }
      [x] + s
    else
      var rest := InsertDistinct(s[1..], x, lt);
      assert lt(s[0], x);
      assert forall y | y in rest :: lt(s[0], y) by {
        forall y | y in rest ensures lt(s[0], y) {
          if y != x {
            var k :| 0 <= k < |s[1..]| && s[1..][k] == y;
            assert s[k + 1] == y;
          }
        }
      }
      [s[0]] + rest
  }

  /** The distinct elements of `xs`, in ascending order. */
  function SortDistinct<T(==,!new)>(xs: seq<T>, lt: (T, T) -> bool): (r: seq<T>)
    requires IsStrictTotalOrder(lt)
    ensures StrictlyAscending(r, lt)
    ensures forall y :: y in r <==> y in xs
  {
    if xs == [] then []
    else
      var init := SortDistinct(xs[..|xs| - 1], lt);
      assert xs == xs[..|xs| - 1] + [xs[|xs| - 1]];
      InsertDistinct(init, xs[|xs| - 1], lt)
  }

  /** Two strictly ascending sequences with the same elements are the same sequence. */
  lemma {:induction false} StrictlyAscendingUnique<T(!new)>(a: seq<T>, b: seq<T>, lt: (T, T) -> bool)
    requires IsStrictTotalOrder(lt) && StrictlyAscending(a, lt) && StrictlyAscending(b, lt)
    requires forall y :: y in a <==> y in b
    ensures a == b
  {
    if a == [] {
      HeadIsMember(b);
    } else {
      assert a[0] in b;
      assert b[0] in a;
      assert a[0] == b[0];
      forall y
        ensures y in a[1..] <==> y in b[1..]
      {
        if y in a[1..] {
          var k :| 0 <= k < |a[1..]| && a[1..][k] == y;
          assert a[k + 1] == y && lt(a[0], y);
          assert y in b;
          var m :| 0 <= m < |b| && b[m] == y;
          assert m != 0;
          assert b[1..][m - 1] == y;
        }
        if y in b[1..] {
          var k :| 0 <= k < |b[1..]| && b[1..][k] == y;
          assert b[k + 1] == y && lt(b[0], y);
          assert y in a;
          var m :| 0 <= m < |a| && a[m] == y;
          assert m != 0;
          assert a[1..][m - 1] == y;
        }
      }
      StrictlyAscendingUnique(a[1..], b[1..], lt);
      assert a == [a[0]] + a[1..] && b == [b[0]] + b[1..];
    }
  }

  lemma HeadIsMember<T>(s: seq<T>)
    ensures s != [] ==> s[0] in s
  {
  }

  /** Sorting a sequence that is already strictly ascending gives it back unchanged. */
  lemma SortDistinctOfAscending<T(!new)>(xs: seq<T>, lt: (T, T) -> bool)
    requires IsStrictTotalOrder(lt) && StrictlyAscending(xs, lt)
    ensures SortDistinct(xs, lt) == xs
  {
    StrictlyAscendingUnique(SortDistinct(xs, lt), xs, lt);
  }

  /** A sequence holding `x` and the elements of `s` has nothing below `b` when they have nothing below it. */
  lemma NoneBelowByMultiset<T>(r: seq<T>, s: seq<T>, x: T, b: T, lt: (T, T) -> bool)
    requires multiset(r) == multiset(s) + multiset{x}
    requires forall k :: 0 <= k < |s| ==> !lt(s[k], b)
    requires !lt(x, b)
    ensures forall k :: 0 <= k < |r| ==> !lt(r[k], b)
  {
    forall k | 0 <= k < |r|
      ensures !lt(r[k], b)
    {
      assert r[k] in multiset(r);
      if r[k] != x {
        assert r[k] in multiset(s);
        var m :| 0 <= m < |s| && s[m] == r[k];
      }
    }
  }

  lemma Asymmetric<T(!new)>(lt: (T, T) -> bool, a: T, b: T)
    requires IsStrictTotalOrder(lt) && lt(a, b)
    ensures !lt(b, a)
  {
    assert lt(b, a) ==> lt(a, a);
  }

  /** Putting an element in front of an ascending sequence with nothing below it keeps it ascending. */
  lemma AscendingCons<T>(b: T, rest: seq<T>, lt: (T, T) -> bool)
    requires Ascending(rest, lt)
    requires forall k :: 0 <= k < |rest| ==> !lt(rest[k], b)
    ensures Ascending([b] + rest, lt)
  {
    var r := [b] + rest;
    forall i, j | 0 <= i < j < |r|
      ensures !lt(r[j], r[i])
    {
      assert r[j] == rest[j - 1];
      if i > 0 {
        assert r[i] == rest[i - 1];
      }
    }
  }

  /** Inserts `x` in front of the first element that is not below it. */
  function Insert<T(==,!new)>(s: seq<T>, x: T, lt: (T, T) -> bool): (r: seq<T>)
    requires IsStrictTotalOrder(lt) && Ascending(s, lt)
    ensures Ascending(r, lt)
    ensures multiset(r) == multiset(s) + multiset{x}
  {
    if s == [] || !lt(s[0], x) then
      AscendingCons(x, s, lt);
      [x] + s
    else
      var tail := s[1..];
      var rest := Insert(tail, x, lt);
      assert s == [s[0]] + tail;
      assert forall k :: 0 <= k < |tail| ==> !lt(tail[k], s[0]) by {
        forall k | 0 <= k < |tail| ensures !lt(tail[k], s[0]) {
          assert tail[k] == s[k + 1];
        }
      }
      Asymmetric(lt, s[0], x);
      NoneBelowByMultiset(rest, tail, x, s[0], lt);
      AscendingCons(s[0], rest, lt);
      [s[0]] + rest
  }

  /** The elements of `xs`, repeats kept, in ascending order. */
  function Sort<T(==,!new)>(xs: seq<T>, lt: (T, T) -> bool): (r: seq<T>)
    requires IsStrictTotalOrder(lt)
    ensures Ascending(r, lt)
    ensures multiset(r) == multiset(xs)
  {
    if xs == [] then []
    else
      assert xs == xs[..|xs| - 1] + [xs[|xs| - 1]];
      Insert(Sort(xs[..|xs| - 1], lt), xs[|xs| - 1], lt)
  }
}
