/** The stable sort of `Array.prototype.sort`, for any comparator that is a strict weak order. */
module Sorting {

  ghost predicate IsOrder<T(!new)>(before: (T, T) -> bool)
  {
    && (forall x, y :: before(x, y) ==> !before(y, x))
    && (forall x, y, z :: before(x, z) ==> before(x, y) || before(y, z))
  }

  /** Inserts behind everything that is not later. */
  function Insert<T>(before: (T, T) -> bool, s: seq<T>, x: T): seq<T>
  {
    if s == [] then [x]
    else if before(x, s[0]) then [x] + s
    else [s[0]] + Insert(before, s[1..], x)
  }

  function Sort<T>(before: (T, T) -> bool, s: seq<T>): seq<T>
  {
    if s == [] then [] else Insert(before, Sort(before, s[..|s| - 1]), s[|s| - 1])
  }

  ghost predicate IsSorted<T>(before: (T, T) -> bool, s: seq<T>)
  {
    forall i, j :: 0 <= i < j < |s| ==> !before(s[j], s[i])
  }

  /** Every two elements are related. */
  ghost predicate Pairwise<T>(related: (T, T) -> bool, s: seq<T>)
  {
    forall i, j :: 0 <= i < j < |s| ==> related(s[i], s[j])
  }

  lemma PrependPairs<T>(related: (T, T) -> bool, x: T, s: seq<T>)
    requires Pairwise(related, s) && forall i :: 0 <= i < |s| ==> related(x, s[i])
    ensures Pairwise(related, [x] + s)
  {
    var all := [x] + s;
    assert forall i :: 0 < i < |all| ==> all[i] == s[i - 1];
  }

  lemma {:induction false} InsertSorts<T(!new)>(before: (T, T) -> bool, s: seq<T>, x: T)
    requires IsOrder(before) && IsSorted(before, s)
    ensures IsSorted(before, Insert(before, s, x))
    ensures forall y :: y in Insert(before, s, x) <==> y in s || y == x
  {
    var notAfter := (a: T, b: T) => !before(b, a);
    if s != [] {
      var first, rest := s[0], s[1..];
      assert s == [first] + rest && forall i :: 0 <= i < |rest| ==> rest[i] == s[i + 1];
      if before(x, first) {
        PrependPairs(notAfter, x, s);
      } else {
        InsertSorts(before, rest, x);
        var t := Insert(before, rest, x);
        forall i | 0 <= i < |t| ensures !before(t[i], first) {
          assert t[i] in t;
        }
        PrependPairs(notAfter, first, t);
      }
    }
  }

  lemma {:induction false} SortSorts<T(!new)>(before: (T, T) -> bool, s: seq<T>)
    requires IsOrder(before)
    ensures IsSorted(before, Sort(before, s)) && forall x :: x in Sort(before, s) <==> x in s
  {
    hide IsOrder, IsSorted, Insert;
    if s == [] {
      assert IsSorted(before, s) by { NothingIsSorted(before); }
    } else {
      var n := |s| - 1;
      SortSorts(before, s[..n]);
      InsertSorts(before, Sort(before, s[..n]), s[n]);
      assert s == s[..n] + [s[n]];
    }
  }

  lemma NothingIsSorted<T>(before: (T, T) -> bool)
    ensures IsSorted(before, [])
  {
  }

  // ----- elements that are pairwise apart -----

  ghost predicate IsSymmetric<T(!new)>(apart: (T, T) -> bool)
  {
    forall x, y :: apart(x, y) ==> apart(y, x)
  }

  lemma {:induction false} InsertKeepsApart<T(!new)>(before: (T, T) -> bool, apart: (T, T) -> bool, s: seq<T>, x: T)
    requires IsSymmetric(apart) && Pairwise(apart, s) && forall i :: 0 <= i < |s| ==> apart(x, s[i])
    ensures Pairwise(apart, Insert(before, s, x))
    ensures forall y :: y in Insert(before, s, x) <==> y in s || y == x
  {
    if s != [] {
      var first, rest := s[0], s[1..];
      assert s == [first] + rest;
      if before(x, first) {
        PrependPairs(apart, x, s);
      } else {
        InsertKeepsApart(before, apart, rest, x);
        var t := Insert(before, rest, x);
        forall i | 0 <= i < |t| ensures apart(first, t[i]) {
          assert t[i] in t;
          if t[i] in rest {
            var k :| 0 <= k < |rest| && rest[k] == t[i];
            assert s[k + 1] == t[i];
          }
        }
        PrependPairs(apart, first, t);
      }
    }
  }

  lemma {:induction false} SortKeepsApart<T(!new)>(before: (T, T) -> bool, apart: (T, T) -> bool, s: seq<T>)
    requires IsSymmetric(apart) && Pairwise(apart, s)
    ensures Pairwise(apart, Sort(before, s)) && forall x :: x in Sort(before, s) <==> x in s
  {
    if s != [] {
      var n := |s| - 1;
      var sorted := Sort(before, s[..n]);
      SortKeepsApart(before, apart, s[..n]);
      forall i | 0 <= i < |sorted| ensures apart(s[n], sorted[i]) {
        assert sorted[i] in s[..n];
        var k :| 0 <= k < n && s[k] == sorted[i];
      }
      InsertKeepsApart(before, apart, sorted, s[n]);
      assert s == s[..n] + [s[n]];
    }
  }
}
