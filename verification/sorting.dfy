/**
 The pieces of the C++ standard library the analyser leans on: `std::sort` with a comparator,
 `std::upper_bound`, `std::unique`, and the ascending iteration order of `std::set`.
 */
module Sorting {
  import opened Types

  // ------------------------------------------------------------------ std::sort

  ghost predicate IsStrictWeakOrder<T(!new)>(before: (T, T) -> bool) {
    && (forall x, y :: before(x, y) ==> !before(y, x))
    && (forall x, y, z :: !before(x, y) && !before(y, z) ==> !before(x, z))
  }

  ghost predicate IsSorted<T>(xs: seq<T>, before: (T, T) -> bool) {
    forall i, j :: 0 <= i < j < |xs| ==> !before(xs[j], xs[i])
  }

  function Insert<T>(x: T, xs: seq<T>, before: (T, T) -> bool): seq<T> {
    if xs == [] || !before(xs[0], x) then [x] + xs else [xs[0]] + Insert(x, xs[1..], before)
  }

  function Sort<T>(xs: seq<T>, before: (T, T) -> bool): seq<T> {
    if xs == [] then [] else Insert(xs[0], Sort(xs[1..], before), before)
  }

  lemma {:induction false} InsertIsSorted<T(!new)>(x: T, xs: seq<T>, before: (T, T) -> bool)
    requires IsStrictWeakOrder(before) && IsSorted(xs, before)
    ensures IsSorted(Insert(x, xs, before), before)
  {
    if xs == [] {
    } else if !before(xs[0], x) {
      forall j | 0 <= j < |xs| ensures !before(xs[j], x) {
        assert !before(xs[j], xs[0]);
      }
    } else {
      var rest := Insert(x, xs[1..], before);
      InsertIsSorted(x, xs[1..], before);
      InsertAddsOne(x, xs[1..], before);
      forall j | 0 <= j < |rest| ensures !before(rest[j], xs[0]) {
        assert rest[j] in multiset(rest);
      }
    }
  }

  lemma {:induction false} InsertAddsOne<T>(x: T, xs: seq<T>, before: (T, T) -> bool)
    ensures multiset(Insert(x, xs, before)) == multiset{x} + multiset(xs)
  {
    if xs != [] && before(xs[0], x) {
      InsertAddsOne(x, xs[1..], before);
      assert xs == [xs[0]] + xs[1..];
    }
  }

  lemma {:induction false} SortIsSorted<T(!new)>(xs: seq<T>, before: (T, T) -> bool)
    requires IsStrictWeakOrder(before)
    ensures IsSorted(Sort(xs, before), before)
    ensures multiset(Sort(xs, before)) == multiset(xs)
    ensures |Sort(xs, before)| == |xs|
    ensures forall x :: x in Sort(xs, before) <==> x in xs
  {
    if xs != [] {
      SortIsSorted(xs[1..], before);
      InsertIsSorted(xs[0], Sort(xs[1..], before), before);
      InsertAddsOne(xs[0], Sort(xs[1..], before), before);
      assert xs == [xs[0]] + xs[1..];
    }
    var r := Sort(xs, before);
    assert |multiset(r)| == |r| && |multiset(xs)| == |xs|;
    forall x ensures x in r <==> x in xs {
      assert x in multiset(r) <==> x in multiset(xs);
    }
  }

  /** Sorting what is already in order changes nothing. */
  lemma {:induction false} SortOfSorted<T>(xs: seq<T>, before: (T, T) -> bool)
    requires IsSorted(xs, before)
    ensures Sort(xs, before) == xs
  {
    if xs != [] {
      SortOfSorted(xs[1..], before);
      assert xs == [xs[0]] + xs[1..];
    }
  }

  /** A symmetric relation between every two elements. */
  ghost predicate Pairwise<T>(xs: seq<T>, rel: (T, T) -> bool) {
    forall i, j :: 0 <= i < j < |xs| ==> rel(xs[i], xs[j])
  }

  lemma {:induction false} InsertKeepsPairwise<T(!new)>(x: T, xs: seq<T>, before: (T, T) -> bool, rel: (T, T) -> bool)
    requires forall y, z :: rel(y, z) ==> rel(z, y)
    requires Pairwise(xs, rel) && forall y :: y in xs ==> rel(x, y)
    ensures Pairwise(Insert(x, xs, before), rel)
    ensures forall y :: y in Insert(x, xs, before) ==> y == x || y in xs
  {
    if xs != [] && before(xs[0], x) {
      InsertKeepsPairwise(x, xs[1..], before, rel);
      var rest := Insert(x, xs[1..], before);
      forall j | 0 <= j < |rest| ensures rel(xs[0], rest[j]) {
        assert rest[j] == x || rest[j] in xs[1..];
        assert xs[0] in xs;
      }
    }
  }

  lemma {:induction false} SortKeepsPairwise<T(!new)>(xs: seq<T>, before: (T, T) -> bool, rel: (T, T) -> bool)
    requires forall y, z :: rel(y, z) ==> rel(z, y)
    requires Pairwise(xs, rel)
    ensures Pairwise(Sort(xs, before), rel)
    ensures forall y :: y in Sort(xs, before) ==> y in xs
  {
    if xs != [] {
      SortKeepsPairwise(xs[1..], before, rel);
      InsertKeepsPairwise(xs[0], Sort(xs[1..], before), before, rel);
    }
  }

  // ------------------------------------------------------------------ std::upper_bound

  /** The first index whose key exceeds `value`, found by halving the candidate range. */
  method UpperBound<T>(xs: seq<T>, key: T -> Address, value: Address) returns (at: nat)
    requires forall i, j :: 0 <= i < j < |xs| ==> key(xs[i]) <= key(xs[j])
    ensures at <= |xs|
    ensures forall i :: 0 <= i < at ==> key(xs[i]) <= value
    ensures forall i :: at <= i < |xs| ==> value < key(xs[i])
  {
    var lo, hi := 0, |xs|;
    while lo < hi
      invariant 0 <= lo <= hi <= |xs|
      invariant forall i :: 0 <= i < lo ==> key(xs[i]) <= value
      invariant forall i :: hi <= i < |xs| ==> value < key(xs[i])
    {
      var mid := lo + (hi - lo) / 2;
      if value < key(xs[mid]) {
        hi := mid;
      } else {
        lo := mid + 1;
      }
    }
    return lo;
  }

  // ------------------------------------------------------------------ std::set iteration order

  ghost predicate Increasing(xs: seq<Address>) {
    forall i, j :: 0 <= i < j < |xs| ==> xs[i] < xs[j]
  }

  ghost predicate IsLeast(s: set<Address>, m: Address) {
    m in s && forall x :: x in s ==> m <= x
  }

  lemma {:induction false} LeastExists(s: set<Address>)
    requires s != {}
    ensures exists m :: IsLeast(s, m)
    decreases |s|
  {
    var a :| a in s;
    if s == {a} {
      assert IsLeast(s, a);
    } else {
      LeastExists(s - {a});
      var m :| IsLeast(s - {a}, m);
      var least := if a < m then a else m;
      forall x | x in s ensures least <= x {
        assert x == a || x in s - {a};
      }
      assert IsLeast(s, least);
    }
  }

  function Least(s: set<Address>): (m: Address)
    requires s != {}
    ensures IsLeast(s, m)
  {
    LeastExists(s);
    assert exists m :: m in s && forall x :: x in s ==> m <= x by {
      var m :| IsLeast(s, m);
    }
    var m :| m in s && forall x :: x in s ==> m <= x;
    m
  }

  function Ascending(s: set<Address>): (xs: seq<Address>)
    ensures Increasing(xs)
    ensures forall x :: x in xs <==> x in s
    ensures |xs| == |s|
    decreases |s|
  {
    if s == {} then [] else
      var m := Least(s);
      [m] + Ascending(s - {m})
  }

  /** std::unique over a sorted vector: keep the first of every run of equal neighbours. */
  method Unique(xs: seq<Address>) returns (ys: seq<Address>)
    requires forall i, j :: 0 <= i < j < |xs| ==> xs[i] <= xs[j]
    ensures Increasing(ys)
    ensures forall x :: x in ys <==> x in xs
  {
    ys := [];
    for i := 0 to |xs|
      invariant Increasing(ys)
      invariant forall x :: x in ys <==> x in xs[..i]
    {
      assert xs[..i + 1] == xs[..i] + [xs[i]];
      if ys == [] || ys[|ys| - 1] != xs[i] {
        if ys != [] {
          assert ys[|ys| - 1] in xs[..i];
        }
        ys := ys + [xs[i]];
      }
    }
    assert xs[..|xs|] == xs;
  }
}
