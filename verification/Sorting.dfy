/** The stable ascending sort by a numeric key that JavaScript's `Array.sort` performs. */
module Sorting {

  ghost predicate AscendingBy<T>(xs: seq<T>, key: T -> real) {
    forall i, j :: 0 <= i < j < |xs| ==> key(xs[i]) <= key(xs[j])
  }

  ghost predicate StrictlyAscendingBy<T>(xs: seq<T>, key: T -> real) {
    forall i, j :: 0 <= i < j < |xs| ==> key(xs[i]) < key(xs[j])
  }

  ghost predicate AtLeast<T>(xs: seq<T>, key: T -> real, bound: real) {
    forall i :: 0 <= i < |xs| ==> bound <= key(xs[i])
  }

  /** Places `x` before the first element whose key is at least its own. */
  function InsertBy<T>(x: T, xs: seq<T>, key: T -> real): seq<T> {
    if xs == [] || key(x) <= key(xs[0]) then [x] + xs
    else [xs[0]] + InsertBy(x, xs[1..], key)
  }

  function SortBy<T>(xs: seq<T>, key: T -> real): seq<T> {
    if xs == [] then [] else InsertBy(xs[0], SortBy(xs[1..], key), key)
  }

  lemma {:induction false} InsertKeeps<T>(x: T, xs: seq<T>, key: T -> real)
    ensures |InsertBy(x, xs, key)| == |xs| + 1
    ensures multiset(InsertBy(x, xs, key)) == multiset(xs) + multiset{x}
  {
    if xs == [] || key(x) <= key(xs[0]) {
    } else {
      InsertKeeps(x, xs[1..], key);
      assert xs == [xs[0]] + xs[1..];
    }
  }

  lemma {:induction false} InsertAscends<T>(x: T, xs: seq<T>, key: T -> real, bound: real)
    requires AscendingBy(xs, key) && AtLeast(xs, key, bound) && bound <= key(x)
    ensures AscendingBy(InsertBy(x, xs, key), key) && AtLeast(InsertBy(x, xs, key), key, bound)
  {
    if xs == [] || key(x) <= key(xs[0]) {
    } else {
      InsertAscends(x, xs[1..], key, key(xs[0]));
    }
  }

  lemma {:induction false} SortKeeps<T>(xs: seq<T>, key: T -> real)
    ensures |SortBy(xs, key)| == |xs| && multiset(SortBy(xs, key)) == multiset(xs)
  {
    if xs == [] {
    } else {
      SortKeeps(xs[1..], key);
      InsertKeeps(xs[0], SortBy(xs[1..], key), key);
      assert xs == [xs[0]] + xs[1..];
    }
  }

  lemma {:induction false} SortAscends<T>(xs: seq<T>, key: T -> real)
    ensures AscendingBy(SortBy(xs, key), key)
  {
    if xs == [] {
    } else {
      var x, rest := xs[0], SortBy(xs[1..], key);
      SortAscends(xs[1..], key);
      var bound := if rest == [] || key(x) <= key(rest[0]) then key(x) else key(rest[0]);
      forall i | 0 <= i < |rest| ensures bound <= key(rest[i]) {
        assert key(rest[0]) <= key(rest[i]);
      }
      InsertAscends(x, rest, key, bound);
    }
  }

  /** A sequence and any rearrangement of it hold the same values. */
  lemma SameElements<T>(xs: seq<T>, ys: seq<T>)
    requires multiset(xs) == multiset(ys)
    ensures forall x :: x in xs <==> x in ys
  {
    forall x ensures x in xs <==> x in ys {
      assert x in xs <==> x in multiset(xs);
      assert x in ys <==> x in multiset(ys);
    }
  }

  lemma {:induction false} InsertAscendsStrictly<T>(x: T, xs: seq<T>, key: T -> real)
    requires StrictlyAscendingBy(xs, key)
    requires forall i :: 0 <= i < |xs| ==> key(xs[i]) != key(x)
    ensures StrictlyAscendingBy(InsertBy(x, xs, key), key)
    ensures xs != [] && key(xs[0]) < key(x) ==> InsertBy(x, xs, key)[0] == xs[0]
  {
    if xs == [] || key(x) <= key(xs[0]) {
    } else {
      InsertAscendsStrictly(x, xs[1..], key);
      var r := InsertBy(x, xs[1..], key);
      assert key(xs[0]) < key(r[0]);
      assert forall i :: 0 < i < |r| ==> key(r[0]) < key(r[i]);
    }
  }

  /** Sorting elements with pairwise different keys leaves every key strictly above the one before. */
  lemma {:induction false} SortAscendsStrictly<T>(xs: seq<T>, key: T -> real)
    requires forall i, j :: 0 <= i < j < |xs| ==> key(xs[i]) != key(xs[j])
    ensures StrictlyAscendingBy(SortBy(xs, key), key)
  {
    if xs == [] {
    } else {
      var rest, sorted := xs[1..], SortBy(xs[1..], key);
      assert forall i :: 0 <= i < |rest| ==> rest[i] == xs[i + 1];
      SortAscendsStrictly(rest, key);
      SortKeeps(rest, key);
      forall i | 0 <= i < |sorted| ensures key(sorted[i]) != key(xs[0]) {
        assert sorted[i] in multiset(sorted) && sorted[i] in multiset(rest);
        assert sorted[i] in rest;
      }
      InsertAscendsStrictly(xs[0], sorted, key);
    }
  }
}
