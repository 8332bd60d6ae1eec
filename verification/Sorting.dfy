/** Elixir's `Enum.sort` and `Enum.sort_by` on string keys. */
module Sorting {
  import opened Strings

  function Insert<T>(key: T -> string, x: T, xs: seq<T>): seq<T> {
    if xs == [] || !StrLt(key(xs[0]), key(x)) then [x] + xs
    else [xs[0]] + Insert(key, x, xs[1..])
  }

  /** Stable: an element goes in front of the later ones with the same key. */
  function SortBy<T>(key: T -> string, xs: seq<T>): seq<T> {
    if xs == [] then [] else Insert(key, xs[0], SortBy(key, xs[1..]))
  }

  /** In order, with no key twice. */
  predicate Increasing<T>(key: T -> string, xs: seq<T>) {
    forall i, j :: 0 <= i < j < |xs| ==> StrLt(key(xs[i]), key(xs[j]))
  }

  predicate Distinct<T>(key: T -> string, xs: seq<T>) {
    forall i, j :: 0 <= i < j < |xs| ==> key(xs[i]) != key(xs[j])
  }

  ghost predicate SameElements<T>(xs: seq<T>, ys: seq<T>) {
    (forall x :: x in xs ==> x in ys) && (forall y :: y in ys ==> y in xs)
  }

  lemma {:induction false} Inserted<T>(key: T -> string, x: T, xs: seq<T>)
    requires Increasing(key, xs) && forall i :: 0 <= i < |xs| ==> key(xs[i]) != key(x)
    ensures Increasing(key, Insert(key, x, xs))
    ensures SameElements(Insert(key, x, xs), [x] + xs) && |Insert(key, x, xs)| == 1 + |xs|
  {
    var r := Insert(key, x, xs);
    if xs == [] {
    } else if StrLt(key(xs[0]), key(x)) {
      var rest := xs[1..];
      assert forall i :: 0 <= i < |rest| ==> rest[i] == xs[i + 1];
      Inserted(key, x, rest);
      var tail := Insert(key, x, rest);
      forall y | y in tail ensures StrLt(key(xs[0]), key(y)) {
        assert y in [x] + rest;
      }
      assert xs == [xs[0]] + rest;
      assert forall y :: y in r <==> y == xs[0] || y in tail;
      assert forall y :: y in [x] + xs <==> y == xs[0] || y in [x] + rest;
    } else {
      StrLtTotal(key(x), key(xs[0]));
      forall i | 0 < i < |xs| ensures StrLt(key(x), key(xs[i])) {
        StrLtTransitive(key(x), key(xs[0]), key(xs[i]));
      }
    }
  }

  lemma {:induction false} Sorted<T>(key: T -> string, xs: seq<T>)
    requires Distinct(key, xs)
    ensures Increasing(key, SortBy(key, xs)) && SameElements(SortBy(key, xs), xs) && |SortBy(key, xs)| == |xs|
  {
    if xs != [] {
      var rest := xs[1..];
      assert forall i :: 0 <= i < |rest| ==> rest[i] == xs[i + 1];
      Sorted(key, rest);
      var sorted := SortBy(key, rest);
      forall i | 0 <= i < |sorted| ensures key(sorted[i]) != key(xs[0]) {
        assert sorted[i] in rest;
      }
      Inserted(key, xs[0], sorted);
      assert xs == [xs[0]] + rest;
      assert forall y :: y in xs <==> y == xs[0] || y in rest;
      assert forall y :: y in [xs[0]] + sorted <==> y == xs[0] || y in sorted;
    }
  }

  /** Only one arrangement of given elements is increasing. */
  lemma {:induction false} OneOrder<T>(key: T -> string, xs: seq<T>, ys: seq<T>)
    requires Increasing(key, xs) && Increasing(key, ys) && SameElements(xs, ys)
    ensures xs == ys
  {
    assert xs != [] ==> xs[0] in ys;
    assert ys != [] ==> ys[0] in xs;
    if xs != [] {
      SameFirst(key, xs, ys);
      TailElements(key, xs, ys);
      TailElements(key, ys, xs);
      assert forall i :: 0 <= i < |xs[1..]| ==> xs[1..][i] == xs[i + 1];
      assert forall i :: 0 <= i < |ys[1..]| ==> ys[1..][i] == ys[i + 1];
      OneOrder(key, xs[1..], ys[1..]);
      assert xs == [xs[0]] + xs[1..] && ys == [ys[0]] + ys[1..];
    }
  }

  lemma SameFirst<T>(key: T -> string, xs: seq<T>, ys: seq<T>)
    requires Increasing(key, xs) && Increasing(key, ys) && xs != [] && ys != [] && xs[0] in ys && ys[0] in xs
    ensures xs[0] == ys[0]
  {
    var i :| 0 <= i < |ys| && ys[i] == xs[0];
    var j :| 0 <= j < |xs| && xs[j] == ys[0];
    if i > 0 && j > 0 {
      StrLtTransitive(key(xs[0]), key(ys[0]), key(xs[0]));
      StrLtIrreflexive(key(xs[0]));
    }
  }

  lemma TailElements<T>(key: T -> string, xs: seq<T>, ys: seq<T>)
    requires Increasing(key, xs) && xs != [] && ys != [] && xs[0] == ys[0] && forall x :: x in xs ==> x in ys
    ensures forall x :: x in xs[1..] ==> x in ys[1..]
  {
    forall x | x in xs[1..] ensures x in ys[1..] {
      var i :| 1 <= i < |xs| && xs[i] == x;
      StrLtIrreflexive(key(x));
      assert x in ys && x != ys[0];
      assert ys == [ys[0]] + ys[1..];
    }
  }

  /** Sorting does not depend on the order the elements come in. */
  lemma SortIsOrder<T>(key: T -> string, xs: seq<T>, target: seq<T>)
    requires Distinct(key, xs) && Increasing(key, target) && SameElements(xs, target)
    ensures SortBy(key, xs) == target
  {
    Sorted(key, xs);
    var s := SortBy(key, xs);
    assert SameElements(s, target);
    OneOrder(key, s, target);
  }
}
