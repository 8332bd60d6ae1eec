/** Lexicographic order on strings: the order of Rust's `str` comparison and of Elixir's
    term order on binaries (for UTF-8, byte order is code point order). */
module Strings {

  predicate StrLt(a: string, b: string) {
    b != [] && (a == [] || a[0] < b[0] || (a[0] == b[0] && StrLt(a[1..], b[1..])))
  }

  lemma {:induction false} StrLtIrreflexive(a: string)
    ensures !StrLt(a, a)
  {
    if a != [] {
      StrLtIrreflexive(a[1..]);
    }
  }

  lemma {:induction false} StrLtTransitive(a: string, b: string, c: string)
    requires StrLt(a, b) && StrLt(b, c)
    ensures StrLt(a, c)
  {
    if a != [] && a[0] == b[0] && b[0] == c[0] {
      StrLtTransitive(a[1..], b[1..], c[1..]);
    }
  }

  lemma {:induction false} StrLtTotal(a: string, b: string)
    ensures a == b || StrLt(a, b) || StrLt(b, a)
  {
    if a != [] && b != [] && a[0] == b[0] {
      StrLtTotal(a[1..], b[1..]);
      assert a == [a[0]] + a[1..] && b == [b[0]] + b[1..];
    }
  }

  /** From position `k` on, `a` comes first: it ends there, or has the smaller character. */
  ghost predicate FirstDifference(a: string, b: string, k: nat) {
    k <= |a| && k < |b| && a[..k] == b[..k] && (k == |a| || a[k] < b[k])
  }

  /** The order without recursion: two strings are compared at the first position where they differ. */
  lemma StrLtByPosition(a: string, b: string)
    ensures StrLt(a, b) <==> exists k: nat :: FirstDifference(a, b, k)
  {
    if StrLt(a, b) {
      var k := Difference(a, b);
    }
    forall k: nat | FirstDifference(a, b, k)
      ensures StrLt(a, b)
    {
      DifferenceOrders(a, b, k);
    }
  }

  lemma {:induction false} Difference(a: string, b: string) returns (k: nat)
    requires StrLt(a, b)
    ensures FirstDifference(a, b, k)
  {
    if a == [] || a[0] < b[0] {
      k := 0;
    } else {
      var n := Difference(a[1..], b[1..]);
      NextPosition(a, b, n);
      k := n + 1;
    }
  }

  lemma {:induction false} DifferenceOrders(a: string, b: string, k: nat)
    requires FirstDifference(a, b, k)
    ensures StrLt(a, b)
    decreases k
  {
    if k > 0 {
      assert a[..k][0] == b[..k][0];
      NextPosition(a, b, k - 1);
      DifferenceOrders(a[1..], b[1..], k - 1);
    }
  }

  lemma NextPosition(a: string, b: string, k: nat)
    requires a != [] && b != [] && a[0] == b[0]
    ensures FirstDifference(a, b, k + 1) <==> FirstDifference(a[1..], b[1..], k)
  {
    if k + 1 <= |a| && k + 1 <= |b| {
      assert a[..k + 1] == [a[0]] + a[1..][..k] && b[..k + 1] == [b[0]] + b[1..][..k];
      assert a[..k + 1][1..] == a[1..][..k] && b[..k + 1][1..] == b[1..][..k];
    }
  }
}
