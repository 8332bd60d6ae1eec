/** Zero-padded decimal column names: their order as strings is their order as numbers. */
module ColumnNames {
  import opened Strings

  function Digit(d: nat): char
    requires d < 10
  {
    '0' + d as char
  }

  /** `Integer.to_string/1` on a natural number. */
  function Decimal(n: nat): (s: string)
    ensures |s| >= 1
  {
    if n < 10 then [Digit(n)] else Decimal(n / 10) + [Digit(n % 10)]
  }

  function Zeros(n: nat): (s: string)
    ensures |s| == n
  {
    if n == 0 then "" else "0" + Zeros(n - 1)
  }

  /** `String.pad_leading(s, width, "0")`. */
  function PadLeading(s: string, width: nat): string {
    if |s| >= width then s else Zeros(width - |s|) + s
  }

  function Padded(c: nat, width: nat): string {
    PadLeading(Decimal(c), width)
  }

  /** The name of column `c` of `cols`. */
  function ColumnName(c: nat, cols: nat): string {
    "c" + Padded(c, |Decimal(cols)|)
  }

  lemma {:induction false} LongerNumbers(a: nat, b: nat)
    requires a <= b
    ensures |Decimal(a)| <= |Decimal(b)|
  {
    if b >= 10 && a >= 10 {
      LongerNumbers(a / 10, b / 10);
    }
  }

  lemma {:induction false} ZerosShift(n: nat)
    ensures Zeros(n) + "0" == "0" + Zeros(n)
  {
    if n > 0 {
      ZerosShift(n - 1);
      assert Zeros(n) + "0" == "0" + (Zeros(n - 1) + "0");
    }
  }

  lemma LastDigit(c: nat, width: nat)
    requires width >= 2 && |Decimal(c)| <= width
    ensures |Decimal(c / 10)| <= width - 1
    ensures Padded(c, width) == Padded(c / 10, width - 1) + [Digit(c % 10)]
  {
    if c < 10 {
      assert Decimal(0) == "0";
      ZerosShift(width - 2);
      assert Padded(0, width - 1) == Zeros(width - 1);
    } else {
      var zeros := Zeros(width - |Decimal(c)|);
      assert zeros + Decimal(c) == zeros + Decimal(c / 10) + [Digit(c % 10)];
    }
  }

  lemma {:induction false} CommonPrefix(p: string, a: string, b: string)
    requires StrLt(a, b)
    ensures StrLt(p + a, p + b)
  {
    if p == [] {
      assert p + a == a && p + b == b;
    } else {
      CommonPrefix(p[1..], a, b);
      assert (p + a)[1..] == p[1..] + a && (p + b)[1..] == p[1..] + b;
    }
  }

  lemma {:induction false} EarlierDifference(p: string, q: string, a: string, b: string)
    requires |p| == |q| && StrLt(p, q)
    ensures StrLt(p + a, q + b)
  {
    if p[0] == q[0] {
      EarlierDifference(p[1..], q[1..], a, b);
      assert (p + a)[1..] == p[1..] + a && (q + b)[1..] == q[1..] + b;
    }
  }

  lemma PaddedLength(c: nat, width: nat)
    requires |Decimal(c)| <= width
    ensures |Padded(c, width)| == width
  {
  }

  lemma {:induction false} PaddedOrder(a: nat, b: nat, width: nat)
    requires a < b && |Decimal(b)| <= width
    ensures StrLt(Padded(a, width), Padded(b, width))
  {
    LongerNumbers(a, b);
    if width >= 2 {
      LastDigit(a, width);
      LastDigit(b, width);
      if a / 10 < b / 10 {
        PaddedOrder(a / 10, b / 10, width - 1);
        PaddedLength(a / 10, width - 1);
        PaddedLength(b / 10, width - 1);
        EarlierDifference(Padded(a / 10, width - 1), Padded(b / 10, width - 1), [Digit(a % 10)], [Digit(b % 10)]);
      } else {
        assert a / 10 == b / 10 && a % 10 < b % 10;
        CommonPrefix(Padded(a / 10, width - 1), [Digit(a % 10)], [Digit(b % 10)]);
      }
    }
  }

  /** String order is column order, for every number of columns. */
  lemma NameOrder(a: nat, b: nat, cols: nat)
    requires a < cols && b < cols
    ensures StrLt(ColumnName(a, cols), ColumnName(b, cols)) <==> a < b
    ensures ColumnName(a, cols) == ColumnName(b, cols) <==> a == b
  {
    LongerNumbers(a, cols);
    LongerNumbers(b, cols);
    var w := |Decimal(cols)|;
    if a < b {
      PaddedOrder(a, b, w);
      CommonPrefix("c", Padded(a, w), Padded(b, w));
      StrLtIrreflexive(ColumnName(a, cols));
    } else if b < a {
      PaddedOrder(b, a, w);
      CommonPrefix("c", Padded(b, w), Padded(a, w));
      StrLtIrreflexive(ColumnName(a, cols));
      if StrLt(ColumnName(a, cols), ColumnName(b, cols)) {
        StrLtTransitive(ColumnName(a, cols), ColumnName(b, cols), ColumnName(a, cols));
      }
    } else {
      StrLtIrreflexive(ColumnName(a, cols));
    }
  }

  predicate AllDigits(s: string) {
    forall i :: 0 <= i < |s| ==> '0' <= s[i] <= '9'
  }

  /** The number a string of digits spells. */
  function Spelled(s: string): nat
    requires AllDigits(s)
  {
    if s == "" then 0 else 10 * Spelled(s[..|s| - 1]) + (s[|s| - 1] - '0') as nat
  }

  lemma SpelledLast(s: string, d: char)
    requires AllDigits(s) && '0' <= d <= '9'
    ensures AllDigits(s + [d]) && Spelled(s + [d]) == 10 * Spelled(s) + (d - '0') as nat
  {
    assert (s + [d])[..|s|] == s;
  }

  lemma {:induction false} DecimalSpells(n: nat)
    ensures AllDigits(Decimal(n)) && Spelled(Decimal(n)) == n
  {
    if n >= 10 {
      DecimalSpells(n / 10);
      SpelledLast(Decimal(n / 10), Digit(n % 10));
    } else {
      SpelledLast("", Digit(n));
      assert "" + [Digit(n)] == [Digit(n)];
    }
  }

  lemma {:induction false} ZerosSpellNothing(n: nat)
    ensures AllDigits(Zeros(n)) && Spelled(Zeros(n)) == 0
  {
    if n > 0 {
      ZerosSpellNothing(n - 1);
      ZerosShift(n - 1);
      SpelledLast(Zeros(n - 1), '0');
    }
  }

  lemma {:induction false} LeadingZeros(z: string, s: string)
    requires AllDigits(z) && AllDigits(s) && Spelled(z) == 0
    ensures AllDigits(z + s) && Spelled(z + s) == Spelled(s)
    decreases |s|
  {
    if s == "" {
      assert z + s == z;
    } else {
      var front, d := s[..|s| - 1], s[|s| - 1];
      LeadingZeros(z, front);
      SpelledLast(z + front, d);
      assert z + s == (z + front) + [d];
    }
  }

  /** A name is a `c` and the number of its column, as wide as the number of columns. */
  lemma NameSpellsColumn(c: nat, cols: nat)
    requires c < cols
    ensures |ColumnName(c, cols)| == 1 + |Decimal(cols)| && ColumnName(c, cols)[0] == 'c'
    ensures AllDigits(ColumnName(c, cols)[1..]) && Spelled(ColumnName(c, cols)[1..]) == c
  {
    LongerNumbers(c, cols);
    DecimalSpells(c);
    var zeros := |Decimal(cols)| - |Decimal(c)|;
    ZerosSpellNothing(zeros);
    LeadingZeros(Zeros(zeros), Decimal(c));
    assert Zeros(0) + Decimal(c) == Decimal(c);
    assert ColumnName(c, cols)[1..] == Zeros(zeros) + Decimal(c);
  }

  /** Without the padding the order is right for ten columns and wrong from eleven on. */
  lemma UnpaddedOrder(cols: nat)
    ensures (forall a: nat, b: nat :: a < b < cols ==> StrLt("c" + Decimal(a), "c" + Decimal(b))) <==> cols <= 10
  {
    if cols <= 10 {
      forall a: nat, b: nat | a < b < cols ensures StrLt("c" + Decimal(a), "c" + Decimal(b)) {
        CommonPrefix("c", Decimal(a), Decimal(b));
      }
    } else {
      var a: nat, b: nat := 2, 10;
      assert Decimal(1) == "1";
      assert Decimal(a) == "2" && Decimal(b) == "10";
      assert ("c" + Decimal(a))[1..] == "2" && ("c" + Decimal(b))[1..] == "10";
      assert a < b < cols && !StrLt("c" + Decimal(a), "c" + Decimal(b));
    }
  }
}
