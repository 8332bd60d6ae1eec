/** UTF-8: validity as the decoders check it, byte by byte (section 4 of RFC 3629), and as what it means, a
    sequence of encoded code points; and its order, which is that of the code points. */
module Utf8 {
  import opened LittleEndian
  import opened Strings

  predicate Continuation(s: seq<Byte>, lo: int, hi: int, more: nat) {
    |s| > more && lo <= s[0] <= hi && forall i :: 1 <= i <= more ==> 0x80 <= s[i] <= 0xBF
  }

  predicate ValidUtf8(s: seq<Byte>) {
    if s == [] then true
    else if s[0] < 0x80 then ValidUtf8(s[1..])
    else if 0xC2 <= s[0] <= 0xDF then Continuation(s[1..], 0x80, 0xBF, 0) && ValidUtf8(s[2..])
    else if s[0] == 0xE0 then Continuation(s[1..], 0xA0, 0xBF, 1) && ValidUtf8(s[3..])
    else if s[0] == 0xED then Continuation(s[1..], 0x80, 0x9F, 1) && ValidUtf8(s[3..])
    else if 0xE1 <= s[0] <= 0xEF then Continuation(s[1..], 0x80, 0xBF, 1) && ValidUtf8(s[3..])
    else if s[0] == 0xF0 then Continuation(s[1..], 0x90, 0xBF, 2) && ValidUtf8(s[4..])
    else if 0xF1 <= s[0] <= 0xF3 then Continuation(s[1..], 0x80, 0xBF, 2) && ValidUtf8(s[4..])
    else s[0] == 0xF4 && Continuation(s[1..], 0x80, 0x8F, 2) && ValidUtf8(s[4..])
  }

  // ---- the encoding of code points -----------------------------------------------------------------------

  /** A Unicode scalar value: a code point that is not a surrogate. */
  type CodePoint = c: int | 0 <= c <= 0x10FFFF && !(0xD800 <= c <= 0xDFFF)

  /** One to four bytes, each but the first holding six bits. */
  function Encode(c: CodePoint): (bytes: seq<Byte>)
    ensures 1 <= |bytes| <= 4
  {
    if c < 0x80 then [c]
    else if c < 0x800 then [192 + c / 64, 128 + c % 64]
    else if c < 0x10000 then [224 + c / 4096, 128 + c / 64 % 64, 128 + c % 64]
    else [240 + c / 262144, 128 + c / 4096 % 64, 128 + c / 64 % 64, 128 + c % 64]
  }

  function EncodeAll(codes: seq<CodePoint>): seq<Byte> {
    if codes == [] then [] else Encode(codes[0]) + EncodeAll(codes[1..])
  }

  // ---- valid is encoded ------------------------------------------------------------------------------------

  /** A code point by its digits to the base 64. */
  predicate HasDigits(c: int, p: int, q: int, r: int, t: int) {
    c == 262144 * p + 4096 * q + 64 * r + t && 0 <= p && 0 <= q < 64 && 0 <= r < 64 && 0 <= t < 64
  }

  lemma LastDigit(c: int, p: int, q: int, r: int, t: int)
    requires HasDigits(c, p, q, r, t)
    ensures c % 64 == t && c / 64 == 4096 * p + 64 * q + r && c / 64 % 64 == r
  {
    assert c / 64 == 4096 * p + 64 * q + r;
  }

  lemma FirstDigits(c: int, p: int, q: int, r: int, t: int)
    requires HasDigits(c, p, q, r, t)
    ensures c / 4096 == 64 * p + q && c / 4096 % 64 == q && c / 262144 == p
  {
    assert c / 4096 == 64 * p + q;
    assert c / 262144 == p;
  }

  lemma Digits(c: CodePoint) returns (p: int, q: int, r: int, t: int)
    ensures HasDigits(c, p, q, r, t)
    ensures Encode(c) ==
            if c < 0x80 then [c]
            else if c < 0x800 then [192 + 64 * q + r, 128 + t]
            else if c < 0x10000 then [224 + 64 * p + q, 128 + r, 128 + t]
            else [240 + p, 128 + q, 128 + r, 128 + t]
  {
    p, q, r, t := c / 262144, c / 4096 % 64, c / 64 % 64, c % 64;
    var x, y := c / 64, c / 4096;
    assert c == 64 * x + t && x == 64 * (x / 64) + r;
    assert y == x / 64 && y == 64 * (y / 64) + q && p == y / 64;
    LastDigit(c, p, q, r, t);
    FirstDigits(c, p, q, r, t);
  }

  lemma FromDigits(c: CodePoint, p: int, q: int, r: int, t: int)
    requires HasDigits(c, p, q, r, t)
    ensures Encode(c) ==
            if c < 0x80 then [c]
            else if c < 0x800 then [192 + 64 * q + r, 128 + t]
            else if c < 0x10000 then [224 + 64 * p + q, 128 + r, 128 + t]
            else [240 + p, 128 + q, 128 + r, 128 + t]
  {
    LastDigit(c, p, q, r, t);
    FirstDigits(c, p, q, r, t);
  }

  lemma TwoBytes(a: int, b: int) returns (c: CodePoint)
    requires 0xC2 <= a <= 0xDF && 0x80 <= b <= 0xBF
    ensures Encode(c) == [a, b]
  {
    c := (a - 192) * 64 + (b - 128);
    FromDigits(c, 0, 0, a - 192, b - 128);
  }

  lemma ThreeBytes(a: int, b: int, d: int) returns (c: CodePoint)
    requires 0xE0 <= a <= 0xEF && 0x80 <= b <= 0xBF && 0x80 <= d <= 0xBF
    requires (a == 0xE0 ==> b >= 0xA0) && (a == 0xED ==> b <= 0x9F)
    ensures Encode(c) == [a, b, d]
  {
    c := (a - 224) * 4096 + (b - 128) * 64 + (d - 128);
    FromDigits(c, 0, a - 224, b - 128, d - 128);
  }

  lemma FourBytes(a: int, b: int, d: int, e: int) returns (c: CodePoint)
    requires 0xF0 <= a <= 0xF4 && 0x80 <= b <= 0xBF && 0x80 <= d <= 0xBF && 0x80 <= e <= 0xBF
    requires (a == 0xF0 ==> b >= 0x90) && (a == 0xF4 ==> b <= 0x8F)
    ensures Encode(c) == [a, b, d, e]
  {
    c := (a - 240) * 262144 + (b - 128) * 4096 + (d - 128) * 64 + (e - 128);
    FromDigits(c, a - 240, b - 128, d - 128, e - 128);
  }

  /** A valid text begins with an encoded code point. */
  lemma FirstCodePoint(s: seq<Byte>) returns (c: CodePoint)
    requires s != [] && ValidUtf8(s)
    ensures Encode(c) <= s && ValidUtf8(s[|Encode(c)|..])
  {
    if s[0] < 0x80 {
      c := s[0];
    } else if s[0] <= 0xDF {
      c := TwoBytes(s[0], s[1]);
    } else if s[0] <= 0xEF {
      c := ThreeBytes(s[0], s[1], s[2]);
    } else {
      c := FourBytes(s[0], s[1], s[2], s[3]);
    }
  }

  lemma {:induction false} CodePointsOf(s: seq<Byte>) returns (codes: seq<CodePoint>)
    requires ValidUtf8(s)
    ensures EncodeAll(codes) == s
    decreases |s|
  {
    if s == [] {
      codes := [];
    } else {
      var c := FirstCodePoint(s);
      var rest := CodePointsOf(s[|Encode(c)|..]);
      codes := [c] + rest;
    }
  }

  // ---- encoded is valid ------------------------------------------------------------------------------------

  lemma ShortIsValid(c: CodePoint, rest: seq<Byte>)
    requires c < 0x800 && ValidUtf8(rest)
    ensures ValidUtf8(Encode(c) + rest)
  {
    var s := Encode(c) + rest;
    if c < 0x80 {
      assert s[1..] == rest;
    } else {
      assert s[2..] == rest && s[1..][0] == 128 + c % 64;
    }
  }

  lemma ThreeIsValid(c: CodePoint, rest: seq<Byte>)
    requires 0x800 <= c < 0x10000 && ValidUtf8(rest)
    ensures ValidUtf8(Encode(c) + rest)
  {
    var s := Encode(c) + rest;
    assert s[3..] == rest && s[1..][0] == 128 + c / 64 % 64 && s[1..][1] == 128 + c % 64;
  }

  lemma FourIsValid(c: CodePoint, rest: seq<Byte>)
    requires 0x10000 <= c && ValidUtf8(rest)
    ensures ValidUtf8(Encode(c) + rest)
  {
    var s := Encode(c) + rest;
    assert s[4..] == rest && s[1..][0] == 128 + c / 4096 % 64;
    assert s[1..][1] == 128 + c / 64 % 64 && s[1..][2] == 128 + c % 64;
  }

  lemma {:induction false} EncodedIsValid(codes: seq<CodePoint>)
    ensures ValidUtf8(EncodeAll(codes))
  {
    if codes != [] {
      EncodedIsValid(codes[1..]);
      var c, rest := codes[0], EncodeAll(codes[1..]);
      if c < 0x800 {
        ShortIsValid(c, rest);
      } else if c < 0x10000 {
        ThreeIsValid(c, rest);
      } else {
        FourIsValid(c, rest);
      }
    }
  }

  ghost predicate IsEncoded(s: seq<Byte>) {
    exists codes :: EncodeAll(codes) == s
  }

  /** Bytes are valid exactly when they are a sequence of encoded code points. */
  lemma ValidIsEncoded(s: seq<Byte>)
    ensures ValidUtf8(s) <==> IsEncoded(s)
  {
    if ValidUtf8(s) {
      var codes := CodePointsOf(s);
    }
    if IsEncoded(s) {
      var codes :| EncodeAll(codes) == s;
      EncodedIsValid(codes);
    }
  }

  // ---- order -----------------------------------------------------------------------------------------------

  /** Bytes compared as the kernels and Elixir compare them. */
  predicate BytesLt(a: seq<Byte>, b: seq<Byte>) {
    b != [] && (a == [] || a[0] < b[0] || (a[0] == b[0] && BytesLt(a[1..], b[1..])))
  }

  function Bytes(s: string): seq<Byte> {
    if s == "" then [] else Encode(s[0] as int) + Bytes(s[1..])
  }

  lemma {:induction false} SamePrefix(p: seq<Byte>, a: seq<Byte>, b: seq<Byte>)
    ensures BytesLt(p + a, p + b) <==> BytesLt(a, b)
  {
    if p == [] {
      assert p + a == a && p + b == b;
    } else {
      SamePrefix(p[1..], a, b);
      assert (p + a)[1..] == p[1..] + a && (p + b)[1..] == p[1..] + b;
    }
  }

  lemma {:induction false} BytesAsymmetric(a: seq<Byte>, b: seq<Byte>)
    requires BytesLt(a, b)
    ensures !BytesLt(b, a)
  {
    if a != [] && a[0] == b[0] {
      BytesAsymmetric(a[1..], b[1..]);
    }
  }

  /** The encoding of a smaller code point has the smaller byte where the two first differ. */
  lemma SmallerCodePoint(c: CodePoint, d: CodePoint, x: seq<Byte>, y: seq<Byte>)
    requires c < d
    ensures BytesLt(Encode(c) + x, Encode(d) + y)
  {
    var a, b := Encode(c), Encode(d);
    if |a| < |b| {
      LongerEncoding(c, d);
    } else {
      SameLength(c, d);
      var k :| 0 <= k < |a| && a[..k] == b[..k] && a[k] < b[k];
      DifferAt(a + x, b + y, k);
    }
  }

  lemma LongerEncoding(c: CodePoint, d: CodePoint)
    requires c < d && |Encode(c)| < |Encode(d)|
    ensures Encode(c)[0] < Encode(d)[0]
  {
    var p, q, r, t := Digits(c);
    var p', q', r', t' := Digits(d);
  }

  lemma SameLength(c: CodePoint, d: CodePoint)
    requires c < d && |Encode(c)| >= |Encode(d)|
    ensures |Encode(c)| == |Encode(d)|
    ensures exists k :: 0 <= k < |Encode(c)| && Encode(c)[..k] == Encode(d)[..k] && Encode(c)[k] < Encode(d)[k]
  {
    var p, q, r, t := Digits(c);
    var p', q', r', t' := Digits(d);
    FirstSmallerDigit(p, q, r, t, p', q', r', t');
    BytesByDigit(Encode(c), Encode(d), p, q, r, t, p', q', r', t');
  }

  /** Bytes that hold the digits in order, two of them in the first byte of a short encoding, differ first
      where the digits do. */
  lemma BytesByDigit(a: seq<Byte>, b: seq<Byte>, p: int, q: int, r: int, t: int, p': int, q': int, r': int, t': int)
    requires p < p' || (p == p' && (q < q' || (q == q' && (r < r' || (r == r' && t < t')))))
    requires 0 <= q < 64 && 0 <= r < 64 && 0 <= t < 64 && 0 <= q' < 64 && 0 <= r' < 64 && 0 <= t' < 64
    requires || (|a| == |b| == 1 && a[0] < b[0])
             || (p == p' == 0 && a == [192 + 64 * q + r, 128 + t] && b == [192 + 64 * q' + r', 128 + t'])
             || (a == [224 + 64 * p + q, 128 + r, 128 + t] && b == [224 + 64 * p' + q', 128 + r', 128 + t'])
             || (a == [240 + p, 128 + q, 128 + r, 128 + t] && b == [240 + p', 128 + q', 128 + r', 128 + t'])
    ensures exists k :: 0 <= k < |a| == |b| && a[..k] == b[..k] && a[k] < b[k]
  {
    var k := if a[0] != b[0] then 0
             else if |a| == 2 || a[1] != b[1] then 1
             else if |a| == 3 || a[2] != b[2] then 2 else 3;
    FirstSmallerByte(a, b, k);
  }

  lemma FirstSmallerDigit(p: int, q: int, r: int, t: int, p': int, q': int, r': int, t': int)
    requires 262144 * p + 4096 * q + 64 * r + t < 262144 * p' + 4096 * q' + 64 * r' + t'
    requires 0 <= q < 64 && 0 <= r < 64 && 0 <= t < 64 && 0 <= q' < 64 && 0 <= r' < 64 && 0 <= t' < 64
    ensures p < p' || (p == p' && (q < q' || (q == q' && (r < r' || (r == r' && t < t')))))
  {
  }

  lemma FirstSmallerByte(a: seq<Byte>, b: seq<Byte>, k: nat)
    requires k < |a| == |b| && (forall i :: 0 <= i < k ==> a[i] == b[i]) && a[k] < b[k]
    ensures exists k :: 0 <= k < |a| && a[..k] == b[..k] && a[k] < b[k]
  {
    assert a[..k] == b[..k];
  }

  lemma {:induction false} DifferAt(a: seq<Byte>, b: seq<Byte>, k: nat)
    requires k < |a| && k < |b| && a[..k] == b[..k] && a[k] < b[k]
    ensures BytesLt(a, b)
    decreases k
  {
    if k > 0 {
      assert a[..k][0] == b[..k][0];
      assert a[1..][..k - 1] == a[..k][1..] && b[1..][..k - 1] == b[..k][1..];
      DifferAt(a[1..], b[1..], k - 1);
    }
  }

  lemma {:induction false} SmallerString(a: string, b: string)
    requires StrLt(a, b)
    ensures BytesLt(Bytes(a), Bytes(b))
  {
    if a != "" {
      if a[0] < b[0] {
        SmallerCodePoint(a[0] as int, b[0] as int, Bytes(a[1..]), Bytes(b[1..]));
      } else {
        SmallerString(a[1..], b[1..]);
        SamePrefix(Encode(a[0] as int), Bytes(a[1..]), Bytes(b[1..]));
      }
    }
  }

  /** Strings come in the same order by code points as by the bytes of their encodings. */
  lemma OrderOfBytes(a: string, b: string)
    ensures StrLt(a, b) <==> BytesLt(Bytes(a), Bytes(b))
  {
    StrLtTotal(a, b);
    if StrLt(a, b) {
      SmallerString(a, b);
    } else if StrLt(b, a) {
      SmallerString(b, a);
      BytesAsymmetric(Bytes(b), Bytes(a));
    } else if BytesLt(Bytes(a), Bytes(b)) {
      BytesAsymmetric(Bytes(a), Bytes(b));
    }
  }
}
