/** Little-endian integers: the bit syntax `<<v::little-N>>` of the packer and the native byte
    order the Arrow buffers are read in. */
module LittleEndian {

  type Byte = x: int | 0 <= x < 256

  function Pow256(width: nat): (p: nat)
    ensures p >= 1
  {
    if width == 0 then 1 else 256 * Pow256(width - 1)
  }

  /** The low `width` bytes of `n`, lowest first; higher bits are cut off. */
  function EncodeLE(n: nat, width: nat): (bytes: seq<Byte>)
    ensures |bytes| == width
  {
    if width == 0 then [] else [n % 256] + EncodeLE(n / 256, width - 1)
  }

  function DecodeLE(bytes: seq<Byte>): (n: nat)
    ensures n < Pow256(|bytes|)
  {
    if bytes == [] then 0 else bytes[0] + 256 * DecodeLE(bytes[1..])
  }

  lemma {:induction false} DecodeEncode(n: nat, width: nat)
    requires n < Pow256(width)
    ensures DecodeLE(EncodeLE(n, width)) == n
  {
    if width > 0 {
      DecodeEncode(n / 256, width - 1);
      assert EncodeLE(n, width)[1..] == EncodeLE(n / 256, width - 1);
    }
  }

  lemma {:induction false} EncodeDecode(bytes: seq<Byte>)
    ensures EncodeLE(DecodeLE(bytes), |bytes|) == bytes
  {
    if bytes != [] {
      EncodeDecode(bytes[1..]);
      LowByte(bytes[0], DecodeLE(bytes[1..]));
      assert EncodeLE(DecodeLE(bytes), |bytes|) == [bytes[0]] + bytes[1..] == bytes;
    }
  }

  lemma LowByte(b: Byte, rest: nat)
    ensures (b + 256 * rest) % 256 == b && (b + 256 * rest) / 256 == rest
  {
  }

  /** Two's complement on `width` bytes. */
  function EncodeSigned(v: int, width: nat): seq<Byte> {
    EncodeLE(v % Pow256(width), width)
  }

  function DecodeSigned(bytes: seq<Byte>): int {
    var n := DecodeLE(bytes);
    if 2 * n < Pow256(|bytes|) then n else n - Pow256(|bytes|)
  }

  predicate FitsSigned(v: int, width: nat) {
    var p: int := Pow256(width);
    -p <= 2 * v < p
  }

  lemma SignedRoundTrip(v: int, width: nat)
    requires width > 0 && FitsSigned(v, width)
    ensures DecodeSigned(EncodeSigned(v, width)) == v
  {
    var p := Pow256(width);
    if v >= 0 {
      SmallMod(v, p);
    } else {
      SmallMod(v + p, p);
      assert v % p == (v + p) % p by {
        AddMod(v, p);
      }
    }
    DecodeEncode(v % p, width);
  }

  lemma SmallMod(v: int, p: int)
    requires 0 <= v < p
    ensures v % p == v
  {
  }

  lemma AddMod(v: int, p: int)
    requires -p <= v < 0 < p
    ensures v % p == (v + p) % p == v + p
  {
    SmallMod(v + p, p);
    var q, r := v / p, v % p;
    assert v == q * p + r;
    assert q <= -1 ==> q * p <= -p;
    assert q >= 0 ==> q * p >= 0;
    assert q <= -2 ==> q * p <= -2 * p;
  }

  lemma SignedReencode(bytes: seq<Byte>)
    requires bytes != []
    ensures FitsSigned(DecodeSigned(bytes), |bytes|)
    ensures EncodeSigned(DecodeSigned(bytes), |bytes|) == bytes
  {
    var p: int, n: int := Pow256(|bytes|), DecodeLE(bytes);
    EncodeDecode(bytes);
    if 2 * n < p {
      SmallMod(n, p);
    } else {
      AddMod(n - p, p);
    }
  }
}
