/**
 * Java bytes and the fixed-width big-endian encodings that the readable
 * buffer's getShort, getInt and getLong decode.
 */
module Bytes {

  /** A Java `byte`: signed, two's complement, eight bits. */
  newtype int8 = x: int | -128 <= x < 128

  /** The number of distinct values of `n` bytes. */
  function Pow256(n: nat): (p: nat)
    ensures p >= 1
  {
    if n == 0 then 1 else 256 * Pow256(n - 1)
  }

  /** The octet a byte stands for, as Java's `b & 0xff`. */
  function Unsigned(b: int8): (u: nat)
    ensures u < 256
    ensures u % 256 == (b as int) % 256
  {
    if b < 0 then b as int + 256 else b as int
  }

  /** The byte whose octet is `u`, as Java's `(byte) u`. */
  function OfUnsigned(u: nat): (b: int8)
    requires u < 256
    ensures Unsigned(b) == u
  {
    if u < 128 then u as int8 else (u - 256) as int8
  }

  lemma UnsignedInjective(a: int8, b: int8)
    requires Unsigned(a) == Unsigned(b)
    ensures a == b
  {
  }

  /** The unsigned big-endian value of `s`: the first byte is the most significant. */
  function DecodeUnsigned(s: seq<int8>): (v: nat)
    ensures v < Pow256(|s|)
  {
    if s == [] then 0
    else DecodeUnsigned(s[..|s| - 1]) * 256 + Unsigned(s[|s| - 1])
  }

  /** The `n`-byte big-endian encoding of `v`. */
  function EncodeUnsigned(v: nat, n: nat): (s: seq<int8>)
    requires v < Pow256(n)
    ensures |s| == n
  {
    if n == 0 then []
    else EncodeUnsigned(v / 256, n - 1) + [OfUnsigned(v % 256)]
  }

  lemma {:induction false} DecodeEncodeUnsigned(v: nat, n: nat)
    requires v < Pow256(n)
    ensures DecodeUnsigned(EncodeUnsigned(v, n)) == v
  {
    if n > 0 {
      var s := EncodeUnsigned(v, n);
      assert s[..n - 1] == EncodeUnsigned(v / 256, n - 1);
      DecodeEncodeUnsigned(v / 256, n - 1);
    }
  }

  lemma {:induction false} EncodeDecodeUnsigned(s: seq<int8>)
    ensures EncodeUnsigned(DecodeUnsigned(s), |s|) == s
  {
    if s != [] {
      var init, last := s[..|s| - 1], s[|s| - 1];
      var v := DecodeUnsigned(s);
      assert v / 256 == DecodeUnsigned(init) && v % 256 == Unsigned(last);
      EncodeDecodeUnsigned(init);
      UnsignedInjective(OfUnsigned(v % 256), last);
      assert s == init + [last];
    }
  }

  /** `n` zero bytes. */
  function Zeros(n: nat): (s: seq<int8>)
    ensures |s| == n && forall i :: 0 <= i < n ==> s[i] == 0
  {
    seq(n, _ => 0)
  }

  lemma {:induction false} DecodeZeros(n: nat)
    ensures DecodeUnsigned(Zeros(n)) == 0
  {
    if n > 0 {
      assert Zeros(n)[..n - 1] == Zeros(n - 1);
      DecodeZeros(n - 1);
    }
  }

  /** Leading zero bytes do not change a big-endian value. */
  lemma {:induction false} DecodeLeadingZeros(n: nat, s: seq<int8>)
    ensures DecodeUnsigned(Zeros(n) + s) == DecodeUnsigned(s)
  {
    if s == [] {
      assert Zeros(n) + s == Zeros(n);
      DecodeZeros(n);
    } else {
      var t := Zeros(n) + s;
      assert t[..|t| - 1] == Zeros(n) + s[..|s| - 1];
      DecodeLeadingZeros(n, s[..|s| - 1]);
    }
  }

  /** Half the range of `n` bytes: the signed `n`-byte values are `-Half(n) .. Half(n) - 1`. */
  function Half(n: nat): (h: int)
    requires n > 0
    ensures h >= 128 && 2 * h == Pow256(n)
  {
    128 * Pow256(n - 1)
  }

  /** The signed value of the `n`-byte two's-complement pattern `u`. */
  function ToSigned(u: nat, n: nat): (v: int)
    requires n > 0 && u < Pow256(n)
    ensures -Half(n) <= v < Half(n)
    ensures v == u || v == u - Pow256(n)
  {
    if u < Half(n) then u else u - Pow256(n)
  }

  /** The `n`-byte two's-complement pattern of `v`. */
  function FromSigned(v: int, n: nat): (u: nat)
    requires n > 0 && -Half(n) <= v < Half(n)
    ensures u < Pow256(n)
    ensures ToSigned(u, n) == v
  {
    if v >= 0 then v else v + Pow256(n)
  }

  /** The signed big-endian value of `s`, as Java's getShort/getInt/getLong compute it. */
  function DecodeSigned(s: seq<int8>): (v: int)
    requires |s| > 0
    ensures -Half(|s|) <= v < Half(|s|)
  {
    ToSigned(DecodeUnsigned(s), |s|)
  }

  /** A single 1 after leading zero bytes is the signed value 1, whatever the width. */
  lemma DecodeSignedOne(n: nat)
    requires n > 0
    ensures DecodeSigned(Zeros(n - 1) + [1]) == 1
  {
    DecodeLeadingZeros(n - 1, [1]);
    assert [1][..0] == [];
  }

  /** The `n`-byte big-endian two's-complement encoding of `v`, as Java's putShort/putInt/putLong. */
  function EncodeSigned(v: int, n: nat): (s: seq<int8>)
    requires n > 0 && -Half(n) <= v < Half(n)
    ensures |s| == n
  {
    EncodeUnsigned(FromSigned(v, n), n)
  }

  lemma DecodeEncodeSigned(v: int, n: nat)
    requires n > 0 && -Half(n) <= v < Half(n)
    ensures DecodeSigned(EncodeSigned(v, n)) == v
  {
    DecodeEncodeUnsigned(FromSigned(v, n), n);
  }

  lemma EncodeDecodeSigned(s: seq<int8>)
    requires |s| > 0
    ensures EncodeSigned(DecodeSigned(s), |s|) == s
  {
    var u := DecodeUnsigned(s);
    var n := |s|;
    assert FromSigned(ToSigned(u, n), n) == u;
    EncodeDecodeUnsigned(s);
  }
}
