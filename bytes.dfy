/**
 * Byte strings and the big-endian ("network order", `!`) integer encoding
 * that every packet of the three tools is built from.
 */
module Bytes {

  /** One octet of a Python `bytes` object. */
  newtype byte = x: int | 0 <= x < 256

  type Bytes = seq<byte>

  /** 256 to the power `n`: the number of values an `n`-byte field can hold. */
  function Pow256(n: nat): (r: nat)
    ensures r >= 1
    ensures n >= 1 ==> r % 256 == 0
  {
    if n == 0 then 1 else 256 * Pow256(n - 1)
  }

  /** The value of `s` read as an unsigned big-endian integer. */
  function FromBigEndian(s: Bytes): nat
  {
    if s == [] then 0 else FromBigEndian(s[..|s| - 1]) * 256 + s[|s| - 1] as int
  }

  /** An `n`-byte big-endian value is below 256 to the power `n`. */
  lemma {:induction false} FromBigEndianBound(s: Bytes)
    ensures FromBigEndian(s) < Pow256(|s|)
  {
    if s != [] {
      FromBigEndianBound(s[..|s| - 1]);
    }
  }

  /** `v` written as exactly `n` big-endian bytes. */
  function ToBigEndian(v: nat, n: nat): (r: Bytes)
    ensures |r| == n
  {
    if n == 0 then [] else ToBigEndian(v / 256, n - 1) + [(v % 256) as byte]
  }

  /** Powers of 256 add their exponents. */
  lemma {:induction false} Pow256Split(m: nat, n: nat)
    ensures Pow256(m + n) == Pow256(m) * Pow256(n)
  {
    if m > 0 {
      Pow256Split(m - 1, n);
      ScaleStep(Pow256(n), Pow256(m - 1));
      assert Pow256(m + n) == 256 * Pow256(m - 1 + n);
    }
  }

  /** A value scaled by 256^k, written on `n + k` bytes, is the value on `n` bytes followed by `k` zero bytes. */
  lemma {:induction false} ToBigEndianShift(v: nat, n: nat, k: nat)
    ensures ToBigEndian(v * Pow256(k), n + k) == ToBigEndian(v, n) + Zeros(k)
  {
    if k > 0 {
      ToBigEndianShift(v, n, k - 1);
      var m := v * Pow256(k - 1);
      ScaleStep(v, Pow256(k - 1));
      assert v * Pow256(k) == m * 256;
      assert Zeros(k) == Zeros(k - 1) + [0];
    }
  }

  lemma ScaleStep(v: nat, p: nat)
    ensures v * (256 * p) == (v * p) * 256 && (256 * p) * v == 256 * (p * v) && p * v == v * p
    ensures (v * p * 256) / 256 == v * p && (v * p * 256) % 256 == 0
  {
  }

  /** Reading back a value that fits its width gives the value. */
  lemma {:induction false} FromToBigEndian(v: nat, n: nat)
    requires v < Pow256(n)
    ensures FromBigEndian(ToBigEndian(v, n)) == v
  {
    if n > 0 {
      FromToBigEndian(v / 256, n - 1);
      var high := ToBigEndian(v / 256, n - 1);
      var r := high + [(v % 256) as byte];
      assert r[..|r| - 1] == high;
    }
  }

  /** Writing back the value read from `s`, at the same width, gives `s` again. */
  lemma {:induction false} ToFromBigEndian(s: Bytes)
    ensures ToBigEndian(FromBigEndian(s), |s|) == s
  {
    if s != [] {
      var init := s[..|s| - 1];
      ToFromBigEndian(init);
      FromBigEndianBound(init);
      assert FromBigEndian(s) / 256 == FromBigEndian(init);
      assert FromBigEndian(s) % 256 == s[|s| - 1] as int;
      assert s == init + [s[|s| - 1]];
    }
  }

  /** `n` zero bytes. */
  function Zeros(n: nat): (r: Bytes)
    ensures |r| == n && forall i :: 0 <= i < n ==> r[i] == 0
  {
    seq(n, _ => 0)
  }

  /** Zero written big-endian on n bytes is n zero bytes. */
  lemma {:induction false} ZeroBigEndian(n: nat)
    ensures ToBigEndian(0, n) == Zeros(n)
  {
    if n > 0 {
      ZeroBigEndian(n - 1);
      assert ToBigEndian(0, n) == Zeros(n - 1) + [0];
    }
  }

  /** Bytes read as a big-endian number give zero exactly when they are all zero. */
  lemma ZeroFromBigEndian(s: Bytes)
    ensures FromBigEndian(s) == 0 <==> s == Zeros(|s|)
  {
    ZeroBigEndian(|s|);
    ToFromBigEndian(s);
    FromToBigEndian(0, |s|);
  }

  /** True when every character of `s` is 7-bit ASCII, as in a Python `b'...'` literal. */
  predicate IsAscii(s: string)
  {
    forall i :: 0 <= i < |s| ==> s[i] as int < 128
  }

  /** The bytes of an ASCII literal, one per character. */
  function Ascii(s: string): (r: Bytes)
    requires IsAscii(s)
    ensures |r| == |s| && forall i :: 0 <= i < |s| ==> r[i] as int == s[i] as int
  {
    seq(|s|, i requires 0 <= i < |s| => s[i] as int as byte)
  }

  /** Python's `data.startswith(prefix)`. */
  predicate StartsWith(data: Bytes, prefix: Bytes)
  {
    |prefix| <= |data| && data[..|prefix|] == prefix
  }

  /** `needle` occurs in `data` starting at index `i`. */
  predicate OccursAt(data: Bytes, needle: Bytes, i: int)
  {
    0 <= i && i + |needle| <= |data| && data[i..i + |needle|] == needle
  }

  /** Python's `needle in data` for byte strings, scanning from the left. */
  function Contains(data: Bytes, needle: Bytes): (r: bool)
    ensures r <==> exists i :: OccursAt(data, needle, i)
    decreases |data|
  {
    if |data| < |needle| then false
    else if data[..|needle|] == needle then assert OccursAt(data, needle, 0); true
    else
      var r := Contains(data[1..], needle);
      assert forall i :: OccursAt(data[1..], needle, i) <==> OccursAt(data, needle, i + 1);
      assert !OccursAt(data, needle, 0);
      assert forall i :: OccursAt(data, needle, i) ==> OccursAt(data[1..], needle, i - 1);
      r
  }
}
