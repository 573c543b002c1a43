/** Buffers as sequences of bytes, and their big-endian value. */
module Bytes {
  import Arithmetic

  type Byte = x: int | 0 <= x < 256
  type Buffer = seq<Byte>

  function Pow256(n: nat): (r: nat)
    ensures r > 0
  {
    if n == 0 then 1 else 256 * Pow256(n - 1)
  }

  function BigEndian(b: Buffer): nat {
    if b == [] then 0 else 256 * BigEndian(b[..|b| - 1]) + b[|b| - 1]
  }

  // The last `len` base-256 digits of v.
  function Encode(v: nat, len: nat): (r: Buffer)
    ensures |r| == len
  {
    if len == 0 then [] else Encode(v / 256, len - 1) + [v % 256]
  }

  lemma {:induction false} BigEndianBound(b: Buffer)
    ensures BigEndian(b) < Pow256(|b|)
  {
    if b == [] {
    } else {
      BigEndianBound(b[..|b| - 1]);
    }
  }

  // Buffer.slice: negative positions count from the end, and both are clamped.
  function Clamp(p: int, len: nat): nat {
    if p >= len then len else if p >= 0 then p else if p + len >= 0 then p + len else 0
  }

  function Slice(b: Buffer, start: int, end: int): Buffer {
    var s, e := Clamp(start, |b|), Clamp(end, |b|);
    if s <= e then b[s..e] else []
  }

  // Between two positions of the buffer; a negative one counts from the end, and neither end is overrun.
  lemma SliceIs(b: Buffer, start: nat, end: nat)
    ensures start <= end <= |b| ==> Slice(b, start, end) == b[start..end]
    ensures start < end && 0 < end <= |b| ==> Slice(b, start - |b|, end) == b[start..end]
    ensures start <= |b| ==> Slice(b, start, |b| + end) == b[start..] && Slice(b, -|b| - 1 - end, start) == b[..start]
    ensures start > end ==> Slice(b, start, end) == []
  {
    assert start <= |b| ==> b[start..|b|] == b[start..] && b[0..start] == b[..start];
  }

  // Encoding keeps the value modulo 256^len, and every buffer is the encoding of its value.
  lemma {:induction false} EncodeValue(v: nat, len: nat)
    ensures BigEndian(Encode(v, len)) == v % Pow256(len)
  {
    if len == 0 {
    } else {
      var p, w, e := Pow256(len - 1), v / 256, Encode(v, len);
      EncodeValue(w, len - 1);
      assert e[..len - 1] == Encode(w, len - 1);
      ModOfProduct(v, w, v % 256, p);
    }
  }

  lemma ModOfProduct(v: nat, w: nat, low: nat, p: nat)
    requires p > 0 && v == 256 * w + low && low < 256
    ensures v % (256 * p) == 256 * (w % p) + low
  {
    var q, r := w / p, w % p;
    assert w == p * q + r;
    assert 256 * p * q == 256 * (p * q);
    Arithmetic.QuotientIs(v, 256 * p, q);
  }

  lemma {:induction false} DecodeEncode(b: Buffer)
    ensures Encode(BigEndian(b), |b|) == b
  {
    if b == [] {
    } else {
      var n := |b| - 1;
      DecodeEncode(b[..n]);
      Arithmetic.QuotientIs(BigEndian(b), 256, BigEndian(b[..n]));
      assert b == b[..n] + [b[n]];
    }
  }
}
