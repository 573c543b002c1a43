/** The counter and the key derivation loop of packages/utils/src/ecies.ts. */
module Kdf {
  import opened Bytes
  import opened Options
  import Arithmetic

  // Big-endian increment with carry, wrapping at the end.
  function Inc(b: Buffer): (r: Buffer)
    ensures |r| == |b|
  {
    if b == [] then []
    else
      var n := |b| - 1;
      if b[n] < 255 then b[n := b[n] + 1] else Inc(b[..n]) + [0]
  }

  lemma {:induction false} IncValue(b: Buffer)
    ensures BigEndian(Inc(b)) == if BigEndian(b) + 1 == Pow256(|b|) then 0 else BigEndian(b) + 1
  {
    if b == [] {
    } else {
      var n := |b| - 1;
      BigEndianBound(b[..n]);
      IncValue(b[..n]);
      assert b[n] < 255 ==> Inc(b)[..n] == b[..n];
      assert b[n] == 255 ==> Inc(b)[..n] == Inc(b[..n]);
    }
  }

  lemma IncAddsOne(b: Buffer)
    ensures BigEndian(Inc(b)) == (BigEndian(b) + 1) % Pow256(|b|)
  {
    hide Inc, BigEndian, Pow256;
    IncValue(b);
    BigEndianBound(b);
    SmallMod(BigEndian(b) + 1, Pow256(|b|));
  }

  lemma SmallMod(v: nat, m: nat)
    requires 0 < v <= m
    ensures v % m == if v == m then 0 else v
  {
  }

  lemma {:induction false} IncEncode(v: nat, len: nat)
    ensures Inc(Encode(v, len)) == Encode(v + 1, len)
  {
    if len == 0 {
    } else {
      var e := Encode(v, len);
      assert e[..len - 1] == Encode(v / 256, len - 1);
      if v % 256 == 255 {
        assert (v + 1) / 256 == v / 256 + 1 && (v + 1) % 256 == 0;
        IncEncode(v / 256, len - 1);
      } else {
        assert (v + 1) / 256 == v / 256 && (v + 1) % 256 == v % 256 + 1;
      }
    }
  }

  // `ctr[i]++` on a byte.
  function Bump(x: Byte): Byte {
    if x == 255 then 0 else x + 1
  }

  method IncCounter(ctr: array<Byte>)
    modifies ctr
    ensures ctr[..] == Inc(old(ctr[..]))
    ensures BigEndian(ctr[..]) == (BigEndian(old(ctr[..])) + 1) % Pow256(ctr.Length)
  {
    hide Inc, IncPrefix, BigEndian, Pow256;
    IncAddsOne(ctr[..]);
    var i := ctr.Length - 1;
    ghost var was := ctr[..];
    IncWhole(was);
    while i >= 0
      invariant -1 <= i < ctr.Length
      invariant Inc(was) == IncPrefix(ctr[..], i + 1)
    {
      IncStep(ctr[..], i);
      ghost var next := ctr[..][i := Bump(ctr[i])];
      ctr[i] := Bump(ctr[i]);
      assert ctr[..] == next;
      if ctr[i] != 0 {
        return;
      }
      i := i - 1;
    }
    IncNothing(ctr[..]);
  }

  // The buffer with only its first n bytes still to be incremented.
  function IncPrefix(b: Buffer, n: nat): Buffer
    requires n <= |b|
  {
    Inc(b[..n]) + b[n..]
  }

  lemma IncWhole(b: Buffer)
    ensures IncPrefix(b, |b|) == Inc(b)
  {
    assert b[..|b|] == b;
  }

  lemma IncStep(b: Buffer, i: nat)
    requires i < |b|
    ensures var next := b[i := Bump(b[i])];
      IncPrefix(b, i + 1) == if next[i] != 0 then next else IncPrefix(next, i)
  {
    hide Inc;
    var front, rest, next := b[..i + 1], b[i + 1..], b[i := Bump(b[i])];
    IncLast(front);
    assert front[..i] == b[..i];
    if b[i] < 255 {
      assert next == front[i := b[i] + 1] + rest;
    } else {
      assert next[..i] == b[..i] && next[i..] == [0] + rest;
      assert (Inc(b[..i]) + [0]) + rest == Inc(b[..i]) + ([0] + rest);
    }
  }

  lemma IncNothing(b: Buffer)
    ensures IncPrefix(b, 0) == b
  {
  }

  lemma IncLast(b: Buffer)
    requires b != []
    ensures var n := |b| - 1;
      Inc(b) == if b[n] < 255 then b[n := b[n] + 1] else Inc(b[..n]) + [0]
  {
  }

  type Hash = Buffer -> Buffer

  ghost predicate Hashes32(h: Hash) {
    forall m :: |h(m)| == 32
  }

  // H(1 || px) || H(2 || px) || .. || H(n || px) with a 32-bit counter.
  function Blocks(h: Hash, px: Buffer, n: nat): Buffer {
    if n == 0 then [] else Blocks(h, px, n - 1) + h(Encode(n, 4) + px)
  }

  lemma {:induction false} BlocksLength(h: Hash, px: Buffer, n: nat)
    requires Hashes32(h)
    ensures |Blocks(h, px, n)| == 32 * n
  {
    if n == 0 {
    } else {
      BlocksLength(h, px, n - 1);
    }
  }

  lemma {:induction false} BlockAt(h: Hash, px: Buffer, n: nat, b: nat)
    requires Hashes32(h) && b < 32 * n
    ensures |Blocks(h, px, n)| == 32 * n
    ensures Blocks(h, px, n)[b] == h(Encode(b / 32 + 1, 4) + px)[b % 32]
  {
    BlocksLength(h, px, n);
    BlocksLength(h, px, n - 1);
    if b >= 32 * (n - 1) {
      Arithmetic.QuotientIs(b, 32, n - 1);
    } else {
      BlockAt(h, px, n - 1, b);
    }
  }

  lemma BlocksAt(h: Hash, px: Buffer, n: nat)
    requires Hashes32(h)
    ensures |Blocks(h, px, n)| == 32 * n
    ensures forall b :: 0 <= b < 32 * n ==> Blocks(h, px, n)[b] == h(Encode(b / 32 + 1, 4) + px)[b % 32]
  {
    BlocksLength(h, px, n);
    forall b | 0 <= b < 32 * n
      ensures Blocks(h, px, n)[b] == h(Encode(b / 32 + 1, 4) + px)[b % 32]
    {
      BlockAt(h, px, n, b);
    }
  }

  // The one-step key derivation of NIST SP 800-56C Rev. 1, section 4.1, with empty FixedInfo: the first
  // `len` bytes of as many blocks as they need; an error when the counter would not fit.
  function OneStepKdf(h: Hash, px: Buffer, len: nat): Option<Buffer>
    requires Hashes32(h)
  {
    var reps := (len + 31) / 32;
    BlocksAt(h, px, reps);
    if reps > 0xFFFF_FFFF then None else Some(Blocks(h, px, reps)[..len])
  }

  const BLOCK_SIZE := 32

  // The loop bound, a fraction: the loop runs for every i up to it.
  function Reps(kdLen: nat): real {
    ((kdLen + 7) * 8) as real / (BLOCK_SIZE * 8) as real
  }

  lemma RepsBound(kdLen: nat, i: nat)
    ensures i as real <= Reps(kdLen) <==> 32 * i <= kdLen + 7
  {
    assert Reps(kdLen) * 256.0 == ((kdLen + 7) * 8) as real;
    assert (i as real) * 256.0 == (i * 256) as real;
  }

  lemma FirstCounter()
    ensures Encode(1, 4) == [0, 0, 0, 1]
  {
    assert Encode(0, 1) == [0] && Encode(0, 2) == [0, 0] && Encode(0, 3) == [0, 0, 0];
  }

  // The buffer `k`: it starts out as one zero byte, which the final slice drops.
  function Padded(h: Hash, px: Buffer, n: nat): Buffer {
    [0] + Blocks(h, px, n)
  }

  lemma NoBlocks(h: Hash, px: Buffer)
    ensures Padded(h, px, 0) == [0]
  {
  }

  lemma OneMoreBlock(h: Hash, px: Buffer, n: nat)
    ensures Padded(h, px, n + 1) == Padded(h, px, n) + h(Encode(n + 1, 4) + px)
  {
  }

  // The output is the standard's for every length that the standard allows; beyond that the counter wraps.
  method ConcatKDF(h: Hash, px: Buffer, kdLen: nat) returns (key: Buffer)
    requires Hashes32(h)
    ensures |key| == kdLen
    ensures forall b :: 0 <= b < kdLen ==> key[b] == h(Encode(b / 32 + 1, 4) + px)[b % 32]
    ensures OneStepKdf(h, px, kdLen).Some? ==> key == OneStepKdf(h, px, kdLen).value
  {
    var reps := Reps(kdLen);
    var counter := new Byte[4](i => if i == 3 then 1 else 0);
    var k: Buffer := [0];
    var i: nat := 0;
    FirstCounter();
    assert counter[..] == [0, 0, 0, 1];
    hide Encode, Padded, Inc, Slice, OneStepKdf, BigEndian, Pow256, Reps;
    NoBlocks(h, px);
    while i as real <= reps
      invariant counter[..] == Encode(i + 1, 4)
      invariant 32 * i <= kdLen + 7 + 32
      invariant k == Padded(h, px, i)
      decreases kdLen + 40 - 32 * i
    {
      RepsBound(kdLen, i);
      IncEncode(i + 1, 4);
      OneMoreBlock(h, px, i);
      k := k + h(counter[..] + px);
      IncCounter(counter);
      i := i + 1;
    }
    RepsBound(kdLen, i);
    key := Slice(k, 1, kdLen + 1);
    CutBlocks(h, px, kdLen, i);
  }

  // Enough blocks, cut to size, are the standard's output.
  lemma CutBlocks(h: Hash, px: Buffer, kdLen: nat, n: nat)
    requires Hashes32(h) && kdLen <= 32 * n
    ensures var key := Slice(Padded(h, px, n), 1, kdLen + 1);
      && |key| == kdLen
      && (forall b :: 0 <= b < kdLen ==> key[b] == h(Encode(b / 32 + 1, 4) + px)[b % 32])
      && (OneStepKdf(h, px, kdLen).Some? ==> key == OneStepKdf(h, px, kdLen).value)
  {
    hide Blocks, Encode;
    BlocksAt(h, px, n);
    BlocksAt(h, px, (kdLen + 31) / 32);
    var all, needed := Blocks(h, px, n), Blocks(h, px, (kdLen + 31) / 32);
    assert ([0] + all)[1..kdLen + 1] == all[..kdLen];
    forall b | 0 <= b < kdLen
      ensures all[b] == needed[b]
    {
    }
    assert all[..kdLen] == needed[..kdLen];
  }
}
