/** Signer bitmaps of packages/utils/src/istanbul.ts. */
module Istanbul {
  import opened Bytes
  import opened Options
  import Arithmetic
  import Hex

  // new BigNumber('0x' + (hex || '0'), 16)
  function BigNumberFromBuffer(data: Buffer): nat {
    Hex.Parse(if Hex.FromBuffer(data) == "" then "0" else Hex.FromBuffer(data))
  }

  lemma BigNumberIsBigEndian(data: Buffer)
    ensures BigNumberFromBuffer(data) == BigEndian(data)
  {
    Hex.ParseFromBuffer(data);
    assert data == [] ==> Hex.Parse("0") == 0;
  }

  // The value of a string of binary digits.
  function ParseBinary(s: string): nat {
    if s == "" then 0 else 2 * ParseBinary(s[..|s| - 1]) + (if s[|s| - 1] == '1' then 1 else 0)
  }

  // '1' + '0'.repeat(index)
  function PowerDigits(index: nat): string {
    "1" + seq(index, _ => '0')
  }

  // None is the thrown error.
  function BitIsSet(bitmap: nat, index: int): Option<bool> {
    if index < 0 then None
    else
      ParseBinaryPower(index);
      Some(bitmap / ParseBinary(PowerDigits(index)) % 2 > 0)
  }

  function Pow2(n: nat): (r: nat)
    ensures r > 0
  {
    if n == 0 then 1 else 2 * Pow2(n - 1)
  }

  lemma {:induction false} ParseBinaryPower(n: nat)
    ensures ParseBinary(PowerDigits(n)) == Pow2(n)
  {
    var s := PowerDigits(n);
    if n == 0 {
      assert s == ['1'] && s[..0] == "";
      assert ParseBinary(s) == 2 * ParseBinary(s[..0]) + 1;
    } else {
      ParseBinaryPower(n - 1);
      assert s[..|s| - 1] == PowerDigits(n - 1) && s[|s| - 1] == '0';
    }
  }

  function Bit(n: nat, i: nat): bool {
    n / Pow2(i) % 2 == 1
  }

  lemma BitIsSetIsBit(n: nat, i: nat)
    ensures BitIsSet(n, i) == Some(Bit(n, i))
  {
    ParseBinaryPower(i);
  }

  // ---------- bits by halving ----------

  function HalvedBit(n: nat, i: nat): bool {
    if i == 0 then n % 2 == 1 else HalvedBit(n / 2, i - 1)
  }

  lemma DivHalf(n: nat, d: nat)
    requires d > 0
    ensures n / (2 * d) == n / 2 / d
  {
    var q := n / 2 / d;
    Arithmetic.QuotientBounds(n / 2, d);
    assert 2 * d * q == 2 * (d * q);
    Arithmetic.QuotientIs(n, 2 * d, q);
  }

  lemma {:induction false} BitIsHalvedBit(n: nat, i: nat)
    ensures Bit(n, i) == HalvedBit(n, i)
  {
    if i == 0 {
    } else {
      BitIsHalvedBit(n / 2, i - 1);
      DivHalf(n, Pow2(i - 1));
    }
  }

  lemma {:induction false} LowBits(high: nat, low: nat, k: nat, i: nat)
    requires i < k
    ensures HalvedBit(Pow2(k) * high + low, i) == HalvedBit(low, i)
  {
    var half := Pow2(k - 1) * high;
    assert Pow2(k) * high == 2 * half;
    if i == 0 {
    } else {
      LowBits(high, low / 2, k - 1, i - 1);
      assert (2 * half + low) / 2 == half + low / 2;
    }
  }

  lemma HighBits(n: nat, i: nat)
    ensures HalvedBit(n, i + 8) == HalvedBit(n / 256, i)
  {
    assert HalvedBit(n, i + 8) == HalvedBit(n / 2, i + 7) == HalvedBit(n / 4, i + 6) == HalvedBit(n / 8, i + 5);
    assert HalvedBit(n / 8, i + 5) == HalvedBit(n / 16, i + 4) == HalvedBit(n / 32, i + 3);
    assert HalvedBit(n / 32, i + 3) == HalvedBit(n / 64, i + 2) == HalvedBit(n / 128, i + 1) == HalvedBit(n / 256, i);
  }

  // ---------- the bits of a buffer ----------

  // Bit i is bit i mod 8 of the i/8-th byte from the end, and unset beyond the first byte.
  lemma BitOfBuffer(data: Buffer, i: nat)
    ensures BitIsSet(BigNumberFromBuffer(data), i)
         == Some(i / 8 < |data| && Bit(data[|data| - 1 - i / 8], i % 8))
  {
    hide BitIsSet, BigNumberFromBuffer, Bit;
    BigNumberIsBigEndian(data);
    BitIsSetIsBit(BigEndian(data), i);
    BitIsHalvedBit(BigEndian(data), i);
    HalvedBitOfValue(data, i);
    if i / 8 < |data| {
      BitIsHalvedBit(data[|data| - 1 - i / 8], i % 8);
    }
  }

  lemma {:induction false} HalvedBitOfValue(data: Buffer, i: nat)
    ensures HalvedBit(BigEndian(data), i) == (i / 8 < |data| && HalvedBit(data[|data| - 1 - i / 8], i % 8))
  {
    if data == [] {
      ZeroHasNoBits(i);
    } else {
      var front, last := data[..|data| - 1], data[|data| - 1];
      if i < 8 {
        Pow2Is256();
        LowBits(BigEndian(front), last, 8, i);
      } else {
        HalvedBitOfValue(front, i - 8);
        HighBits(BigEndian(data), i - 8);
      }
    }
  }

  lemma {:induction false} ZeroHasNoBits(i: nat)
    ensures !HalvedBit(0, i)
  {
    if i == 0 {
    } else {
      ZeroHasNoBits(i - 1);
    }
  }

  lemma Pow2Is256()
    ensures Pow2(8) == 256
  {
    assert Pow2(4) == 16;
  }

  // The sum of the powers of two at the set bits below m.
  function SumOfBits(n: nat, m: nat): nat {
    if m == 0 then 0 else SumOfBits(n, m - 1) + if Bit(n, m - 1) then Pow2(m - 1) else 0
  }

  lemma {:induction false} SumByHalving(n: nat, m: nat)
    ensures SumOfBits(n, m + 1) == n % 2 + 2 * SumOfBits(n / 2, m)
  {
    hide Bit;
    BitIsHalvedBit(n, m);
    if m == 0 {
    } else {
      BitIsHalvedBit(n / 2, m - 1);
      SumByHalving(n, m - 1);
    }
  }

  lemma {:induction false} SumIsAll(n: nat, m: nat)
    requires n < Pow2(m)
    ensures SumOfBits(n, m) == n
  {
    hide Bit;
    if m == 0 {
    } else {
      SumIsAll(n / 2, m - 1);
      SumByHalving(n, m - 1);
    }
  }

  lemma {:induction false} BelowPow2(n: nat, m: nat)
    requires n <= m
    ensures n < Pow2(m)
  {
    if m == 0 {
    } else {
      BelowPow2(n / 2, m - 1);
    }
  }

  lemma {:induction false} BelowPow256(data: Buffer)
    ensures BigEndian(data) < Pow2(8 * |data|)
  {
    if data == [] {
    } else {
      var k := 8 * |data| - 8;
      BelowPow256(data[..|data| - 1]);
      assert Pow2(k + 8) == 2 * Pow2(k + 7) == 4 * Pow2(k + 6) == 8 * Pow2(k + 5) == 16 * Pow2(k + 4);
      assert Pow2(k + 4) == 2 * Pow2(k + 3) == 4 * Pow2(k + 2) == 8 * Pow2(k + 1) == 16 * Pow2(k);
    }
  }

  // The bitmap is the sum of the powers of two at its set bits.
  lemma BitmapIsSumOfBits(data: Buffer)
    ensures SumOfBits(BigNumberFromBuffer(data), 8 * |data|) == BigNumberFromBuffer(data)
  {
    hide BigNumberFromBuffer, SumOfBits, Pow2, BigEndian;
    BigNumberIsBigEndian(data);
    BelowPow256(data);
    SumIsAll(BigEndian(data), 8 * |data|);
  }

  lemma {:induction false} SumsAgree(a: nat, b: nat, m: nat)
    requires forall i: nat :: BitIsSet(a, i) == BitIsSet(b, i)
    ensures SumOfBits(a, m) == SumOfBits(b, m)
  {
    hide BitIsSet, Bit;
    if m == 0 {
    } else {
      SumsAgree(a, b, m - 1);
      assert BitIsSet(a, m - 1) == BitIsSet(b, m - 1);
      BitIsSetIsBit(a, m - 1);
      BitIsSetIsBit(b, m - 1);
    }
  }

  // Two bitmaps are equal exactly when every query on them agrees.
  lemma BitsDetermineBitmap(a: nat, b: nat)
    ensures a == b <==> forall i: nat :: BitIsSet(a, i) == BitIsSet(b, i)
  {
    hide BitIsSet, SumOfBits, Pow2;
    if forall i: nat :: BitIsSet(a, i) == BitIsSet(b, i) {
      SumsAgree(a, b, a + b);
      BelowPow2(a, a + b);
      BelowPow2(b, a + b);
      SumIsAll(a, a + b);
      SumIsAll(b, a + b);
    }
  }
}
