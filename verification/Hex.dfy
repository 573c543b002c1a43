/** Hexadecimal digit strings and their value. */
module Hex {
  import opened Bytes

  predicate IsDigit(c: char) {
    '0' <= c <= '9' || 'a' <= c <= 'f' || 'A' <= c <= 'F'
  }

  function DigitValue(c: char): nat
    requires IsDigit(c)
  {
    if c <= '9' then c as int - '0' as int
    else if c <= 'F' then c as int - 'A' as int + 10
    else c as int - 'a' as int + 10
  }

  predicate IsHex(s: string) {
    forall i :: 0 <= i < |s| ==> IsDigit(s[i])
  }

  function Parse(s: string): nat
    requires IsHex(s)
  {
    if s == "" then 0 else 16 * Parse(s[..|s| - 1]) + DigitValue(s[|s| - 1])
  }

  // The lower-case digit.
  function Digit(v: nat): (c: char)
    requires v < 16
    ensures IsDigit(c) && DigitValue(c) == v
  {
    if v < 10 then (v + '0' as int) as char else (v - 10 + 'a' as int) as char
  }

  // Buffer.toString('hex').
  function FromBuffer(b: Buffer): (s: string)
    ensures |s| == 2 * |b| && IsHex(s)
  {
    if b == [] then ""
    else
      var last := b[|b| - 1];
      FromBuffer(b[..|b| - 1]) + [Digit(last / 16), Digit(last % 16)]
  }

  lemma {:induction false} ParseFromBuffer(b: Buffer)
    ensures Parse(FromBuffer(b)) == BigEndian(b)
  {
    if b == [] {
    } else {
      var front, last, s := b[..|b| - 1], b[|b| - 1], FromBuffer(b);
      ParseFromBuffer(front);
      var high := s[..|s| - 1];
      assert high[..|high| - 1] == FromBuffer(front);
      assert high[|high| - 1] == Digit(last / 16) && s[|s| - 1] == Digit(last % 16);
    }
  }

  // The sixteen digits in order, in either case.
  lemma DigitsInOrder(v: nat)
    requires v < 16
    ensures Digit(v) == "0123456789abcdef"[v]
    ensures IsDigit("0123456789ABCDEF"[v]) && DigitValue("0123456789ABCDEF"[v]) == v
    ensures IsDigit("0123456789abcdef"[v]) && DigitValue("0123456789abcdef"[v]) == v
  {
  }
}
