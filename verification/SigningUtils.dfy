/** The hex quantities of packages/protocol/lib/signing-utils.ts: leading zeros trimmed, then padded to
    whole bytes before RLP encoding. */
module SigningUtils {
  import opened Bytes
  import Hex

  function Trimmed(hex: string): string
    decreases |hex|
  {
    if "0x0" <= hex then Trimmed("0x" + hex[3..]) else hex
  }

  // String.replace('0x', '0x0'): the first occurrence, wherever it is.
  function PadFirst0x(hex: string): string {
    if hex == "" then ""
    else if "0x" <= hex then "0x0" + hex[2..]
    else [hex[0]] + PadFirst0x(hex[1..])
  }

  function MakeEven(hex: string): string {
    if |hex| % 2 == 1 then PadFirst0x(hex) else hex
  }

  function Normalized(hex: string): string {
    MakeEven(Trimmed(hex))
  }

  predicate IsQuantity(hex: string) {
    "0x" <= hex && Hex.IsHex(hex[2..])
  }

  function Value(hex: string): nat
    requires IsQuantity(hex)
  {
    Hex.Parse(hex[2..])
  }

  predicate IsLower(s: string) {
    forall i :: 0 <= i < |s| ==> !('A' <= s[i] <= 'F')
  }

  // ---------- on the digits alone ----------

  function StripZeros(d: string): string {
    if d != "" && d[0] == '0' then StripZeros(d[1..]) else d
  }

  lemma {:induction false} TrimmedStrips(d: string)
    ensures Trimmed("0x" + d) == "0x" + StripZeros(d)
    decreases |d|
  {
    var hex := "0x" + d;
    if d == "" {
    } else if d[0] == '0' {
      assert hex[0] == '0' && hex[1] == 'x' && hex[2] == '0' && hex[..3] == "0x0";
      assert hex[3..] == d[1..];
      TrimmedStrips(d[1..]);
    } else {
      assert hex[2] == d[0];
    }
  }

  lemma {:induction false} StripZerosKeeps(d: string)
    requires Hex.IsHex(d)
    ensures var s := StripZeros(d);
      && Hex.IsHex(s) && Hex.Parse(s) == Hex.Parse(d)
      && (s == "" || s[0] != '0') && (IsLower(d) ==> IsLower(s))
  {
    if d == "" || d[0] != '0' {
    } else {
      StripZerosKeeps(d[1..]);
      LeadingZero(d[1..]);
      assert d == "0" + d[1..];
    }
  }

  lemma {:induction false} LeadingZero(d: string)
    requires Hex.IsHex(d)
    ensures Hex.IsHex("0" + d) && Hex.Parse("0" + d) == Hex.Parse(d)
  {
    var z := "0" + d;
    if d == "" {
      assert z[..0] == "";
      assert Hex.Parse(z) == 16 * Hex.Parse(z[..0]) + Hex.DigitValue('0');
    } else {
      LeadingZero(d[..|d| - 1]);
      assert z[..|z| - 1] == "0" + d[..|d| - 1];
    }
  }

  // ---------- the loop ----------

  lemma TrimStep(hex: string)
    requires "0x0" <= hex && IsQuantity(hex)
    ensures IsQuantity("0x" + hex[3..]) && Value("0x" + hex[3..]) == Value(hex)
  {
    var d := hex[3..];
    assert forall i :: 0 <= i < |d| ==> d[i] == hex[2..][i + 1];
    LeadingZero(d);
    assert hex[2..] == "0" + d && ("0x" + d)[2..] == d;
  }

  // Ends with no leading zero digit left; a quantity keeps its value.
  method TrimLeadingZero(hex: string) returns (r: string)
    ensures r == Trimmed(hex) && !("0x0" <= r)
    ensures IsQuantity(hex) ==> IsQuantity(r) && Value(r) == Value(hex)
  {
    hide Value, IsQuantity;
    r := hex;
    while "0x0" <= r
      invariant Trimmed(r) == Trimmed(hex)
      invariant IsQuantity(hex) ==> IsQuantity(r) && Value(r) == Value(hex)
      decreases |r|
    {
      if IsQuantity(r) {
        TrimStep(r);
      }
      r := "0x" + r[3..];
    }
  }

  // The digits of a number without leading zeros; none for zero.
  function Digits(v: nat): (s: string)
    ensures Hex.IsHex(s)
  {
    if v == 0 then "" else Digits(v / 16) + [Hex.Digit(v % 16)]
  }

  lemma {:induction false} PositiveParse(s: string)
    requires Hex.IsHex(s) && s != "" && s[0] != '0'
    ensures Hex.Parse(s) > 0
  {
    if |s| == 1 {
      assert Hex.DigitValue(s[0]) > 0;
    } else {
      PositiveParse(s[..|s| - 1]);
    }
  }

  lemma DigitOfValue(c: char)
    requires Hex.IsDigit(c) && !('A' <= c <= 'F')
    ensures Hex.DigitValue(c) < 16 && Hex.Digit(Hex.DigitValue(c)) == c
  {
  }

  // Lower-case digits without a leading zero are determined by their value.
  lemma {:induction false} DigitsOfParse(s: string)
    requires Hex.IsHex(s) && IsLower(s) && (s == "" || s[0] != '0')
    ensures s == Digits(Hex.Parse(s))
  {
    if s == "" {
    } else {
      var front, last := s[..|s| - 1], s[|s| - 1];
      PositiveParse(s);
      DigitsOfParse(front);
      DigitOfValue(last);
      var v, high, low := Hex.Parse(s), Hex.Parse(front), Hex.DigitValue(last);
      assert v == 16 * high + low && v / 16 == high && v % 16 == low;
      assert s == front + [last];
    }
  }

  // ---------- the composition ----------

  // Digits padded to whole bytes.
  function Padded(s: string): string {
    if |s| % 2 == 1 then "0" + s else s
  }

  lemma PadsInFront(s: string)
    ensures PadFirst0x("0x" + s) == "0x" + ("0" + s)
  {
    assert ("0x" + s)[2..] == s;
  }

  // Trimming and padding in terms of the digits.
  lemma NormalizedIs(hex: string)
    requires IsQuantity(hex)
    ensures var s := StripZeros(hex[2..]);
      Normalized(hex) == "0x" + Padded(s)
  {
    hide Trimmed, StripZeros, PadFirst0x, Hex.IsHex;
    var s := StripZeros(hex[2..]);
    assert hex == "0x" + hex[2..];
    TrimmedStrips(hex[2..]);
    PadsInFront(s);
  }

  lemma PaddedKeeps(s: string)
    requires Hex.IsHex(s) && (s == "" || s[0] != '0')
    ensures var p := Padded(s);
      && Hex.IsHex(p) && Hex.Parse(p) == Hex.Parse(s)
      && |p| % 2 == 0 && (|p| >= 2 ==> p[0] != '0' || p[1] != '0')
  {
    hide Hex.IsHex, Hex.Parse;
    if |s| % 2 == 1 {
      LeadingZero(s);
      assert Padded(s)[1] == s[0];
    } else {
      assert Padded(s) == s;
    }
  }

  lemma Prefixed(d: string)
    ensures "0x" <= "0x" + d && ("0x" + d)[2..] == d
    ensures "0x00" <= "0x" + d ==> |d| >= 2 && d[0] == '0' && d[1] == '0'
  {
    var r := "0x" + d;
    assert |d| >= 2 ==> r[2] == d[0] && r[3] == d[1];
  }

  // The value is kept, the digits fill whole bytes, the first of which is not zero.
  lemma NormalizedKeepsValue(hex: string)
    requires IsQuantity(hex)
    ensures var r := Normalized(hex);
      && IsQuantity(r) && Value(r) == Value(hex)
      && |r| % 2 == 0 && !("0x00" <= r)
  {
    hide Normalized, Padded, StripZeros, Hex.IsHex, Hex.Parse;
    var s := StripZeros(hex[2..]);
    NormalizedIs(hex);
    StripZerosKeeps(hex[2..]);
    PaddedKeeps(s);
    Prefixed(Padded(s));
  }

  // The big-endian bytes of a number without leading zeros: BE in Appendix B of the Ethereum Yellow Paper.
  function MinimalBytes(v: nat): Buffer {
    if v == 0 then [] else MinimalBytes(v / 256) + [v % 256]
  }

  lemma MinimalStep(v: nat)
    requires v > 0
    ensures Hex.FromBuffer(MinimalBytes(v))
         == Hex.FromBuffer(MinimalBytes(v / 256)) + [Hex.Digit(v % 256 / 16), Hex.Digit(v % 256 % 16)]
  {
    var bytes := MinimalBytes(v);
    assert bytes[..|bytes| - 1] == MinimalBytes(v / 256) && bytes[|bytes| - 1] == v % 256;
  }

  lemma PaddedAppend(s: string, high: char, low: char)
    ensures Padded(s + [high, low]) == Padded(s) + [high, low]
    ensures Padded("") == "" && Padded([low]) == ['0', low]
  {
  }

  lemma NothingForZero()
    ensures Digits(0) == "" && MinimalBytes(0) == [] && Hex.FromBuffer([]) == ""
  {
  }

  lemma SingleDigit(v: nat)
    requires v < 16
    ensures v / 256 == 0 && Hex.Digit(v % 256 / 16) == '0'
  {
  }

  lemma ByteParts(v: nat)
    ensures v % 256 % 16 == v % 16 && v % 256 / 16 == v / 16 % 16 && v / 16 / 16 == v / 256
  {
  }

  lemma LastByte(v: nat)
    requires v > 0
    ensures var b, w := v % 256, v / 256;
      Digits(v) == if v < 16 then [Hex.Digit(b % 16)] else Digits(w) + [Hex.Digit(b / 16), Hex.Digit(b % 16)]
  {
    var b, w := v % 256, v / 256;
    ByteParts(v);
    hide Hex.Digit;
    assert Digits(v) == Digits(v / 16) + [Hex.Digit(b % 16)];
    if v >= 16 {
      assert Digits(v / 16) == Digits(w) + [Hex.Digit(b / 16)];
    } else {
      assert v / 16 == 0 && Digits(v / 16) == "";
    }
  }

  lemma {:induction false} MinimalBytesHex(v: nat)
    ensures Hex.FromBuffer(MinimalBytes(v)) == Padded(Digits(v))
  {
    hide Padded, Digits, MinimalBytes, Hex.FromBuffer, Hex.Digit;
    NothingForZero();
    if v == 0 {
      PaddedAppend("", '0', '0');
    } else {
      var w, high, low := v / 256, Hex.Digit(v % 256 / 16), Hex.Digit(v % 256 % 16);
      PaddedAppend(Digits(w), high, low);
      MinimalBytesHex(w);
      MinimalStep(v);
      LastByte(v);
      if v < 16 {
        SingleDigit(v);
      }
    }
  }

  // A lower-case quantity becomes the hex of the minimal bytes of its value.
  lemma NormalizedIsMinimal(hex: string)
    requires IsQuantity(hex) && IsLower(hex)
    ensures Normalized(hex) == "0x" + Hex.FromBuffer(MinimalBytes(Value(hex)))
  {
    var d := hex[2..];
    assert IsLower(d) by { assert forall i :: 0 <= i < |d| ==> d[i] == hex[i + 2]; }
    NormalizedIs(hex);
    StripZerosKeeps(d);
    DigitsOfParse(StripZeros(d));
    MinimalBytesHex(Value(hex));
  }

  // Canonical: the results are equal exactly when the values are.
  lemma NormalizedIsCanonical(a: string, b: string)
    requires IsQuantity(a) && IsLower(a) && IsQuantity(b) && IsLower(b)
    ensures Normalized(a) == Normalized(b) <==> Value(a) == Value(b)
  {
    NormalizedIsMinimal(a);
    NormalizedIsMinimal(b);
    NormalizedKeepsValue(a);
    NormalizedKeepsValue(b);
  }

  // Trimming again, as is done to the decoded transaction, gives the trimmed original.
  lemma TrimAfterPadding(hex: string)
    requires IsQuantity(hex)
    ensures Trimmed(Normalized(hex)) == Trimmed(hex)
  {
    var d := hex[2..];
    var s := StripZeros(d);
    NormalizedIs(hex);
    assert hex == "0x" + d;
    TrimmedStrips(d);
    StripZerosKeeps(d);
    TrimmedStrips(s);
    TrimmedStrips("0" + s);
    assert ("0" + s)[1..] == s;
  }

  ghost predicate PrefixAt(hex: string, p: nat) {
    p <= |hex| && "0x" <= hex[p..]
  }

  // Padding writes one zero after the first `0x`, wherever that is, and nothing else.
  lemma {:induction false} PadsFirst(hex: string, p: nat)
    requires forall q: nat :: q < p ==> !PrefixAt(hex, q)
    ensures PrefixAt(hex, p) ==> PadFirst0x(hex) == hex[..p] + "0x0" + hex[p + 2..]
    ensures p >= |hex| ==> PadFirst0x(hex) == hex
  {
    if hex != "" && p > 0 {
      assert !PrefixAt(hex, 0) && hex[0..] == hex;
      var rest := hex[1..];
      forall q: nat | q < p - 1
        ensures !PrefixAt(rest, q)
      {
        assert !PrefixAt(hex, q + 1);
        assert q < |rest| ==> rest[q..] == hex[q + 1..];
      }
      PadsFirst(rest, p - 1);
      if PrefixAt(hex, p) {
        assert rest[p - 1..] == hex[p..];
        assert [hex[0]] + rest[..p - 1] == hex[..p];
      }
    }
  }

  // The minimal bytes are the big-endian ones that do not start with zero.
  lemma {:induction false} MinimalBytesAre(v: nat)
    ensures BigEndian(MinimalBytes(v)) == v
    ensures v > 0 ==> MinimalBytes(v) != [] && MinimalBytes(v)[0] != 0
    ensures v == 0 ==> MinimalBytes(v) == []
  {
    if v == 0 {
    } else {
      var bytes, w := MinimalBytes(v), v / 256;
      MinimalBytesAre(w);
      assert bytes[..|bytes| - 1] == MinimalBytes(w);
      assert w > 0 ==> bytes[0] == MinimalBytes(w)[0];
    }
  }
}
