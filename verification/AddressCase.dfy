/** What address equality means for hex addresses: packages/utils/src/address.ts ignores the case of the digits
    and a leading `0x`, so equal addresses are equal numbers. */
module AddressCase {
  import opened Addresses
  import opened AddressMapping
  import opened VoteList
  import Hex

  function DigitsOf(a: Address): string {
    if "0x" <= a then a[2..] else a
  }

  predicate IsHexAddress(a: Address) {
    Hex.IsHex(DigitsOf(a))
  }

  // Lower case keeps every character but the capital letters, and leaves none of these.
  lemma NoCapitalIsLeft(s: string)
    ensures |ToLower(s)| == |s| && ToLower(ToLower(s)) == ToLower(s)
    ensures forall i :: 0 <= i < |s| ==> !('A' <= ToLower(s)[i] <= 'Z')
    ensures forall i :: 0 <= i < |s| ==> (ToLower(s)[i] == s[i] <==> !('A' <= s[i] <= 'Z'))
  {
  }

  // As many hex digits, with the same values.
  ghost predicate SameDigits(d: string, e: string) {
    && |d| == |e|
    && forall i :: 0 <= i < |d| ==>
      Hex.IsDigit(d[i]) && Hex.IsDigit(e[i]) && Hex.DigitValue(d[i]) == Hex.DigitValue(e[i])
  }

  lemma LowerDigits(c: char, e: char)
    requires Hex.IsDigit(c) && Hex.IsDigit(e)
    ensures LowerChar(c) == LowerChar(e) <==> Hex.DigitValue(c) == Hex.DigitValue(e)
  {
  }

  // Addresses in any case, each with or without `0x`, are equal exactly when their digits have equal values.
  lemma EqAddressIff(a: Address, b: Address)
    requires IsHexAddress(a) && IsHexAddress(b)
    ensures EqAddress(a, b) <==> SameDigits(DigitsOf(a), DigitsOf(b))
  {
    hide LowerChar, Hex.DigitValue, Hex.IsDigit;
    var d, e := DigitsOf(a), DigitsOf(b);
    forall i | 0 <= i < |d| && i < |e|
      ensures LowerChar(d[i]) == LowerChar(e[i]) <==> Hex.DigitValue(d[i]) == Hex.DigitValue(e[i])
    {
      LowerDigits(d[i], e[i]);
    }
    assert Normalize(a) == ToLower(d) && Normalize(b) == ToLower(e);
    if ToLower(d) == ToLower(e) {
      assert forall i :: 0 <= i < |d| ==> ToLower(d)[i] == LowerChar(d[i]) && ToLower(e)[i] == LowerChar(e[i]);
    }
  }

  // Digits of one length have equal values exactly when they read as the same number.
  lemma {:induction false} SameDigitsIff(d: string, e: string)
    requires Hex.IsHex(d) && Hex.IsHex(e) && |d| == |e|
    ensures SameDigits(d, e) <==> Hex.Parse(d) == Hex.Parse(e)
  {
    if d == "" {
    } else {
      var n := |d| - 1;
      SameDigitsIff(d[..n], e[..n]);
      DigitIsSmall(d[n]);
      DigitIsSmall(e[n]);
      hide Hex.DigitValue;
      assert SameDigits(d, e) <==> SameDigits(d[..n], e[..n]) && Hex.DigitValue(d[n]) == Hex.DigitValue(e[n]);
    }
  }

  lemma DigitIsSmall(c: char)
    requires Hex.IsDigit(c)
    ensures Hex.DigitValue(c) < 16
  {
  }

  // In particular two addresses of 40 digits are equal exactly when they are the same number.
  lemma EqualNumbers(a: Address, b: Address)
    requires IsHexAddress(a) && IsHexAddress(b) && |DigitsOf(a)| == |DigitsOf(b)| == 40
    ensures EqAddress(a, b) <==> Hex.Parse(DigitsOf(a)) == Hex.Parse(DigitsOf(b))
  {
    EqAddressIff(a, b);
    SameDigitsIff(DigitsOf(a), DigitsOf(b));
  }

  lemma {:induction false} ZerosAreZero(d: string)
    requires forall i :: 0 <= i < |d| ==> d[i] == '0'
    ensures Hex.IsHex(d) && Hex.Parse(d) == 0
  {
    if d == "" {
    } else {
      ZerosAreZero(d[..|d| - 1]);
    }
  }

  lemma NullAddressDigits()
    ensures "0x" <= NULL_ADDRESS && |NULL_ADDRESS| == 42
    ensures forall i :: 2 <= i < 42 ==> NULL_ADDRESS[i] == '0'
  {
  }

  // The null address is the number zero, as an address of 40 digits.
  lemma NullAddressIsZero(a: Address)
    requires IsHexAddress(a) && |DigitsOf(a)| == 40
    ensures IsHexAddress(NULL_ADDRESS) && |DigitsOf(NULL_ADDRESS)| == 40
    ensures EqAddress(a, NULL_ADDRESS) <==> Hex.Parse(DigitsOf(a)) == 0
  {
    hide NULL_ADDRESS;
    NullAddressDigits();
    var d := DigitsOf(NULL_ADDRESS);
    ZerosAreZero(d);
    EqualNumbers(a, NULL_ADDRESS);
  }

  // ---------- what finds an address however it is written ----------

  lemma FoundHoweverWritten(address: Address, addresses: seq<Address>)
    requires IsHexAddress(address) && forall k :: 0 <= k < |addresses| ==> IsHexAddress(addresses[k])
    ensures var r := FindAddressIndex(address, addresses);
      && (r == -1 <==> forall k :: 0 <= k < |addresses| ==> !SameDigits(DigitsOf(addresses[k]), DigitsOf(address)))
      && (r >= 0 ==> SameDigits(DigitsOf(addresses[r]), DigitsOf(address)))
      && (forall k :: 0 <= k < r ==> !SameDigits(DigitsOf(addresses[k]), DigitsOf(address)))
  {
    hide DigitsOf, SameDigits, EqAddress, Hex.IsHex;
    forall k | 0 <= k < |addresses|
      ensures EqAddress(addresses[k], address) <==> SameDigits(DigitsOf(addresses[k]), DigitsOf(address))
    {
      EqAddressIff(addresses[k], address);
    }
  }

  // An upsert fails exactly when no listed address has the digits of the changed one.
  lemma UpsertFindsHoweverWritten(items: seq<Item>, change: Item)
    requires IsHexAddress(change.address) && forall i :: 0 <= i < |items| ==> IsHexAddress(items[i].address)
    ensures Has(items, Key(change)) <==>
      exists i :: 0 <= i < |items| && SameDigits(DigitsOf(items[i].address), DigitsOf(change.address))
  {
    hide DigitsOf, SameDigits, Hex.IsHex, Normalize;
    forall i | 0 <= i < |items|
      ensures Key(items[i]) == Key(change) <==> SameDigits(DigitsOf(items[i].address), DigitsOf(change.address))
    {
      EqAddressIff(items[i].address, change.address);
    }
  }

  // The join pairs up addresses exactly by their digits.
  lemma JoinedHoweverWritten(oldAddress: seq<Address>, newAddress: seq<Address>, i: nat, j: nat)
    requires i < |oldAddress| && j < |newAddress| && IsHexAddress(oldAddress[i]) && IsHexAddress(newAddress[j])
    ensures NormalizeAll(oldAddress)[i] == NormalizeAll(newAddress)[j] <==>
      SameDigits(DigitsOf(oldAddress[i]), DigitsOf(newAddress[j]))
  {
    EqAddressIff(oldAddress[i], newAddress[j]);
  }
}
