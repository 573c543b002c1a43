/** Addresses as packages/utils/src/address.ts compares them: without a leading `0x`, in lower case. */
module Addresses {

  type Address = string

  const NULL_ADDRESS: Address := "0x0000000000000000000000000000000000000000"

  function LowerChar(c: char): char {
    if 'A' <= c <= 'Z' then (c as int + 32) as char else c
  }

  function ToLower(s: string): (r: string)
    ensures |r| == |s|
  {
    seq(|s|, i requires 0 <= i < |s| => LowerChar(s[i]))
  }

  function TrimLeading0x(s: string): string {
    if "0x" <= s then s[2..] else s
  }

  function Normalize(a: Address): string {
    ToLower(TrimLeading0x(a))
  }

  predicate EqAddress(a: Address, b: Address) {
    Normalize(a) == Normalize(b)
  }

  // The first position of an equal address, -1 when there is none.
  function FindAddressIndex(address: Address, addresses: seq<Address>): (r: int)
    ensures -1 <= r < |addresses|
    ensures r == -1 <==> forall k :: 0 <= k < |addresses| ==> !EqAddress(addresses[k], address)
    ensures r >= 0 ==> EqAddress(addresses[r], address)
    ensures forall k :: 0 <= k < r ==> !EqAddress(addresses[k], address)
  {
    if addresses == [] then -1
    else if EqAddress(addresses[0], address) then 0
    else
      var rest := FindAddressIndex(address, addresses[1..]);
      assert forall k :: 1 <= k < |addresses| ==> addresses[k] == addresses[1..][k - 1];
      if rest == -1 then -1 else rest + 1
  }
}
