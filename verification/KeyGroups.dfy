/** Splitting the validator keys into groups in packages/protocol/migrations/25_elect_validators.ts, and the
    global index that pairs each key with its attestation key. */
module KeyGroups {

  function Concat<T>(groups: seq<seq<T>>): seq<T> {
    if groups == [] then [] else Concat(groups[..|groups| - 1]) + groups[|groups| - 1]
  }

  // Every group but the last is full, none is empty.
  ghost predicate Grouped<T>(groups: seq<seq<T>>, maxGroupSize: nat) {
    forall g :: 0 <= g < |groups| ==>
      1 <= |groups[g]| <= maxGroupSize && (g < |groups| - 1 ==> |groups[g]| == maxGroupSize)
  }

  method GroupKeys<T>(valKeys: seq<T>, maxGroupSize: nat) returns (groups: seq<seq<T>>)
    requires maxGroupSize >= 1
    ensures Concat(groups) == valKeys && Grouped(groups, maxGroupSize)
  {
    groups := [];
    var i := 0;
    while i < |valKeys|
      invariant i >= 0
      invariant Concat(groups) == valKeys[..if i < |valKeys| then i else |valKeys|]
      invariant forall g :: 0 <= g < |groups| ==>
        1 <= |groups[g]| <= maxGroupSize && (g < |groups| - 1 || i < |valKeys| ==> |groups[g]| == maxGroupSize)
      decreases |valKeys| - i
    {
      var end := if i + maxGroupSize < |valKeys| then i + maxGroupSize else |valKeys|;
      var more := groups + [valKeys[i..end]];
      assert more[..|groups|] == groups;
      assert valKeys[..i] + valKeys[i..end] == valKeys[..end];
      groups := more;
      i := i + maxGroupSize;
    }
    assert valKeys[..|valKeys|] == valKeys;
  }

  // Keys with consecutive indices.
  function Numbered<T>(keys: seq<T>, from: nat): seq<(T, nat)> {
    seq(|keys|, k requires 0 <= k < |keys| => (keys[k], from + k))
  }

  // Each registration as the loop over the groups makes it: the key with index idx * maxGroupSize + i.
  function Registrations<T>(groups: seq<seq<T>>, maxGroupSize: nat): seq<(T, nat)> {
    if groups == [] then []
    else
      var idx := |groups| - 1;
      var group := groups[idx];
      Registrations(groups[..idx], maxGroupSize)
        + Numbered(group, idx * maxGroupSize)
  }

  // What precedes a group of a proper grouping has maxGroupSize keys per group.
  lemma {:induction false} FrontLength<T>(groups: seq<seq<T>>, maxGroupSize: nat, idx: nat)
    requires Grouped(groups, maxGroupSize) && idx < |groups|
    ensures |Concat(groups[..idx])| == idx * maxGroupSize
  {
    if idx == 0 {
    } else {
      FrontLength(groups, maxGroupSize, idx - 1);
      assert groups[..idx][..idx - 1] == groups[..idx - 1];
      assert (idx - 1) * maxGroupSize + maxGroupSize == idx * maxGroupSize;
    }
  }

  lemma NumberedConcat<T>(a: seq<T>, b: seq<T>)
    ensures Numbered(a, 0) + Numbered(b, |a|) == Numbered(a + b, 0)
  {
  }

  // Over all groups, the registrations are the keys in order, each with its own position as index, so the
  // key at k is paired with the attestation key at k.
  lemma {:induction false} IndicesAreGlobal<T>(groups: seq<seq<T>>, maxGroupSize: nat)
    requires Grouped(groups, maxGroupSize)
    ensures Registrations(groups, maxGroupSize) == Numbered(Concat(groups), 0)
  {
    if groups == [] {
    } else {
      var idx := |groups| - 1;
      IndicesAreGlobal(groups[..idx], maxGroupSize);
      FrontLength(groups, maxGroupSize, idx);
      NumberedConcat(Concat(groups[..idx]), groups[idx]);
    }
  }

  // Group idx member i is the key at idx * maxGroupSize + i.
  lemma {:induction false} MemberIs<T>(groups: seq<seq<T>>, maxGroupSize: nat, idx: nat, i: nat)
    requires Grouped(groups, maxGroupSize) && idx < |groups| && i < |groups[idx]|
    ensures idx * maxGroupSize + i < |Concat(groups)|
    ensures groups[idx][i] == Concat(groups)[idx * maxGroupSize + i]
  {
    FrontLength(groups, maxGroupSize, idx);
    var last := |groups| - 1;
    if idx == last {
    } else {
      MemberIs(groups[..last], maxGroupSize, idx, i);
    }
  }

  // The registration at k is that of key k with index k, over any number of groups.
  lemma RegistrationAt<T>(groups: seq<seq<T>>, maxGroupSize: nat, k: nat)
    requires Grouped(groups, maxGroupSize) && k < |Concat(groups)|
    ensures |Registrations(groups, maxGroupSize)| == |Concat(groups)|
    ensures Registrations(groups, maxGroupSize)[k] == (Concat(groups)[k], k)
  {
    IndicesAreGlobal(groups, maxGroupSize);
  }
}
