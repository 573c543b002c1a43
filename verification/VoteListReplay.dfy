/** The purpose of the hints: sent to the on-chain sorted linked list one change at a time, they are
    accepted every time and make it spell out the same list. */
module VoteListReplay {
  import opened Addresses
  import opened Options
  import opened Sequences
  import opened VoteList
  import opened ChainMirror
  import C = ChainList

  // One `update` transaction per change; None when any of them reverts.
  function Replay(chain: C.SortedList, changes: seq<Item>, lessers: seq<Address>, greaters: seq<Address>)
    : Option<C.SortedList>
    requires |lessers| == |greaters| == |changes|
  {
    if changes == [] then Some(chain)
    else
      var n := |changes| - 1;
      var before := Replay(chain, changes[..n], lessers[..n], greaters[..n]);
      if before.None? then None
      else before.value.Update(Key(changes[n]), changes[n].value, Normalize(lessers[n]), Normalize(greaters[n]))
  }

  lemma NeighbourKeys(rest: seq<Item>, p: nat, change: Item)
    requires p <= |rest|
    ensures var more, keys := Splice(rest, p, change), Keys(rest);
      && Normalize(LesserAt(more, p)) == C.KeyAt(keys, p)
      && Normalize(GreaterAt(more, p)) == C.KeyAt(keys, p - 1)
  {
    hide Normalize;
    var more := Splice(rest, p, change);
    if p < |rest| { assert more[p + 1] == rest[p]; }
    if p > 0 { assert more[p - 1] == rest[p - 1]; }
  }

  lemma HintKeys(items: seq<Item>, change: Item)
    ensures var rest := Without(items, Key(change));
      var keys, p := Keys(rest), FirstBelow(rest, change.value);
      && Normalize(LesserHint(items, change)) == C.KeyAt(keys, p)
      && Normalize(GreaterHint(items, change)) == C.KeyAt(keys, p - 1)
  {
    hide Normalize, Key, Keys, Without, FirstBelow, Splice, LesserAt, GreaterAt, C.KeyAt;
    var rest := Without(items, Key(change));
    NeighbourKeys(rest, FirstBelow(rest, change.value), change);
  }

  // The hints of one change: with the item unlinked from the chain they are adjacent there, and linking it in
  // between them, without any search, gives exactly the array after the upsert.
  ghost predicate HintsLink(list: C.List, key: C.Key, lesser: C.Key, greater: C.Key, items: seq<Item>) {
    var rest := list.Remove(key);
    && rest.Some? && rest.value.Adjacent(lesser, greater)
    && var linked := list.Update(key, lesser, greater);
    && linked.Some? && C.Represents(linked.value, Keys(items))
  }

  lemma UpdateLinks(list: C.List, items: seq<Item>, change: Item)
    requires Unique(items) && C.Represents(list, Keys(items)) && Has(items, Key(change))
    ensures HintsLink(list, Key(change), Normalize(LesserHint(items, change)), Normalize(GreaterHint(items, change)),
      Upserted(items, change))
  {
    hide Normalize, Key, C.KeyAt, C.List.Remove, C.List.Insert, C.List.Adjacent, C.List.Contains;
    hide C.Represents, Without, Unique, FirstBelow, Splice, Cut, LesserHint, GreaterHint;
    var key := Key(change);
    var rest, i := Without(items, key), IndexOfKey(items, key);
    var p, keys := FirstBelow(rest, change.value), Keys(rest);
    assert Keys(items)[i] == key;
    ListedKey(list, Keys(items), i);
    C.RemoveUnlinks(list, Keys(items), i);
    KeysWithout(items, key);
    WithoutUnique(items, key);
    NotAmong(rest, key);
    HintKeys(items, change);
    C.PlaceIsAdjacent(list.Remove(key).value, keys, p);
    C.InsertLinks(list.Remove(key).value, keys, p, key);
    KeysSplice(rest, p, change);
    OthersAt(keys, p, key);
    OthersAt(keys, p as int - 1, key);
  }

  lemma NotAmong(items: seq<Item>, key: string)
    requires !Has(items, key)
    ensures key !in Keys(items)
  {
  }

  lemma ListedKey(list: C.List, keys: seq<C.Key>, i: nat)
    requires C.Represents(list, keys) && i < |keys|
    ensures keys[i] != C.ZERO && list.Contains(keys[i])
  {
    assert C.LinkedAt(list, keys, i);
  }

  lemma OthersAt(keys: seq<C.Key>, p: int, key: C.Key)
    requires key !in keys && key != C.ZERO
    ensures C.KeyAt(keys, p) != key
  {
  }

  // One change: both hints are adjacent on chain, the update is accepted and the two lists agree again.
  lemma UpdateMirrors(chain: C.SortedList, items: seq<Item>, change: Item)
    requires Mirrors(chain, items) && Descending(items) && Has(items, Key(change))
    ensures HintsLink(chain.list, Key(change),
      Normalize(LesserHint(items, change)), Normalize(GreaterHint(items, change)), Upserted(items, change))
    ensures var next := chain.Update(Key(change), change.value,
        Normalize(LesserHint(items, change)), Normalize(GreaterHint(items, change)));
      next.Some? && Mirrors(next.value, Upserted(items, change))
  {
    hide Key, Normalize, Without, LesserHint, GreaterHint, Keys, C.SortedList.Insert, C.SortedList.Remove, HintsLink;
    var key := Key(change);
    MirrorsUnique(chain, items);
    UpdateLinks(chain.list, items, change);
    RemoveMirrors(chain, items, key);
    WithoutUnique(items, key);
    WithoutDescending(items, key);
    HintKeys(items, change);
    ListedIsNotZero(chain, items, key);
    var rest := Without(items, key);
    InsertMirrors(chain.Remove(key).value, rest, FirstBelow(rest, change.value), change);
  }

  lemma ListedIsNotZero(chain: C.SortedList, items: seq<Item>, key: string)
    requires Mirrors(chain, items) && Has(items, key)
    ensures key != C.ZERO
  {
    MirrorsUnique(chain, items);
  }

  // The hints of a run are those of its prefixes.
  lemma {:induction false} PrefixHints(items: seq<Item>, changes: seq<Item>, k: nat)
    requires k <= |changes|
    ensures |Lessers(items, changes)| == |Greaters(items, changes)| == |changes|
    ensures Lessers(items, changes)[..k] == Lessers(items, changes[..k])
    ensures Greaters(items, changes)[..k] == Greaters(items, changes[..k])
    ensures k < |changes| ==>
      && Lessers(items, changes)[k] == LesserHint(After(items, changes[..k]), changes[k])
      && Greaters(items, changes)[k] == GreaterHint(After(items, changes[..k]), changes[k])
  {
    hide LesserHint, GreaterHint, After;
    if changes == [] {
    } else {
      var n := |changes| - 1;
      PrefixHints(items, changes[..n], if k <= n then k else n);
      if k <= n {
        assert changes[..n][..k] == changes[..k];
      } else {
        assert changes[..k] == changes;
      }
    }
  }

  // No update of a run reverts and the chain spells out the array at its end, still descending.
  lemma {:induction false} ReplayAgrees(chain: C.SortedList, items: seq<Item>, changes: seq<Item>)
    requires Mirrors(chain, items) && Descending(items) && Known(items, changes)
    ensures |Lessers(items, changes)| == |Greaters(items, changes)| == |changes|
    ensures var end := Replay(chain, changes, Lessers(items, changes), Greaters(items, changes));
      end.Some? && Mirrors(end.value, After(items, changes))
    ensures Descending(After(items, changes))
  {
    hide Mirrors, HintsLink, Descending, Key, Normalize, LesserHint, GreaterHint, Upserted, C.SortedList.Update;
    AfterKeeps(items, changes);
    PrefixHints(items, changes, |changes|);
    if changes == [] {
    } else {
      var n := |changes| - 1;
      var before, change := changes[..n], changes[n];
      PrefixHints(items, changes, n);
      ReplayAgrees(chain, items, before);
      KnownThen(items, changes, n);
      var middle := Replay(chain, before, Lessers(items, before), Greaters(items, before)).value;
      UpdateMirrors(middle, After(items, before), change);
    }
  }

  lemma KnownThen(items: seq<Item>, changes: seq<Item>, k: nat)
    requires Known(items, changes) && k < |changes|
    ensures Known(items, changes[..k]) && Has(After(items, changes[..k]), Key(changes[k]))
  {
    AfterHas(items, changes[..k], Key(changes[k]));
  }

  // Change k of a run, on the chain as the updates before it leave it.
  ghost predicate StepLinks(chain: C.SortedList, items: seq<Item>, changes: seq<Item>, k: nat)
    requires k < |changes| && |Lessers(items, changes)| == |Greaters(items, changes)| == |changes|
  {
    var lessers, greaters := Lessers(items, changes), Greaters(items, changes);
    var middle := Replay(chain, changes[..k], lessers[..k], greaters[..k]);
    && middle.Some?
    && HintsLink(middle.value.list, Key(changes[k]), Normalize(lessers[k]), Normalize(greaters[k]),
         After(items, changes[..k + 1]))
  }

  lemma EveryStepLinks(chain: C.SortedList, items: seq<Item>, changes: seq<Item>, k: nat)
    requires Mirrors(chain, items) && Descending(items) && Known(items, changes) && k < |changes|
    ensures |Lessers(items, changes)| == |Greaters(items, changes)| == |changes|
    ensures StepLinks(chain, items, changes, k)
  {
    hide Mirrors, HintsLink, Descending, Known, Key, Normalize, LesserHint, GreaterHint, Upserted, Replay;
    var before := changes[..k];
    PrefixHints(items, changes, k);
    KnownThen(items, changes, k);
    ReplayAgrees(chain, items, before);
    OneMore(items, changes, k);
    UpdateMirrors(Replay(chain, before, Lessers(items, before), Greaters(items, before)).value,
      After(items, before), changes[k]);
  }

  // Every run of changes to listed addresses, whatever the values and however often one address is
  // changed: at every step both hints are the neighbours on chain between which the item goes, no update
  // reverts, and after each of them the chain spells out the array, still descending.
  lemma ReplayMirrors(chain: C.SortedList, items: seq<Item>, changes: seq<Item>)
    requires Mirrors(chain, items) && Descending(items) && Known(items, changes)
    ensures |Lessers(items, changes)| == |Greaters(items, changes)| == |changes|
    ensures forall k :: 0 <= k < |changes| ==> StepLinks(chain, items, changes, k)
    ensures var end := Replay(chain, changes, Lessers(items, changes), Greaters(items, changes));
      end.Some? && Mirrors(end.value, After(items, changes))
    ensures Descending(After(items, changes))
  {
    hide Mirrors, StepLinks, Descending, Known, Replay;
    ReplayAgrees(chain, items, changes);
    forall k | 0 <= k < |changes|
      ensures StepLinks(chain, items, changes, k)
    {
      EveryStepLinks(chain, items, changes, k);
    }
  }
}
