/** When the on-chain sorted list spells out a given list of items, and what keeps it so. */
module ChainMirror {
  import opened Addresses
  import opened Options
  import opened Sequences
  import opened VoteList
  import C = ChainList

  // The chain list has the items' keys in order, from greatest to smallest, with their values.
  ghost predicate Mirrors(chain: C.SortedList, items: seq<Item>) {
    && C.Represents(chain.list, Keys(items))
    && forall i :: 0 <= i < |items| ==> chain.Value(Key(items[i])) == items[i].value
  }

  lemma MirrorsUnique(chain: C.SortedList, items: seq<Item>)
    requires Mirrors(chain, items)
    ensures Unique(items)
    ensures forall key :: key in Keys(items) <==> Has(items, key)
  {
    forall i, j | 0 <= i < j < |items|
      ensures Key(items[i]) != Key(items[j])
    {
      assert Keys(items)[i] != Keys(items)[j];
    }
    forall key | Has(items, key)
      ensures key in Keys(items)
    {
      var i :| 0 <= i < |items| && Key(items[i]) == key;
      assert Keys(items)[i] == key;
    }
  }

  lemma KeysWithout(items: seq<Item>, key: string)
    requires Has(items, key)
    ensures Keys(Without(items, key)) == Cut(Keys(items), IndexOfKey(items, key))
  {
    hide Key;
  }

  lemma KeysSplice(items: seq<Item>, p: nat, item: Item)
    requires p <= |items|
    ensures Keys(Splice(items, p, item)) == Splice(Keys(items), p, Key(item))
  {
  }

  lemma RemoveOnList(chain: C.SortedList, key: C.Key)
    requires chain.list.Remove(key).Some?
    ensures chain.Remove(key).Some? && chain.Remove(key).value.list == chain.list.Remove(key).value
  {
  }

  lemma InsertOnList(chain: C.SortedList, key: C.Key, value: real, lesser: C.Key, greater: C.Key)
    requires key != C.ZERO && key != lesser && key != greater && !chain.list.Contains(key)
    requires lesser == greater == C.ZERO ==> chain.list.numElements == 0
    requires lesser != C.ZERO ==> chain.list.Contains(lesser)
    requires greater != C.ZERO ==> chain.list.Contains(greater)
    requires chain.GetLesserAndGreater(value, lesser, greater) == Some((lesser, greater))
    requires chain.list.Insert(key, lesser, greater).Some?
    ensures var more := chain.Insert(key, value, lesser, greater);
      more.Some? && more.value.list == chain.list.Insert(key, lesser, greater).value
  {
  }

  lemma RemoveMirrors(chain: C.SortedList, items: seq<Item>, key: string)
    requires Mirrors(chain, items) && Has(items, key)
    ensures chain.Remove(key).Some?
    ensures Mirrors(chain.Remove(key).value, Without(items, key))
  {
    MirrorsUnique(chain, items);
    var i, keys := IndexOfKey(items, key), Keys(items);
    C.RemoveUnlinks(chain.list, keys, i);
    RemoveOnList(chain, key);
    KeysWithout(items, key);
    RemoveValues(chain, items, key);
  }

  lemma RemoveValues(chain: C.SortedList, items: seq<Item>, key: string)
    requires Unique(items) && Has(items, key) && chain.Remove(key).Some?
    requires forall i :: 0 <= i < |items| ==> chain.Value(Key(items[i])) == items[i].value
    ensures var rest, left := chain.Remove(key).value, Without(items, key);
      forall j :: 0 <= j < |left| ==> rest.Value(Key(left[j])) == left[j].value
  {
  }

  // A place for a value in a descending list; there is more than one when the value is already there.
  ghost predicate Fits(items: seq<Item>, p: nat, value: real) {
    && p <= |items|
    && (p > 0 ==> items[p - 1].value >= value)
    && (p < |items| ==> items[p].value <= value)
  }

  lemma ValueAt(chain: C.SortedList, items: seq<Item>, i: int)
    requires Mirrors(chain, items)
    ensures 0 <= i < |items| <==> C.KeyAt(Keys(items), i) != C.ZERO
    ensures 0 <= i < |items| ==>
      && chain.Value(C.KeyAt(Keys(items), i)) == items[i].value
      && chain.list.Get(C.KeyAt(Keys(items), i))
         == C.Element(C.KeyAt(Keys(items), i + 1), C.KeyAt(Keys(items), i - 1), true)
  {
    if 0 <= i < |items| {
      assert C.LinkedAt(chain.list, Keys(items), i);
      assert Keys(items)[i] == Key(items[i]);
    }
  }

  // Wherever the value fits, ties included, the contract's own search for the neighbours settles on the
  // two keys around that place.
  lemma HintsAreKept(chain: C.SortedList, items: seq<Item>, p: nat, value: real)
    requires Mirrors(chain, items) && Fits(items, p, value)
    ensures var keys := Keys(items);
      chain.GetLesserAndGreater(value, C.KeyAt(keys, p), C.KeyAt(keys, p - 1))
        == Some((C.KeyAt(keys, p), C.KeyAt(keys, p - 1)))
  {
    ValueAt(chain, items, p);
    ValueAt(chain, items, p - 1);
  }

  lemma InsertValues(chain: C.SortedList, items: seq<Item>, p: nat, item: Item, lesser: C.Key, greater: C.Key)
    requires p <= |items| && !Has(items, Key(item)) && chain.Insert(Key(item), item.value, lesser, greater).Some?
    requires forall i :: 0 <= i < |items| ==> chain.Value(Key(items[i])) == items[i].value
    ensures var more, right := chain.Insert(Key(item), item.value, lesser, greater).value, Splice(items, p, item);
      forall j :: 0 <= j < |right| ==> more.Value(Key(right[j])) == right[j].value
  {
  }

  lemma InsertMirrors(chain: C.SortedList, items: seq<Item>, p: nat, item: Item)
    requires Mirrors(chain, items) && Fits(items, p, item.value)
    requires !Has(items, Key(item)) && Key(item) != C.ZERO
    ensures var keys := Keys(items);
      var more := chain.Insert(Key(item), item.value, C.KeyAt(keys, p), C.KeyAt(keys, p - 1));
      more.Some? && Mirrors(more.value, Splice(items, p, item))
  {
    hide Key, Normalize;
    MirrorsUnique(chain, items);
    var key, keys := Key(item), Keys(items);
    HintsAreKept(chain, items, p, item.value);
    C.InsertLinks(chain.list, keys, p, key);
    if p < |items| { assert C.LinkedAt(chain.list, keys, p); }
    if p > 0 { assert C.LinkedAt(chain.list, keys, p - 1); }
    InsertOnList(chain, key, item.value, C.KeyAt(keys, p), C.KeyAt(keys, p - 1));
    KeysSplice(items, p, item);
    InsertValues(chain, items, p, item, C.KeyAt(keys, p), C.KeyAt(keys, p - 1));
  }

  // The place the contract settles on for two hinted positions, |items| and -1 standing for no hint.
  ghost function Settled(items: seq<Item>, lesser: nat, greater: int, value: real): (p: nat)
    requires lesser <= |items| && -1 <= greater < |items|
    requires Fits(items, lesser, value) || Fits(items, greater + 1, value)
    ensures Fits(items, p, value)
  {
    if lesser == |items| && Fits(items, lesser, value) then lesser
    else if greater == -1 && Fits(items, 0, value) then 0
    else if Fits(items, lesser, value) then lesser
    else greater + 1
  }

  lemma Ends(chain: C.SortedList, items: seq<Item>)
    requires Mirrors(chain, items)
    ensures chain.list.head == C.KeyAt(Keys(items), 0)
    ensures chain.list.tail == C.KeyAt(Keys(items), |items| - 1)
  {
  }

  lemma BetweenIsFits(chain: C.SortedList, items: seq<Item>, p: nat, value: real)
    requires Mirrors(chain, items) && p <= |items|
    ensures chain.IsValueBetween(value, C.KeyAt(Keys(items), p), C.KeyAt(Keys(items), p - 1)) <==> Fits(items, p, value)
  {
    ValueAt(chain, items, p);
    ValueAt(chain, items, p - 1);
  }

  // What the contract's search makes of the hints.
  lemma SearchResult(chain: C.SortedList, items: seq<Item>, lesser: nat, greater: int, value: real)
    requires Mirrors(chain, items) && lesser <= |items| && -1 <= greater < |items|
    ensures var keys := Keys(items);
      chain.GetLesserAndGreater(value, C.KeyAt(keys, lesser), C.KeyAt(keys, greater)) ==
        if Fits(items, lesser, value) || Fits(items, greater + 1, value) then
          var p := Settled(items, lesser, greater, value);
          Some((C.KeyAt(keys, p), C.KeyAt(keys, p - 1)))
        else None
  {
    hide Key, Normalize, Mirrors, Keys, Fits;
    hide C.KeyAt, C.List.Get, C.SortedList.Value, C.SortedList.IsValueBetween;
    Ends(chain, items);
    ValueAt(chain, items, lesser);
    ValueAt(chain, items, greater);
    BetweenIsFits(chain, items, 0, value);
    BetweenIsFits(chain, items, |items|, value);
    BetweenIsFits(chain, items, lesser, value);
    BetweenIsFits(chain, items, greater + 1, value);
  }

  // The insertion only depends on the hints through the search.
  lemma InsertDependsOnSearch(chain: C.SortedList, items: seq<Item>, item: Item, lesser: nat, greater: int, p: nat)
    requires Mirrors(chain, items) && lesser <= |items| && -1 <= greater < |items|
    requires lesser == |items| && greater == -1 ==> items == []
    requires p <= |items| && !Has(items, Key(item)) && Key(item) != C.ZERO
    requires var keys := Keys(items);
      && chain.GetLesserAndGreater(item.value, C.KeyAt(keys, lesser), C.KeyAt(keys, greater))
         == Some((C.KeyAt(keys, p), C.KeyAt(keys, p - 1)))
      && chain.GetLesserAndGreater(item.value, C.KeyAt(keys, p), C.KeyAt(keys, p - 1))
         == Some((C.KeyAt(keys, p), C.KeyAt(keys, p - 1)))
      && chain.Insert(Key(item), item.value, C.KeyAt(keys, p), C.KeyAt(keys, p - 1)).Some?
    ensures var keys := Keys(items);
      chain.Insert(Key(item), item.value, C.KeyAt(keys, lesser), C.KeyAt(keys, greater))
        == chain.Insert(Key(item), item.value, C.KeyAt(keys, p), C.KeyAt(keys, p - 1))
  {
    hide Key, Normalize, C.SortedList.GetLesserAndGreater, C.List.Insert;
    var keys := Keys(items);
    MirrorsUnique(chain, items);
    ValueAt(chain, items, lesser);
    ValueAt(chain, items, greater);
    assert C.KeyAt(keys, lesser) != Key(item) && C.KeyAt(keys, greater) != Key(item);
  }

  lemma InsertNeedsHint(chain: C.SortedList, items: seq<Item>, key: C.Key, value: real)
    requires Mirrors(chain, items) && items != []
    ensures chain.Insert(key, value, C.ZERO, C.ZERO).None?
  {
  }

  lemma InsertNeedsSearch(chain: C.SortedList, key: C.Key, value: real, lesser: C.Key, greater: C.Key)
    requires chain.GetLesserAndGreater(value, lesser, greater).None?
    ensures chain.Insert(key, value, lesser, greater).None?
  {
  }

  // Whatever listed keys are hinted at, or none: the contract accepts them exactly when one of them is a
  // direct neighbour of a place where the value fits, and not both are missing on a list that has items; then
  // the item is linked in at such a place.
  lemma OneGoodHintIsEnough(chain: C.SortedList, items: seq<Item>, item: Item, lesser: nat, greater: int)
    requires Mirrors(chain, items) && lesser <= |items| && -1 <= greater < |items|
    requires !Has(items, Key(item)) && Key(item) != C.ZERO
    ensures var keys := Keys(items);
      var more := chain.Insert(Key(item), item.value, C.KeyAt(keys, lesser), C.KeyAt(keys, greater));
      && (more.Some? <==>
        && (Fits(items, lesser, item.value) || Fits(items, greater + 1, item.value))
        && (lesser == |items| && greater == -1 ==> items == []))
      && (more.Some? ==> exists p :: Fits(items, p, item.value) && Mirrors(more.value, Splice(items, p, item)))
  {
    hide Key, Normalize, C.SortedList.Insert, C.SortedList.GetLesserAndGreater;
    var keys, value := Keys(items), item.value;
    MirrorsUnique(chain, items);
    SearchResult(chain, items, lesser, greater, value);
    if lesser == |items| && greater == -1 && items != [] {
      InsertNeedsHint(chain, items, Key(item), value);
    } else if Fits(items, lesser, value) || Fits(items, greater + 1, value) {
      var p := Settled(items, lesser, greater, value);
      HintsAreKept(chain, items, p, value);
      InsertMirrors(chain, items, p, item);
      InsertDependsOnSearch(chain, items, item, lesser, greater, p);
    } else {
      InsertNeedsSearch(chain, Key(item), value, C.KeyAt(keys, lesser), C.KeyAt(keys, greater));
    }
  }

  // A hinted key that is not listed is refused.
  lemma UnlistedHintIsRefused(
    chain: C.SortedList, items: seq<Item>, key: C.Key, value: real, lesser: C.Key, greater: C.Key)
    requires Mirrors(chain, items)
    requires (lesser != C.ZERO && !Has(items, lesser)) || (greater != C.ZERO && !Has(items, greater))
    ensures chain.Insert(key, value, lesser, greater).None?
  {
    hide Key, Normalize, C.SortedList.GetLesserAndGreater, C.List.Insert;
    MirrorsUnique(chain, items);
  }

  // So is a key that is listed already, or zero, or its own hint.
  lemma UnfitKeyIsRefused(
    chain: C.SortedList, items: seq<Item>, key: C.Key, value: real, lesser: C.Key, greater: C.Key)
    requires Mirrors(chain, items)
    requires Has(items, key) || key == C.ZERO || key == lesser || key == greater
    ensures chain.Insert(key, value, lesser, greater).None?
  {
    hide Key, Normalize, C.SortedList.GetLesserAndGreater, C.List.Insert;
    MirrorsUnique(chain, items);
    C.ListedIff(chain.list, Keys(items), key);
  }

  // Any descending list of distinct non-zero addresses is spelled out by some chain list, built by insertions.
  lemma {:induction false} ChainExists(items: seq<Item>) returns (chain: C.SortedList)
    requires Unique(items) && Descending(items) && !Has(items, C.ZERO)
    ensures Mirrors(chain, items)
  {
    if items == [] {
      return C.SortedList(C.List(C.ZERO, C.ZERO, 0, map[]), map[]);
    }
    hide Key, Normalize;
    var n := |items| - 1;
    assert forall i :: 0 <= i < n ==> items[..n][i] == items[i];
    var before := ChainExists(items[..n]);
    assert !Has(items[..n], Key(items[n]));
    InsertMirrors(before, items[..n], n, items[n]);
    assert Splice(items[..n], n, items[n]) == items;
    var keys := Keys(items[..n]);
    chain := before.Insert(Key(items[n]), items[n].value, C.KeyAt(keys, n), C.KeyAt(keys, n as int - 1)).value;
  }
}
