/** The vote list of packages/utils/src/collections.ts: (address, value) items, greatest value first,
    changed in place by `upsert`, which also yields the neighbours of the moved item. */
module VoteList {
  import opened Addresses
  import opened Options
  import opened Sequences

  // A finite BigNumber is a real; the list code only compares values.
  datatype Item = Item(address: Address, value: real)

  function Key(item: Item): string {
    Normalize(item.address)
  }

  function Keys(items: seq<Item>): (r: seq<string>)
    ensures |r| == |items|
  {
    seq(|items|, i requires 0 <= i < |items| => Key(items[i]))
  }

  ghost predicate Unique(items: seq<Item>) {
    forall i, j :: 0 <= i < j < |items| ==> Key(items[i]) != Key(items[j])
  }

  ghost predicate Descending(items: seq<Item>) {
    forall i, j :: 0 <= i < j < |items| ==> items[i].value >= items[j].value
  }

  predicate Has(items: seq<Item>, key: string) {
    exists i :: 0 <= i < |items| && Key(items[i]) == key
  }

  // First item with this key, |items| when there is none.
  function IndexOfKey(items: seq<Item>, key: string): (r: nat)
    ensures r <= |items|
    ensures r < |items| ==> Key(items[r]) == key
    ensures forall i :: 0 <= i < r ==> Key(items[i]) != key
  {
    if items == [] || Key(items[0]) == key then 0 else 1 + IndexOfKey(items[1..], key)
  }

  // First item with a strictly smaller value, |items| when there is none.
  function FirstBelow(items: seq<Item>, value: real): (r: nat)
    ensures r <= |items|
    ensures r < |items| ==> items[r].value < value
    ensures forall i :: 0 <= i < r ==> items[i].value >= value
  {
    if items == [] || items[0].value < value then 0 else 1 + FirstBelow(items[1..], value)
  }

  function Without(items: seq<Item>, key: string): seq<Item> {
    var i := IndexOfKey(items, key);
    if i < |items| then Cut(items, i) else items
  }

  function Insert(items: seq<Item>, item: Item): seq<Item> {
    Splice(items, FirstBelow(items, item.value), item)
  }

  // Where a change lands and the list it leaves.
  function Position(items: seq<Item>, change: Item): nat {
    FirstBelow(Without(items, Key(change)), change.value)
  }

  function Upserted(items: seq<Item>, change: Item): seq<Item> {
    Insert(Without(items, Key(change)), change)
  }

  // The list after every change, in order.
  function After(items: seq<Item>, changes: seq<Item>): seq<Item> {
    if changes == [] then items
    else Upserted(After(items, changes[..|changes| - 1]), changes[|changes| - 1])
  }

  function GreaterAt(items: seq<Item>, p: nat): Address
    requires p < |items|
  {
    if p == 0 then NULL_ADDRESS else items[p - 1].address
  }

  function LesserAt(items: seq<Item>, p: nat): Address
    requires p < |items|
  {
    if p == |items| - 1 then NULL_ADDRESS else items[p + 1].address
  }

  function GreaterHint(items: seq<Item>, change: Item): Address {
    GreaterAt(Upserted(items, change), Position(items, change))
  }

  function LesserHint(items: seq<Item>, change: Item): Address {
    LesserAt(Upserted(items, change), Position(items, change))
  }

  // One hint pair per change, each taken from the list as that change leaves it.
  function Lessers(items: seq<Item>, changes: seq<Item>): seq<Address> {
    if changes == [] then []
    else
      var before, change := changes[..|changes| - 1], changes[|changes| - 1];
      Lessers(items, before) + [LesserHint(After(items, before), change)]
  }

  function Greaters(items: seq<Item>, changes: seq<Item>): seq<Address> {
    if changes == [] then []
    else
      var before, change := changes[..|changes| - 1], changes[|changes| - 1];
      Greaters(items, before) + [GreaterHint(After(items, before), change)]
  }

  ghost predicate Known(items: seq<Item>, changes: seq<Item>) {
    forall k :: 0 <= k < |changes| ==> Has(items, Key(changes[k]))
  }

  datatype Hint = Hint(lesser: Address, greater: Address)
  datatype Changes = Changes(lessers: seq<Address>, greaters: seq<Address>, list: seq<Item>)

  class SortedList {
    var items: seq<Item>

    constructor (items: seq<Item>)
      ensures this.items == items
    {
      this.items := items;
    }

    // None is the thrown error: the address is not in the list, which then stays as it was.
    method Upsert(change: Item) returns (r: Option<nat>)
      modifies this
      ensures r.Some? <==> Has(old(items), Key(change))
      ensures r.None? ==> items == old(items)
      ensures r.Some? ==> items == Upserted(old(items), change) && r.value == Position(old(items), change)
    {
      var oldIdx := IndexOfKey(items, Key(change));
      if oldIdx == |items| {
        return None;
      }
      Slices(items, oldIdx, change);
      items := items[..oldIdx] + items[oldIdx + 1..];
      var newIdx := FirstBelow(items, change.value);
      Slices(items, newIdx, change);
      if newIdx == |items| {
        items := items + [change];
        return Some(|items| - 1);
      } else {
        items := items[..newIdx] + [change] + items[newIdx..];
        return Some(newIdx);
      }
    }

    method Change(change: Item) returns (r: Option<Hint>)
      modifies this
      ensures r.Some? <==> Has(old(items), Key(change))
      ensures r.None? ==> items == old(items)
      ensures r.Some? ==> items == Upserted(old(items), change)
      ensures r.Some? ==> r.value == Hint(LesserHint(old(items), change), GreaterHint(old(items), change))
    {
      var idx := Upsert(change);
      if idx.None? {
        return None;
      }
      var greater := if idx.value == 0 then NULL_ADDRESS else items[idx.value - 1].address;
      var lesser := if idx.value == |items| - 1 then NULL_ADDRESS else items[idx.value + 1].address;
      return Some(Hint(lesser, greater));
    }

    // Works on a clone: this list is not modified.
    method LinkedListChange(change: Item) returns (r: Option<(Hint, seq<Item>)>)
      ensures r.Some? <==> Has(items, Key(change))
      ensures r.Some? ==>
        r.value == (Hint(LesserHint(items, change), GreaterHint(items, change)), Upserted(items, change))
    {
      var clone := new SortedList(items);
      var hint := clone.Change(change);
      return if hint.None? then None else Some((hint.value, clone.items));
    }

    // Works on a clone: nothing that existed before the call is modified.
    method LinkedListChanges(changes: seq<Item>) returns (r: Option<Changes>)
      ensures r.Some? <==> Known(items, changes)
      ensures r.Some? ==> r.value.list == After(items, changes)
      ensures r.Some? ==> r.value.lessers == Lessers(items, changes)
      ensures r.Some? ==> r.value.greaters == Greaters(items, changes)
    {
      var clone := new SortedList(items);
      var lessers: seq<Address>, greaters: seq<Address> := [], [];
      for n := 0 to |changes|
        invariant fresh(clone)
        invariant Known(items, changes[..n])
        invariant clone.items == After(items, changes[..n])
        invariant lessers == Lessers(items, changes[..n])
        invariant greaters == Greaters(items, changes[..n])
      {
        AfterHas(items, changes[..n], Key(changes[n]));
        OneMore(items, changes, n);
        OneMoreKnown(items, changes, n);
        var hint := clone.Change(changes[n]);
        if hint.None? {
          return None;
        }
        lessers, greaters := lessers + [hint.value.lesser], greaters + [hint.value.greater];
      }
      assert changes[..|changes|] == changes;
      return Some(Changes(lessers, greaters, clone.items));
    }
  }

  // Unfolds one change at the end of a prefix.
  lemma OneMore(items: seq<Item>, changes: seq<Item>, n: nat)
    requires n < |changes|
    ensures After(items, changes[..n + 1]) == Upserted(After(items, changes[..n]), changes[n])
    ensures Lessers(items, changes[..n + 1])
         == Lessers(items, changes[..n]) + [LesserHint(After(items, changes[..n]), changes[n])]
    ensures Greaters(items, changes[..n + 1])
         == Greaters(items, changes[..n]) + [GreaterHint(After(items, changes[..n]), changes[n])]
  {
    assert changes[..n + 1][..n] == changes[..n];
  }

  lemma OneMoreKnown(items: seq<Item>, changes: seq<Item>, n: nat)
    requires n < |changes|
    ensures Known(items, changes[..n + 1]) <==> Known(items, changes[..n]) && Has(items, Key(changes[n]))
  {
    var more := changes[..n + 1];
    assert forall k :: 0 <= k < n ==> more[k] == changes[..n][k];
    assert more[n] == changes[n];
  }

  // ---------- what one upsert keeps ----------

  lemma WithoutHas(items: seq<Item>, key: string, other: string)
    requires other != key
    ensures Has(Without(items, key), other) <==> Has(items, other)
  {
    hide Key;
    var i, rest := IndexOfKey(items, key), Without(items, key);
    if i < |items| {
      if Has(items, other) {
        var j :| 0 <= j < |items| && Key(items[j]) == other;
        assert rest[if j < i then j else j - 1] == items[j];
      }
      if Has(rest, other) {
        var j :| 0 <= j < |rest| && Key(rest[j]) == other;
        assert items[if j < i then j else j + 1] == rest[j];
      }
    }
  }

  lemma SpliceHas(items: seq<Item>, p: nat, item: Item, key: string)
    requires p <= |items|
    ensures Has(Splice(items, p, item), key) <==> key == Key(item) || Has(items, key)
  {
    hide Key;
    var more := Splice(items, p, item);
    assert more[p] == item;
    if Has(items, key) {
      var j :| 0 <= j < |items| && Key(items[j]) == key;
      assert more[if j < p then j else j + 1] == items[j];
    }
    if Has(more, key) && key != Key(item) {
      var j :| 0 <= j < |more| && Key(more[j]) == key;
      assert items[if j < p then j else j - 1] == more[j];
    }
  }

  lemma UpsertedHas(items: seq<Item>, change: Item, key: string)
    requires Has(items, Key(change))
    ensures Has(Upserted(items, change), key) <==> Has(items, key)
  {
    var rest := Without(items, Key(change));
    SpliceHas(rest, FirstBelow(rest, change.value), change, key);
    if key != Key(change) {
      WithoutHas(items, Key(change), key);
    }
  }

  // Changes to listed addresses never add or drop an address.
  lemma {:induction false} AfterHas(items: seq<Item>, changes: seq<Item>, key: string)
    requires Known(items, changes)
    ensures Has(After(items, changes), key) <==> Has(items, key)
  {
    if changes == [] {
    } else {
      var before, change := changes[..|changes| - 1], changes[|changes| - 1];
      assert Has(items, Key(change));
      AfterHas(items, before, key);
      AfterHas(items, before, Key(change));
      UpsertedHas(After(items, before), change, key);
    }
  }

  lemma WithoutUnique(items: seq<Item>, key: string)
    requires Unique(items)
    ensures Unique(Without(items, key)) && !Has(Without(items, key), key)
    ensures |Without(items, key)| == |items| - (if Has(items, key) then 1 else 0)
  {
  }

  lemma WithoutDescending(items: seq<Item>, key: string)
    requires Descending(items)
    ensures Descending(Without(items, key))
  {
  }

  lemma InsertDescending(items: seq<Item>, item: Item)
    requires Descending(items)
    ensures Descending(Insert(items, item))
  {
  }

  lemma SpliceUnique(items: seq<Item>, p: nat, item: Item)
    requires p <= |items| && Unique(items) && !Has(items, Key(item))
    ensures Unique(Splice(items, p, item))
  {
  }

  lemma UpsertedKeeps(items: seq<Item>, change: Item)
    requires Has(items, Key(change))
    ensures Unique(items) ==> Unique(Upserted(items, change))
    ensures Descending(items) ==> Descending(Upserted(items, change))
    ensures |Upserted(items, change)| == |items|
  {
    if Unique(items) {
      WithoutUnique(items, Key(change));
      SpliceUnique(Without(items, Key(change)), Position(items, change), change);
    }
    if Descending(items) {
      WithoutDescending(items, Key(change));
      InsertDescending(Without(items, Key(change)), change);
    }
  }

  // Over every run of changes: no address is lost or doubled, and the order stays descending.
  lemma {:induction false} AfterKeeps(items: seq<Item>, changes: seq<Item>)
    requires Known(items, changes)
    ensures |After(items, changes)| == |items|
    ensures Unique(items) ==> Unique(After(items, changes))
    ensures Descending(items) ==> Descending(After(items, changes))
  {
    if changes == [] {
    } else {
      var before, change := changes[..|changes| - 1], changes[|changes| - 1];
      assert Has(items, Key(change));
      AfterKeeps(items, before);
      AfterHas(items, before, Key(change));
      UpsertedKeeps(After(items, before), change);
    }
  }
}
