/** What a run of changes amounts to: the last write of each address wins, and the final order is the
    stable descending sort by arrival. */
module VoteListOrder {
  import opened Sequences
  import opened VoteList

  // The items in the order they were last written: unchanged ones first, as listed.
  function Arrivals(items: seq<Item>, changes: seq<Item>): seq<Item> {
    if changes == [] then items
    else
      var change := changes[|changes| - 1];
      Without(Arrivals(items, changes[..|changes| - 1]), Key(change)) + [change]
  }

  // Stable insertion sort, greatest value first.
  function Sort(items: seq<Item>): seq<Item> {
    if items == [] then [] else Insert(Sort(items[..|items| - 1]), items[|items| - 1])
  }

  function LastWrite(items: seq<Item>, changes: seq<Item>, key: string): Item
    requires Has(items, key)
  {
    if changes == [] then items[IndexOfKey(items, key)]
    else if Key(changes[|changes| - 1]) == key then changes[|changes| - 1]
    else LastWrite(items, changes[..|changes| - 1], key)
  }

  ghost predicate DistinctValues(items: seq<Item>) {
    forall i, j :: 0 <= i < j < |items| ==> items[i].value != items[j].value
  }

  // ---------- facts about the sort ----------

  lemma {:induction false} SortSorts(items: seq<Item>)
    ensures Descending(Sort(items))
    ensures Descending(items) ==> Sort(items) == items
  {
    hide Descending;
    NothingToSort();
    if items == [] {
    } else {
      var n := |items| - 1;
      SortSorts(items[..n]);
      InsertDescending(Sort(items[..n]), items[n]);
      if Descending(items) {
        InsertSmallest(items);
      }
    }
  }

  lemma NothingToSort()
    ensures Descending([])
  {
  }

  // The last item of a descending list goes last.
  lemma InsertSmallest(items: seq<Item>)
    requires items != [] && Descending(items)
    ensures var n := |items| - 1;
      Descending(items[..n]) && Insert(items[..n], items[n]) == items
  {
    var n := |items| - 1;
    assert FirstBelow(items[..n], items[n].value) == n;
    Slices(items[..n], n, items[n]);
  }

  // The items with one value, in their order.
  function WithValue(items: seq<Item>, value: real): seq<Item> {
    if items == [] then []
    else
      var front, last := WithValue(items[..|items| - 1], value), items[|items| - 1];
      if last.value == value then front + [last] else front
  }

  lemma {:induction false} WithValueConcat(a: seq<Item>, b: seq<Item>, value: real)
    ensures WithValue(a + b, value) == WithValue(a, value) + WithValue(b, value)
  {
    if b == [] {
      assert a + b == a;
    } else {
      var n := |b| - 1;
      WithValueConcat(a, b[..n], value);
      assert (a + b)[..|a + b| - 1] == a + b[..n] && (a + b)[|a + b| - 1] == b[n];
    }
  }

  lemma {:induction false} WithValueBelow(items: seq<Item>, value: real)
    requires forall i :: 0 <= i < |items| ==> items[i].value < value
    ensures WithValue(items, value) == []
  {
    if items == [] {
    } else {
      WithValueBelow(items[..|items| - 1], value);
    }
  }

  lemma WithValueInsert(items: seq<Item>, item: Item, value: real)
    requires Descending(items)
    ensures WithValue(Insert(items, item), value)
         == WithValue(items, value) + if item.value == value then [item] else []
  {
    hide WithValue, FirstBelow, Splice, Descending;
    var p := FirstBelow(items, item.value);
    var low, high := items[..p], items[p..];
    Slices(items, p, item);
    assert items == low + high;
    NoneBelow(items, item.value);
    WithValueLast(low, item, value);
    WithValueConcat(low, high, value);
    WithValueConcat(low + [item], high, value);
  }

  // Nothing of a value lies from its insertion point on.
  lemma NoneBelow(items: seq<Item>, value: real)
    requires Descending(items)
    ensures WithValue(items[FirstBelow(items, value)..], value) == []
  {
    var p := FirstBelow(items, value);
    assert forall i :: p <= i < |items| ==> items[i].value < value;
    WithValueBelow(items[p..], value);
  }

  lemma WithValueLast(items: seq<Item>, item: Item, value: real)
    ensures WithValue(items + [item], value) == WithValue(items, value) + if item.value == value then [item] else []
  {
    assert (items + [item])[..|items|] == items;
  }

  // Among equal values the sort keeps the given order.
  lemma {:induction false} SortIsStable(items: seq<Item>, value: real)
    ensures WithValue(Sort(items), value) == WithValue(items, value)
  {
    if items == [] {
    } else {
      var n := |items| - 1;
      SortIsStable(items[..n], value);
      SortSorts(items[..n]);
      WithValueInsert(Sort(items[..n]), items[n], value);
    }
  }

  lemma {:induction false} SortHas(items: seq<Item>, key: string)
    ensures Has(Sort(items), key) <==> Has(items, key)
  {
    if items == [] {
    } else {
      var n := |items| - 1;
      var sorted := Sort(items[..n]);
      SortHas(items[..n], key);
      SpliceHas(sorted, FirstBelow(sorted, items[n].value), items[n], key);
      SpliceHas(items[..n], n, items[n], key);
      assert Splice(items[..n], n, items[n]) == items;
    }
  }

  lemma FirstBelowIs(items: seq<Item>, value: real, p: nat)
    requires Descending(items) && p <= |items|
    requires p > 0 ==> items[p - 1].value >= value
    requires p < |items| ==> items[p].value < value
    ensures FirstBelow(items, value) == p
  {
  }

  lemma IndexOfKeyIs(items: seq<Item>, key: string, i: nat)
    requires i < |items| && Key(items[i]) == key && forall j :: 0 <= j < i ==> Key(items[j]) != key
    ensures IndexOfKey(items, key) == i
  {
  }

  lemma WithoutAbsent(items: seq<Item>, key: string)
    requires !Has(items, key)
    ensures Without(items, key) == items
  {
  }

  // Removing the item just inserted undoes the insertion.
  lemma WithoutOwnInsert(items: seq<Item>, item: Item)
    requires !Has(items, Key(item))
    ensures Without(Insert(items, item), Key(item)) == items
  {
    var p, more := FirstBelow(items, item.value), Insert(items, item);
    assert forall j :: 0 <= j < p ==> more[j] == items[j];
    IndexOfKeyIs(more, Key(item), p);
    CutOwnSplice(items, p, item);
  }

  lemma IndexOfKeySplice(items: seq<Item>, p: nat, item: Item, key: string)
    requires p <= |items| && IndexOfKey(items, key) < |items| && Key(item) != key
    ensures var i := IndexOfKey(items, key);
      IndexOfKey(Splice(items, p, item), key) == if i < p then i else i + 1
  {
    hide Key;
    var i, more := IndexOfKey(items, key), Splice(items, p, item);
    assert forall j :: 0 <= j < |more| ==> more[j] == if j < p then items[j] else if j == p then item else items[j - 1];
    IndexOfKeyIs(more, key, if i < p then i else i + 1);
  }

  lemma WithoutOtherInsert(items: seq<Item>, item: Item, key: string)
    requires Descending(items) && Key(item) != key
    ensures Without(Insert(items, item), key) == Insert(Without(items, key), item)
  {
    hide Key, Cut, Splice;
    var p, i := FirstBelow(items, item.value), IndexOfKey(items, key);
    if i < |items| {
      IndexOfKeySplice(items, p, item, key);
      FirstBelowCut(items, i, item.value);
      CutOfSplice(items, i, p, item);
    } else {
      SpliceHas(items, p, item, key);
      WithoutAbsent(items, key);
      WithoutAbsent(Splice(items, p, item), key);
    }
  }

  lemma FirstBelowCut(items: seq<Item>, i: nat, value: real)
    requires Descending(items) && i < |items|
    ensures var p := FirstBelow(items, value);
      FirstBelow(Cut(items, i), value) == if i < p then p - 1 else p
  {
    var p := FirstBelow(items, value);
    FirstBelowIs(Cut(items, i), value, if i < p then p - 1 else p);
  }

  lemma WithoutAppend(items: seq<Item>, item: Item, key: string)
    requires Unique(items + [item])
    ensures Without(items + [item], key) == if Key(item) == key then items else Without(items, key) + [item]
  {
    hide Key;
    var more, i := items + [item], IndexOfKey(items, key);
    if Key(item) == key {
      assert forall j :: 0 <= j < |items| ==> more[j] == items[j];
      IndexOfKeyIs(more, key, |items|);
    } else if i < |items| {
      IndexOfKeyIs(more, key, i);
    } else {
      SpliceHas(items, |items|, item, key);
      assert Splice(items, |items|, item) == more;
      WithoutAbsent(more, key);
    }
  }

  // Sorting and taking one address out commute.
  lemma {:induction false} SortWithout(items: seq<Item>, key: string)
    requires Unique(items)
    ensures Without(Sort(items), key) == Sort(Without(items, key))
  {
    hide Key, Insert, Without;
    if items == [] {
      WithoutAbsent(items, key);
    } else {
      var n := |items| - 1;
      var front, last := items[..n], items[n];
      assert items == front + [last];
      WithoutAppend(front, last, key);
      SortSorts(front);
      if Key(last) == key {
        SortHas(front, key);
        WithoutOwnInsert(Sort(front), last);
      } else {
        SortWithout(front, key);
        WithoutOtherInsert(Sort(front), last, key);
        assert (Without(front, key) + [last])[..|Without(front, key)|] == Without(front, key);
      }
    }
  }

  lemma ArrivalUnique(items: seq<Item>, change: Item)
    requires Unique(items)
    ensures Unique(Without(items, Key(change)) + [change])
  {
    WithoutUnique(items, Key(change));
    var rest := Without(items, Key(change));
    SpliceUnique(rest, |rest|, change);
    assert Splice(rest, |rest|, change) == rest + [change];
  }

  lemma {:induction false} ArrivalsUnique(items: seq<Item>, changes: seq<Item>)
    requires Unique(items)
    ensures Unique(Arrivals(items, changes))
  {
    if changes == [] {
    } else {
      ArrivalsUnique(items, changes[..|changes| - 1]);
      ArrivalUnique(Arrivals(items, changes[..|changes| - 1]), changes[|changes| - 1]);
    }
  }

  // ---------- what a run of changes computes ----------

  // One upsert on a sorted list is: write the item last, then sort.
  lemma UpsertedIsSort(items: seq<Item>, change: Item)
    requires Unique(items)
    ensures Upserted(Sort(items), change) == Sort(Without(items, Key(change)) + [change])
  {
    SortWithout(items, Key(change));
    var rest := Without(items, Key(change));
    assert (rest + [change])[..|rest|] == rest;
  }

  // Ties included, the final list is the stable sort of the items by last write.
  lemma {:induction false} AfterIsSortOfArrivals(items: seq<Item>, changes: seq<Item>)
    requires Unique(items) && Descending(items)
    ensures After(items, changes) == Sort(Arrivals(items, changes))
  {
    SortSorts(items);
    if changes == [] {
    } else {
      var before, change := changes[..|changes| - 1], changes[|changes| - 1];
      AfterIsSortOfArrivals(items, before);
      ArrivalsUnique(items, before);
      UpsertedIsSort(Arrivals(items, before), change);
    }
  }

  lemma UpsertedItems(items: seq<Item>, change: Item, item: Item)
    requires Unique(items)
    ensures item in Upserted(items, change) <==> item == change || (item in items && Key(item) != Key(change))
  {
    hide Key, Cut, Splice;
    var rest := Without(items, Key(change));
    WithoutUnique(items, Key(change));
    SpliceElements(rest, FirstBelow(rest, change.value), change, item);
    var i := IndexOfKey(items, Key(change));
    if i < |items| {
      CutElements(items, i, item);
    }
    assert item in rest ==> Has(rest, Key(item));
  }

  // Each address ends with the item of its last change, or its first item if it was never changed.
  lemma {:induction false} LastWriteWins(items: seq<Item>, changes: seq<Item>, item: Item)
    requires Unique(items) && Known(items, changes)
    ensures item in After(items, changes) <==>
      Has(items, Key(item)) && item == LastWrite(items, changes, Key(item))
  {
    hide Key, Upserted;
    if changes == [] {
      if item in items {
        var i :| 0 <= i < |items| && items[i] == item;
        IndexOfKeyIs(items, Key(item), i);
      }
    } else {
      var before, change := changes[..|changes| - 1], changes[|changes| - 1];
      assert Has(items, Key(change));
      LastWriteWins(items, before, item);
      AfterKeeps(items, before);
      UpsertedItems(After(items, before), change, item);
    }
  }

  lemma {:induction false} SortedListsAgree(a: seq<Item>, b: seq<Item>)
    requires Descending(a) && Descending(b) && DistinctValues(a) && DistinctValues(b)
    requires |a| == |b| && forall x :: x in a <==> x in b
    ensures a == b
  {
    if a == [] {
    } else {
      assert a[0] in b && b[0] in a;
      assert a[0] == b[0];
      forall x
        ensures x in a[1..] <==> x in b[1..]
      {
        assert x in a[1..] <==> x in a && x != a[0];
        assert x in b[1..] <==> x in b && x != b[0];
      }
      SortedListsAgree(a[1..], b[1..]);
    }
  }

  // When the final values are pairwise distinct, only each address's last write matters.
  lemma OrderDoesNotMatter(items: seq<Item>, changes: seq<Item>, others: seq<Item>)
    requires Unique(items) && Descending(items) && Known(items, changes) && Known(items, others)
    requires forall key :: Has(items, key) ==> LastWrite(items, changes, key) == LastWrite(items, others, key)
    requires DistinctValues(After(items, changes))
    ensures After(items, changes) == After(items, others)
  {
    hide Key, After;
    var a, b := After(items, changes), After(items, others);
    AfterKeeps(items, changes);
    AfterKeeps(items, others);
    forall x
      ensures x in a <==> x in b
    {
      LastWriteWins(items, changes, x);
      LastWriteWins(items, others, x);
    }
    forall i, j | 0 <= i < j < |b|
      ensures b[i].value != b[j].value
    {
      assert b[i] in a && b[j] in a && Key(b[i]) != Key(b[j]);
    }
    SortedListsAgree(a, b);
  }

  // A second insertion lands after the first one when the values are equal.
  lemma FirstBelowInsert(items: seq<Item>, c: Item, value: real)
    requires Descending(items)
    ensures var q := FirstBelow(items, value);
      FirstBelow(Insert(items, c), value) == if c.value >= value then q + 1 else q
    ensures c.value >= value ==> FirstBelow(items, c.value) <= FirstBelow(items, value)
    ensures c.value <= value ==> FirstBelow(items, c.value) >= FirstBelow(items, value)
  {
  }

  lemma InsertsCommute(items: seq<Item>, c: Item, d: Item)
    requires Descending(items) && c != d
    ensures Insert(Insert(items, c), d) == Insert(Insert(items, d), c) <==> c.value != d.value
  {
    var p, q := FirstBelow(items, c.value), FirstBelow(items, d.value);
    FirstBelowInsert(items, c, d.value);
    FirstBelowInsert(items, d, c.value);
    if c.value == d.value {
      assert Splice(Splice(items, p, c), p + 1, d)[p] == c && Splice(Splice(items, p, d), p + 1, c)[p] == d;
    } else if c.value > d.value {
      SplicesCommute(items, p, c, q, d);
    } else {
      SplicesCommute(items, q, d, p, c);
    }
  }

  lemma WithoutCommute(items: seq<Item>, a: string, b: string)
    requires a != b && IndexOfKey(items, a) < IndexOfKey(items, b) < |items|
    ensures Without(Without(items, a), b) == Without(Without(items, b), a)
  {
    hide Key, Cut;
    var i, j := IndexOfKey(items, a), IndexOfKey(items, b);
    IndexOfKeyCut(items, i, b);
    IndexOfKeyCut(items, j, a);
    CutsCommute(items, i, j);
  }

  lemma IndexOfKeyCut(items: seq<Item>, i: nat, key: string)
    requires i < |items| && IndexOfKey(items, key) < |items| && Key(items[i]) != key
    ensures var j := IndexOfKey(items, key);
      IndexOfKey(Cut(items, i), key) == if j < i then j else j - 1
  {
    hide Key;
    var j, rest := IndexOfKey(items, key), Cut(items, i);
    assert forall k :: 0 <= k < |rest| ==> rest[k] == items[if k < i then k else k + 1];
    IndexOfKeyIs(rest, key, if j < i then j else j - 1);
  }

  // Two neighbouring changes to different addresses can be swapped exactly when their values differ.
  lemma ChangesCommute(items: seq<Item>, c: Item, d: Item)
    requires Unique(items) && Descending(items) && Key(c) != Key(d)
    requires Has(items, Key(c)) && Has(items, Key(d))
    ensures Upserted(Upserted(items, c), d) == Upserted(Upserted(items, d), c) <==> c.value != d.value
  {
    hide Key, Insert, Without, Upserted, Sort;
    TwoUpserts(items, c, d);
    TwoUpserts(items, d, c);
    if IndexOfKey(items, Key(c)) < IndexOfKey(items, Key(d)) {
      WithoutCommute(items, Key(c), Key(d));
    } else {
      WithoutCommute(items, Key(d), Key(c));
    }
    var rest := Without(Without(items, Key(c)), Key(d));
    SortSorts(rest);
    InsertsCommute(Sort(rest), c, d);
  }

  lemma TwoUpserts(items: seq<Item>, c: Item, d: Item)
    requires Unique(items) && Descending(items) && Key(c) != Key(d)
    ensures Upserted(Upserted(items, c), d)
         == Insert(Insert(Sort(Without(Without(items, Key(c)), Key(d))), c), d)
  {
    hide Key, Insert, Without, Upserted;
    SortSorts(items);
    UpsertedIsSort(items, c);
    var rest := Without(items, Key(c));
    ArrivalUnique(items, c);
    UpsertedIsSort(rest + [c], d);
    WithoutAppend(rest, c, Key(d));
    var core := Without(rest, Key(d));
    assert (core + [c] + [d])[..|core| + 1] == core + [c];
    assert (core + [c])[..|core|] == core;
  }
}
