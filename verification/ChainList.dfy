/** The doubly linked list the hints are for: LinkedList.sol and SortedLinkedList.sol under
    packages/protocol/contracts/common/linkedlists. `nextKey` leads towards the head (greatest value),
    `previousKey` towards the tail. A failed `require` is None: the transaction reverts. */
module ChainList {
  import opened Addresses
  import opened Options
  import opened Sequences

  type Key = string

  // bytes32(0): what NULL_ADDRESS becomes on chain.
  const ZERO: Key := Normalize(NULL_ADDRESS)

  datatype Element = Element(previousKey: Key, nextKey: Key, present: bool)

  const EMPTY := Element(ZERO, ZERO, false)

  datatype List = List(head: Key, tail: Key, numElements: int, elements: map<Key, Element>) {
    // A Solidity mapping is total: an entry never written reads as zero.
    function Get(key: Key): Element {
      if key in elements then elements[key] else EMPTY
    }

    predicate Contains(key: Key) {
      Get(key).present
    }

    function Put(key: Key, element: Element): List {
      this.(elements := elements[key := element])
    }

    function SetNext(key: Key, next: Key): List {
      Put(key, Get(key).(nextKey := next))
    }

    function SetPrevious(key: Key, previous: Key): List {
      Put(key, Get(key).(previousKey := previous))
    }

    // Links `key` in between two keys; either one is ZERO at an end of the list.
    function Insert(key: Key, previous: Key, next: Key): Option<List> {
      if key == ZERO || Contains(key) || previous == key || next == key then None
      else if numElements == 0 then
        Some(Put(key, Get(key).(present := true)).(head := key, tail := key, numElements := 1))
      else if previous == ZERO && next == ZERO then None
      else
        var l0 := Put(key, Element(previous, next, true));
        if previous != ZERO && (!l0.Contains(previous) || l0.Get(previous).nextKey != next) then None
        else
          var l1 := if previous != ZERO then l0.SetNext(previous, key) else l0.(tail := key);
          if next != ZERO && (!l1.Contains(next) || l1.Get(next).previousKey != previous) then None
          else
            var l2 := if next != ZERO then l1.SetPrevious(next, key) else l1.(head := key);
            Some(l2.(numElements := numElements + 1))
    }

    function Remove(key: Key): Option<List> {
      if key == ZERO || !Contains(key) then None
      else
        var e := Get(key);
        var l1 := if e.previousKey != ZERO then SetNext(e.previousKey, e.nextKey) else this.(tail := e.nextKey);
        var l2 := if e.nextKey != ZERO then l1.SetPrevious(e.nextKey, e.previousKey) else l1.(head := e.previousKey);
        Some(l2.Put(key, EMPTY).(numElements := numElements - 1))
    }

    // Takes `key` out and links it in between two other keys, without looking for better ones.
    function Update(key: Key, previous: Key, next: Key): Option<List> {
      if key == ZERO || key == previous || key == next || !Contains(key) then None
      else
        var rest := Remove(key);
        if rest.None? then None else rest.value.Insert(key, previous, next)
    }

    // Two keys with nothing between them, linked in both directions; ZERO stands for either end.
    predicate Adjacent(previous: Key, next: Key) {
      && (if previous == ZERO then tail == next else Contains(previous) && Get(previous).nextKey == next)
      && (if next == ZERO then head == previous else Contains(next) && Get(next).previousKey == previous)
    }
  }

  datatype SortedList = SortedList(list: List, values: map<Key, real>) {
    function Value(key: Key): real {
      if key in values then values[key] else 0.0
    }

    predicate IsValueBetween(value: real, lesser: Key, greater: Key) {
      && (lesser == ZERO || Value(lesser) <= value)
      && (greater == ZERO || Value(greater) >= value)
    }

    function GetLesserAndGreater(value: real, lesser: Key, greater: Key): Option<(Key, Key)> {
      if lesser == ZERO && IsValueBetween(value, lesser, list.tail) then Some((lesser, list.tail))
      else if greater == ZERO && IsValueBetween(value, list.head, greater) then Some((list.head, greater))
      else if lesser != ZERO && IsValueBetween(value, lesser, list.Get(lesser).nextKey) then
        Some((lesser, list.Get(lesser).nextKey))
      else if greater != ZERO && IsValueBetween(value, list.Get(greater).previousKey, greater) then
        Some((list.Get(greater).previousKey, greater))
      else None
    }

    function Insert(key: Key, value: real, lesser: Key, greater: Key): Option<SortedList> {
      if key == ZERO || key == lesser || key == greater || list.Contains(key) then None
      else if lesser == ZERO && greater == ZERO && list.numElements != 0 then None
      else if lesser != ZERO && !list.Contains(lesser) then None
      else if greater != ZERO && !list.Contains(greater) then None
      else
        var between := GetLesserAndGreater(value, lesser, greater);
        if between.None? then None
        else
          var linked := list.Insert(key, between.value.0, between.value.1);
          if linked.None? then None else Some(SortedList(linked.value, values[key := value]))
    }

    function Remove(key: Key): Option<SortedList> {
      var rest := list.Remove(key);
      if rest.None? then None else Some(SortedList(rest.value, values[key := 0.0]))
    }

    function Update(key: Key, value: real, lesser: Key, greater: Key): Option<SortedList> {
      var rest := Remove(key);
      if rest.None? then None else rest.value.Insert(key, value, lesser, greater)
    }
  }

  // The key at a position, ZERO beyond either end.
  function KeyAt(keys: seq<Key>, i: int): Key {
    if 0 <= i < |keys| then keys[i] else ZERO
  }

  ghost predicate Distinct(keys: seq<Key>) {
    && ZERO !in keys
    && forall i, j :: 0 <= i < j < |keys| ==> keys[i] != keys[j]
  }

  ghost predicate LinkedAt(list: List, keys: seq<Key>, i: nat)
    requires i < |keys|
  {
    list.Get(keys[i]) == Element(KeyAt(keys, i + 1), KeyAt(keys, i - 1), true)
  }

  // The linked list spells out `keys` from head to tail, its links agree in both directions,
  // and nothing else is stored.
  ghost predicate Represents(list: List, keys: seq<Key>) {
    && Distinct(keys)
    && list.numElements == |keys|
    && list.head == KeyAt(keys, 0)
    && list.tail == KeyAt(keys, |keys| - 1)
    && (forall i :: 0 <= i < |keys| ==> LinkedAt(list, keys, i))
    && forall k :: k !in keys ==> list.Get(k) == EMPTY
  }

  // How removing `key` changes an entry.
  function Unlinked(list: List, key: Key, k: Key): Element {
    var e := list.Get(key);
    if k == key then EMPTY
    else if k != ZERO && k == e.previousKey then list.Get(k).(nextKey := e.nextKey)
    else if k != ZERO && k == e.nextKey then list.Get(k).(previousKey := e.previousKey)
    else list.Get(k)
  }

  // How linking `key` in between two keys changes an entry.
  function Linked(list: List, key: Key, previous: Key, next: Key, k: Key): Element {
    if k == key then Element(previous, next, true)
    else if k != ZERO && k == previous then list.Get(k).(nextKey := key)
    else if k != ZERO && k == next then list.Get(k).(previousKey := key)
    else list.Get(k)
  }

  lemma RemoveEffect(list: List, key: Key)
    requires list.Contains(key) && key != ZERO
    requires var e := list.Get(key);
      e.previousKey != key && e.nextKey != key && (e.previousKey == ZERO || e.previousKey != e.nextKey)
    ensures var e, rest := list.Get(key), list.Remove(key);
      && rest.Some?
      && rest.value.head == (if e.nextKey == ZERO then e.previousKey else list.head)
      && rest.value.tail == (if e.previousKey == ZERO then e.nextKey else list.tail)
      && rest.value.numElements == list.numElements - 1
      && (forall k :: rest.value.Get(k) == Unlinked(list, key, k))
  {
    hide Normalize;
  }

  lemma InsertEffect(list: List, key: Key, previous: Key, next: Key)
    requires key != ZERO && !list.Contains(key) && previous != key && next != key && list.numElements != 0
    requires previous != next
    requires previous != ZERO ==> list.Contains(previous) && list.Get(previous).nextKey == next
    requires next != ZERO ==> list.Contains(next) && list.Get(next).previousKey == previous
    ensures var more := list.Insert(key, previous, next);
      && more.Some?
      && more.value.head == (if next == ZERO then key else list.head)
      && more.value.tail == (if previous == ZERO then key else list.tail)
      && more.value.numElements == list.numElements + 1
      && (forall k :: more.value.Get(k) == Linked(list, key, previous, next, k))
  {
    hide Normalize;
  }

  lemma RemoveUnlinks(list: List, keys: seq<Key>, i: nat)
    requires Represents(list, keys) && i < |keys|
    ensures list.Remove(keys[i]).Some?
    ensures Represents(list.Remove(keys[i]).value, Cut(keys, i))
  {
    var key := keys[i];
    assert LinkedAt(list, keys, i);
    RemoveEffect(list, key);
    UnlinkedRepresents(list, keys, i, list.Remove(key).value);
  }

  lemma KeyAtInjective(keys: seq<Key>, i: int, j: int)
    requires Distinct(keys) && KeyAt(keys, i) != ZERO && KeyAt(keys, i) == KeyAt(keys, j)
    ensures i == j
  {
  }

  lemma CutDistinct(keys: seq<Key>, i: nat)
    requires Distinct(keys) && i < |keys|
    ensures Distinct(Cut(keys, i))
    ensures forall k :: k in Cut(keys, i) <==> k in keys && k != keys[i]
  {
    var left := Cut(keys, i);
    assert forall j :: 0 <= j < |keys| && j != i ==> keys[j] == left[if j < i then j else j - 1];
  }

  lemma SpliceDistinct(keys: seq<Key>, p: nat, key: Key)
    requires Distinct(keys) && p <= |keys| && key != ZERO && key !in keys
    ensures Distinct(Splice(keys, p, key))
    ensures forall k :: k in Splice(keys, p, key) <==> k in keys || k == key
  {
    var right := Splice(keys, p, key);
    assert right[p] == key;
    assert forall j :: 0 <= j < |keys| ==> keys[j] == right[if j < p then j else j + 1];
  }

  lemma SpliceAt(keys: seq<Key>, p: nat, key: Key, j: int)
    requires p <= |keys|
    ensures KeyAt(Splice(keys, p, key), j) ==
      if j < p then KeyAt(keys, j) else if j == p then key else KeyAt(keys, j - 1)
  {
  }

  lemma UnlinkedEntry(list: List, keys: seq<Key>, i: nat, o: nat)
    requires Represents(list, keys) && i < |keys| && o < |keys| && o != i
    ensures Unlinked(list, keys[i], keys[o]) == Element(
      KeyAt(keys, if o + 1 == i then i + 1 else o + 1), KeyAt(keys, if o - 1 == i then i - 1 else o - 1), true)
  {
    hide Normalize;
    assert LinkedAt(list, keys, i);
    assert LinkedAt(list, keys, o);
    assert KeyAt(keys, o) == keys[o];
    if keys[o] == KeyAt(keys, i + 1) {
      KeyAtInjective(keys, o, i + 1);
    }
    if keys[o] == KeyAt(keys, i - 1) {
      KeyAtInjective(keys, o, i - 1);
    }
  }

  lemma LinkedEntry(list: List, keys: seq<Key>, p: nat, key: Key, o: nat)
    requires Represents(list, keys) && p <= |keys| && key != ZERO && key !in keys && o < |keys|
    ensures Linked(list, key, KeyAt(keys, p), KeyAt(keys, p - 1), keys[o]) == Element(
      if o + 1 == p then key else KeyAt(keys, o + 1), if o == p then key else KeyAt(keys, o - 1), true)
  {
    hide Normalize;
    assert LinkedAt(list, keys, o);
    assert KeyAt(keys, o) == keys[o];
    if keys[o] == KeyAt(keys, p) {
      KeyAtInjective(keys, o, p);
    }
    if keys[o] == KeyAt(keys, p - 1) {
      KeyAtInjective(keys, o, p - 1);
    }
  }

  lemma CutAt(keys: seq<Key>, i: nat, j: int)
    requires i < |keys|
    ensures KeyAt(Cut(keys, i), j) == if j < i then KeyAt(keys, j) else KeyAt(keys, j + 1)
  {
  }

  lemma UnlinkedRepresentsAt(list: List, keys: seq<Key>, i: nat, rest: List, j: nat)
    requires Represents(list, keys) && i < |keys| && j < |keys| - 1
    requires rest.Get(Cut(keys, i)[j]) == Unlinked(list, keys[i], Cut(keys, i)[j])
    ensures LinkedAt(rest, Cut(keys, i), j)
  {
    hide Normalize, Unlinked;
    CutAt(keys, i, j + 1);
    CutAt(keys, i, j - 1);
    var o := if j < i then j else j + 1;
    assert Cut(keys, i)[j] == keys[o];
    UnlinkedEntry(list, keys, i, o);
  }

  lemma UnlinkedOutside(list: List, keys: seq<Key>, i: nat, k: Key)
    requires Represents(list, keys) && i < |keys| && (k == keys[i] || k !in keys)
    ensures Unlinked(list, keys[i], k) == EMPTY
  {
    hide Normalize;
    assert LinkedAt(list, keys, i);
  }

  lemma UnlinkedRepresents(list: List, keys: seq<Key>, i: nat, rest: List)
    requires Represents(list, keys) && i < |keys|
    requires rest.head == (if i == 0 then KeyAt(keys, 1) else list.head)
    requires rest.tail == (if i == |keys| - 1 then KeyAt(keys, i - 1) else list.tail)
    requires rest.numElements == list.numElements - 1
    requires forall k :: rest.Get(k) == Unlinked(list, keys[i], k)
    ensures Represents(rest, Cut(keys, i))
  {
    hide Normalize, LinkedAt, List.Get, Unlinked, Cut;
    var left := Cut(keys, i);
    CutDistinct(keys, i);
    forall j | 0 <= j < |left|
      ensures LinkedAt(rest, left, j)
    {
      UnlinkedRepresentsAt(list, keys, i, rest, j);
    }
    CutAt(keys, i, 0);
    CutAt(keys, i, |keys| - 2);
    forall k | k !in left
      ensures rest.Get(k) == EMPTY
    {
      UnlinkedOutside(list, keys, i, k);
    }
  }

  // Linking between two adjacent keys never reverts and puts the key exactly there.
  lemma InsertLinks(list: List, keys: seq<Key>, p: nat, key: Key)
    requires Represents(list, keys) && p <= |keys| && key != ZERO && key !in keys
    ensures list.Insert(key, KeyAt(keys, p), KeyAt(keys, p - 1)).Some?
    ensures Represents(list.Insert(key, KeyAt(keys, p), KeyAt(keys, p - 1)).value, Splice(keys, p, key))
  {
    var previous, next := KeyAt(keys, p), KeyAt(keys, p - 1);
    assert list.Get(key) == EMPTY;
    if keys == [] {
      assert Splice(keys, p, key) == [key];
    } else {
      if p < |keys| { assert LinkedAt(list, keys, p); }
      if p > 0 { assert LinkedAt(list, keys, p - 1); }
      InsertEffect(list, key, previous, next);
      LinkedRepresents(list, keys, p, key, list.Insert(key, previous, next).value);
    }
  }

  // The two keys around any place are adjacent.
  lemma PlaceIsAdjacent(list: List, keys: seq<Key>, p: nat)
    requires Represents(list, keys) && p <= |keys|
    ensures list.Adjacent(KeyAt(keys, p), KeyAt(keys, p - 1))
  {
    hide Normalize;
    if p < |keys| { assert LinkedAt(list, keys, p); }
    if p > 0 { assert LinkedAt(list, keys, p - 1); }
  }

  // Two keys around some place of the list, ZERO beyond either end.
  ghost predicate AroundAPlace(keys: seq<Key>, previous: Key, next: Key) {
    exists p: nat :: p <= |keys| && previous == KeyAt(keys, p) && next == KeyAt(keys, p - 1)
  }

  lemma ListedIff(list: List, keys: seq<Key>, key: Key)
    requires Represents(list, keys)
    ensures list.Contains(key) <==> key in keys
  {
    hide Normalize;
    if key in keys {
      var i :| 0 <= i < |keys| && keys[i] == key;
      assert LinkedAt(list, keys, i);
    }
  }

  lemma AroundIff(list: List, keys: seq<Key>, previous: Key, next: Key)
    requires Represents(list, keys) && keys != []
    ensures AroundAPlace(keys, previous, next) <==>
      && (previous != ZERO || next != ZERO)
      && (previous != ZERO ==> previous in keys && list.Get(previous).nextKey == next)
      && (next != ZERO ==> next in keys && list.Get(next).previousKey == previous)
  {
    hide Normalize;
    if AroundAPlace(keys, previous, next) {
      var p: nat :| p <= |keys| && previous == KeyAt(keys, p) && next == KeyAt(keys, p - 1);
      if p < |keys| { assert LinkedAt(list, keys, p); }
      if p > 0 { assert LinkedAt(list, keys, p - 1); }
    } else if previous != ZERO && previous in keys {
      var p: nat :| p < |keys| && keys[p] == previous;
      assert LinkedAt(list, keys, p);
      assert KeyAt(keys, p) == previous;
    } else if next != ZERO && next in keys {
      var p: nat :| p < |keys| && keys[p] == next;
      assert LinkedAt(list, keys, p);
      assert KeyAt(keys, p + 1 - 1) == next;
    }
  }

  // Adjacent keys are those around a place.
  lemma AdjacentIff(list: List, keys: seq<Key>, previous: Key, next: Key)
    requires Represents(list, keys)
    ensures list.Adjacent(previous, next) <==> AroundAPlace(keys, previous, next)
  {
    hide Normalize, AroundAPlace, LinkedAt;
    ListedIff(list, keys, previous);
    ListedIff(list, keys, next);
    if keys == [] {
      OnlyPlace(previous, next);
    } else {
      AroundIff(list, keys, previous, next);
      EndKeys(list, keys);
    }
  }

  lemma OnlyPlace(previous: Key, next: Key)
    ensures AroundAPlace([], previous, next) <==> previous == next == ZERO
  {
    if previous == next == ZERO {
      assert previous == KeyAt([], 0) && next == KeyAt([], 0 - 1);
    }
  }

  lemma EndKeys(list: List, keys: seq<Key>)
    requires Represents(list, keys) && keys != []
    ensures list.head in keys && list.Get(list.head).nextKey == ZERO
    ensures list.tail in keys && list.Get(list.tail).previousKey == ZERO
    ensures forall k :: k in keys && list.Get(k).nextKey == ZERO ==> k == list.head
    ensures forall k :: k in keys && list.Get(k).previousKey == ZERO ==> k == list.tail
  {
    hide Normalize;
    assert LinkedAt(list, keys, 0) && LinkedAt(list, keys, |keys| - 1);
    forall k | k in keys
      ensures list.Get(k).nextKey == ZERO ==> k == list.head
      ensures list.Get(k).previousKey == ZERO ==> k == list.tail
    {
      var i :| 0 <= i < |keys| && keys[i] == k;
      assert LinkedAt(list, keys, i);
    }
  }

  // A list with keys takes a key in exactly when it is new and the two others are around some place.
  lemma InsertAcceptedIff(list: List, keys: seq<Key>, key: Key, previous: Key, next: Key)
    requires Represents(list, keys)
    ensures list.Insert(key, previous, next).Some? <==>
      && key != ZERO && key !in keys && key != previous && key != next
      && (keys != [] ==> AroundAPlace(keys, previous, next))
  {
    hide Normalize, AroundAPlace, LinkedAt;
    ListedIff(list, keys, key);
    ListedIff(list, keys, previous);
    ListedIff(list, keys, next);
    if keys != [] {
      AroundIff(list, keys, previous, next);
    }
  }

  lemma RemoveAcceptedIff(list: List, keys: seq<Key>, key: Key)
    requires Represents(list, keys)
    ensures list.Remove(key).Some? <==> key in keys
  {
    hide Normalize, LinkedAt;
    ListedIff(list, keys, key);
  }

  // What is listed changes by the one key only, whatever the links are.
  lemma ListedAfter(list: List, key: Key, previous: Key, next: Key)
    ensures var rest := list.Remove(key);
      rest.Some? ==> forall k :: rest.value.Contains(k) <==> list.Contains(k) && k != key
    ensures var more := list.Insert(key, previous, next);
      more.Some? ==> forall k :: more.value.Contains(k) <==> list.Contains(k) || k == key
  {
    hide Normalize;
  }

  // Whatever is not listed has the value zero: an empty list starts so, and insertions and removals keep it.
  ghost predicate ZeroElsewhere(chain: SortedList) {
    forall k :: !chain.list.Contains(k) ==> chain.Value(k) == 0.0
  }

  lemma EmptyIsZeroElsewhere()
    ensures ZeroElsewhere(SortedList(List(ZERO, ZERO, 0, map[]), map[]))
  {
  }

  lemma ZeroElsewhereIsKept(chain: SortedList, key: Key, value: real, lesser: Key, greater: Key)
    requires ZeroElsewhere(chain)
    ensures var rest := chain.Remove(key); rest.Some? ==> ZeroElsewhere(rest.value)
    ensures var more := chain.Insert(key, value, lesser, greater);
      more.Some? ==> ZeroElsewhere(more.value) && more.value.Value(key) == value
  {
    hide Normalize, List.Insert, List.Remove, List.Contains;
    var between := chain.GetLesserAndGreater(value, lesser, greater);
    if between.Some? {
      ListedAfter(chain.list, key, between.value.0, between.value.1);
    }
    ListedAfter(chain.list, key, ZERO, ZERO);
  }

  // The neighbours a key of the old list has after the splice are those of the new list.
  lemma SpliceNeighbours(keys: seq<Key>, p: nat, key: Key, o: nat)
    requires p <= |keys| && o < |keys|
    ensures var right, j := Splice(keys, p, key), if o < p then o else o + 1;
      && right[j] == keys[o]
      && KeyAt(right, j + 1) == (if o + 1 == p then key else KeyAt(keys, o + 1))
      && KeyAt(right, j - 1) == (if o == p then key else KeyAt(keys, o - 1))
  {
    var j := if o < p then o else o + 1;
    SpliceAt(keys, p, key, j + 1);
    SpliceAt(keys, p, key, j - 1);
  }

  lemma OldLinks(list: List, keys: seq<Key>, p: nat, key: Key, more: List, o: nat)
    requires Represents(list, keys) && p <= |keys| && key != ZERO && key !in keys && o < |keys|
    requires more.Get(keys[o]) == Linked(list, key, KeyAt(keys, p), KeyAt(keys, p - 1), keys[o])
    ensures LinkedAt(more, Splice(keys, p, key), if o < p then o else o + 1)
  {
    SpliceNeighbours(keys, p, key, o);
    LinkedEntry(list, keys, p, key, o);
  }

  lemma OwnLinks(keys: seq<Key>, p: nat, key: Key, more: List)
    requires p <= |keys| && more.Get(key) == Element(KeyAt(keys, p), KeyAt(keys, p - 1), true)
    ensures LinkedAt(more, Splice(keys, p, key), p)
  {
    SpliceAt(keys, p, key, p + 1);
    SpliceAt(keys, p, key, p - 1);
  }

  lemma LinkedItself(list: List, keys: seq<Key>, p: nat, key: Key)
    ensures Linked(list, key, KeyAt(keys, p), KeyAt(keys, p - 1), key)
         == Element(KeyAt(keys, p), KeyAt(keys, p - 1), true)
  {
  }

  lemma LinkedOutside(list: List, keys: seq<Key>, p: nat, key: Key, k: Key)
    requires Represents(list, keys) && p <= |keys| && k !in keys && k != key
    ensures Linked(list, key, KeyAt(keys, p), KeyAt(keys, p - 1), k) == EMPTY
  {
    hide Normalize;
  }

  lemma LinkedRepresents(list: List, keys: seq<Key>, p: nat, key: Key, more: List)
    requires Represents(list, keys) && p <= |keys| && key != ZERO && key !in keys
    requires more.head == (if p == 0 then key else list.head)
    requires more.tail == (if p == |keys| then key else list.tail)
    requires more.numElements == list.numElements + 1
    requires forall k :: more.Get(k) == Linked(list, key, KeyAt(keys, p), KeyAt(keys, p - 1), k)
    ensures Represents(more, Splice(keys, p, key))
  {
    hide Normalize, LinkedAt, List.Get, Linked, Splice;
    var right := Splice(keys, p, key);
    SpliceDistinct(keys, p, key);
    forall j | 0 <= j < |right|
      ensures LinkedAt(more, right, j)
    {
      if j == p {
        LinkedItself(list, keys, p, key);
        OwnLinks(keys, p, key, more);
      } else {
        OldLinks(list, keys, p, key, more, if j < p then j else j - 1);
      }
    }
    SpliceAt(keys, p, key, 0);
    SpliceAt(keys, p, key, |keys|);
    forall k | k !in right
      ensures more.Get(k) == EMPTY
    {
      LinkedOutside(list, keys, p, key, k);
    }
  }
}
