/** The sort-merge join of packages/utils/src/address.ts. `localeCompare` is a parameter known only to be
    a total order on normalized addresses, and the sort only to yield some sorted permutation. */
module AddressMapping {
  import opened Addresses
  import opened Options

  type Compare = (string, string) -> int

  ghost predicate TotalOrder(cmp: Compare) {
    && (forall a, b :: cmp(a, b) == 0 <==> a == b)
    && (forall a, b :: cmp(a, b) < 0 <==> cmp(b, a) > 0)
    && (forall a, b, c :: cmp(a, b) <= 0 && cmp(b, c) <= 0 ==> cmp(a, c) <= 0)
  }

  // One such order: by code unit, a proper prefix first.
  function ByCodeUnit(a: string, b: string): int {
    if a == "" then (if b == "" then 0 else -1)
    else if b == "" then 1
    else if a[0] != b[0] then (if a[0] < b[0] then -1 else 1)
    else ByCodeUnit(a[1..], b[1..])
  }

  lemma {:induction false} ByCodeUnitLaws(a: string, b: string, c: string)
    ensures ByCodeUnit(a, b) == 0 <==> a == b
    ensures ByCodeUnit(a, b) < 0 <==> ByCodeUnit(b, a) > 0
    ensures ByCodeUnit(a, b) <= 0 && ByCodeUnit(b, c) <= 0 ==> ByCodeUnit(a, c) <= 0
  {
    if a == "" || b == "" || a[0] != b[0] {
    } else {
      ByCodeUnitLaws(a[1..], b[1..], if c == "" then "" else c[1..]);
      assert a == [a[0]] + a[1..] && b == [b[0]] + b[1..];
    }
  }

  lemma TotalOrderExists()
    ensures TotalOrder(ByCodeUnit)
  {
    forall a, b
      ensures ByCodeUnit(a, b) == 0 <==> a == b
      ensures ByCodeUnit(a, b) < 0 <==> ByCodeUnit(b, a) > 0
    {
      ByCodeUnitLaws(a, b, "");
    }
    forall a, b, c
      ensures ByCodeUnit(a, b) <= 0 && ByCodeUnit(b, c) <= 0 ==> ByCodeUnit(a, c) <= 0
    {
      ByCodeUnitLaws(a, b, c);
    }
  }

  datatype Entry = Entry(address: string, index: nat)

  function NormalizeAll(addresses: seq<Address>): (r: seq<string>)
    ensures |r| == |addresses|
  {
    seq(|addresses|, i requires 0 <= i < |addresses| => Normalize(addresses[i]))
  }

  function Indexed(keys: seq<string>): (r: seq<Entry>)
    ensures |r| == |keys|
  {
    seq(|keys|, i requires 0 <= i < |keys| => Entry(keys[i], i))
  }

  ghost predicate Sorted(cmp: Compare, entries: seq<Entry>) {
    forall i, j :: 0 <= i < j < |entries| ==> cmp(entries[i].address, entries[j].address) <= 0
  }

  // ---------- the specification: a largest matching between equal keys ----------

  function Where(keys: seq<string>, key: string): set<nat> {
    set k: nat | k < |keys| && keys[k] == key
  }

  function Matched(keys: seq<string>, res: seq<int>, key: string): set<nat>
    requires |res| == |keys|
  {
    set k: nat | k < |keys| && keys[k] == key && res[k] >= 0
  }

  function Min(a: int, b: int): int {
    if a <= b then a else b
  }

  // Each key of `from` goes to -1 or to an equal key of `onto`, no two to the same one, and for every
  // key as many are matched as the smaller of its two numbers of occurrences.
  ghost predicate IsMatching(from: seq<string>, onto: seq<string>, res: seq<int>) {
    && |res| == |from|
    && (forall i :: 0 <= i < |res| ==> res[i] == -1 || (0 <= res[i] < |onto| && from[i] == onto[res[i]]))
    && (forall i, j :: 0 <= i < j < |res| && res[i] >= 0 ==> res[i] != res[j])
    && forall key :: |Matched(from, res, key)| == Min(|Where(from, key)|, |Where(onto, key)|)
  }

  // ---------- the sort, in place ----------

  // Sorted but for position p, which is still sinking from the end.
  ghost predicate SortedBut(cmp: Compare, entries: seq<Entry>, p: nat) {
    forall i, j :: 0 <= i < j < |entries| && j != p ==> cmp(entries[i].address, entries[j].address) <= 0
  }

  lemma Sink(cmp: Compare, entries: seq<Entry>, p: nat)
    requires TotalOrder(cmp) && 0 < p < |entries| && SortedBut(cmp, entries, p)
    requires cmp(entries[p - 1].address, entries[p].address) > 0
    ensures SortedBut(cmp, entries[p - 1 := entries[p]][p := entries[p - 1]], p - 1)
  {
  }

  lemma Settle(cmp: Compare, entries: seq<Entry>, p: nat)
    requires TotalOrder(cmp) && p < |entries| && SortedBut(cmp, entries, p)
    requires p > 0 ==> cmp(entries[p - 1].address, entries[p].address) <= 0
    ensures Sorted(cmp, entries)
  {
  }

  lemma Nothing(cmp: Compare)
    ensures Sorted(cmp, [])
  {
  }

  lemma Grow(cmp: Compare, entries: seq<Entry>, entry: Entry)
    requires Sorted(cmp, entries)
    ensures SortedBut(cmp, entries + [entry], |entries|)
  {
  }

  method SwapBack(a: array<Entry>, p: nat)
    requires 0 < p < a.Length
    modifies a
    ensures a[..] == old(a[..][p - 1 := a[p]][p := a[p - 1]])
    ensures multiset(a[..]) == multiset(old(a[..]))
  {
    a[p - 1], a[p] := a[p], a[p - 1];
  }

  // Sinks a[n] into the sorted part before it.
  method Insert(a: array<Entry>, n: nat, cmp: Compare)
    requires TotalOrder(cmp) && n < a.Length && Sorted(cmp, a[..n])
    modifies a
    ensures Sorted(cmp, a[..n + 1]) && multiset(a[..]) == multiset(old(a[..]))
  {
    hide TotalOrder, Sorted, SortedBut;
    var p := n;
    Grow(cmp, a[..n], a[n]);
    assert a[..n + 1] == a[..n] + [a[n]];
    while p > 0 && cmp(a[p - 1].address, a[p].address) > 0
      invariant 0 <= p <= n
      invariant multiset(a[..]) == multiset(old(a[..]))
      invariant SortedBut(cmp, a[..n + 1], p)
    {
      ghost var before := a[..n + 1];
      Sink(cmp, before, p);
      SwapBack(a, p);
      assert a[..n + 1] == a[..][..n + 1] == before[p - 1 := before[p]][p := before[p - 1]];
      p := p - 1;
    }
    Settle(cmp, a[..n + 1], p);
  }

  method Sort(a: array<Entry>, cmp: Compare)
    requires TotalOrder(cmp)
    modifies a
    ensures Sorted(cmp, a[..]) && multiset(a[..]) == multiset(old(a[..]))
  {
    hide TotalOrder, Sorted;
    Nothing(cmp);
    assert a[..0] == [];
    for n := 0 to a.Length
      invariant Sorted(cmp, a[..n])
      invariant multiset(a[..]) == multiset(old(a[..]))
    {
      Insert(a, n, cmp);
    }
    assert a[..a.Length] == a[..];
  }

  lemma CountTwice<T>(s: seq<T>, i: nat, j: nat)
    requires i < j < |s| && s[i] == s[j]
    ensures multiset(s)[s[i]] >= 2
  {
    assert s == s[..i] + [s[i]] + s[i + 1..j] + [s[j]] + s[j + 1..];
  }

  lemma {:induction false} CountOnce<T>(s: seq<T>, x: T)
    requires forall i, j :: 0 <= i < j < |s| ==> s[i] != s[j]
    ensures multiset(s)[x] <= 1
  {
    if s == [] {
    } else {
      assert s == [s[0]] + s[1..];
      CountOnce(s[1..], x);
    }
  }

  // What a sorted permutation of the indexed keys is good for: every index occurs exactly once, with its key.
  ghost predicate Covers(entries: seq<Entry>, keys: seq<string>) {
    && |entries| == |keys|
    && (forall p :: 0 <= p < |entries| ==> entries[p].index < |keys| && entries[p].address == keys[entries[p].index])
    && (forall p, q :: 0 <= p < q < |entries| ==> entries[p].index != entries[q].index)
    && forall k :: 0 <= k < |keys| ==> Entry(keys[k], k) in entries
  }

  lemma PermutationCovers(entries: seq<Entry>, keys: seq<string>)
    requires multiset(entries) == multiset(Indexed(keys))
    ensures Covers(entries, keys)
  {
    var all := Indexed(keys);
    assert |multiset(entries)| == |multiset(all)|;
    forall p | 0 <= p < |entries|
      ensures entries[p].index < |keys| && entries[p].address == keys[entries[p].index]
    {
      assert entries[p] in multiset(entries);
      assert entries[p] in all;
    }
    forall p, q | 0 <= p < q < |entries|
      ensures entries[p].index != entries[q].index
    {
      if entries[p].index == entries[q].index {
        CountTwice(entries, p, q);
        CountOnce(all, entries[p]);
      }
    }
    forall k | 0 <= k < |keys|
      ensures Entry(keys[k], k) in entries
    {
      assert all[k] in multiset(all);
      assert all[k] in multiset(entries);
    }
  }

  // ---------- the merge ----------

  // The members of `done` holding a key.
  function In(keys: seq<string>, done: set<nat>, key: string): set<nat> {
    set k | k in done && k < |keys| && keys[k] == key
  }

  ghost function Done(entries: seq<Entry>, n: nat): set<nat>
    requires n <= |entries|
  {
    set p | 0 <= p < n :: entries[p].index
  }

  lemma InAdd(keys: seq<string>, done: set<nat>, k: nat, key: string)
    requires k !in done && k < |keys|
    ensures |In(keys, done + {k}, key)| == |In(keys, done, key)| + if keys[k] == key then 1 else 0
  {
    assert In(keys, done + {k}, key) == In(keys, done, key) + if keys[k] == key then {k} else {};
  }

  lemma MatchedAdd(keys: seq<string>, res: seq<int>, k: nat, v: nat, key: string)
    requires |res| == |keys| && k < |keys| && res[k] < 0
    ensures |Matched(keys, res[k := v], key)| == |Matched(keys, res, key)| + if keys[k] == key then 1 else 0
  {
    assert Matched(keys, res[k := v], key) == Matched(keys, res, key) + if keys[k] == key then {k} else {};
  }

  lemma DoneAdd(entries: seq<Entry>, keys: seq<string>, n: nat)
    requires Covers(entries, keys) && n < |entries|
    ensures Done(entries, n + 1) == Done(entries, n) + {entries[n].index}
    ensures entries[n].index !in Done(entries, n)
  {
  }

  // The state of the two-pointer loop. A key still ahead on one side has been used up on that side at
  // least as often as on the other, so nothing that could be matched has been skipped.
  ghost predicate Merging(a: seq<string>, b: seq<string>, x: seq<Entry>, y: seq<Entry>, i: nat, j: nat, res: seq<int>)
    requires i <= |x| && j <= |y|
  {
    && |res| == |a|
    && (forall k :: 0 <= k < |a| ==>
      res[k] == -1 || (k in Done(x, i) && 0 <= res[k] < |b| && res[k] in Done(y, j) && a[k] == b[res[k]]))
    && (forall k, l :: 0 <= k < l < |a| && res[k] >= 0 ==> res[k] != res[l])
    && (forall key :: |Matched(a, res, key)| == Min(|In(a, Done(x, i), key)|, |In(b, Done(y, j), key)|))
    && Ahead(x, i, a, Done(x, i), b, Done(y, j))
    && Ahead(y, j, b, Done(y, j), a, Done(x, i))
  }

  ghost predicate Ahead(x: seq<Entry>, i: nat, a: seq<string>, doneA: set<nat>, b: seq<string>, doneB: set<nat>) {
    forall p :: i <= p < |x| ==> |In(b, doneB, x[p].address)| <= |In(a, doneA, x[p].address)|
  }

  lemma MergeStart(a: seq<string>, b: seq<string>, x: seq<Entry>, y: seq<Entry>, res: seq<int>)
    requires |res| == |a| && forall k :: 0 <= k < |a| ==> res[k] == -1
    ensures Merging(a, b, x, y, 0, 0, res)
  {
  }

  // A key below the smallest one ahead is not ahead at all.
  lemma NotAhead(cmp: Compare, y: seq<Entry>, j: nat, key: string)
    requires TotalOrder(cmp) && Sorted(cmp, y) && j < |y| && cmp(key, y[j].address) < 0
    ensures forall q :: j <= q < |y| ==> y[q].address != key
  {
  }

  // Finishing one entry of x whose key is no longer ahead in y leaves the matching as large as it can be.
  lemma Skip(a: seq<string>, b: seq<string>, x: seq<Entry>, y: seq<Entry>, i: nat, j: nat, res: seq<int>)
    requires Covers(x, a) && i < |x| && j <= |y| && Merging(a, b, x, y, i, j, res)
    requires forall q :: j <= q < |y| ==> y[q].address != x[i].address
    ensures Merging(a, b, x, y, i + 1, j, res)
  {
    hide In, Matched, Done;
    var k, doneA, doneB := x[i].index, Done(x, i), Done(y, j);
    DoneAdd(x, a, i);
    forall key
      ensures |In(a, doneA + {k}, key)| == |In(a, doneA, key)| + if a[k] == key then 1 else 0
    {
      InAdd(a, doneA, k, key);
    }
    assert |In(b, doneB, x[i].address)| <= |In(a, doneA, x[i].address)|;
  }

  lemma SkipOther(a: seq<string>, b: seq<string>, x: seq<Entry>, y: seq<Entry>, i: nat, j: nat, res: seq<int>)
    requires Covers(y, b) && i <= |x| && j < |y| && Merging(a, b, x, y, i, j, res)
    requires forall p :: i <= p < |x| ==> x[p].address != y[j].address
    ensures Merging(a, b, x, y, i, j + 1, res)
  {
    hide In, Matched, Done;
    var l, doneA, doneB := y[j].index, Done(x, i), Done(y, j);
    DoneAdd(y, b, j);
    forall key
      ensures |In(b, doneB + {l}, key)| == |In(b, doneB, key)| + if b[l] == key then 1 else 0
    {
      InAdd(b, doneB, l, key);
    }
    assert |In(a, doneA, y[j].address)| <= |In(b, doneB, y[j].address)|;
  }

  lemma Match(a: seq<string>, b: seq<string>, x: seq<Entry>, y: seq<Entry>, i: nat, j: nat, res: seq<int>)
    requires Covers(x, a) && Covers(y, b)
    requires i < |x| && j < |y| && Merging(a, b, x, y, i, j, res)
    requires x[i].address == y[j].address
    ensures Merging(a, b, x, y, i + 1, j + 1, res[x[i].index := y[j].index])
  {
    hide In, Matched, Done;
    var k, l, doneA, doneB := x[i].index, y[j].index, Done(x, i), Done(y, j);
    DoneAdd(x, a, i);
    DoneAdd(y, b, j);
    assert res[k] == -1;
    forall key
      ensures |In(a, doneA + {k}, key)| == |In(a, doneA, key)| + if a[k] == key then 1 else 0
      ensures |In(b, doneB + {l}, key)| == |In(b, doneB, key)| + if b[l] == key then 1 else 0
      ensures |Matched(a, res[k := l], key)| == |Matched(a, res, key)| + if a[k] == key then 1 else 0
    {
      InAdd(a, doneA, k, key);
      InAdd(b, doneB, l, key);
      MatchedAdd(a, res, k, l, key);
    }
    assert |In(b, doneB, x[i].address)| <= |In(a, doneA, x[i].address)|;
    assert |In(a, doneA, y[j].address)| <= |In(b, doneB, y[j].address)|;
  }

  // Whichever side runs out first, the other has nothing left to match.
  lemma MergeEnd(a: seq<string>, b: seq<string>, x: seq<Entry>, y: seq<Entry>, i: nat, j: nat, res: seq<int>)
    requires Covers(x, a) && Covers(y, b)
    requires i <= |x| && j <= |y| && (i == |x| || j == |y|) && Merging(a, b, x, y, i, j, res)
    ensures IsMatching(a, b, res)
  {
    hide In, Where, Matched, Done, Covers;
    forall key
      ensures |Matched(a, res, key)| == Min(|Where(a, key)|, |Where(b, key)|)
    {
      UsedUp(x, a, i, key);
      UsedUp(y, b, j, key);
    }
  }

  // Either a key is still ahead, or all its occurrences are done.
  lemma UsedUp(x: seq<Entry>, a: seq<string>, i: nat, key: string)
    requires Covers(x, a) && i <= |x|
    ensures (exists p :: i <= p < |x| && x[p].address == key) || In(a, Done(x, i), key) == Where(a, key)
    ensures |In(a, Done(x, i), key)| <= |Where(a, key)|
  {
    Subset(In(a, Done(x, i), key), Where(a, key));
    if k :| k in Where(a, key) && k !in Done(x, i) {
      var p :| 0 <= p < |x| && x[p] == Entry(a[k], k);
      assert i <= p;
    } else {
      assert In(a, Done(x, i), key) == Where(a, key);
    }
  }

  lemma Subset(s: set<nat>, t: set<nat>)
    requires s <= t
    ensures |s| <= |t|
  {
    assert t == s + (t - s);
  }

  lemma Trichotomy(cmp: Compare, a: string, b: string)
    requires TotalOrder(cmp)
    ensures cmp(a, b) == 0 <==> a == b
    ensures cmp(a, b) > 0 ==> cmp(b, a) < 0
  {
  }

  lemma CoversAt(x: seq<Entry>, a: seq<string>, i: nat)
    requires Covers(x, a) && i < |x|
    ensures x[i].index < |a|
  {
  }

  // The normalized addresses with their positions, sorted in place.
  method SortedIndex(addresses: seq<Address>, cmp: Compare) returns (index: array<Entry>)
    requires TotalOrder(cmp)
    ensures fresh(index) && index.Length == |addresses|
    ensures Sorted(cmp, index[..]) && Covers(index[..], NormalizeAll(addresses))
  {
    hide TotalOrder, Sorted, Covers, Normalize;
    index := new Entry[|addresses|](i requires 0 <= i < |addresses| => Entry(Normalize(addresses[i]), i));
    assert index[..] == Indexed(NormalizeAll(addresses));
    Sort(index, cmp);
    PermutationCovers(index[..], NormalizeAll(addresses));
  }

  method MapAddressListOnto(oldAddress: seq<Address>, newAddress: seq<Address>, cmp: Compare) returns (res: seq<int>)
    requires TotalOrder(cmp)
    ensures IsMatching(NormalizeAll(oldAddress), NormalizeAll(newAddress), res)
  {
    hide TotalOrder, Sorted, Covers, Merging, Normalize, IsMatching;
    ghost var a, b := NormalizeAll(oldAddress), NormalizeAll(newAddress);
    var oldIndex := SortedIndex(oldAddress, cmp);
    var newIndex := SortedIndex(newAddress, cmp);
    ghost var x, y := oldIndex[..], newIndex[..];
    res := seq(|oldAddress|, _ => -1);
    MergeStart(a, b, x, y, res);
    var i, j := 0, 0;
    while i < |oldAddress| && j < |newAddress|
      invariant 0 <= i <= |x| == |oldAddress| == |res| && 0 <= j <= |y| == |newAddress|
      invariant oldIndex[..] == x && newIndex[..] == y
      invariant Merging(a, b, x, y, i, j, res)
      decreases |x| - i + |y| - j
    {
      assert oldIndex[i] == x[i] && newIndex[j] == y[j];
      var order := cmp(oldIndex[i].address, newIndex[j].address);
      Trichotomy(cmp, x[i].address, y[j].address);
      CoversAt(x, a, i);
      if order < 0 {
        NotAhead(cmp, y, j, x[i].address);
        Skip(a, b, x, y, i, j, res);
        i := i + 1;
      } else if order > 0 {
        NotAhead(cmp, x, i, y[j].address);
        SkipOther(a, b, x, y, i, j, res);
        j := j + 1;
      } else {
        Match(a, b, x, y, i, j, res);
        res := res[oldIndex[i].index := newIndex[j].index];
        i, j := i + 1, j + 1;
      }
    }
    MergeEnd(a, b, x, y, i, j, res);
  }

  // Data carried over to the new positions. Assigning past the end lengthens a JavaScript array and
  // reading past the end of `data` yields undefined; both show up as None.
  method MapAddressListDataOnto<T>(
    data: seq<T>, oldAddress: seq<Address>, newAddress: seq<Address>, initialValue: T, cmp: Compare)
    returns (res: seq<Option<T>>)
    requires TotalOrder(cmp)
    ensures data == [] ==> res == seq(|oldAddress|, _ => Some(initialValue))
    ensures data != [] ==> exists indexMap ::
      && IsMatching(NormalizeAll(oldAddress), NormalizeAll(newAddress), indexMap)
      && IsScatter(data, indexMap, initialValue, res)
  {
    hide TotalOrder, IsMatching, Normalize, IsScatterUpTo;
    res := seq(|oldAddress|, _ => Some(initialValue));
    if data == [] {
      return;
    }
    var addressIndexMap := MapAddressListOnto(oldAddress, newAddress, cmp);
    MatchingLength(NormalizeAll(oldAddress), NormalizeAll(newAddress), addressIndexMap);
    ScatterStart(data, addressIndexMap, initialValue);
    for i := 0 to |addressIndexMap|
      invariant IsScatterUpTo(data, addressIndexMap, i, initialValue, res)
    {
      ScatterStep(data, addressIndexMap, i, initialValue, res);
      var p := addressIndexMap[i];
      if p >= 0 {
        res := Extend(res, p + 1)[p := At(data, i)];
      }
    }
  }

  function At<T>(s: seq<T>, i: nat): Option<T> {
    if i < |s| then Some(s[i]) else None
  }

  function Extend<T>(s: seq<Option<T>>, n: nat): seq<Option<T>> {
    if n <= |s| then s else s + seq(n - |s|, _ => None)
  }

  lemma MatchingLength(a: seq<string>, b: seq<string>, res: seq<int>)
    requires IsMatching(a, b, res)
    ensures |res| == |a|
    ensures forall i, j :: 0 <= i < j < |res| && res[i] >= 0 ==> res[i] != res[j]
  {
  }

  // Position p is the target of one of the first n assignments.
  ghost predicate Hit(indexMap: seq<int>, n: nat, p: int)
    requires n <= |indexMap|
  {
    exists i :: 0 <= i < n && indexMap[i] == p
  }

  // After the first n assignments: each used position holds the datum sent there; any other one still
  // has its initial value, or nothing if it lies past the original end.
  ghost predicate IsScatterUpTo<T>(data: seq<T>, indexMap: seq<int>, n: nat, initialValue: T, res: seq<Option<T>>)
    requires n <= |indexMap|
  {
    && |res| >= |indexMap|
    && (forall i :: 0 <= i < n && indexMap[i] >= 0 ==> indexMap[i] < |res| && res[indexMap[i]] == At(data, i))
    && (forall p :: 0 <= p < |res| && !Hit(indexMap, n, p) ==>
      res[p] == if p < |indexMap| then Some(initialValue) else None)
    && (|res| > |indexMap| ==> Hit(indexMap, n, |res| - 1))
  }

  ghost predicate IsScatter<T>(data: seq<T>, indexMap: seq<int>, initialValue: T, res: seq<Option<T>>) {
    IsScatterUpTo(data, indexMap, |indexMap|, initialValue, res)
  }

  lemma ScatterStart<T>(data: seq<T>, indexMap: seq<int>, initialValue: T)
    ensures IsScatterUpTo(data, indexMap, 0, initialValue, seq(|indexMap|, _ => Some(initialValue)))
  {
  }

  lemma ScatterStep<T>(data: seq<T>, indexMap: seq<int>, i: nat, initialValue: T, res: seq<Option<T>>)
    requires i < |indexMap| && forall k, l :: 0 <= k < l < |indexMap| && indexMap[k] >= 0 ==> indexMap[k] != indexMap[l]
    requires IsScatterUpTo(data, indexMap, i, initialValue, res)
    ensures IsScatterUpTo(data, indexMap, i + 1, initialValue,
      if indexMap[i] < 0 then res else Extend(res, indexMap[i] + 1)[indexMap[i] := At(data, i)])
  {
    hide Hit;
    var p := indexMap[i];
    forall q
      ensures Hit(indexMap, i + 1, q) <==> Hit(indexMap, i, q) || p == q
    {
      HitStep(indexMap, i, q);
    }
    if p >= 0 {
      assert !Hit(indexMap, i, p) by { NotYetHit(indexMap, i); }
      var next := Extend(res, p + 1)[p := At(data, i)];
      assert |next| == if p < |res| then |res| else p + 1;
      assert forall q :: 0 <= q < |next| && q != p ==> next[q] == if q < |res| then res[q] else None;
    }
  }

  lemma HitStep(indexMap: seq<int>, i: nat, q: int)
    requires i < |indexMap|
    ensures Hit(indexMap, i + 1, q) <==> Hit(indexMap, i, q) || indexMap[i] == q
  {
  }

  lemma NotYetHit(indexMap: seq<int>, i: nat)
    requires i < |indexMap| && indexMap[i] >= 0
    requires forall k, l :: 0 <= k < l < |indexMap| && indexMap[k] >= 0 ==> indexMap[k] != indexMap[l]
    ensures !Hit(indexMap, i, indexMap[i])
  {
  }

  // ---------- what a matching means for lists without duplicates ----------

  ghost predicate Distinct(keys: seq<string>) {
    forall i, j :: 0 <= i < j < |keys| ==> keys[i] != keys[j]
  }

  lemma DistinctWhere(keys: seq<string>, i: nat)
    requires Distinct(keys) && i < |keys|
    ensures Where(keys, keys[i]) == {i}
  {
  }

  // A key with an equal key on the other side is matched, and matched to it.
  lemma DistinctMatched(a: seq<string>, b: seq<string>, res: seq<int>, i: nat, j: nat)
    requires Distinct(a) && Distinct(b) && IsMatching(a, b, res)
    requires i < |a| && j < |b| && a[i] == b[j]
    ensures res[i] == j
  {
    DistinctWhere(a, i);
    DistinctWhere(b, j);
    assert Matched(a, res, a[i]) == if res[i] >= 0 then {i} else {};
  }

  // The join is the naive lookup of each old address in the new list.
  lemma MatchingIsLookup(oldAddress: seq<Address>, newAddress: seq<Address>, res: seq<int>)
    requires Distinct(NormalizeAll(oldAddress)) && Distinct(NormalizeAll(newAddress))
    requires IsMatching(NormalizeAll(oldAddress), NormalizeAll(newAddress), res)
    ensures res == seq(|oldAddress|, i requires 0 <= i < |oldAddress| => FindAddressIndex(oldAddress[i], newAddress))
  {
    hide Normalize;
    var a, b := NormalizeAll(oldAddress), NormalizeAll(newAddress);
    forall i | 0 <= i < |oldAddress|
      ensures res[i] == FindAddressIndex(oldAddress[i], newAddress)
    {
      assert res[i] >= 0 ==> EqAddress(newAddress[res[i]], oldAddress[i]);
      var found := FindAddressIndex(oldAddress[i], newAddress);
      if found >= 0 {
        DistinctMatched(a, b, res, i, found);
      }
    }
  }

  // The two directions undo each other wherever they are defined.
  lemma MatchingsAreInverse(a: seq<string>, b: seq<string>, there: seq<int>, back: seq<int>)
    requires Distinct(a) && Distinct(b) && IsMatching(a, b, there) && IsMatching(b, a, back)
    ensures forall i, j :: 0 <= i < |a| && 0 <= j < |b| ==> (there[i] == j <==> back[j] == i)
  {
    forall i, j | 0 <= i < |a| && 0 <= j < |b|
      ensures there[i] == j <==> back[j] == i
    {
      if there[i] == j {
        DistinctMatched(b, a, back, j, i);
      }
      if back[j] == i {
        DistinctMatched(a, b, there, i, j);
      }
    }
  }

  // Between two orders of the same addresses, carrying data over and back is the identity.
  lemma DataRoundTrip<T>(
    data: seq<T>, a: seq<string>, b: seq<string>, there: seq<int>, back: seq<int>,
    initialValue: T, moved: seq<Option<T>>, values: seq<T>, returned: seq<Option<T>>)
    requires Distinct(a) && Distinct(b) && |a| == |b| == |data| && forall k :: k in a <==> k in b
    requires IsMatching(a, b, there) && IsScatter(data, there, initialValue, moved)
    requires |values| == |moved| && forall p :: 0 <= p < |moved| ==> moved[p] == Some(values[p])
    requires IsMatching(b, a, back) && IsScatter(values, back, initialValue, returned)
    ensures |returned| == |data| && forall i :: 0 <= i < |data| ==> returned[i] == Some(data[i])
  {
    MatchingsAreInverse(a, b, there, back);
    ScatterLength(data, a, b, there, initialValue, moved);
    ScatterLength(values, b, a, back, initialValue, returned);
    forall i | 0 <= i < |data|
      ensures returned[i] == Some(data[i])
    {
      assert a[i] in b;
      var j :| 0 <= j < |b| && b[j] == a[i];
      DistinctMatched(a, b, there, i, j);
      assert moved[j] == At(data, i);
      assert back[j] == i;
      assert returned[i] == At(values, j);
    }
  }

  // ---------- a matching always exists ----------

  // The new positions of a key that have been given away.
  function Taken(b: seq<string>, indexMap: seq<int>, key: string): set<nat> {
    set l: nat | l < |b| && b[l] == key && l in indexMap
  }

  lemma TakenOf(b: seq<string>, indexMap: seq<int>, key: string)
    ensures Taken(b, indexMap, key) <= Where(b, key)
    ensures |Taken(b, indexMap, key)| <= |Where(b, key)|
    ensures forall l: nat :: l < |b| && b[l] == key && l !in indexMap ==> |Taken(b, indexMap, key)| < |Where(b, key)|
    ensures (forall l: nat :: l < |b| && b[l] == key ==> l in indexMap) ==> |Taken(b, indexMap, key)| == |Where(b, key)|
  {
    var taken, all := Taken(b, indexMap, key), Where(b, key);
    Subset(taken, all);
    if l: nat :| l < |b| && b[l] == key && l !in indexMap {
      Subset(taken + {l}, all);
    } else {
      assert taken == all;
    }
  }

  // What giving one more old address a new position, or none, does to the counts.
  lemma WhereGrows(a: seq<string>, key: string)
    requires a != []
    ensures var n := |a| - 1; |Where(a, key)| == |Where(a[..n], key)| + if a[n] == key then 1 else 0
  {
    var n := |a| - 1;
    assert Where(a, key) == Where(a[..n], key) + if a[n] == key then {n} else {};
  }

  lemma MatchedGrows(a: seq<string>, before: seq<int>, v: int, key: string)
    requires |a| == |before| + 1
    ensures var n := |before|;
      |Matched(a, before + [v], key)| == |Matched(a[..n], before, key)| + if a[n] == key && v >= 0 then 1 else 0
  {
    var n, now := |before|, before + [v];
    assert now[n] == v;
    assert Matched(a, now, key) == Matched(a[..n], before, key) + if a[n] == key && v >= 0 then {n} else {};
  }

  lemma TakenGrows(b: seq<string>, before: seq<int>, v: int, key: string)
    requires v >= 0 ==> v < |b| && v !in before
    ensures |Taken(b, before + [v], key)| == |Taken(b, before, key)| + if v >= 0 && b[v] == key then 1 else 0
  {
    var now, more: set<nat> := before + [v], if v >= 0 && b[v] == key then {v} else {};
    assert now[|before|] == v;
    assert forall l :: l in now <==> l in before || l == v;
    assert Taken(b, now, key) == Taken(b, before, key) + more;
  }

  // Taking a free position whenever there is one keeps the count of a key as large as it can be.
  lemma CountsGrow(a: seq<string>, b: seq<string>, before: seq<int>, v: int, key: string)
    requires |a| == |before| + 1 && (v >= 0 ==> v < |b| && b[v] == a[|before|] && v !in before)
    requires v < 0 ==> forall l: nat :: l < |b| && b[l] == a[|before|] ==> l in before
    requires |Taken(b, before, key)| == |Matched(a[..|before|], before, key)|
          == Min(|Where(a[..|before|], key)|, |Where(b, key)|)
    ensures |Taken(b, before + [v], key)| == |Matched(a, before + [v], key)| == Min(|Where(a, key)|, |Where(b, key)|)
  {
    hide Where, Matched, Taken;
    WhereGrows(a, key);
    MatchedGrows(a, before, v, key);
    TakenGrows(b, before, v, key);
    TakenOf(b, before, key);
  }

  lemma NothingMatched(b: seq<string>)
    ensures IsMatching([], b, [])
    ensures forall key :: |Taken(b, [], key)| == |Matched([], [], key)|
  {
  }

  // Each old address in turn takes an equal new one that is still free, if there is one.
  lemma {:induction false} MatchingExists(a: seq<string>, b: seq<string>) returns (indexMap: seq<int>)
    ensures IsMatching(a, b, indexMap)
    ensures forall key :: |Taken(b, indexMap, key)| == |Matched(a, indexMap, key)|
  {
    hide Where, Matched, Taken, Min;
    if a == [] {
      NothingMatched(b);
      return [];
    }
    var n := |a| - 1;
    var before := MatchingExists(a[..n], b);
    var v := -1;
    if j: nat :| j < |b| && b[j] == a[n] && j !in before {
      v := j;
    }
    indexMap := before + [v];
    forall key
      ensures |Taken(b, indexMap, key)| == |Matched(a, indexMap, key)| == Min(|Where(a, key)|, |Where(b, key)|)
    {
      CountsGrow(a, b, before, v, key);
    }
  }

  lemma SomeMatched(a: seq<string>, b: seq<string>, indexMap: seq<int>, key: string) returns (i: nat)
    requires IsMatching(a, b, indexMap) && key in a && key in b
    ensures i < |a| && a[i] == key && indexMap[i] >= 0
  {
    var k :| 0 <= k < |a| && a[k] == key;
    var l :| 0 <= l < |b| && b[l] == key;
    assert k in Where(a, key) && l in Where(b, key);
    assert |Matched(a, indexMap, key)| > 0;
    i :| i in Matched(a, indexMap, key);
  }

  lemma Rematch(a: seq<string>, b: seq<string>, indexMap: seq<int>, i: nat, j: nat)
    requires IsMatching(a, b, indexMap) && i < |a| && j < |b| && a[i] == b[j] && indexMap[i] >= 0 && j !in indexMap
    ensures IsMatching(a, b, indexMap[i := j])
  {
    forall key
      ensures Matched(a, indexMap[i := j], key) == Matched(a, indexMap, key)
    {
    }
  }

  // Every position of the new list that holds an old address is used by some matching.
  lemma MatchingUsing(a: seq<string>, b: seq<string>, j: nat) returns (indexMap: seq<int>)
    requires j < |b| && b[j] in a
    ensures IsMatching(a, b, indexMap) && j in indexMap
  {
    indexMap := MatchingExists(a, b);
    if j !in indexMap {
      var i := SomeMatched(a, b, indexMap, b[j]);
      assert indexMap[i := j][i] == j;
      Rematch(a, b, indexMap, i, j);
      indexMap := indexMap[i := j];
    }
  }

  // ---------- the length of the result ----------

  // With no more new addresses than old ones nothing lands past the original end.
  lemma ScatterLength<T>(
    data: seq<T>, a: seq<string>, b: seq<string>, indexMap: seq<int>, initialValue: T, res: seq<Option<T>>)
    requires IsMatching(a, b, indexMap) && IsScatter(data, indexMap, initialValue, res) && |b| <= |a|
    ensures |res| == |a|
    ensures |data| >= |a| ==> forall p :: 0 <= p < |res| ==> res[p].Some?
  {
  }

  ghost predicate StaysWithin(indexMap: seq<int>) {
    forall i :: 0 <= i < |indexMap| ==> indexMap[i] < |indexMap|
  }

  // The result keeps the old length exactly when nothing is sent past it.
  lemma LengthKeptIff<T>(data: seq<T>, indexMap: seq<int>, initialValue: T, res: seq<Option<T>>)
    requires IsScatter(data, indexMap, initialValue, res)
    ensures |res| == |indexMap| <==> StaysWithin(indexMap)
  {
    if |res| > |indexMap| {
      var i :| 0 <= i < |indexMap| && indexMap[i] == |res| - 1;
    }
  }

  // None of the new addresses past the old length is an old one.
  ghost predicate OldOnesFit(a: seq<string>, b: seq<string>) {
    forall j :: |a| <= j < |b| ==> b[j] !in a
  }

  // Without duplicates the lists alone decide it.
  lemma DistinctLengthKeptIff<T>(
    data: seq<T>, a: seq<string>, b: seq<string>, indexMap: seq<int>, initialValue: T, res: seq<Option<T>>)
    requires Distinct(a) && Distinct(b) && IsMatching(a, b, indexMap) && IsScatter(data, indexMap, initialValue, res)
    ensures |res| == |a| <==> OldOnesFit(a, b)
  {
    LengthKeptIff(data, indexMap, initialValue, res);
    if j :| |a| <= j < |b| && b[j] in a {
      var i :| 0 <= i < |a| && a[i] == b[j];
      DistinctMatched(a, b, indexMap, i, j);
    }
  }

  // With duplicates it may depend on which of several equal addresses the sort pairs up. The old length is
  // kept whichever it picks, under the same condition.
  lemma LengthKeptForEveryMatchingIff(a: seq<string>, b: seq<string>)
    ensures (forall indexMap :: IsMatching(a, b, indexMap) ==> StaysWithin(indexMap)) <==> OldOnesFit(a, b)
  {
    if j: nat :| |a| <= j < |b| && b[j] in a {
      var indexMap := MatchingUsing(a, b, j);
    }
  }

  // The result does grow: one old address, found second in the new list, takes its datum past the old end.
  lemma ResultCanGrow<T>(datum: T, initialValue: T, indexMap: seq<int>, res: seq<Option<T>>)
    requires IsMatching(["a"], ["b", "a"], indexMap) && IsScatter([datum], indexMap, initialValue, res)
    ensures res == [Some(initialValue), Some(datum)]
  {
    DistinctMatched(["a"], ["b", "a"], indexMap, 0, 1);
    assert indexMap[0] == 1;
    assert Hit(indexMap, 1, |res| - 1) && !Hit(indexMap, 1, 0);
  }
}
