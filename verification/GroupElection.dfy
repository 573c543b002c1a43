/** The two transactions of each group in packages/protocol/migrations/25_elect_validators.ts, as the
    Election contract's sorted list takes them: the group is made eligible, then votes for itself. */
module GroupElection {
  import opened Addresses
  import opened Options
  import opened Sequences
  import opened VoteList
  import opened ChainMirror
  import opened GroupVotes
  import opened GroupTies
  import C = ChainList

  ghost predicate Ready(groups: Groups) {
    Unique(groups) && !Has(groups, C.ZERO) && forall j :: 0 <= j < |groups| ==> groups[j].value > 0.0
  }

  function Smallest(groups: Groups, idx: nat, sorted: Permutation): Address
    requires idx <= |groups| && IsSort(sorted, groups, idx)
  {
    if |sorted| > 0 then groups[sorted[0]].address else NULL_ADDRESS
  }

  // `addFirstMember` lists the group with no votes yet, hinting at the one with the fewest in any sorted copy.
  function Enlist(chain: C.SortedList, groups: Groups, idx: nat, sorted: Permutation): Option<C.SortedList>
    requires idx < |groups| && IsSort(sorted, groups, idx)
  {
    chain.Insert(Key(groups[idx]), 0.0, C.ZERO, Normalize(Smallest(groups, idx, sorted)))
  }

  // `vote` raises the group by its vote amount, with the hints read off the next sorted copy.
  function CastVote(chain: C.SortedList, groups: Groups, idx: nat, perm: Permutation): Option<C.SortedList>
    requires idx < |groups| && IsSort(perm, groups, idx + 1)
  {
    var key := Key(groups[idx]);
    chain.Update(key, chain.Value(key) + groups[idx].value,
      Normalize(Lesser(groups, perm, idx)), Normalize(Greater(groups, perm, idx)))
  }

  // The group hinted at when another one becomes eligible has the fewest votes of all so far.
  lemma SmallestIsLeast(groups: Groups, idx: nat, sorted: Permutation) returns (least: nat)
    requires idx <= |groups| && IsSort(sorted, groups, idx)
    ensures idx == 0 ==> Smallest(groups, idx, sorted) == NULL_ADDRESS
    ensures idx > 0 ==>
      && least < idx && Smallest(groups, idx, sorted) == groups[least].address
      && forall k :: 0 <= k < idx ==> groups[least].value <= groups[k].value
  {
    if idx == 0 {
      return 0;
    }
    least := sorted[0];
    forall k: nat | k < idx
      ensures groups[least].value <= groups[k].value
    {
      var q := Place(sorted, idx, k);
    }
  }

  lemma ListingHas(order: Permutation, groups: Groups, n: nat, j: nat)
    requires n <= |groups| && j < |groups| && Unique(groups) && IsListing(order, groups, n)
    ensures Has(Listed(groups, order), Key(groups[j])) <==> j < n
    ensures !Has(groups, C.ZERO) ==> Key(groups[j]) != C.ZERO
  {
    hide Key, Normalize;
    ListingPlaces(order, groups, n);
    var items := Listed(groups, order);
    if j < n {
      assert Key(items[ListedPlace(groups, order, n, j)]) == Key(groups[j]);
    }
    if Has(items, Key(groups[j])) {
      var p :| 0 <= p < n && Key(items[p]) == Key(groups[j]);
      assert Key(groups[order[p]]) == Key(groups[j]);
    }
  }

  // The list on chain between the two transactions of group idx.
  function Enlisted(groups: Groups, order: Permutation, idx: nat): seq<Item>
    requires idx < |groups| && |order| == idx && forall p :: 0 <= p < idx ==> order[p] < idx
  {
    Splice(Listed(groups, order), idx, Item(groups[idx].address, 0.0))
  }

  lemma AllPositive(groups: Groups, order: Permutation, n: nat)
    requires Ready(groups) && n <= |groups| && IsListing(order, groups, n)
    ensures forall p :: 0 <= p < n ==> Listed(groups, order)[p].value > 0.0
  {
  }

  // Any sort will do for the first transaction: everybody else has votes, so the group goes last.
  lemma BecomesEligible(chain: C.SortedList, groups: Groups, order: Permutation, idx: nat, sorted: Permutation)
    requires Ready(groups) && idx < |groups| && IsListing(order, groups, idx) && Mirrors(chain, Listed(groups, order))
    requires IsSort(sorted, groups, idx)
    ensures Enlist(chain, groups, idx, sorted).Some?
    ensures Mirrors(Enlist(chain, groups, idx, sorted).value, Enlisted(groups, order, idx))
  {
    var items, item := Listed(groups, order), Item(groups[idx].address, 0.0);
    ListingHas(order, groups, idx, idx);
    AllPositive(groups, order, idx);
    var greater := if idx > 0 then ListedPlace(groups, order, idx, sorted[0]) else -1;
    hide Listed, Normalize;
    assert Normalize(Smallest(groups, idx, sorted)) == C.KeyAt(Keys(items), greater);
    EligibleLast(chain, items, item, greater);
  }

  lemma EligibleLast(chain: C.SortedList, items: seq<Item>, item: Item, greater: int)
    requires Mirrors(chain, items) && Descending(items) && !Has(items, Key(item)) && Key(item) != C.ZERO
    requires item.value == 0.0 && forall p :: 0 <= p < |items| ==> items[p].value > 0.0
    requires -1 <= greater < |items| && (greater == -1 ==> items == [])
    ensures var eligible := chain.Insert(Key(item), 0.0, C.ZERO, C.KeyAt(Keys(items), greater));
      eligible.Some? && Mirrors(eligible.value, Splice(items, |items|, item))
  {
    hide Mirrors, Key, Normalize, Descending, C.SortedList.Insert;
    OneGoodHintIsEnough(chain, items, item, |items|, greater);
    var eligible := chain.Insert(Key(item), 0.0, C.ZERO, C.KeyAt(Keys(items), greater));
    assert Fits(items, |items|, 0.0);
    var p :| Fits(items, p, 0.0) && Mirrors(eligible.value, Splice(items, p, item));
    assert p == |items|;
  }

  // A vote takes the group out, without its zero entry, and puts it back in.
  lemma VoteIsInsert(chain: C.SortedList, groups: Groups, order: Permutation, idx: nat, perm: Permutation)
    requires Ready(groups) && idx < |groups| && IsListing(order, groups, idx) && IsSort(perm, groups, idx + 1)
    requires Mirrors(chain, Enlisted(groups, order, idx))
    ensures var key, items := Key(groups[idx]), Listed(groups, order);
      && !Has(items, key) && key != C.ZERO
      && chain.Remove(key).Some? && Mirrors(chain.Remove(key).value, items)
      && CastVote(chain, groups, idx, perm) == chain.Remove(key).value.Insert(key, groups[idx].value,
           Normalize(Lesser(groups, perm, idx)), Normalize(Greater(groups, perm, idx)))
  {
    var item := Item(groups[idx].address, 0.0);
    ListingHas(order, groups, idx, idx);
    hide Normalize, Listed, IsListing, Mirrors, Lesser, Greater;
    hide C.SortedList.Insert, C.SortedList.Remove, C.SortedList.Value;
    UndoEligible(chain, Listed(groups, order), item);
  }

  lemma UndoEligible(chain: C.SortedList, items: seq<Item>, item: Item)
    requires Mirrors(chain, Splice(items, |items|, item)) && !Has(items, Key(item))
    ensures chain.Value(Key(item)) == item.value
    ensures chain.Remove(Key(item)).Some? && Mirrors(chain.Remove(Key(item)).value, items)
  {
    hide Normalize, Key, C.SortedList.Remove;
    var more := Splice(items, |items|, item);
    assert more[|items|] == item;
    assert IndexOfKey(more, Key(item)) == |items|;
    RemoveMirrors(chain, more, Key(item));
    CutOwnSplice(items, |items|, item);
  }

  // ---------- one vote, any sort ----------

  // Where the chain lists the hinted groups; idx and -1 stand for no hint.
  ghost function LesserPlace(groups: Groups, order: Permutation, perm: Permutation, idx: nat): int
    requires idx < |groups| && IsListing(order, groups, idx) && IsSort(perm, groups, idx + 1)
  {
    var g := IndexOf(perm, idx);
    if g > 0 then ListedPlace(groups, order, idx, perm[g - 1]) else idx
  }

  ghost function GreaterPlace(groups: Groups, order: Permutation, perm: Permutation, idx: nat): int
    requires idx < |groups| && IsListing(order, groups, idx) && IsSort(perm, groups, idx + 1)
  {
    var g := IndexOf(perm, idx);
    if g < idx then ListedPlace(groups, order, idx, perm[g + 1]) else -1
  }

  // Two hinted positions that bracket a value, |items| and -1 standing for no hint.
  ghost predicate Brackets(items: seq<Item>, lesser: int, greater: int, value: real) {
    && 0 <= lesser <= |items| && -1 <= greater < |items|
    && (if lesser < |items| then items[lesser].value <= value
        else forall i :: 0 <= i < |items| ==> items[i].value >= value)
    && (if greater >= 0 then items[greater].value >= value
        else forall i :: 0 <= i < |items| ==> items[i].value <= value)
    && (lesser == |items| && greater == -1 ==> items == [])
  }

  lemma BracketsAtEnds(items: seq<Item>, lesser: int, greater: int, value: real)
    requires Brackets(items, lesser, greater, value)
    ensures lesser == |items| ==> Fits(items, |items|, value)
    ensures greater == -1 ==> Fits(items, 0, value)
  {
  }

  lemma SortBrackets(groups: Groups, order: Permutation, perm: Permutation, idx: nat)
    requires idx < |groups| && IsListing(order, groups, idx) && IsSort(perm, groups, idx + 1)
    ensures Brackets(Listed(groups, order),
      LesserPlace(groups, order, perm, idx), GreaterPlace(groups, order, perm, idx), groups[idx].value)
  {
    HintsBracket(groups, perm, idx);
    ListingPlaces(order, groups, idx);
  }

  lemma PlaceKeys(groups: Groups, order: Permutation, perm: Permutation, idx: nat)
    requires idx < |groups| && IsListing(order, groups, idx) && IsSort(perm, groups, idx + 1)
    ensures var keys := Keys(Listed(groups, order));
      && Normalize(Lesser(groups, perm, idx)) == C.KeyAt(keys, LesserPlace(groups, order, perm, idx))
      && Normalize(Greater(groups, perm, idx)) == C.KeyAt(keys, GreaterPlace(groups, order, perm, idx))
  {
  }

  // A group spliced in where its votes fit leaves a listing.
  lemma GrownListing(groups: Groups, order: Permutation, idx: nat, p: nat)
    requires idx < |groups| && IsListing(order, groups, idx) && Fits(Listed(groups, order), p, groups[idx].value)
    ensures |order| == idx && IsListing(Splice<nat>(order, p, idx), groups, idx + 1)
    ensures Listed(groups, Splice<nat>(order, p, idx)) == Splice(Listed(groups, order), p, groups[idx])
  {
    SplicePermutation(order, idx, p);
    SpliceKeepsDescending(Listed(groups, order), p, groups[idx]);
    assert Listed(groups, Splice<nat>(order, p, idx)) == Splice(Listed(groups, order), p, groups[idx]);
  }

  // The chain lists the first n groups by descending votes, ties in some order.
  ghost predicate ListsByVotes(chain: C.SortedList, groups: Groups, n: nat)
    requires n <= |groups|
  {
    exists order :: IsListing(order, groups, n) && Mirrors(chain, Listed(groups, order))
  }

  lemma ListingOf(chain: C.SortedList, groups: Groups, n: nat) returns (order: Permutation)
    requires n <= |groups| && ListsByVotes(chain, groups, n)
    ensures IsListing(order, groups, n) && Mirrors(chain, Listed(groups, order))
  {
    order :| IsListing(order, groups, n) && Mirrors(chain, Listed(groups, order));
  }

  lemma VoteListsByVotes(chain: C.SortedList, groups: Groups, order: Permutation, idx: nat, p: nat)
    requires idx < |groups| && IsListing(order, groups, idx) && Fits(Listed(groups, order), p, groups[idx].value)
    requires Mirrors(chain, Splice(Listed(groups, order), p, groups[idx]))
    ensures ListsByVotes(chain, groups, idx + 1)
  {
    hide IsListing, Fits, Mirrors;
    GrownListing(groups, order, idx, p);
  }

  lemma InsertOutcome(rest: C.SortedList, groups: Groups, order: Permutation, idx: nat, lesser: int, greater: int)
    requires idx < |groups| && IsListing(order, groups, idx) && Mirrors(rest, Listed(groups, order))
    requires !Has(Listed(groups, order), Key(groups[idx])) && Key(groups[idx]) != C.ZERO
    requires Brackets(Listed(groups, order), lesser, greater, groups[idx].value)
    ensures var items, value := Listed(groups, order), groups[idx].value;
      var voted := rest.Insert(Key(groups[idx]), value, C.KeyAt(Keys(items), lesser), C.KeyAt(Keys(items), greater));
      && (voted.Some? <==> Fits(items, lesser, value) || Fits(items, greater + 1, value))
      && (voted.Some? ==> ListsByVotes(voted.value, groups, idx + 1))
  {
    hide Has, Key, Normalize, Listed, IsListing, Keys, C.KeyAt, ListsByVotes, Mirrors;
    hide C.SortedList.Insert;
    ListingDescends(order, groups, idx);
    var items, value := Listed(groups, order), groups[idx].value;
    OneGoodHintIsEnough(rest, items, groups[idx], lesser, greater);
    var voted := rest.Insert(Key(groups[idx]), value, C.KeyAt(Keys(items), lesser), C.KeyAt(Keys(items), greater));
    if voted.Some? {
      var p :| Fits(items, p, value) && Mirrors(voted.value, Splice(items, p, groups[idx]));
      VoteListsByVotes(voted.value, groups, order, idx, p);
    }
  }

  // On any order the chain may be in and with any sort: the vote goes through exactly when one of the two
  // hinted groups is, on chain, next to a place for the new amount; then the chain is in such an order again.
  lemma AnySortAcceptedIff(chain: C.SortedList, groups: Groups, order: Permutation, idx: nat, perm: Permutation)
    requires Ready(groups) && idx < |groups| && IsListing(order, groups, idx) && IsSort(perm, groups, idx + 1)
    requires Mirrors(chain, Enlisted(groups, order, idx))
    ensures var items, value, voted := Listed(groups, order), groups[idx].value, CastVote(chain, groups, idx, perm);
      && (voted.Some? <==>
        || Fits(items, LesserPlace(groups, order, perm, idx), value)
        || Fits(items, GreaterPlace(groups, order, perm, idx) + 1, value))
      && (voted.Some? ==> ListsByVotes(voted.value, groups, idx + 1))
  {
    hide Ready, Has, Key, Normalize, Listed, IsListing, IsSort, Brackets, Fits, Keys, C.KeyAt, ListsByVotes;
    hide LesserPlace, GreaterPlace, Lesser, Greater, Mirrors, C.SortedList.Insert, CastVote, Enlisted;
    VoteIsInsert(chain, groups, order, idx, perm);
    SortBrackets(groups, order, perm, idx);
    PlaceKeys(groups, order, perm, idx);
    InsertOutcome(chain.Remove(Key(groups[idx])).value, groups, order, idx,
      LesserPlace(groups, order, perm, idx), GreaterPlace(groups, order, perm, idx));
  }

  // ---------- every sort ----------

  // The neighbours of the newest group in a sort have the nearest amounts.
  lemma HintsAround(groups: Groups, perm: Permutation, idx: nat)
    requires idx < |groups| && IsSort(perm, groups, idx + 1)
    ensures idx in perm
    ensures var g := IndexOf(perm, idx);
      (0 < g < idx && groups[perm[g - 1]].value < groups[idx].value < groups[perm[g + 1]].value) ==>
        Around(groups, idx, perm[g - 1], perm[g + 1])
  {
    var g := IndexOf(perm, idx);
    if 0 < g < idx {
      forall j | 0 <= j < idx
        ensures groups[j].value <= groups[perm[g - 1]].value || groups[j].value >= groups[perm[g + 1]].value
      {
        var q := Place(perm, idx + 1, j);
        assert q != g;
      }
    }
  }

  // Hints that do not fit on a descending list leave an equal item between either of them and the place.
  lemma MissedPlaces(items: seq<Item>, lesser: int, greater: int, value: real)
    requires Descending(items) && Brackets(items, lesser, greater, value)
    requires !Fits(items, lesser, value) && !Fits(items, greater + 1, value)
    ensures 0 <= greater && greater + 1 < |items| && 0 < lesser < |items|
    ensures items[lesser].value <= items[lesser - 1].value < value < items[greater + 1].value <= items[greater].value
  {
    BracketsAtEnds(items, lesser, greater, value);
  }

  lemma SharedAmounts(groups: Groups, idx: nat, a: nat, b: nat, c: nat, d: nat)
    requires idx < |groups| && Around(groups, idx, a, c) && b < idx && d < idx && a != b && c != d
    requires groups[a].value <= groups[b].value < groups[idx].value < groups[d].value <= groups[c].value
    ensures Crowded(groups, idx)
  {
    assert Around(groups, idx, b, d);
  }

  // What the places stand for when neither hint is missing.
  lemma PlacesOfHints(groups: Groups, order: Permutation, perm: Permutation, idx: nat)
    requires idx < |groups| && IsListing(order, groups, idx) && IsSort(perm, groups, idx + 1)
    ensures |order| == idx
    ensures forall p :: 0 <= p < idx ==> order[p] < idx && Listed(groups, order)[p] == groups[order[p]]
    ensures forall p, q :: 0 <= p < q < idx ==> order[p] != order[q]
    ensures var l, h := LesserPlace(groups, order, perm, idx), GreaterPlace(groups, order, perm, idx);
      (0 <= l < idx && 0 <= h < idx && groups[order[l]].value < groups[idx].value < groups[order[h]].value) ==>
        Around(groups, idx, order[l], order[h])
  {
    HintsAround(groups, perm, idx);
  }

  lemma RefusedIsCrowded(chain: C.SortedList, groups: Groups, order: Permutation, idx: nat, perm: Permutation)
    requires Ready(groups) && idx < |groups| && IsListing(order, groups, idx) && IsSort(perm, groups, idx + 1)
    requires Mirrors(chain, Enlisted(groups, order, idx)) && CastVote(chain, groups, idx, perm).None?
    ensures Crowded(groups, idx)
  {
    hide Ready, Mirrors, CastVote, Enlisted, IsSort, IsListing, Crowded, Around, Fits, Brackets, Descending;
    hide LesserPlace, GreaterPlace, Listed;
    AnySortAcceptedIff(chain, groups, order, idx, perm);
    SortBrackets(groups, order, perm, idx);
    ListingDescends(order, groups, idx);
    PlacesOfHints(groups, order, perm, idx);
    var l, h := LesserPlace(groups, order, perm, idx), GreaterPlace(groups, order, perm, idx);
    MissedPlaces(Listed(groups, order), l, h, groups[idx].value);
    SharedAmounts(groups, idx, order[l], order[l - 1], order[h], order[h + 1]);
  }

  lemma FarSortIsRefused(chain: C.SortedList, groups: Groups, order: Permutation, idx: nat) returns (perm: Permutation)
    requires Ready(groups) && idx < |groups| && IsListing(order, groups, idx)
    requires Mirrors(chain, Enlisted(groups, order, idx)) && Crowded(groups, idx)
    ensures IsSort(perm, groups, idx + 1) && CastVote(chain, groups, idx, perm).None?
  {
    hide Ready, Mirrors, CastVote, Enlisted, IsPermutation, Crowded, IsSort, IsListing, Fits, Listed;
    hide FarSort, FirstAtMost, LesserPlace, GreaterPlace;
    ListingDescends(order, groups, idx);
    CrowdedListing(groups, order, idx);
    var p := FirstAtMost(groups, order, groups[idx].value);
    perm := FarSort(order, p, idx);
    FarSortIsSort(groups, order, idx, p);
    FarPlaces(groups, order, idx, p);
    FarHintsMiss(Listed(groups, order), p, groups[idx].value);
    AnySortAcceptedIff(chain, groups, order, idx, perm);
  }

  lemma FarHintsMiss(items: seq<Item>, p: nat, value: real)
    requires CrowdedAt(items, value, p)
    ensures !Fits(items, p + 1, value) && !Fits(items, p - 1, value)
  {
  }

  lemma FarPlaces(groups: Groups, order: Permutation, idx: nat, p: nat)
    requires idx < |groups| && IsListing(order, groups, idx) && CrowdedAt(Listed(groups, order), groups[idx].value, p)
    requires IsSort(FarSort(order, p, idx), groups, idx + 1)
    ensures LesserPlace(groups, order, FarSort(order, p, idx), idx) == p + 1
    ensures GreaterPlace(groups, order, FarSort(order, p, idx), idx) == p - 2
  {
    var perm := FarSort(order, p, idx);
    ListingPlaces(order, groups, idx);
    FarSortAt(order, p, idx);
    assert IndexOf(perm, idx) == idx - p;
    hide IsPermutation, FarSort;
    assert order[ListedPlace(groups, order, idx, order[p + 1])] == order[p + 1];
    assert order[ListedPlace(groups, order, idx, order[p - 2])] == order[p - 2];
  }

  // Every sort gives hints that are accepted exactly when the amounts are not crowded around the new one.
  lemma EverySortAcceptedIff(chain: C.SortedList, groups: Groups, order: Permutation, idx: nat)
    requires Ready(groups) && idx < |groups| && IsListing(order, groups, idx)
    requires Mirrors(chain, Enlisted(groups, order, idx))
    ensures (forall perm :: IsSort(perm, groups, idx + 1) ==> CastVote(chain, groups, idx, perm).Some?)
      <==> !Crowded(groups, idx)
  {
    hide Ready, Mirrors, CastVote, Enlisted, Crowded, IsListing;
    forall perm | IsSort(perm, groups, idx + 1) && !Crowded(groups, idx)
      ensures CastVote(chain, groups, idx, perm).Some?
    {
      if CastVote(chain, groups, idx, perm).None? {
        RefusedIsCrowded(chain, groups, order, idx, perm);
      }
    }
    if Crowded(groups, idx) {
      var perm := FarSortIsRefused(chain, groups, order, idx);
    }
  }
}
