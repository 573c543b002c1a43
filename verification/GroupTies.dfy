/** The groups of packages/protocol/migrations/25_elect_validators.ts in any order that earlier sorts may have
    given them on chain, and the amounts for which some sort hints at the wrong one of several equal groups. */
module GroupTies {
  import opened Sequences
  import opened VoteList
  import opened GroupVotes

  // The first n groups by descending votes, ties in any order.
  ghost predicate IsListing(order: Permutation, groups: Groups, n: nat)
    requires n <= |groups|
  {
    IsPermutation(order, n) && Descending(Listed(groups, order))
  }

  lemma OrderIsListing(groups: Groups, n: nat)
    requires n <= |groups|
    ensures IsListing(Order(groups, n), groups, n)
  {
    OrderDescends(groups, n);
    hide Order, IsPermutation;
    var order := Order(groups, n);
    forall p, q | 0 <= p < q < n
      ensures groups[order[p]].value >= groups[order[q]].value
    {
      assert Before(groups, order[q], order[p]);
    }
  }

  lemma ListingDescends(order: Permutation, groups: Groups, n: nat)
    requires n <= |groups| && IsListing(order, groups, n)
    ensures |order| == n && (forall p :: 0 <= p < n ==> order[p] < n) && Descending(Listed(groups, order))
  {
  }

  // A listing has every group at one place.
  lemma ListingPlaces(order: Permutation, groups: Groups, n: nat)
    requires n <= |groups| && IsListing(order, groups, n)
    ensures |order| == n && forall p :: 0 <= p < n ==> order[p] < n
    ensures forall p :: 0 <= p < n ==> Listed(groups, order)[p] == groups[order[p]]
    ensures forall j: nat :: j < n ==> j in order
    ensures forall p, q :: 0 <= p < q < n ==> order[p] != order[q]
    ensures forall p, q :: 0 <= p <= q < n ==> groups[order[p]].value >= groups[order[q]].value
  {
    forall p, q | 0 <= p < q < n
      ensures groups[order[p]].value >= groups[order[q]].value
    {
      assert Listed(groups, order)[p].value >= Listed(groups, order)[q].value;
    }
  }

  // ---------- when the hints depend on the sort ----------

  // Among the earlier groups, `low` and `high` have the amounts next to the newest group's, which is neither.
  ghost predicate Around(groups: Groups, idx: nat, low: nat, high: nat) {
    && low < idx && high < idx < |groups|
    && groups[low].value < groups[idx].value < groups[high].value
    && forall j :: 0 <= j < idx ==> groups[j].value <= groups[low].value || groups[j].value >= groups[high].value
  }

  // On either side, two or more earlier groups share that amount.
  ghost predicate Crowded(groups: Groups, idx: nat) {
    exists a: nat, b: nat, c: nat, d: nat :: a != b && c != d && Around(groups, idx, a, c) && Around(groups, idx, b, d)
  }

  // Then, next to the place for the newest group, the two groups on either side have equal votes.
  predicate CrowdedAt(items: seq<Item>, value: real, p: nat) {
    && 2 <= p <= |items| - 2
    && items[p - 2].value == items[p - 1].value > value > items[p].value == items[p + 1].value
  }

  lemma CrowdedItems(items: seq<Item>, value: real, p: nat, a: nat, b: nat, c: nat, d: nat)
    requires Descending(items) && a < |items| && b < |items| && c < |items| && d < |items| && a != b && c != d
    requires items[a].value == items[b].value < value < items[c].value == items[d].value
    requires p <= |items| && (forall q :: 0 <= q < p ==> items[q].value >= items[c].value)
    requires forall q :: p <= q < |items| ==> items[q].value <= items[a].value
    ensures CrowdedAt(items, value, p)
  {
    var low, high := if a < b then b else a, if c < d then c else d;
    assert p < low && high < p - 1;
    assert items[p].value >= items[p + 1].value >= items[low].value;
    assert items[high].value >= items[p - 2].value >= items[p - 1].value;
  }

  // Where the votes of a listing fall off on either side of the newest group's.
  lemma ListingAround(groups: Groups, order: Permutation, idx: nat, low: nat, high: nat)
    requires idx < |groups| && IsListing(order, groups, idx) && Around(groups, idx, low, high)
    ensures var items, p := Listed(groups, order), FirstAtMost(groups, order, groups[idx].value);
      && (forall q :: 0 <= q < p ==> items[q].value >= groups[high].value)
      && (forall q :: p <= q < idx ==> items[q].value <= groups[low].value)
  {
    var p := FirstAtMost(groups, order, groups[idx].value);
    ListingPlaces(order, groups, idx);
    hide IsListing, IsPermutation, FirstAtMost, Listed;
    forall q | p <= q < idx
      ensures groups[order[q]].value <= groups[low].value
    {
      assert groups[order[p]].value >= groups[order[q]].value;
    }
  }

  ghost function ListedPlace(groups: Groups, order: Permutation, idx: nat, j: nat): (p: nat)
    requires idx <= |groups| && IsListing(order, groups, idx) && j < idx
    ensures p < idx == |order| && order[p] == j && Listed(groups, order)[p] == groups[j]
  {
    IndexOf(order, j)
  }

  lemma CrowdedListing(groups: Groups, order: Permutation, idx: nat)
    requires idx < |groups| && IsListing(order, groups, idx) && Crowded(groups, idx)
    ensures CrowdedAt(Listed(groups, order), groups[idx].value, FirstAtMost(groups, order, groups[idx].value))
  {
    hide IsListing, IsPermutation, FirstAtMost, Listed, Descending, CrowdedAt;
    var a: nat, b: nat, c: nat, d: nat :| a != b && c != d && Around(groups, idx, a, c) && Around(groups, idx, b, d);
    assert groups[a].value == groups[b].value && groups[c].value == groups[d].value;
    ListingDescends(order, groups, idx);
    ListingAround(groups, order, idx, a, c);
    CrowdedItems(Listed(groups, order), groups[idx].value, FirstAtMost(groups, order, groups[idx].value),
      ListedPlace(groups, order, idx, a), ListedPlace(groups, order, idx, b),
      ListedPlace(groups, order, idx, c), ListedPlace(groups, order, idx, d));
  }

  // A sort in which the hinted groups are the far ones of each pair.
  function FarOrder(order: Permutation, p: nat): (r: Permutation)
    requires 2 <= p <= |order| - 2
    ensures |r| == |order|
  {
    order[p - 2 := order[p - 1]][p - 1 := order[p - 2]][p := order[p + 1]][p + 1 := order[p]]
  }

  function FarSort(order: Permutation, p: nat, idx: nat): (r: Permutation)
    requires 2 <= p <= |order| - 2 && |order| == idx
    ensures |r| == idx + 1
  {
    seq(idx + 1, q requires 0 <= q <= idx => Splice<nat>(FarOrder(order, p), p, idx)[idx - q])
  }

  lemma FarSortAt(order: Permutation, p: nat, idx: nat)
    requires 2 <= p <= |order| - 2 && |order| == idx
    ensures var perm := FarSort(order, p, idx);
      perm[idx - p] == idx && perm[idx - p - 1] == order[p + 1] && perm[idx - p + 1] == order[p - 2]
  {
    var far, perm := FarOrder(order, p), FarSort(order, p, idx);
    var more := Splice<nat>(far, p, idx);
    assert more[p] == idx && more[p + 1] == far[p] && more[p - 1] == far[p - 1];
    hide Splice, FarOrder;
    assert perm[idx - p] == more[p] && perm[idx - (p + 1)] == more[p + 1] && perm[idx - (p - 1)] == more[p - 1];
  }

  lemma FarOrderPermutes(order: Permutation, p: nat)
    requires 2 <= p <= |order| - 2 && IsPermutation(order, |order|)
    ensures IsPermutation(FarOrder(order, p), |order|)
  {
    var far := FarOrder(order, p);
    forall j: nat | j < |order|
      ensures j in far
    {
      var q := Place(order, |order|, j);
      var swapped := if q == p - 2 || q == p then q + 1 else if q == p - 1 || q == p + 1 then q - 1 else q;
      assert far[swapped] == j;
    }
  }

  lemma ReversePermutes(perm: Permutation, back: Permutation, n: nat)
    requires IsPermutation(perm, n) && |back| == n && forall q :: 0 <= q < n ==> back[q] == perm[n - 1 - q]
    ensures IsPermutation(back, n)
  {
    forall j: nat | j < n
      ensures j in back
    {
      var q := Place(perm, n, j);
      assert back[n - 1 - q] == j;
    }
  }

  lemma FarSortIsSort(groups: Groups, order: Permutation, idx: nat, p: nat)
    requires idx < |groups| && IsListing(order, groups, idx) && CrowdedAt(Listed(groups, order), groups[idx].value, p)
    ensures IsSort(FarSort(order, p, idx), groups, idx + 1)
  {
    var far := FarOrder(order, p);
    FarOrderPermutes(order, p);
    SplicePermutation(far, idx, p);
    ReversePermutes(Splice<nat>(far, p, idx), FarSort(order, p, idx), idx + 1);
    ListingPlaces(order, groups, idx);
    hide IsPermutation, IsListing;
    FarSortAscends(groups, order, idx, p);
  }

  lemma FarSortAscends(groups: Groups, order: Permutation, idx: nat, p: nat)
    requires idx < |groups| && |order| == idx && (forall q :: 0 <= q < idx ==> order[q] < idx)
    requires Descending(Listed(groups, order)) && CrowdedAt(Listed(groups, order), groups[idx].value, p)
    ensures var perm := FarSort(order, p, idx);
      forall q, r :: 0 <= q < r <= idx ==>
        perm[q] < |groups| && perm[r] < |groups| && groups[perm[q]].value <= groups[perm[r]].value
  {
    var items := Listed(groups, order);
    FarValues(groups, order, idx, p);
    var all := Splice(items, p, groups[idx]);
    assert Descending(all) by { SpliceKeepsDescending(items, p, groups[idx]); }
    forall q, r | 0 <= q < r <= idx
      ensures var perm := FarSort(order, p, idx);
        perm[q] < |groups| && perm[r] < |groups| && groups[perm[q]].value <= groups[perm[r]].value
    {
      assert all[idx - r].value >= all[idx - q].value;
    }
  }

  lemma FarValues(groups: Groups, order: Permutation, idx: nat, p: nat)
    requires idx < |groups| && |order| == idx && (forall q :: 0 <= q < idx ==> order[q] < idx)
    requires CrowdedAt(Listed(groups, order), groups[idx].value, p)
    ensures var perm, all := FarSort(order, p, idx), Splice(Listed(groups, order), p, groups[idx]);
      forall q :: 0 <= q <= idx ==> perm[q] < |groups| && groups[perm[q]].value == all[idx - q].value
  {
    var far, items := FarOrder(order, p), Listed(groups, order);
    var more, all := Splice<nat>(far, p, idx), Splice(items, p, groups[idx]);
    assert forall q :: 0 <= q < idx ==> far[q] < idx && groups[far[q]].value == items[q].value;
    hide FarOrder, Listed;
    assert forall q :: 0 <= q <= idx ==> more[q] < |groups| && groups[more[q]].value == all[q].value;
    assert forall q :: 0 <= q <= idx ==> FarSort(order, p, idx)[q] == more[idx - q];
  }

  lemma SpliceKeepsDescending(items: seq<Item>, p: nat, item: Item)
    requires Descending(items) && p <= |items|
    requires p > 0 ==> items[p - 1].value >= item.value
    requires p < |items| ==> items[p].value <= item.value
    ensures Descending(Splice(items, p, item))
  {
    assert forall q :: 0 <= q < p ==> items[q].value >= items[p - 1].value;
    assert forall q :: p <= q < |items| ==> items[p].value >= items[q].value;
  }
}
