/** The hints of packages/protocol/migrations/25_elect_validators.ts: each new group's neighbours in a copy
    of the groups so far, sorted by ascending votes. */
module GroupVotes {
  import opened Addresses
  import opened Sequences
  import opened VoteList

  // Groups in creation order: account address and vote amount. A sorted copy is a permutation of indices.
  type Groups = seq<Item>
  type Permutation = seq<nat>

  ghost predicate IsPermutation(perm: Permutation, n: nat) {
    && |perm| == n
    && (forall p :: 0 <= p < n ==> perm[p] < n)
    && (forall p, q :: 0 <= p < q < n ==> perm[p] != perm[q])
    && (forall j: nat :: j < n ==> j in perm)
  }

  // groups.slice(0, n) sorted by ascending votes, ties in any order.
  ghost predicate IsSort(perm: Permutation, groups: Groups, n: nat)
    requires n <= |groups|
  {
    && IsPermutation(perm, n)
    && forall p, q :: 0 <= p < q < n ==> groups[perm[p]].value <= groups[perm[q]].value
  }

  // Fewer votes, or as many and created earlier.
  predicate Before(groups: Groups, a: nat, b: nat)
    requires a < |groups| && b < |groups|
  {
    groups[a].value < groups[b].value || (groups[a].value == groups[b].value && a < b)
  }

  // The same with ties kept in creation order, as a stable sort leaves them.
  ghost predicate IsStableSort(perm: Permutation, groups: Groups, n: nat)
    requires n <= |groups|
  {
    && IsPermutation(perm, n)
    && forall p, q :: 0 <= p < q < n ==> Before(groups, perm[p], perm[q])
  }

  lemma StableIsSort(perm: Permutation, groups: Groups, n: nat)
    requires n <= |groups| && IsStableSort(perm, groups, n)
    ensures IsSort(perm, groups, n)
  {
  }

  function IndexOf(perm: Permutation, j: nat): (p: nat)
    requires j in perm
    ensures p < |perm| && perm[p] == j
  {
    if perm[0] == j then 0 else 1 + IndexOf(perm[1..], j)
  }

  // The addresses handed to `vote` for the newest group, idx.
  function Lesser(groups: Groups, perm: Permutation, idx: nat): Address
    requires idx < |groups| && IsSort(perm, groups, idx + 1)
  {
    var p := IndexOf(perm, idx);
    if p > 0 then groups[perm[p - 1]].address else NULL_ADDRESS
  }

  function Greater(groups: Groups, perm: Permutation, idx: nat): Address
    requires idx < |groups| && IsSort(perm, groups, idx + 1)
  {
    var p := IndexOf(perm, idx);
    if p < idx then groups[perm[p + 1]].address else NULL_ADDRESS
  }

  // Whatever the sort does with ties: the hints are the neighbours in it, they bracket the group's own votes,
  // and none is missing unless the group has the least or the most votes.
  lemma HintsBracket(groups: Groups, perm: Permutation, idx: nat)
    requires idx < |groups| && IsSort(perm, groups, idx + 1)
    ensures idx in perm
    ensures var p := IndexOf(perm, idx);
      && (if p > 0 then
            && groups[perm[p - 1]].value <= groups[idx].value
            && Lesser(groups, perm, idx) == groups[perm[p - 1]].address
          else
            && Lesser(groups, perm, idx) == NULL_ADDRESS
            && forall j :: 0 <= j <= idx ==> groups[j].value >= groups[idx].value)
      && (if p < idx then
            && groups[perm[p + 1]].value >= groups[idx].value
            && Greater(groups, perm, idx) == groups[perm[p + 1]].address
          else
            && Greater(groups, perm, idx) == NULL_ADDRESS
            && forall j :: 0 <= j <= idx ==> groups[j].value <= groups[idx].value)
  {
    var p := IndexOf(perm, idx);
    forall j | 0 <= j <= idx
      ensures p == 0 ==> groups[j].value >= groups[idx].value
      ensures p == idx ==> groups[j].value <= groups[idx].value
    {
      assert j in perm;
      var q :| 0 <= q <= idx && perm[q] == j;
    }
  }

  // ---------- the order on chain ----------

  // First position with at most this many votes.
  function FirstAtMost(groups: Groups, order: Permutation, value: real): (p: nat)
    requires forall q :: 0 <= q < |order| ==> order[q] < |groups|
    ensures p <= |order|
    ensures p < |order| ==> groups[order[p]].value <= value
    ensures forall q :: 0 <= q < p ==> groups[order[q]].value > value
  {
    if order == [] || groups[order[0]].value <= value then 0 else 1 + FirstAtMost(groups, order[1..], value)
  }

  // The first n groups as the chain lists them, most votes first; among equals the latest comes first.
  function Order(groups: Groups, n: nat): (order: Permutation)
    requires n <= |groups|
    ensures |order| == n && forall p :: 0 <= p < n ==> order[p] < n
  {
    if n == 0 then []
    else
      var before := Order(groups, n - 1);
      Splice<nat>(before, FirstAtMost(groups, before, groups[n - 1].value), n - 1)
  }

  function Listed(groups: Groups, order: Permutation): (r: seq<Item>)
    requires forall p :: 0 <= p < |order| ==> order[p] < |groups|
    ensures |r| == |order|
  {
    seq(|order|, p requires 0 <= p < |order| => groups[order[p]])
  }

  ghost predicate DescendingOrder(groups: Groups, order: Permutation, n: nat)
    requires n <= |groups|
  {
    && IsPermutation(order, n)
    && forall p, q :: 0 <= p < q < n ==> Before(groups, order[q], order[p])
  }

  lemma SplicePermutation(order: Permutation, n: nat, p: nat)
    requires IsPermutation(order, n) && p <= n
    ensures IsPermutation(Splice<nat>(order, p, n), n + 1)
  {
    var more := Splice<nat>(order, p, n);
    forall j: nat | j < n + 1
      ensures j in more
    {
      SpliceElements(order, p, n, j);
    }
  }

  lemma {:induction false} OrderDescends(groups: Groups, n: nat)
    requires n <= |groups|
    ensures DescendingOrder(groups, Order(groups, n), n)
  {
    if n == 0 {
    } else {
      OrderDescends(groups, n - 1);
      SpliceDescends(groups, Order(groups, n - 1), n - 1);
      hide DescendingOrder;
    }
  }

  lemma SpliceDescends(groups: Groups, before: Permutation, n: nat)
    requires n < |groups| && DescendingOrder(groups, before, n)
    ensures DescendingOrder(groups, Splice<nat>(before, FirstAtMost(groups, before, groups[n].value), n), n + 1)
  {
    var i := FirstAtMost(groups, before, groups[n].value);
    SplicePermutation(before, n, i);
    hide IsPermutation;
    forall q | i <= q < n
      ensures Before(groups, before[q], n)
    {
      assert q == i || Before(groups, before[q], before[i]);
    }
  }

  // With a stable sort, the hints are exactly the two groups between which the chain has room.
  lemma StableHintsAreAdjacent(groups: Groups, perm: Permutation, idx: nat)
    requires idx < |groups| && IsStableSort(perm, groups, idx + 1)
    ensures idx in perm
    ensures var order := Order(groups, idx);
      var p, g := FirstAtMost(groups, order, groups[idx].value), IndexOf(perm, idx);
      && (g > 0 <==> p < idx) && (g > 0 ==> perm[g - 1] == order[p])
      && (g < idx <==> p > 0) && (g < idx ==> perm[g + 1] == order[p - 1])
  {
    OrderDescends(groups, idx);
    var order := Order(groups, idx);
    hide Order;
    LesserIsAdjacent(groups, order, perm, idx);
    GreaterIsAdjacent(groups, order, perm, idx);
  }

  lemma LesserIsAdjacent(groups: Groups, order: Permutation, perm: Permutation, idx: nat)
    requires idx < |groups| && IsStableSort(perm, groups, idx + 1) && DescendingOrder(groups, order, idx)
    ensures var p, g := FirstAtMost(groups, order, groups[idx].value), IndexOf(perm, idx);
      (g > 0 <==> p < idx) && (g > 0 ==> perm[g - 1] == order[p])
  {
    var p, g := FirstAtMost(groups, order, groups[idx].value), IndexOf(perm, idx);
    Places(perm, idx + 1);
    Places(order, idx);
    hide IsPermutation;
    if p < idx {
      var r := Place(perm, idx + 1, order[p]);
      assert Before(groups, order[p], idx);
      assert r < g;
    }
    if g > 0 {
      var s := Place(order, idx, perm[g - 1]);
      assert Before(groups, perm[g - 1], idx);
      assert s >= p;
    }
  }

  lemma GreaterIsAdjacent(groups: Groups, order: Permutation, perm: Permutation, idx: nat)
    requires idx < |groups| && IsStableSort(perm, groups, idx + 1) && DescendingOrder(groups, order, idx)
    ensures var p, g := FirstAtMost(groups, order, groups[idx].value), IndexOf(perm, idx);
      (g < idx <==> p > 0) && (g < idx ==> perm[g + 1] == order[p - 1])
  {
    var p, g := FirstAtMost(groups, order, groups[idx].value), IndexOf(perm, idx);
    Places(perm, idx + 1);
    Places(order, idx);
    hide IsPermutation;
    if p > 0 {
      var r := Place(perm, idx + 1, order[p - 1]);
      assert r > g;
    }
    if g < idx {
      var s := Place(order, idx, perm[g + 1]);
      assert Before(groups, idx, perm[g + 1]);
      assert s < p;
    }
  }

  lemma Places(perm: Permutation, n: nat)
    requires IsPermutation(perm, n)
    ensures |perm| == n
    ensures forall p :: 0 <= p < n ==> perm[p] < n
    ensures forall j: nat :: j < n ==> j in perm
    ensures forall p, q :: 0 <= p < q < n ==> perm[p] != perm[q]
  {
  }

  lemma Place(perm: Permutation, n: nat, j: nat) returns (p: nat)
    requires IsPermutation(perm, n) && j < n
    ensures p < n == |perm| && perm[p] == j
  {
    p := IndexOf(perm, j);
  }

  // A stable sort of a prefix of the groups: the chain's order from the other end.
  function StableSort(groups: Groups, n: nat): Permutation
    requires n <= |groups|
  {
    seq(n, p requires 0 <= p < n => Order(groups, n)[n - 1 - p])
  }

  lemma StableSortExists(groups: Groups, n: nat)
    requires n <= |groups|
    ensures IsStableSort(StableSort(groups, n), groups, n)
  {
    OrderDescends(groups, n);
    var order, perm := Order(groups, n), StableSort(groups, n);
    hide Order;
    forall j: nat | j < n
      ensures j in perm
    {
      var q := Place(order, n, j);
      assert perm[n - 1 - q] == j;
    }
  }
}
