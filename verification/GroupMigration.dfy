/** All list transactions of packages/protocol/migrations/25_elect_validators.ts, group by group, for any sort
    and any vote amounts, and then for the amounts the migration computes. */
module GroupMigration {
  import opened Addresses
  import opened Options
  import opened Sequences
  import opened VoteList
  import opened ChainMirror
  import opened GroupVotes
  import opened GroupTies
  import opened GroupElection
  import opened GroupAmounts
  import opened KeyGroups
  import C = ChainList

  // ---------- the whole migration ----------

  // The sorted copies made for each group: one before and one after it has joined.
  ghost predicate Sorts(groups: Groups, firsts: seq<Permutation>, perms: seq<Permutation>) {
    && |firsts| == |perms| == |groups|
    && forall idx :: 0 <= idx < |groups| ==> IsSort(firsts[idx], groups, idx) && IsSort(perms[idx], groups, idx + 1)
  }

  const EMPTY_CHAIN := C.SortedList(C.List(C.ZERO, C.ZERO, 0, map[]), map[])

  // The list after the first n groups; None once one of its operations has reverted.
  function Election(groups: Groups, firsts: seq<Permutation>, perms: seq<Permutation>, n: nat): Option<C.SortedList>
    requires Sorts(groups, firsts, perms) && n <= |groups|
  {
    if n == 0 then Some(EMPTY_CHAIN)
    else
      var idx := n - 1;
      var before := Election(groups, firsts, perms, idx);
      if before.None? then None
      else
        assert IsSort(firsts[idx], groups, idx) && IsSort(perms[idx], groups, idx + 1);
        var eligible := Enlist(before.value, groups, idx, firsts[idx]);
        if eligible.None? then None else CastVote(eligible.value, groups, idx, perms[idx])
  }

  lemma NothingListed(groups: Groups)
    ensures ListsByVotes(EMPTY_CHAIN, groups, 0)
  {
    assert IsListing([], groups, 0) && Mirrors(EMPTY_CHAIN, Listed(groups, []));
  }

  // What the two transactions of one group do, on any order and with any sorts.
  lemma GroupJoins(chain: C.SortedList, groups: Groups, idx: nat, sorted: Permutation, perm: Permutation)
    requires Ready(groups) && idx < |groups| && ListsByVotes(chain, groups, idx)
    requires IsSort(sorted, groups, idx) && IsSort(perm, groups, idx + 1)
    ensures var eligible := Enlist(chain, groups, idx, sorted);
      && eligible.Some?
      && var voted := CastVote(eligible.value, groups, idx, perm);
      && (voted.Some? ==> ListsByVotes(voted.value, groups, idx + 1))
      && (voted.None? ==> Crowded(groups, idx))
  {
    hide Ready, IsSort, IsListing, Mirrors, Enlist, CastVote, Enlisted, Crowded, Listed;
    var order := ListingOf(chain, groups, idx);
    ListingDescends(order, groups, idx);
    BecomesEligible(chain, groups, order, idx, sorted);
    var eligible := Enlist(chain, groups, idx, sorted).value;
    hide ListsByVotes;
    AnySortAcceptedIff(eligible, groups, order, idx, perm);
    if CastVote(eligible, groups, idx, perm).None? {
      RefusedIsCrowded(eligible, groups, order, idx, perm);
    }
  }

  // Whatever the sorts do with ties: while nothing has reverted the chain lists the groups so far by
  // descending votes, and only a crowded amount can make a list operation revert.
  lemma {:induction false} ElectionListsByVotes(
    groups: Groups, firsts: seq<Permutation>, perms: seq<Permutation>, n: nat)
    requires Ready(groups) && Sorts(groups, firsts, perms) && n <= |groups|
    ensures var chain := Election(groups, firsts, perms, n);
      && (chain.Some? ==> ListsByVotes(chain.value, groups, n))
      && (chain.None? ==> exists idx :: 0 <= idx < n && Crowded(groups, idx))
  {
    hide Ready, IsSort, ListsByVotes, Enlist, CastVote, Crowded;
    if n == 0 {
      NothingListed(groups);
    } else {
      var idx := n - 1;
      ElectionListsByVotes(groups, firsts, perms, idx);
      assert IsSort(firsts[idx], groups, idx) && IsSort(perms[idx], groups, idx + 1);
      if Election(groups, firsts, perms, idx).Some? {
        GroupJoins(Election(groups, firsts, perms, idx).value, groups, idx, firsts[idx], perms[idx]);
      }
    }
  }

  lemma {:induction false} RevertIsFinal(
    groups: Groups, firsts: seq<Permutation>, perms: seq<Permutation>, n: nat, m: nat)
    requires Sorts(groups, firsts, perms) && n <= m <= |groups| && Election(groups, firsts, perms, n).None?
    ensures Election(groups, firsts, perms, m).None?
  {
    hide IsSort, Enlist, CastVote;
    if n == m {
    } else {
      RevertIsFinal(groups, firsts, perms, n, m - 1);
    }
  }

  lemma {:induction false} SameSoFar(
    groups: Groups, firsts: seq<Permutation>, perms: seq<Permutation>, others: seq<Permutation>, n: nat)
    requires Sorts(groups, firsts, perms) && Sorts(groups, firsts, others) && n <= |groups|
    requires forall idx :: 0 <= idx < n ==> perms[idx] == others[idx]
    ensures Election(groups, firsts, perms, n) == Election(groups, firsts, others, n)
  {
    hide IsSort, Enlist, CastVote;
    if n == 0 {
    } else {
      SameSoFar(groups, firsts, perms, others, n - 1);
    }
  }

  lemma StableSorts(groups: Groups) returns (firsts: seq<Permutation>, perms: seq<Permutation>)
    ensures Sorts(groups, firsts, perms)
    ensures forall idx :: 0 <= idx < |groups| ==> IsStableSort(perms[idx], groups, idx + 1)
  {
    hide IsSort, IsStableSort, StableSort;
    firsts := seq(|groups|, idx requires 0 <= idx < |groups| => StableSort(groups, idx));
    perms := seq(|groups|, idx requires 0 <= idx < |groups| => StableSort(groups, idx + 1));
    forall idx: nat | idx <= |groups|
      ensures IsStableSort(StableSort(groups, idx), groups, idx) && IsSort(StableSort(groups, idx), groups, idx)
    {
      StableSortExists(groups, idx);
      StableIsSort(StableSort(groups, idx), groups, idx);
    }
  }

  // Where an amount is crowded, some sorts make a list operation revert.
  lemma CrowdedCanRevert(groups: Groups, idx: nat) returns (firsts: seq<Permutation>, perms: seq<Permutation>)
    requires Ready(groups) && idx < |groups| && Crowded(groups, idx)
    ensures Sorts(groups, firsts, perms) && Election(groups, firsts, perms, |groups|).None?
  {
    hide Ready, IsSort, IsListing, Mirrors, Enlist, CastVote, Enlisted, Crowded, Listed;
    var stable;
    firsts, stable := StableSorts(groups);
    perms := stable;
    ElectionListsByVotes(groups, firsts, stable, idx);
    var before := Election(groups, firsts, stable, idx);
    if before.Some? {
      var order := ListingOf(before.value, groups, idx);
      ListingDescends(order, groups, idx);
      BecomesEligible(before.value, groups, order, idx, firsts[idx]);
      var far := FarSortIsRefused(Enlist(before.value, groups, idx, firsts[idx]).value, groups, order, idx);
      perms := stable[idx := far];
      SameSoFar(groups, firsts, stable, perms, idx);
      RevertIsFinal(groups, firsts, perms, idx + 1, |groups|);
    } else {
      RevertIsFinal(groups, firsts, perms, idx, |groups|);
    }
  }

  // The amounts alone decide whether every sort will do.
  lemma EverySortWillDoIff(groups: Groups)
    requires Ready(groups)
    ensures (forall firsts, perms :: Sorts(groups, firsts, perms) ==> Election(groups, firsts, perms, |groups|).Some?)
      <==> forall idx :: 0 <= idx < |groups| ==> !Crowded(groups, idx)
  {
    hide Ready, Sorts, Election, Crowded;
    if idx: nat :| idx < |groups| && Crowded(groups, idx) {
      var firsts, perms := CrowdedCanRevert(groups, idx);
    } else {
      forall firsts, perms | Sorts(groups, firsts, perms)
        ensures Election(groups, firsts, perms, |groups|).Some?
      {
        ElectionListsByVotes(groups, firsts, perms, |groups|);
      }
    }
  }

  // Five groups with 1, 1, 3, 3 and 2 votes.
  function SharedPairs(): (groups: Groups)
    ensures |groups| == 5
  {
    [Item("0x1", 1.0), Item("0x2", 1.0), Item("0x3", 3.0), Item("0x4", 3.0), Item("0x5", 2.0)]
  }

  lemma ShortKey(c: char)
    requires '1' <= c <= '5'
    ensures Normalize(['0', 'x', c]) == [c]
  {
    var a := ['0', 'x', c];
    assert "0x" <= a && a[2..] == [c];
  }

  lemma SharedPairsKey(j: nat)
    requires j < 5
    ensures Key(SharedPairs()[j]) == [('1' as int + j) as char]
  {
    hide Normalize;
    ShortKey(('1' as int + j) as char);
    assert SharedPairs()[j].address == ['0', 'x', ('1' as int + j) as char];
  }

  lemma SharedPairsReady()
    ensures Ready(SharedPairs())
  {
    hide Normalize, Key;
    var groups := SharedPairs();
    forall j: nat | j < 5
      ensures Key(groups[j]) == [('1' as int + j) as char] && Key(groups[j]) != C.ZERO && groups[j].value > 0.0
    {
      SharedPairsKey(j);
      LongKey();
    }
    hide SharedPairs;
  }

  lemma LongKey()
    ensures |C.ZERO| > 1
  {
  }

  // There are crowded amounts: the fifth group comes between two pairs.
  lemma CrowdedAmountsExist()
    ensures Ready(SharedPairs()) && Crowded(SharedPairs(), 4)
  {
    SharedPairsReady();
    hide Ready;
    assert Around(SharedPairs(), 4, 0, 2) && Around(SharedPairs(), 4, 1, 3);
  }

  // ---------- with a stable sort ----------

  // The list on chain once the first n groups have voted with hints of a stable sort.
  function OnChain(groups: Groups, n: nat): (r: seq<Item>)
    requires n <= |groups|
    ensures |r| == n
  {
    Listed(groups, Order(groups, n))
  }

  lemma OnChainGrows(groups: Groups, idx: nat)
    requires idx < |groups|
    ensures OnChain(groups, idx + 1)
         == Splice(OnChain(groups, idx), FirstAtMost(groups, Order(groups, idx), groups[idx].value), groups[idx])
  {
    var before, p := Order(groups, idx), FirstAtMost(groups, Order(groups, idx), groups[idx].value);
    assert Order(groups, idx + 1) == Splice<nat>(before, p, idx);
  }

  lemma HintKeys(groups: Groups, idx: nat, perm: Permutation)
    requires idx < |groups| && IsStableSort(perm, groups, idx + 1)
    ensures idx in perm
    ensures var keys, p := Keys(OnChain(groups, idx)), FirstAtMost(groups, Order(groups, idx), groups[idx].value);
      && Normalize(Lesser(groups, perm, idx)) == C.KeyAt(keys, p)
      && Normalize(Greater(groups, perm, idx)) == C.KeyAt(keys, p - 1)
  {
    StableHintsAreAdjacent(groups, perm, idx);
    var order, p := Order(groups, idx), FirstAtMost(groups, Order(groups, idx), groups[idx].value);
    KeysFromNeighbours(groups, order, perm, idx, p);
  }

  lemma KeysFromNeighbours(groups: Groups, order: Permutation, perm: Permutation, idx: nat, p: nat)
    requires idx < |groups| && IsSort(perm, groups, idx + 1)
    requires |order| == idx && p <= idx && forall q :: 0 <= q < |order| ==> order[q] < |groups|
    requires var g := IndexOf(perm, idx);
      && (g > 0 <==> p < idx) && (g > 0 ==> perm[g - 1] == order[p])
      && (g < idx <==> p > 0) && (g < idx ==> perm[g + 1] == order[p - 1])
    ensures Normalize(Lesser(groups, perm, idx)) == C.KeyAt(Keys(Listed(groups, order)), p)
    ensures Normalize(Greater(groups, perm, idx)) == C.KeyAt(Keys(Listed(groups, order)), p - 1)
  {
    hide Normalize, IndexOf, Listed, Keys, C.KeyAt;
    KeyOfListed(groups, order, p);
    KeyOfListed(groups, order, p - 1);
  }

  lemma KeyOfListed(groups: Groups, order: Permutation, p: int)
    requires forall q :: 0 <= q < |order| ==> order[q] < |groups|
    ensures C.KeyAt(Keys(Listed(groups, order)), p)
         == if 0 <= p < |order| then Normalize(groups[order[p]].address) else C.ZERO
  {
  }

  lemma RoomForVote(groups: Groups, idx: nat)
    requires idx < |groups|
    ensures var p := FirstAtMost(groups, Order(groups, idx), groups[idx].value);
      && Fits(OnChain(groups, idx), p, groups[idx].value)
      && OnChain(groups, idx + 1) == Splice(OnChain(groups, idx), p, groups[idx])
  {
    OnChainGrows(groups, idx);
  }

  lemma VoteMirrors(chain: C.SortedList, groups: Groups, idx: nat, perm: Permutation)
    requires Ready(groups) && idx < |groups| && IsStableSort(perm, groups, idx + 1)
    requires Mirrors(chain, Enlisted(groups, Order(groups, idx), idx))
    ensures IsSort(perm, groups, idx + 1) && CastVote(chain, groups, idx, perm).Some?
    ensures Mirrors(CastVote(chain, groups, idx, perm).value, OnChain(groups, idx + 1))
  {
    hide Ready, IsStableSort, IsSort, IsListing, Order, Lesser, Greater, Normalize, Key, Mirrors, CastVote;
    hide C.SortedList.Insert, Keys, C.KeyAt, FirstAtMost, Splice, Has, Enlisted, Fits, Listed;
    StableIsSort(perm, groups, idx + 1);
    OrderIsListing(groups, idx);
    VoteIsInsert(chain, groups, Order(groups, idx), idx, perm);
    HintKeys(groups, idx, perm);
    RoomForVote(groups, idx);
    var p := FirstAtMost(groups, Order(groups, idx), groups[idx].value);
    InsertMirrors(chain.Remove(Key(groups[idx])).value, OnChain(groups, idx), p, groups[idx]);
  }

  lemma NothingOnChain(groups: Groups)
    ensures Mirrors(EMPTY_CHAIN, OnChain(groups, 0))
  {
  }

  // With stable sorts no list operation reverts whatever the amounts, and among equals the later group is
  // listed first.
  lemma {:induction false} StableElection(groups: Groups, firsts: seq<Permutation>, perms: seq<Permutation>, n: nat)
    requires Ready(groups) && Sorts(groups, firsts, perms) && n <= |groups|
    requires forall idx :: 0 <= idx < |groups| ==> IsStableSort(perms[idx], groups, idx + 1)
    ensures Election(groups, firsts, perms, n).Some?
    ensures Mirrors(Election(groups, firsts, perms, n).value, OnChain(groups, n))
  {
    hide Ready, Enlist, CastVote, Enlisted, IsSort, IsStableSort, IsListing, Order, Mirrors, Listed;
    if n == 0 {
      NothingOnChain(groups);
    } else {
      var idx := n - 1;
      StableElection(groups, firsts, perms, idx);
      assert IsSort(firsts[idx], groups, idx) && IsStableSort(perms[idx], groups, idx + 1);
      OrderIsListing(groups, idx);
      var before := Election(groups, firsts, perms, idx).value;
      BecomesEligible(before, groups, Order(groups, idx), idx, firsts[idx]);
      VoteMirrors(Enlist(before, groups, idx, firsts[idx]).value, groups, idx, perms[idx]);
    }
  }

  // ---------- the migration's own amounts ----------

  function Amounts(groups: Groups): (r: seq<real>)
    ensures |r| == |groups|
  {
    seq(|groups|, i requires 0 <= i < |groups| => groups[i].value)
  }

  lemma LevelIsNotCrowded(groups: Groups, required: real, idx: nat)
    requires Level(Amounts(groups), required) && idx < |groups|
    ensures !Crowded(groups, idx)
  {
    forall j | 0 <= j < |groups|
      ensures groups[j].value >= required
      ensures 0 < j < |groups| - 1 ==> groups[j].value == required
    {
      assert Amounts(groups)[j] == groups[j].value;
    }
    // Only the first group may be above the others, so no two share a greater amount.
    forall a: nat, b: nat, c: nat, d: nat | c != d && Around(groups, idx, a, c)
      ensures !Around(groups, idx, b, d)
    {
      assert c == 0;
    }
  }

  lemma LevelIsReady(groups: Groups, required: real)
    requires Unique(groups) && !Has(groups, C.ZERO) && required > 0.0 && Level(Amounts(groups), required)
    ensures Ready(groups)
  {
    hide Unique, Has;
    forall j | 0 <= j < |groups|
      ensures groups[j].value > 0.0
    {
      assert Amounts(groups)[j] >= required;
    }
  }

  // For the amounts the migration computes, whatever any of its sorts does with ties: none of the list
  // operations behind addFirstMember and vote reverts, and after every group the chain lists the groups so
  // far by descending votes.
  lemma ElectionNeverReverts(
    groups: Groups, keyGroups: seq<seq<string>>, maxGroupSize: nat, required: real, ratio: real,
    firsts: seq<Permutation>, perms: seq<Permutation>, n: nat)
    requires Unique(groups) && !Has(groups, C.ZERO) && Grouped(keyGroups, maxGroupSize) && required > 0.0
    requires VoteAmounts(keyGroups, required, ratio) == Some(Amounts(groups))
    requires Sorts(groups, firsts, perms) && n <= |groups|
    ensures Election(groups, firsts, perms, n).Some?
    ensures ListsByVotes(Election(groups, firsts, perms, n).value, groups, n)
  {
    hide Sorts, Election, Unique, Has, Ready, Grouped, VoteAmounts, Level, ListsByVotes, Crowded;
    AmountsAreLevel(keyGroups, maxGroupSize, required, ratio);
    LevelIsReady(groups, required);
    forall idx: nat | idx < |groups|
      ensures !Crowded(groups, idx)
    {
      LevelIsNotCrowded(groups, required, idx);
    }
    ElectionListsByVotes(groups, firsts, perms, n);
  }
}
