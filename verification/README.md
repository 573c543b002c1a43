# Verified cores of the Celo monorepo

A Dafny model of the algorithmic and concurrent cores of the Celo monorepo, mostly from `packages/utils`,
with proofs of what they are for. `dafny verify dfyconfig.toml` checks the whole project.

What the model covers, in the order of the modules:

- **Vote lists.** `VoteList` is the descending list of `collections.ts`, changed in place by `upsert`, with the
  neighbour hints. `VoteListOrder` says what a run of changes computes. `ChainList` is the linked list the hints
  are sent to (`LinkedList.sol`, `SortedLinkedList.sol`), `ChainMirror` says when it spells out a given list, and
  `VoteListReplay` proves that sending the hints never reverts and keeps both lists equal.
- **Election migration.** `KeyGroups` and `GroupVotes` are the key chunking and the vote hints of
  `25_elect_validators.ts`, `GroupAmounts` the gold it computes for each group, `GroupTies` and `GroupElection` one
  group's transactions on the same on-chain list in any order that earlier sorts may have left it, and
  `GroupMigration` the whole run with those amounts.
- **Address join.** `AddressMapping` is the sort-merge join of `address.ts` over an arbitrary total order, and
  `AddressCase` says what its comparison of addresses means for hex digits, in any case, with or without `0x`.
- **Account pool.** `WithTimeout` and `AccountPool` are the faucet's lock protocol as a state machine in which every
  caller moves one atomic step at a time, in any interleaving; `AccountProgress` and `AccountEnds` say what the
  callers get done and how they end, `AccountLeaks` tells from the events alone which runs lose an account, and
  `AccountAwait` what awaiting the race would change.
- **Tasks.** `Future` and `Task` are the settle-once promise and the self-rescheduling loop with the tasks on it;
  `TaskObjects` has the two tasks as objects whose callbacks keep, and promise, what is proved of all runs.
- **Encryption.** `Bytes`, `Kdf`, `Ecies` and `CommentEncryption` are the counter, the key derivation loop and the
  nested message layouts, over abstract primitives with explicit laws (`Ecies.Laws`, shown consistent).
- **Numbers.** `Arithmetic`, `RealArithmetic`, `Hex`, `Istanbul`, `SigningUtils`, `Fixidity` and `Epochs`.
- **Batches and graphs.** `ConcurrentMap`, `DependencyGraph` and, for its recursion on any graph, `DependencyEnds`.

Thrown errors and reverted transactions are `None` or `Err`; random draws, the order in which promises settle, and
`localeCompare` are parameters or nondeterministic choices.

What the proofs turned up:

- The faucet's lock is exclusive, but the actions run under it are not: `doWithAccount` does not await
  `withTimeout`, so the unlock write lands while the action may be running. Two actions can share an account exactly
  when there are two callers and an account (`AccountPool.ActionsOverlapIff`). Unlocking after the action would
  rule it out (`AccountPool.PatientRunsAreExclusive`); `return await withTimeout(..)` would not, since the race may
  settle before the action has ended (`AccountAwait.AwaitedOverlapIff`, `AccountAwait.AwaitedOverlapTimesOut`).
- A caller that commits a lock and whose acquisition times out, in either order, or that gets an error for the answer
  of its commit, leaves its account locked for good (`AccountPool.AbandonedLockIsForever`): exactly then a finished
  run leaves a lock up (`AccountLeaks.LeavesLockIff`), which takes one caller and one account
  (`AccountLeaks.CanLeakIff`).
- `Future.error` describes the promise only when the first and the last call agree (`Future.ErrorTellsOutcomeIff`).
  A retry task that is stopped after its value has come leaves the `error` field of its private future saying that it
  was cancelled (`Task.StopAfterValueMisleads`); `onValue` still gives the value, and the task does not expose the
  field. `Task.ErrorTellsIff` says for every run whether the field is right.
- No sorted-list operation behind `addFirstMember` and `vote` reverts in the migration, whatever its sorts do with
  ties (`GroupMigration.ElectionNeverReverts`). That rests on the amounts it computes, which are level but for the
  two ends. For amounts in general it holds for every sort if and only if no amount falls strictly between two
  neighbouring ones that are both shared (`GroupMigration.EverySortWillDoIff`; 1, 1, 3, 3 and then 2 votes are an
  example, `GroupMigration.CrowdedAmountsExist`), and for a stable sort always (`GroupMigration.StableElection`).
- `mapAddressListDataOnto` fills positions of the new list. Its comment speaks of old addresses absent from the new
  list; in the code the initial value stays at new positions that no old address maps to. The result grows past the
  old length if and only if an old address stands that far out in the new list
  (`AddressMapping.DistinctLengthKeptIff`; `AddressMapping.ResultCanGrow` is an example). The model follows the code.
- `hasChangedDependencies` never returns when unchanged packages lead to a cycle of unchanged packages, unless a
  missing package is tried before the cycle (`DependencyEnds.EndsIff`). Two listed packages that depend on each other
  are enough (`DependencyEnds.MutualNeverEnds`).

## Model

| member | source | states |
|---|---|---|
| VoteList.SortedList.Upsert | packages/utils/src/collections.ts:53-67 | Fails, leaving the list alone, exactly for an unknown address; otherwise the new list and the position are those of removing the address and inserting before the first smaller value |
| AddressCase.UpsertFindsHoweverWritten | packages/utils/src/collections.ts:53-57 | An upsert knows the changed address exactly when some listed one has the same hex digits, whatever their case and prefixes |
| VoteList.SortedList.Change | packages/utils/src/collections.ts:70-75 | The neighbours of the moved item in the new list, the null address at either end |
| VoteList.SortedList.LinkedListChange | packages/utils/src/collections.ts:77-84 | The same on a clone; the list itself is not modified |
| VoteList.SortedList.LinkedListChanges | packages/utils/src/collections.ts:86-99 | Fails exactly when some change names an unknown address; otherwise one hint pair per change and the final list, nothing modified |
| VoteList.AfterHas | packages/utils/src/collections.ts:86-99 | No run of changes adds or drops an address |
| VoteList.AfterKeeps | packages/utils/src/collections.ts:86-99 | Length, uniqueness of addresses and descending order survive every run of changes |
| VoteListOrder.AfterIsSortOfArrivals | packages/utils/src/collections.ts:53-99 | The final list is the stable descending sort of the items in order of last write, ties included |
| VoteListOrder.SortIsStable | packages/utils/src/collections.ts:59-65 | That sort keeps, for every value, the items of that value in the order they were written |
| VoteListOrder.SortSorts | packages/utils/src/collections.ts:59-65 | That sort descends, and leaves a descending list as it is |
| VoteListOrder.LastWriteWins | packages/utils/src/collections.ts:53-99 | The final list holds, for each address, exactly the item of its last change, or its original item |
| VoteListOrder.OrderDoesNotMatter | packages/utils/src/collections.ts:86-99 | Two runs with the same last write per address give the same list when the final values are pairwise distinct |
| VoteListOrder.ChangesCommute | packages/utils/src/collections.ts:53-67 | Swapping two changes to different addresses gives the same list if and only if their values differ |
| ChainList.RemoveUnlinks | packages/protocol/contracts/common/linkedlists/LinkedList.sol:94-113 | Removing a listed key succeeds and leaves a consistent doubly linked list of the remaining keys in order |
| ChainList.InsertLinks | packages/protocol/contracts/common/linkedlists/LinkedList.sol:32-78 | Inserting a new key between two adjacent keys passes every require and puts it exactly there |
| ChainList.InsertAcceptedIff | packages/protocol/contracts/common/linkedlists/LinkedList.sol:32-78 | On a consistent list with keys an insertion is accepted if and only if the key is new, not zero and not its own neighbour, and the two others are around some place of the list |
| ChainList.RemoveAcceptedIff | packages/protocol/contracts/common/linkedlists/LinkedList.sol:94-113 | A removal is accepted if and only if the key is listed |
| ChainList.AdjacentIff | packages/protocol/contracts/common/linkedlists/LinkedList.sol:32-78 | Two keys are linked to each other in both directions, or are an end of the list, if and only if they are around some place of it |
| ChainList.ZeroElsewhereIsKept | packages/protocol/contracts/common/linkedlists/SortedLinkedList.sol:26-56 | Insertions and removals keep the value of every key that is not listed at zero; an inserted key has its value |
| ChainList.PlaceIsAdjacent | packages/protocol/contracts/common/linkedlists/LinkedList.sol:32-78 | The two keys around any place, an end included, are linked to each other in both directions |
| ChainMirror.HintsAreKept | packages/protocol/contracts/common/linkedlists/SortedLinkedList.sol:170-200 | For neighbours of a place where the value fits, the contract's search returns that very pair, ties included |
| ChainMirror.InsertMirrors | packages/protocol/contracts/common/linkedlists/SortedLinkedList.sol:26-46 | Insertion with the two neighbours of a fitting place is accepted and lands there |
| ChainMirror.OneGoodHintIsEnough | packages/protocol/contracts/common/linkedlists/SortedLinkedList.sol:26-46 | Whatever listed keys are hinted at, or none, insertion is accepted if and only if one of them is next to a place where the value fits and not both are missing on a list with items; then the item goes to such a place |
| ChainMirror.UnlistedHintIsRefused | packages/protocol/contracts/common/linkedlists/SortedLinkedList.sol:26-46 | A hinted key that is not listed is refused |
| ChainMirror.UnfitKeyIsRefused | packages/protocol/contracts/common/linkedlists/SortedLinkedList.sol:33-36 | A key that is listed already, zero or its own hint is refused |
| ChainMirror.RemoveMirrors | packages/protocol/contracts/common/linkedlists/SortedLinkedList.sol:53-56 | Removing a listed key succeeds and leaves the chain spelling out the other items |
| ChainMirror.ChainExists | packages/protocol/contracts/common/linkedlists/SortedLinkedList.sol:26-46 | Every descending list of distinct non-zero addresses is spelled out by some chain list |
| VoteListReplay.UpdateMirrors | packages/utils/src/collections.ts:70-75 | With the changed address unlinked from the chain, both hints are adjacent there, linked to each other in both directions or the end of the list; linking between them without any search gives exactly the array after the upsert, and so does the sorted list's own update |
| VoteListReplay.ReplayMirrors | packages/utils/src/collections.ts:86-99 | For every run of changes to listed addresses and every k: after unlinking the k-th address greaters[k] and lessers[k] are adjacent and linking between them gives the array after k + 1 upserts; no hinted update reverts, and the chain ends up spelling out the final array, still descending |
| KeyGroups.GroupKeys | packages/protocol/migrations/25_elect_validators.ts:287-292 | The groups concatenate to the key list, none is empty, all but the last are full |
| KeyGroups.MemberIs | packages/protocol/migrations/25_elect_validators.ts:339-340 | Member i of group idx is the key at idx * maxGroupSize + i |
| KeyGroups.IndicesAreGlobal | packages/protocol/migrations/25_elect_validators.ts:324-352 | Over all groups the registrations are the keys in order, each with its own position as the index of its attestation key |
| KeyGroups.RegistrationAt | packages/protocol/migrations/25_elect_validators.ts:339-346 | There is one registration per key, and registration k is the k-th key with attestation key k, counted from 0 |
| GroupVotes.HintsBracket | packages/protocol/migrations/25_elect_validators.ts:380-387 | Whatever the sort does with ties, lesser and greater are the neighbours in it, with lesser <= own <= greater votes, and missing only at an end |
| GroupVotes.OrderDescends | packages/protocol/migrations/25_elect_validators.ts:380-402 | The order the chain ends up in is a permutation by descending votes, the later group first among equals |
| GroupVotes.StableHintsAreAdjacent | packages/protocol/migrations/25_elect_validators.ts:380-387 | With a stable sort the hints are the two groups between which the chain has room |
| GroupVotes.StableSortExists | packages/protocol/migrations/25_elect_validators.ts:381-382 | Every prefix of the groups has a stable ascending sort |
| GroupElection.BecomesEligible | packages/protocol/migrations/25_elect_validators.ts:358-370 | On a chain that lists the groups by votes in any order of ties, the list insertion of addFirstMember, hinting at the smallest group of any sort, is accepted and puts the group last with no votes |
| GroupElection.SmallestIsLeast | packages/protocol/migrations/25_elect_validators.ts:358-367 | The group hinted at has the least votes of all earlier groups; the first group hints at the null address |
| GroupElection.AnySortAcceptedIff | packages/protocol/migrations/25_elect_validators.ts:380-404 | On any such chain and with any sort, the list update of the vote is accepted if and only if a hinted group is, on chain, next to a place for the new amount; the chain then lists the groups by votes again |
| GroupElection.EverySortAcceptedIff | packages/protocol/migrations/25_elect_validators.ts:380-404 | It is accepted for every sort if and only if the amounts next below and next above the new one, when it equals neither, are not both shared by two earlier groups |
| GroupMigration.ElectionListsByVotes | packages/protocol/migrations/25_elect_validators.ts:324-405 | Whatever the amounts and the sorts: while no list operation has reverted the chain lists the groups so far by descending votes, and only a crowded amount can make one revert |
| GroupMigration.EverySortWillDoIff | packages/protocol/migrations/25_elect_validators.ts:324-405 | No list operation of the run reverts under any sorts if and only if no group's amount is crowded among the earlier ones |
| GroupMigration.CrowdedAmountsExist | packages/protocol/migrations/25_elect_validators.ts:380-404 | Five groups, one of them with an amount crowded among the others |
| GroupMigration.VoteMirrors | packages/protocol/migrations/25_elect_validators.ts:380-404 | With a stable sort the list update of the vote is accepted and moves the group to its place |
| GroupMigration.StableElection | packages/protocol/migrations/25_elect_validators.ts:324-405 | With stable sorts no list operation reverts whatever the amounts, and among equals the later group is listed first |
| GroupAmounts.AmountsAreLevel | packages/protocol/migrations/25_elect_validators.ts:272-322 | The computed amounts are the requirement of one validator for every group but the first and the last, which have no less |
| GroupAmounts.FirstAmount | packages/protocol/migrations/25_elect_validators.ts:294-319 | The first group votes the requirement for each of its validators |
| GroupAmounts.LastAmount | packages/protocol/migrations/25_elect_validators.ts:294-319 | The last of several groups votes the requirement times the ratio for each of its validators, up to half a unit per validator and earlier group, and exactly that when the step is an integer |
| GroupAmounts.LockedGoldGrows | packages/protocol/migrations/25_elect_validators.ts:299-309 | Per validator, the gold locked grows by the same rounded step from every group to the next |
| GroupAmounts.IntegerValueIsNearest | packages/protocol/migrations/25_elect_validators.ts:304 | The step is rounded to the nearest integer, halves away from zero |
| GroupMigration.ElectionNeverReverts | packages/protocol/migrations/25_elect_validators.ts:293-405 | For the computed amounts and any sorts, no sorted-list operation of addFirstMember and vote reverts, and after each group the chain lists the groups so far by descending votes |
| Addresses.FindAddressIndex | packages/utils/src/address.ts:53-54 | The first position of an equal address, -1 exactly when there is none |
| AddressCase.EqAddressIff | packages/utils/src/address.ts:14-20 | Hex addresses, each in any case and with or without `0x`, are equal if and only if they have as many digits with the same values |
| AddressCase.EqualNumbers | packages/utils/src/address.ts:14-20 | Two addresses of 40 digits are equal if and only if they are the same number |
| AddressCase.NullAddressIsZero | packages/utils/src/address.ts:51 | An address of 40 digits equals the null address if and only if it is the number zero |
| AddressCase.FoundHoweverWritten | packages/utils/src/address.ts:53-54 | The lookup finds the first address with the same digits, however either is written, and -1 exactly when there is none |
| AddressCase.JoinedHoweverWritten | packages/utils/src/address.ts:57-86 | The keys that the join compares are equal if and only if the addresses have the same digits |
| AddressMapping.Sort | packages/utils/src/address.ts:68-69 | In place, some sorted permutation; callers know no more |
| AddressMapping.MapAddressListOnto | packages/utils/src/address.ts:57-86 | For arbitrary lists: an injective matching between equal normalized addresses with exactly min(occurrences in old, in new) matches per address |
| AddressMapping.MatchingIsLookup | packages/utils/src/address.ts:53-86 | On duplicate-free lists every such matching is the naive lookup of each old address in the new list |
| AddressMapping.MatchingsAreInverse | packages/utils/src/address.ts:57-86 | On duplicate-free lists the two directions are mutually inverse partial maps |
| AddressMapping.MapAddressListDataOnto | packages/utils/src/address.ts:90-107 | Each matched new position holds its datum, every other one the initial value, holes and missing data included |
| AddressMapping.ScatterLength | packages/utils/src/address.ts:90-107 | With no more new addresses than old ones the result has the old length, and no holes when there is a datum for each |
| AddressMapping.DistinctLengthKeptIff | packages/utils/src/address.ts:90-107 | With data to move between duplicate-free lists, the result has the old length if and only if no old address stands past it in the new list |
| AddressMapping.LengthKeptForEveryMatchingIff | packages/utils/src/address.ts:57-107 | On arbitrary lists the same condition decides whether the old length is kept whichever of several equal addresses the sort pairs up |
| AddressMapping.MatchingExists | packages/utils/src/address.ts:57-86 | Any two lists have a matching of the promised size |
| AddressMapping.ResultCanGrow | packages/utils/src/address.ts:90-107 | For one old address found second in the new list the result is the initial value and then the datum, one longer than the old list |
| AddressMapping.DataRoundTrip | packages/utils/src/address.ts:90-107 | Between two orders of the same addresses, there and back returns the original data |
| AddressMapping.TotalOrderExists | packages/utils/src/address.ts:68-69 | The assumed laws of the comparison are met by some order |
| WithTimeout.SettlesOnce | packages/faucet/src/database-helper.ts:178-208 | In every run, with or without onTimeout, resolve and reject are called at most once between them, exactly once when timer or function is done, the outcome never changes, and after the timer it is onTimeout's value or a rejection |
| WithTimeout.Racer.TimerFires | packages/faucet/src/database-helper.ts:184-192 | The timer callback settles the promise, the one call so far, with onTimeout's value or a rejection without one |
| WithTimeout.Racer.FunctionSettles | packages/faucet/src/database-helper.ts:194-206 | The then and catch handlers settle the promise with the function's outcome unless the timer has fired, and never make a second call |
| AccountPool.MoveHeld | packages/faucet/src/database-helper.ts:250-335 | A move of a caller leaves flags and its lock alone, takes a free lock, or gives its own back |
| AccountPool.RunKeepsInv | packages/faucet/src/database-helper.ts:250-335 | Over every interleaving: a flag is up exactly when somebody holds its lock, nobody shares, and every caller's promises and phases agree |
| AccountPool.LocksAreExclusive | packages/faucet/src/database-helper.ts:302-335 | In every run the callers holding a lock, abandoned ones included, number one when its flag is up and none otherwise |
| AccountPool.AbandonedLockIsForever | packages/faucet/src/database-helper.ts:270-300 | An abandoned lock stays up in every continuation and nobody else ever commits it |
| AccountPool.TimeoutAbandons | packages/faucet/src/database-helper.ts:270-300 | One caller and one account suffice to reach an abandoned lock |
| AccountPool.LeftLockedAreAbandoned | packages/faucet/src/database-helper.ts:250-335 | Once every caller is done, an account is locked if and only if an abandoned caller holds it |
| AccountLeaks.LeavesLockIff | packages/faucet/src/database-helper.ts:250-335 | A finished run leaves a lock up if and only if some caller committed a lock and had its acquisition timer fire, or had the answer of its commit lost |
| AccountLeaks.CanLeakIff | packages/faucet/src/database-helper.ts:250-335 | Some finished run leaves a lock up if and only if there are a caller and an account |
| AccountPool.OutcomesAreSettledOnce | packages/faucet/src/database-helper.ts:178-300 | Both races of a caller settle at most once; NoFreeAccount only after a timeout; an action only with the account committed in time |
| AccountPool.OutcomesAreFinal | packages/faucet/src/database-helper.ts:178-268 | Settled outcomes never change in any continuation |
| AccountProgress.LeftAloneTakesFirstFree | packages/faucet/src/database-helper.ts:302-335 | In every reachable state a caller about to look, moving alone, locks the first free account k after k + 1 looks and changes nothing else |
| AccountProgress.ThenActsWithIt | packages/faucet/src/database-helper.ts:250-296 | With its timer still armed it then starts its action with that account |
| AccountProgress.LeftAloneSleeps | packages/faucet/src/database-helper.ts:277-318 | With every account locked it looks at each once and goes to sleep |
| AccountProgress.SleepsOnlyAfterAll | packages/faucet/src/database-helper.ts:310-318 | In every run a caller that sleeps has, since its last read, seen every account locked or had its transaction on it aborted |
| AccountProgress.RoundEnds | packages/faucet/src/database-helper.ts:302-318 | tryLockAccount ends after at most three moves per account and one |
| AccountProgress.NoRoundAfterTimeout | packages/faucet/src/database-helper.ts:275-291 | A caller between two rounds when its timer has fired never reads or commits again, in any continuation |
| AccountProgress.NeverStuck | packages/faucet/src/database-helper.ts:250-335 | In every reachable state a caller that is not done has a move of its own, whatever the others do |
| AccountProgress.ResultIsFirstAnswer | packages/faucet/src/database-helper.ts:250-268 | The promise of doWithAccount is Ok, a rejection or ActionTimeout by the first event that can settle the race of its action, NoFreeAccount or an error without an account, and pending until the unlock write |
| AccountEnds.CanFinish | packages/faucet/src/database-helper.ts:250-335 | From every reachable state a caller can finish by its own moves alone, at most three per account and ten |
| AccountEnds.AnswerByEvents | packages/faucet/src/database-helper.ts:250-335 | Whoever is done answers NoFreeAccount if and only if its acquisition timed out, else rejects if an error came, else answers what first settled the race of its action |
| AccountEnds.ErrorsReject | packages/faucet/src/database-helper.ts:302-335 | A failed read or transaction rejects the call and changes no flag; a commit whose answer is lost rejects it and leaves its account locked |
| AccountEnds.RetriesCountReads | packages/faucet/src/database-helper.ts:276-285 | In every run the accounts have been read once per retry, and once more by a caller that is in a round, asleep after one or has got an account |
| AccountPool.ActionsOverlapIff | packages/faucet/src/database-helper.ts:256-267 | Two actions can run with one account at the same time if and only if there are two callers and an account |
| AccountPool.PatientRunsAreExclusive | packages/faucet/src/database-helper.ts:256-267 | In every run in which unlock writes wait for the action, actions are exclusive |
| AccountAwait.AwaitedOverlapIff | packages/faucet/src/database-helper.ts:256-267 | Were the race awaited before the unlock write, two actions could still run with one account if and only if there are two callers and an account |
| AccountAwait.AwaitedOverlapTimesOut | packages/faucet/src/database-helper.ts:256-267 | Every such run has an action timeout |
| Future.Future.Resolve | packages/utils/src/future.ts:24-28 | The flags follow this call, a settled promise keeps its outcome |
| Future.Future.Reject | packages/utils/src/future.ts:30-34 | The flags follow this call, a settled promise keeps its outcome |
| Future.FirstCallSettles | packages/utils/src/future.ts:16-34 | For every sequence of calls the promise has the first outcome and the error getter shows the last |
| Future.ErrorTellsOutcomeIff | packages/utils/src/future.ts:16-34 | The error getter describes the promise if and only if the first and last call say the same about errors |
| Task.RepeatTask.Enter | packages/utils/src/task.ts:68-74 | While active, one more execution starts; otherwise nothing happens |
| Task.RepeatTask.FnSettles | packages/utils/src/task.ts:75-82 | However fn settled, a timer is armed if and only if the loop is still active |
| Task.SingleFlight | packages/utils/src/task.ts:54-98 | In every run at most one of a pending timer and a running fn exists, exactly one while active |
| Task.NoStartAfterStop | packages/utils/src/task.ts:64-84 | After a stop the loop never becomes active and never starts fn again |
| Task.StartsOncePerTimer | packages/utils/src/task.ts:68-92 | In every run fn starts once per fired timer, and once before the first exactly without an initial delay; stops only make it fewer |
| Task.AlwaysGoesOn | packages/utils/src/task.ts:68-84 | In every run an active loop waits for exactly one callback, the timer or fn, and can be stopped |
| Task.GoesOnForEver | packages/utils/src/task.ts:68-92 | For every number there is a run without stops in which fn starts at least that often |
| Task.StopsSoon | packages/utils/src/task.ts:64-84 | After a stop at most one callback is still to come, in any continuation |
| Task.SucceedsOnce | packages/utils/src/task.ts:100-113 | Wherever stops fall, onSuccess is called once if some poll came back true and never otherwise, and the watcher is active exactly until then or until a stop |
| Task.AttemptsAreBounded | packages/utils/src/task.ts:128-141 | In every run, stops included, tryGetValue is called at most maxAttemps times |
| Task.OutcomeIsFinal | packages/utils/src/task.ts:128-151 | The promise outcome never changes once settled, and a resolved value is the first one an attempt produced |
| Task.NoAttemptAfterEnd | packages/utils/src/task.ts:128-151 | After a stop or a value the loop is inactive in every continuation |
| Task.UndisturbedOutcome | packages/utils/src/task.ts:128-151 | Without outside stops: at most maxAttemps + 1 executions, never stuck before the end, then resolved to the first value or rejected after exactly maxAttemps attempts |
| Task.ErrorTellsIff | packages/utils/src/task.ts:128-151 | In every run the error field of the private future describes the promise if and only if no value or stop has come, or the last of them is a stop exactly when a stop settled the promise |
| Task.StopAfterValueMisleads | packages/utils/src/task.ts:135-148 | A stop after a value leaves the promise resolved and that field saying cancelled |
| TaskObjects.ConditionWatcher.TimerFires | packages/utils/src/task.ts:106-112 | In any history, polls once more exactly if still active; onSuccess calls so far are one if a poll came back true and none otherwise |
| TaskObjects.ConditionWatcher.PollSettles | packages/utils/src/task.ts:106-112 | In any history, onSuccess is called exactly for a true poll and at most once in all, and the loop is inactive from then on |
| TaskObjects.RetryTask.TimerFires | packages/utils/src/task.ts:130-135 | In any history, never more than maxAttemps calls, none after a stop or a value, a settled outcome unchanged, and without stops the promised end |
| TaskObjects.RetryTask.AttemptSettles | packages/utils/src/task.ts:135-139 | In any history, a value ends the loop and leaves the promise settled, with the first value if it is resolved; a settled outcome stays |
| TaskObjects.RetryTask.Stop | packages/utils/src/task.ts:145-148 | In any history, the loop ends, the promise is settled and an earlier outcome stays |
| Kdf.IncAddsOne | packages/utils/src/ecies.ts:19-27 | The carry loop's result is the big-endian value plus one modulo 256^length |
| Kdf.IncCounter | packages/utils/src/ecies.ts:19-27 | In place, the buffer becomes its big-endian successor, wrapping at the end |
| Kdf.ConcatKDF | packages/utils/src/ecies.ts:41-54 | Exactly kdLen bytes, byte b being byte b mod 32 of the hash of counter b/32 + 1 and px; equal to section 4.1 of NIST SP 800-56C Rev. 1 wherever that is defined |
| Ecies.EncryptThenDecrypt | packages/utils/src/ecies.ts:63-107 | Decryption inverts encryption, which adds 48 bytes |
| Ecies.AcceptsExactlyEncryptions | packages/utils/src/ecies.ts:87-107 | Of all buffers of at least 48 bytes, decryption accepts exactly the encryptions of the plaintext it returns |
| Ecies.RefusesIff | packages/utils/src/ecies.ts:87-107 | Of such buffers, decryption refuses those with a wrong MAC as such, and the others if and only if the key has not 16 bytes |
| Ecies.SendThenReceive | packages/utils/src/ecies.ts:115-156 | The holder of the private key reads what was encrypted to its public key, in 113 more bytes |
| Ecies.EncryptIs | packages/utils/src/ecies.ts:115-133 | The message is the ephemeral public key, the iv, the AES-128-CTR text and its HMAC, under the two halves of sha256(00000001, px), the second one hashed again |
| Ecies.EncryptAcceptsIff | packages/utils/src/ecies.ts:115-133 | Encryption fails if and only if the public key is not a point, and then for that reason |
| Ecies.DecryptsIff | packages/utils/src/ecies.ts:141-156 | A message of at least 113 bytes opens to a plaintext if and only if it starts with a point and goes on with the encryption of the plaintext under the keys derived from that point |
| Ecies.DecryptRefuses | packages/utils/src/ecies.ts:141-156 | A message of at least 113 bytes is refused for its point if and only if it does not start with one, and else only for its MAC |
| Ecies.LawsAreConsistent | packages/utils/src/ecies.ts:63-156 | The assumed laws of the primitives can be met together |
| CommentEncryption.BothPartiesDecrypt | packages/utils/src/commentEncryption.ts:30-60 | For all data and all valid keys, recipient and sender both read back exactly the data |
| CommentEncryption.EncryptDataIs | packages/utils/src/commentEncryption.ts:30-37 | The recipient's sealed session key, then the sender's, then iv, text and HMAC under the session key |
| CommentEncryption.EncryptDataAcceptsIff | packages/utils/src/commentEncryption.ts:30-37 | A comment is encrypted if and only if both public keys are points |
| CommentEncryption.AcceptsIff | packages/utils/src/commentEncryption.ts:48-60 | A buffer decrypts to a comment if and only if it is long enough, the chosen part opens to a session key and the rest is an encryption of the comment under it |
| CommentEncryption.TooShortIff | packages/utils/src/commentEncryption.ts:48-52 | A buffer is refused as too short if and only if it has fewer than 306 bytes, whatever the key |
| Hex.ParseFromBuffer | packages/utils/src/istanbul.ts:31 | The hex digits of a buffer have its big-endian value |
| Hex.DigitsInOrder | packages/utils/src/istanbul.ts:31 | The sixteen digits have their values in either case |
| Istanbul.BitOfBuffer | packages/utils/src/istanbul.ts:30-64 | Bit i is bit i mod 8 of byte len - 1 - i/8, false past the end |
| Istanbul.BitmapIsSumOfBits | packages/utils/src/istanbul.ts:30-64 | The powers of two at the set bits sum to the bitmap |
| Istanbul.BitsDetermineBitmap | packages/utils/src/istanbul.ts:56-64 | Two bitmaps are equal if and only if every query agrees |
| SigningUtils.TrimLeadingZero | packages/protocol/lib/signing-utils.ts:15-20 | The loop ends with no leading zero digit left, and a quantity keeps its value |
| SigningUtils.PadsFirst | packages/protocol/lib/signing-utils.ts:22-27 | Padding writes one zero after the first `0x`, wherever it is, and nothing else |
| SigningUtils.NormalizedKeepsValue | packages/protocol/lib/signing-utils.ts:89-91 | Trimming and padding keep the value, give whole bytes and no leading zero byte |
| SigningUtils.NormalizedIsMinimal | packages/protocol/lib/signing-utils.ts:89-91 | The result is the hex of the value's minimal big-endian bytes, as in Appendix B of the Ethereum Yellow Paper |
| SigningUtils.MinimalBytesAre | packages/protocol/lib/signing-utils.ts:89-91 | Minimal bytes have the value and no leading zero byte, and zero has none |
| SigningUtils.NormalizedIsCanonical | packages/protocol/lib/signing-utils.ts:89-91 | Two lower-case quantities get the same result if and only if their values are equal |
| SigningUtils.TrimAfterPadding | packages/protocol/lib/signing-utils.ts:96-102 | Trimming the padded value again gives the trimmed original |
| Fixidity.IntegerRoundTrip | packages/utils/src/fixidity.ts:6-18 | fixedToInt(toFixed(n)) = n for every integer, negative ones included |
| Fixidity.ScaleIs | packages/utils/src/fixidity.ts:4-8 | One is ten to the power of 24 units |
| Fixidity.RoundingIs | packages/utils/src/fixidity.ts:6-18 | toFixed rounds down, also below zero; fixedToInt cuts off towards zero |
| Fixidity.MultiplyLaws | packages/utils/src/fixidity.ts:20-22 | One is neutral and signs only carry over |
| Fixidity.MultiplyError | packages/utils/src/fixidity.ts:6-22 | For x, y >= 0 multiplying rounded factors is never above the rounded product and less than x + y + 1 units below it |
| Fixidity.RegroupingError | packages/utils/src/fixidity.ts:20-22 | Regrouping a triple product moves the result by less than a/fixed1 + 1 one way and c/fixed1 + 1 the other |
| Epochs.EpochsPartition | packages/contractkit/src/kit.ts:347-379 | A block has epoch e if and only if it lies between e's first and last block, and last(e) + 1 = first(e + 1) |
| Epochs.EndsAreBlocks | packages/contractkit/src/kit.ts:347-367 | Every epoch, 0 included, has a first and a last block, and these are blocks of it |
| Epochs.LeastToNextEpoch | packages/protocol/lib/test-utils.ts:75-100 | The number of blocks asked for is the least positive one that changes the epoch, and raises it by one |
| Epochs.TestChain.MineToNextEpoch | packages/protocol/lib/test-utils.ts:95-100 | The chain ends at the first block of the next epoch, every block before it still in the old one |
| ConcurrentMap.ConcurrentMap | packages/utils/src/async.ts:64-77 | Resolves if and only if every call does, then to the sequential map, one call per index, all calls of a batch made before any of them settles; otherwise rejects with an error of the first failing batch and starts nothing after it |
| ConcurrentMap.BoundedInFlight | packages/utils/src/async.ts:70-74 | At every moment of a run that starts a batch only after the previous ones have settled, at most `concurrency` calls are in flight |
| ConcurrentMap.FullyInFlight | packages/utils/src/async.ts:70-74 | When the first promise of a batch settles, the whole batch is in flight: `concurrency` calls, or all that are left |
| ConcurrentMap.ConcurrentValuesMap | packages/utils/src/async.ts:86-99 | The result has exactly x's keys, each with mapFn of its value and key, with calls batched as in concurrentMap |
| DependencyGraph.HasChangedIsReachability | scripts/check_if_test_should_run_v2.ts:66-72 | Wherever no cycle can be reached through unchanged packages: an error if and only if unchanged packages lead out of the graph, otherwise true if and only if a changed package is reachable |
| DependencyGraph.RankDecreases | scripts/check_if_test_should_run_v2.ts:71 | Along every edge with no cycle ahead the set of reachable nodes shrinks |
| DependencyGraph.AcyclicIsLoopFree | scripts/check_if_test_should_run_v2.ts:66-72 | On an acyclic graph no cycle is ahead of any package, whatever has changed |
| DependencyEnds.EndsIff | scripts/check_if_test_should_run_v2.ts:66-72 | On every graph: the recursion ends if and only if no cycle can be reached by trying, in order, the dependencies of unchanged packages up to the first without an answer; it ends with an answer if and only if no cycle and no missing package can be reached through unchanged packages |
| DependencyEnds.EndsWithoutMissingIff | scripts/check_if_test_should_run_v2.ts:66-72 | With no missing package ahead, it ends if and only if no cycle can be reached through unchanged packages |
| DependencyEnds.MutualNeverEnds | scripts/check_if_test_should_run_v2.ts:66-72 | Parsed from lerna's output, two unchanged listed packages that depend on each other make it go on for ever |
| DependencyGraph.ClosedGraphAnswer | scripts/check_if_test_should_run_v2.ts:66-72 | On a closed graph, wherever the recursion ends, there is no error and the answer is reachability |
| DependencyGraph.ParsedGraph | scripts/dependency-graph-utils.ts:23-39 | An error if and only if a listed package is unknown to lerna's graph; otherwise the nodes are the listed packages and the edges lerna's edges to own @celo packages |
| DependencyGraph.ParsedLocations | scripts/dependency-graph-utils.ts:23-39 | A node's location is the relative path of the last listed package of its name |
| DependencyGraph.FilterInOrder | scripts/dependency-graph-utils.ts:32-34 | The dependencies kept stay in order, each as often as it is listed |
| DependencyGraph.ParsedGraphClosedIff | scripts/dependency-graph-utils.ts:23-39 | The parsed graph is closed if and only if no listed package depends on an own package that is not listed |
| DependencyGraph.TestDecision | scripts/check_if_test_should_run_v2.ts:66-74 | From lerna's output to the decision: with all packages listed and no cycle to be reached from the packages to test through unchanged ones, tests run if and only if one of the packages to test reaches a changed one |

## Left out

- Non-finite BigNumbers: list values and fixed-point inputs are reals, so NaN and infinities are not covered.
- Letter case beyond ASCII: `toLowerCase` is modelled on A to Z only, which is all that hex addresses contain.
- Chain keys: an address on chain is its normalized string rather than the 32-byte word it is packed into, and vote amounts have no 256-bit bound.
- `localeCompare` returning 0 for different strings: the join assumes a total order on normalized addresses.
- AccountPool.RunKeepsInv: the callers are values moved by a step function, not asynchronous closures, and the account set is fixed during a run; a database write that never lands is a run in which that move never happens.
- WithTimeout.SettlesOnce: a function or an `onTimeout` that throws, and an `onTimeout` that returns a promise, are not covered; both callers pass async functions and plain fallbacks.
- Real time: a timer fires before or after another event, and retry delays are not modelled.
- Future: rejecting with null, which `error` cannot tell from no error.
- SHA-256, HMAC, AES, secp256k1 and HKDF: abstract functions; confidentiality and unforgeability are not stated.
- `encryptComment` and `decryptComment`: base64 and UCS-2 conversions around the modelled functions.
- `fromFixed`: its result depends on BigNumber's division precision.
- `parseBlockExtraData`: RLP decoding is not part of this model.
- `signTransaction` apart from the hex quantities: formatting, RLP, hashing and signing.
- Epochs: 53-bit precision of block numbers and epoch sizes.
- GroupMigration.ElectionNeverReverts: covers the sorted list only. `addFirstMember` also requires membership, affiliation and locked gold, and `vote` a group that can receive that many votes, room among the groups voted for and enough non-voting gold; those requirements, accounts, registration and locked gold are not modelled.
- GroupAmounts.AmountsAreLevel: the amounts are reals, so the precision of BigNumber's division before it is rounded is not modelled; only that the rounded step is not negative matters.
- `getChangedPackages`, `getNextPageLink` and the graph file: git, network and file access.
- `retryAsync` and `retryAsyncWithBackOff`: plain retry loops with nothing hard to state.
- `zip`, `zip3`, `notEmpty` and `intersection`: one-line list helpers.
