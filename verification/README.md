# Verified models of the regional TEE virtual machine

A Dafny project that models the parts of the virtual machine that keep state and make decisions, and proves what they
guarantee over every input, every run and every order in which Go may walk a map. `dafny verify dfyconfig.toml` checks
all of it.

Each module follows one component of the repository:

| module | component |
|---|---|
| `TaskCoordinator` | the coordinator's status table, channel, processing and cleanup loops, as a transition system over its critical sections, and a class whose methods are those critical sections |
| `TeePairs` | selection and release of TEE pairs by load |
| `TimeQuorum` | signed timestamps, the collection loop over any schedule of messages, the spread check, the median |
| `Intents` | state changes of a cross-region intent and the transfer check |
| `KeyRanges` | grouping of sorted changes into key ranges |
| `Outcomes` | what applying an intent's changes does to the state, over every order and tie-break |
| `RangeRequests` | the range requests of an intent, what the kept proof covers, and when requests share a cache key |
| `CachedReads` | those requests read through the cache of the store behind all regions, and what the answers decide |
| `Executions` | the whole action as a function of the choices Go leaves open, and when they do not matter |
| `CrossRegion` | execution of a cross-region action |
| `RangeProofs` | range proofs over a view, their cache, the store with its commits |
| `Commits` | the two ways to commit through the state manager |
| `Ledger` | balances as bytes, and the transfer action |
| `BatchVerifier` | verification of a batch of actions |
| `PairMetrics` | metrics and status of a TEE pair |
| `RegionConfigs` | the cached store of region configurations |
| `RegionalObjects` | objects and events of all regions in one flat key space |
| `Options`, `Bytes`, `Views`, `Sequences`, `Sorting` | optional values, byte strings and their order, key-value state, counting, the contract of `sort.Slice` |

Code that updates fields is a class whose methods are proved against a function of the old state; the theorems are about
that function. A Go map that is walked becomes a loop that picks an arbitrary remaining key, so its contract covers every
order; where the result depends on the order, the order is a parameter. Foreign parts are parameters with a stated law:
ed25519 (`Crypto.Signs`), JSON (`RoundTrips`), the Merkle proof and root of a view (`Prover`, `rootOf`). Clocks, health
checks, channel and database failures and cancellation are parameters. Rates are reals; times and durations are integers.

## Where the code does not do what one would expect

Each of these is a theorem. Where it names a condition for the expected behaviour, the condition is necessary and
sufficient, unless the text says otherwise.

- A task ID must not be reused too early: after a reservation every continuation with careful submissions is safe exactly
  when no earlier submission of the same ID is still submitting, queued or being processed (`ReserveIsSafeExactly`). A
  reused ID can leave an admitted submission without room in the channel (`ReusedIdBlocksAnAdmittedSubmission`).
- The median tolerates strictly fewer than half faulty clocks and no more (`MedianToleratesFaults`,
  `HalfFaultyIsTooMany`); the default quorum of two tolerates none.
- `ValidateStateChanges` accepts an intent under every map order exactly when its transfer fields are present and each
  incoming transfer is matched inside its own region (`AcceptedInEveryOrderExactly`). A plain transfer between two regions
  is accepted under one order and rejected under the other (`CrossingDependsOnOrder`).
- `Execute` keeps one range proof per region, the last one. Changes are executable when each region's keys are all present
  under one eight-byte prefix, the view proves their ranges and nobody cancelled; a Set of a new key is not. Unless two
  requests since the last commit share a cache key, a signed intent that the transfer check accepts is carried out exactly
  when its changes are executable (`Execute`).
- All regions read through one store and its cache. The requests of one region never share a cache key
  (`OneRegionNeverClashes`), nor do those of keys without a dash (`DashlessIntentNeverClashes`), but those of two regions
  can (`TwoRegionsCanClash`). Of any two that do, the one with the shorter start is answered without its own key once the
  other has been read (`ClashLosesAKey`). From an empty cache, reading and coverage pass under every order of the regions
  exactly when the changes are executable and no two requests share a key (`AlwaysPassesExactly`).
- `Execute` walks the changes map again and again and sorts each list with ties left open. From an empty cache a signed
  intent, one with a positive window, some changes and good signatures, is carried out under every order and tie-break, and leaves one final state, exactly when its incoming transfers are
  matched in their own regions, its changes are executable, its requests share no cache key and all effective changes of a
  key agree (`ExecutionIsOrderFreeExactly`). A plain transfer of a present key between two regions meets all of these but
  the first: it removes the key under one order of the check and is refused under the other
  (`CrossingDependsOnTheCheck`).
- The final loop alone leaves one state exactly when all effective changes of a key agree (`OutcomeIsUniqueExactly`). The
  changes in `tests/integration/xregion_test.go:48-62` do not (`MoveAndSetIsAmbiguous`); that intent has no time window,
  so `Execute` would refuse it before it came to them.
- Cached range proofs equal uncached ones exactly when no read shares its cache key with a different request that was
  answered since the last commit (`CachedRunExactly`); starts with a dash can clash (`ClashAnswersWrongly`).
- Each commit overlays the database and not the previous view, so only the latest commit is visible
  (`OnlyTheLatestCommitIsVisible`), and a deleted region configuration that is still in the database shows again after
  the next update of another region (`RunExactly`, `DeletedConfigResurfaces`).
- `CommitChanges` and `CommitBatch` agree exactly when no key is put after it was deleted (`CommitsAgreeExactly`).
- A transfer debits the sender before the credit can fail, and on failure it returns an error with the debit still in the
  mutable state; a caller that discards the writes of a failed action loses nothing. In the state as left, the value is
  gone exactly when the sender covers it and another account is to receive it whose entry is unreadable or would exceed
  64 bits (`TransferExactly`, `StepSupply`); a run conserves the supply exactly when no transfer meets that guard in its
  turn (`RunConservesExactly`). `UnreadableReceiverBurns` is an input of the first kind; a cross-region Set can leave such
  an entry, since it writes any bytes under any key. From a supply that fits in 64 bits nothing overflows, and readable
  receivers are then enough (`RunConserves`).
- `VerifyBatch` refuses every batch that creates an object, because the per-action step re-reads the mark the analysis
  set, and every region action, because single-action verification does not know them (`VerifyBatch`).
- A task completes by results only when their number reaches the number of workers, so one submitted without workers
  never does; it waits for the loop (`ResultsCompleteTheTask`).
- A stored average task time of zero counts as none: the next duration is taken as it is (`AverageIsWeighted`).
- The stored error rate is refreshed only by failures (`StoredRatesAreTrueExactly`), and the success rate never decides
  the status (`DegradedExactly`). Successes leave a pair active exactly when at most a tenth of the tasks up to its last
  failure failed (`SuccessesRecoverExactly`), so they never bring a degraded pair back (`SuccessesNeverRecover`).
- `SetObject` and `SetEvent` have already written when the Merkle root cannot be read; every other failure leaves the
  database alone (`SetObject`, `SetEvent`).
- Region IDs with slashes can reach into another region's keys; regions are kept apart exactly when no key stem of one
  begins a stem of the other (`IsolatedExactly`, `SlashedRegionsCollide`).

## Model

| member | source | states |
|---|---|---|
| `TaskCoordinator.EveryRunIsSafe` | coordination/coordinator.go:117-187 | in every state reachable by careful submissions the table is within MaxTasks, each entry is exactly one of submitting, queued, running, finished, only the entry the loop holds is running, EndTime is set exactly for finished entries, an admitted submission has room in the channel, and the cancelled branch of the loop is not taken |
| `TaskCoordinator.StepKeepsInv` | coordination/coordinator.go:89-187 | every step of the coordinator keeps the invariant behind that |
| `TaskCoordinator.AdmittedFindsRoom` | coordination/coordinator.go:123-139 | the reservation bound is also a bound on the channel: a reserved submission never waits to send |
| `TaskCoordinator.ReserveIsSafeExactly` | coordination/coordinator.go:122-134 | after a reservation every careful continuation is safe if and only if it was refused or no earlier submission of the ID is submitting, queued or being processed |
| `TaskCoordinator.LiveReuseIsUnsafe` | coordination/coordinator.go:122-187 | each of the three kinds of live reuse is unsafe at once or after one more step |
| `TaskCoordinator.ReusedIdBlocksAnAdmittedSubmission` | coordination/coordinator.go:123-139 | with one ID reused, an admitted submission finds the channel full |
| `TaskCoordinator.TakenInOrder` | coordination/coordinator.go:136-165 | over any run, careful or not, the tasks taken are the tasks sent, in order, none lost and none invented |
| `TaskCoordinator.StepNeverMovesBack` | coordination/coordinator.go:153-187 | no step but its own resubmission moves a status back in the order pending, running, finished |
| `TaskCoordinator.RunNeverMovesBack` | coordination/coordinator.go:89-187 | neither does any run, careful or not with other IDs, while the ID is not submitted again |
| `TaskCoordinator.InvIsOwnOk` | coordination/coordinator.go:117-187 | what the two ask of the ID holds of every ID in every state reached carefully |
| `TaskCoordinator.EntriesLeaveOnlyWhenOver` | coordination/coordinator.go:140-149 | an entry leaves the table only when its own submission gives up, or at a tick for an entry that is Complete or Failed, ended more than an interval before, and is neither queued nor being submitted |
| `TaskCoordinator.FinishedIsKeptUntilExpired` | coordination/coordinator.go:276-285 | over any run a finished entry nobody holds any more is kept unchanged until the first tick whose time is more than an interval past its end, and is gone from then on, unless its ID is submitted again |
| `TaskCoordinator.OutcomeStaysOnRecord` | coordination/coordinator.go:170-181 | over any run after the loop is done with a task, its entry reads Failed with an error or Complete with its old error, ended then, with workers, start and results as before, until the first tick more than an interval later, and is gone from then on |
| `TaskCoordinator.ResultsCompleteTheTask` | coordination/coordinator.go:663-686 | any number of results for a running task are kept in order; it completes exactly with the one that makes their number the number of workers, at that time, and later ones are refused; one that already has as many, such as one without workers, never does |
| `TaskCoordinator.LateResultsAreRefused` | coordination/coordinator.go:672-674 | results for a task that is not running change nothing |
| `TaskCoordinator.StopFailsWhatRuns` | coordination/coordinator.go:89-103 | after stopping nothing runs: what ran is Failed with the stop as its reason and ended then, everything else is as it was |
| `TaskCoordinator.Coordinator.constructor` | coordination/coordinator.go:56-76 | a new coordinator is the initial state, with the cleanup interval defaulting to a minute |
| `TaskCoordinator.Coordinator.Admit` | coordination/coordinator.go:122-134 | refused exactly at MaxTasks entries, otherwise the entry is pending from now on without results, error or end |
| `TaskCoordinator.Coordinator.Send` | coordination/coordinator.go:138-139 | the send branch is ready exactly when the channel has room, always so for an admitted submission under the invariant, and moves it to the channel; otherwise nothing changes |
| `TaskCoordinator.Coordinator.GiveUp` | coordination/coordinator.go:140-149 | cancellation and timeout take the reservation back |
| `TaskCoordinator.Coordinator.Take` | coordination/coordinator.go:156-165 | the loop takes the oldest entry of the channel and marks it running, changing nothing else; under the invariant it is never missing |
| `TaskCoordinator.Coordinator.Conclude` | coordination/coordinator.go:170-181 | an entry still there is recorded as Failed with the error or as Complete, with its end time and nothing else changed |
| `TaskCoordinator.Coordinator.SetTaskResult` | coordination/coordinator.go:663-686 | a result is accepted exactly for a running entry, is appended, and completes it exactly when all workers reported |
| `TaskCoordinator.Coordinator.Cleanup` | coordination/coordinator.go:276-285 | the sweep equals its order-free specification for every map order |
| `TaskCoordinator.Coordinator.StopTasks` | coordination/coordinator.go:89-103 | stopping fails exactly the running entries, for every map order |
| `TaskCoordinator.Coordinator.AssignWorkers` | coordination/coordinator.go:252-253 | a regional task gets the two workers of its pair |
| `TeePairs.SelectTEEPair` | coordination/coordinator.go:413-444 | returns the first pair of least load and increments it alone; fails exactly when every counter is at its maximum or there is none |
| `TeePairs.ReleaseTEEPair` | coordination/coordinator.go:258-260 | gives one selection back |
| `TeePairs.CountersAreOutstanding` | coordination/coordinator.go:245-263 | over any interleaving of selections and releases each counter is the number of outstanding selections of its pair and the counters add up to all of them |
| `TeePairs.SelectionsStayBalanced` | coordination/coordinator.go:426-440 | a run of selections keeps greatest and least count within one |
| `TeePairs.SelectionsSpreadEvenly` | coordination/coordinator.go:426-440 | k selections over n idle pairs give each pair k/n or k/n + 1 |
| `TimeQuorum.MedianToleratesFaults` | timeserver/network.go:200-211 | with fewer than half of the times faulty the median lies between two correct times, for every number and arrangement |
| `TimeQuorum.HalfFaultyIsTooMany` | timeserver/network.go:200-211 | for every n and f with 2f at least n some arrangement moves the median past every correct time |
| `TimeQuorum.MiddleIsMedian` | timeserver/network.go:209-211 | the element at n/2 of any sorted permutation is the median, said by counting |
| `TimeQuorum.MessageIsInjective` | timeserver/network.go:185-188 | the signed message determines time and nonce |
| `TimeQuorum.MessagesRunOut` | timeserver/network.go:81-97 | at most one message per healthy server can arrive before only the timer and the context are left |
| `TimeQuorum.TimeNetwork.AddServer` | timeserver/network.go:40-53 | appends a server to its region and refuses an empty region |
| `TimeQuorum.TimeNetwork.FindServer` | timeserver/network.go:169-181 | finds a registered server with the ID if there is one, for every map order |
| `TimeQuorum.TimeNetwork.VerifyResponse` | timeserver/network.go:130-146 | accepts only responses signed by a known server of that ID, and with unique IDs accepts every genuine answer to the nonce |
| `TimeQuorum.TimeNetwork.Receive` | timeserver/server.go:43-72 | what a healthy server answers to the nonce verifies, with unique IDs |
| `TimeQuorum.TimeNetwork.Collect` | timeserver/network.go:99-118 | for every schedule the loop stops within one step per healthy server plus one, passes over no timer or context event, holds exactly quorumSize verified replies of distinct servers on success, and with honest servers takes every reply and fails only with too few of them |
| `TimeQuorum.TimeNetwork.ValidateResponses` | timeserver/network.go:232-259 | accepts exactly enough responses whose times are pairwise within maxLatency |
| `TimeQuorum.TimeNetwork.CreateVerifiedTimestamp` | timeserver/network.go:195-211 | returns the median of the response times |
| `TimeQuorum.TimeNetwork.GetVerifiedTimestamp` | timeserver/network.go:55-127 | a verified timestamp is the median of exactly quorumSize verified answers of distinct healthy servers of the region and within maxLatency of each; every answer comes from a server that passed the health check; the shortage errors hold exactly when the servers, or the number of checks that passed, are too few; it panics exactly for a negative quorum size, or for none with a latency that is not negative; with honest servers the outcome is decided by the replies before the first timer or context event: too few, the first quorum too far apart, or their median |
| `TimeQuorum.TimeNetwork.Decide` | timeserver/network.go:99-127 | the same for a given list of healthy servers |
| `TimeQuorum.TimeNetwork.Summarize` | timeserver/network.go:120-127 | after collection: refused exactly when the times are not close together, otherwise a trustworthy median |
| `TimeQuorum.TimeNetwork.QuorumNamesDistinctServers` | timeserver/network.go:103-118 | with unique IDs the quorum carries pairwise different server IDs |
| `TimeQuorum.TimeNetwork.VerifiedTimeToleratesFaults` | timeserver/network.go:195-229 | with fewer than half of the quorum faulty the verified time lies between two correct clocks |
| `TimeQuorum.TimeNetwork.FilterHealthy` | timeserver/network.go:61-68 | keeps as many servers as passed the health check, each in the place given by the number that passed before it |
| `TimeQuorum.HealthyKeepsPassed` | timeserver/network.go:61-68 | the healthy list, said by counting the checks that passed: its length, the place of every server that passed, and no other server |
| `Intents.ValidateStateChanges` | coordination/xregion/types.go:151-190 | for a fixed order accepts exactly when, in the list of all changes as they are met, every TransferOut names a target and every TransferIn names a source and has a TransferOut of its key before it, the latest of which targets its region |
| `Intents.AcceptsExactly` | coordination/xregion/types.go:161-187 | the nested loops' verdict is that condition on positions in the list |
| `Intents.AcceptedTransfersMatch` | coordination/xregion/types.go:174-184 | for every order, acceptance implies a source and a TransferOut of the same key to the receiving region for each TransferIn |
| `Intents.AcceptedInEveryOrderExactly` | coordination/xregion/types.go:161-187 | accepted under every order if and only if transfer fields are present and each TransferIn is matched by its own region's list |
| `Intents.CrossingDependsOnOrder` | coordination/xregion/types.go:161-187 | a transfer from one region to another is accepted with the source walked first and rejected with the target walked first |
| `KeyRanges.GroupChangesByPrefix` | actions/cross_region.go:349-382 | sorts the list in place by key, a permutation, returns the grouped ranges, and would panic exactly when two or more changes include a key under eight bytes |
| `KeyRanges.EndsAreKeys` | actions/cross_region.go:360-381 | both ends of each range are keys of the list and share their prefix; the last range ends at the last key |
| `KeyRanges.RangesIncrease` | actions/cross_region.go:365-378 | ranges come in strictly increasing order of prefix |
| `KeyRanges.RangesAreDisjoint` | actions/cross_region.go:365-378 | each range ends before the next begins |
| `KeyRanges.KeyHasOneRange` | actions/cross_region.go:365-381 | a key lies in a range if and only if it has the range's prefix |
| `KeyRanges.RangeOf` | actions/cross_region.go:365-381 | every key lies in some range of its prefix |
| `KeyRanges.OneRangePerPrefix` | actions/cross_region.go:365-381 | there are as many ranges as distinct prefixes |
| `KeyRanges.GroupExactly` | actions/cross_region.go:359-381 | the ranges are exactly those from the least to the greatest key of a prefix |
| `CrossRegion.Execute` | actions/cross_region.go:32-133 | the run is one of its walk: it succeeds exactly when the intent is signed and the walk's check, requests and coverage pass, the final state is then that of applying the walk's sorted lists in its order, and otherwise the state is unchanged; the key of each change was in the proof kept for its region; unless requests share a cache key success is acceptance by the check and executable changes; a success carried the intent out operation by operation, and a failure names the first check that failed |
| `Outcomes.OutcomeIsUniqueExactly` | actions/cross_region.go:111-130 | the final loop leaves the same state for every map order and tie-break if and only if no key is set to two values and none is both set and moved out |
| `Outcomes.AppliedIsCarriedOut` | actions/cross_region.go:111-130 | in whatever order the lists are applied, a touched key ends up with a value some Set gave it or, if it is gone, some TransferOut moved it; every other key is as before |
| `Executions.SuccessCarriesOut` | actions/cross_region.go:32-133 | the same for every successful run of the whole action |
| `Outcomes.AgreedEffectHappens` | actions/cross_region.go:117-128 | where the changes agree, a key with a Set holds its value, a key with a TransferOut is gone, and a key with neither is as before |
| `Outcomes.OnlyStateKeysChange` | actions/cross_region.go:302-319 | nothing outside the keys listed by StateKeys changes |
| `Outcomes.StateKeysAreTouched` | actions/cross_region.go:302-319 | StateKeys lists exactly the keys of some Set or TransferOut change |
| `Outcomes.AnyEffectCanWin` | actions/cross_region.go:111-130 | any Set or TransferOut can be the one that decides its key, under some order and tie-break: the key then holds its value or is gone |
| `Outcomes.MoveAndSetIsAmbiguous` | tests/integration/xregion_test.go:48-62 | the changes of the integration tests' intent, taken alone, have order-dependent outcomes in the final loop; without a time window the intent itself is refused earlier |
| `RangeRequests.CoveredExactly` | actions/cross_region.go:57-65 | since the last range's proof overwrites the others, a region is covered exactly when its keys are all in the view under one prefix |
| `RangeRequests.RequestsAreAsked` | actions/cross_region.go:322-346 | the requests made are those from the least to the greatest key of each region and prefix, whatever the sort and the order did |
| `RangeRequests.OneRegionNeverClashes` | coordination/state/cache.go:67-70 | two ranges of one region never share a cache key |
| `RangeRequests.LocalIntentNeverClashes` | coordination/state/cache.go:67-70 | so an intent with changes in one region only asks for nothing that clashes |
| `RangeRequests.DashlessIntentNeverClashes` | coordination/state/cache.go:67-70 | nor does an intent whose keys hold no dash |
| `RangeRequests.TwoRegionsCanClash` | coordination/xregion/coordinator.go:55-73 | ranges of two regions of one intent can share a cache key of the common store |
| `RangeRequests.ClashOrder` | coordination/state/cache.go:67-70 | two different requests with one cache key differ in the length of their starts, and the shorter comes first |
| `RangeRequests.ClashLosesAKey` | coordination/state/types.go:59-64 | of any two requests with one cache key, the one with the shorter start is answered without that start once the other has been read |
| `CachedReads.RegionsEffect` | actions/cross_region.go:57-65 | for every order of the regions the requests all end up answered in a table that only grew, or some range of the intent is neither cached nor provable |
| `CachedReads.RegionsTruthful` | coordination/state/types.go:52-108 | requests of a set leave the table one of true answers to that set |
| `CachedReads.PassesWithoutClash` | actions/cross_region.go:53-109 | where no two requests clash, requests, confirmation and coverage pass exactly for executable changes, for every order of the regions |
| `Executions.FirstRegionIsTrue` | actions/cross_region.go:57-65 | from an empty cache the region read first gets true scans, which stay in the table |
| `Executions.ClashUncovers` | actions/cross_region.go:85-109 | where two regions clash, every order that reads the longer start first leaves the other region uncovered |
| `Executions.AlwaysPassesExactly` | actions/cross_region.go:53-109 | from an empty cache they pass under every order and tie-break if and only if the changes are executable and no two requests share a cache key |
| `Executions.AlwaysSucceedsExactly` | actions/cross_region.go:32-133 | from an empty cache a signed intent is carried out under every order of every map and every tie-break if and only if transfers are matched locally, changes are executable and no two requests share a cache key |
| `Executions.ExecutionIsOrderFreeExactly` | actions/cross_region.go:32-133 | it is carried out under all of them with one and the same final state if and only if, besides, the effective changes of each key agree |
| `Executions.SucceedsWithoutClash` | actions/cross_region.go:32-133 | whatever is cached, where no two requests clash success is acceptance by the check and executable changes |
| `Executions.CrossingDependsOnTheCheck` | coordination/xregion/types.go:161-187 | a transfer of a present key between two regions meets every condition but local matching, and is carried out or refused by the order of the check |
| `CrossRegion.RequiredRanges` | actions/cross_region.go:322-346 | sorts every region's list and groups it, for every order of the regions |
| `CrossRegion.RequestProofs` | actions/cross_region.go:57-65 | served by the common store, region after region in some order: the table is that of the reads in that order, the last answer of each region is kept, and a refusal stops it |
| `CrossRegion.CheckCoverage` | actions/cross_region.go:86-109 | accepts exactly when every change's key is in its region's kept proof |
| `CrossRegion.CheckRanges` | actions/cross_region.go:53-109 | panics exactly where two or more changes include a key under eight bytes; every other verdict is the one its reads decide: a refused range, cancellation with regions to confirm, an uncovered change, or success |
| `CrossRegion.Judge` | actions/cross_region.go:67-109 | cancellation with regions to confirm, then coverage by the kept proofs |
| `CrossRegion.RequestRange` | coordination/xregion/coordinator.go:55-73 | one request changes the table as the cached read does and reports what the table then answers |
| `CrossRegion.ApplyChanges` | actions/cross_region.go:111-130 | applies the lists region by region in some order, which carries the changes out operation by operation |
| `CrossRegion.VerifySignatures` | actions/cross_region.go:163-184 | accepts exactly when source and all targets signed and no signature is empty, and reports a missing signature exactly when one is missing |
| `CrossRegion.ValidateBasic` | actions/cross_region.go:140-160 | accepts exactly a positive window, some changes, good signatures and an accepted transfer check; a refusal names the first of these that fails |
| `RangeProofs.ScanView` | coordination/state/types.go:72-89 | the sorted scan with its early break collects exactly the view's entries that are not before the start and not past the end, if there is one |
| `RangeProofs.PastTheEnd` | coordination/state/types.go:83-85 | a key past the end rules out all later keys |
| `RangeProofs.CachedReadExactly` | coordination/state/types.go:52-108 | one cached answer equals the uncached one if and only if no earlier answered request clashes with it |
| `RangeProofs.CachedRunExactly` | coordination/state/types.go:52-128 | over any run of reads and commits cached and uncached answers agree if and only if no read clashes with a different request answered since the last commit |
| `RangeProofs.TruthfulRead` | coordination/state/types.go:52-108 | every cached proof stays the uncached answer to some request made since the last commit, and a read that clashes with none is answered as without the cache |
| `RangeProofs.CacheIsTransparent` | coordination/state/cache.go:67-70 | dash-free starts without mixed nil and empty ends never clash |
| `RangeProofs.ClashAnswersWrongly` | coordination/state/cache.go:67-70 | a dash in a start makes two ranges share a cache key and the second read wrong |
| `RangeProofs.OnlyTheLatestCommitIsVisible` | coordination/state/types.go:111-121 | after any run the view is the database overlaid with the latest commit alone |
| `RangeProofs.RangeCache.Get` | coordination/state/cache.go:22-31 | a hit is the proof last put under root and range key; nothing put is missed while the roots put fit the size |
| `RangeProofs.AllOfAt` | coordination/state/cache.go:34-42 | an unbounded cache answers each root and range key with the proof last put under it |
| `RangeProofs.RangeCache.Put` | coordination/state/cache.go:34-48 | never holds more than `size` roots and always a sub-map of what an unbounded cache would hold |
| `RangeProofs.RangeCache.EvictLeastUsed` | coordination/state/cache.go:51-65 | drops exactly one root, of least number of ranges, for every map order |
| `RangeProofs.MerkleStore.constructor` | coordination/state/types.go:22-34 | a new store sees the database and an empty cache |
| `RangeProofs.MerkleStore.GetRangeProof` | coordination/state/types.go:52-108 | the answer and the cache after it are those of the cached read, and the uncached answer where the request clashes with none since the last commit; only the current root is ever cached, so nothing is evicted |
| `RangeProofs.MerkleStore.Commit` | coordination/state/types.go:111-128 | the new view overlays the database and the cache is empty |
| `Commits.CommitChanges` | coordination/state/manager.go:252-279 | for every map order gives base plus updates minus deletions |
| `Commits.CommitBatch` | coordination/state/manager.go:323-334 | walks the batch in order; each key ends as the last operation on it says, or as in the base |
| `Commits.CommitsAgreeExactly` | coordination/state/manager.go:242-334 | on every base the two commits of one sequence agree if and only if every deleted key has Delete as its last operation |
| `Commits.PutAfterDeleteIsLost` | coordination/state/manager.go:256-272 | putting a key back after deleting it survives in a batch and is lost in a recorded change |
| `Commits.OverlayAt` | coordination/state/manager.go:323-334 | a key of a batch is decided by the last operation on it |
| `Commits.RecordAt` | coordination/state/manager.go:242-249 | a recorded change keeps whether a key was ever deleted and, if not, its last value |
| `Commits.StateChange.Put` | coordination/state/manager.go:242-244 | records one more put and leaves the deletions alone |
| `Commits.StateChange.Delete` | coordination/state/manager.go:247-249 | records one more deletion and leaves the updates alone |
| `Commits.StateBatch.Put` | coordination/state/manager.go:301-307 | appends a put |
| `Commits.StateBatch.Delete` | coordination/state/manager.go:310-315 | appends a deletion |
| `Ledger.RunConserves` | actions/transfer.go:48-75 | over any run of transfers from a supply below 2^64 no transfer overflows, and the total of decoded balances is unchanged when the receivers are readable at the start |
| `Ledger.RunConservesExactly` | actions/transfer.go:48-75 | from any state the total falls by exactly the values of the transfers that meet the burning guard in their turn, so it is conserved if and only if none does; stored balances that were non-zero stay so |
| `Ledger.StepSupply` | actions/transfer.go:62-69 | from any state one transfer leaves the total alone or, if and only if the burning guard holds, lowers it by the value |
| `Ledger.TransferExactly` | actions/transfer.go:48-75 | from any state a transfer completes exactly when permitted and reports the balances, fails after the debit exactly when the burning guard holds, and otherwise leaves the state alone; each error has its exact condition |
| `Ledger.TransferMoves` | actions/transfer.go:62-75 | a completed transfer moves exactly the value, self-transfer included, and touches no other account |
| `Ledger.ReadabilityIsKept` | storage/storage.go:202-254 | no transfer makes an account readable or unreadable |
| `Ledger.UnreadableReceiverBurns` | actions/transfer.go:62-69 | four units sent to an entry under eight bytes are gone |
| `Ledger.TransferConserves` | actions/transfer.go:62-69 | a completed transfer keeps the sum of decoded balances |
| `Ledger.OverflowExactly` | storage/storage.go:202-215 | overflow happens exactly when the sender covers the value and the readable receiver would exceed 64 bits, after the debit |
| `Ledger.BoundedSupplyNeverOverflows` | storage/storage.go:207-210 | while the supply fits in 64 bits no credit overflows, so value is lost only to an unreadable receiver |
| `Ledger.BystandersKeepTheirState` | actions/transfer.go:41-46 | over any run a key outside all StateKeys keeps its value |
| `Ledger.TransferStaysInStateKeys` | actions/transfer.go:41-46 | completed or not, a transfer writes only its two balance keys |
| `Ledger.DebitEffect` | storage/storage.go:217-236 | a debit of a readable, covering balance lowers it by the amount and removes it at zero; any other fails; nothing else is touched |
| `Ledger.CreditEffect` | storage/storage.go:202-215 | a credit to a readable balance that stays within 64 bits raises it by the amount; any other fails without effect |
| `Ledger.BalanceKeyIsInjective` | storage/storage.go:150-156 | different addresses have different keys |
| `Ledger.GetBalance` | storage/storage.go:238-254 | absent is zero, under eight bytes is corrupt, otherwise the first eight bytes big-endian |
| `Ledger.SetBalance` | storage/storage.go:192-200 | what is set reads back |
| `Ledger.SubBalance` | storage/storage.go:217-236 | the state and result of a debit |
| `Ledger.AddBalance` | storage/storage.go:202-215 | the state and result of a credit, with the 64-bit wrap-around check |
| `Ledger.ExecuteTransfer` | actions/transfer.go:48-75 | the state and result of a transfer |
| `Bytes.PutUint64` | storage/storage.go:158-162 | eight bytes that read back as the number |
| `Bytes.StoredOrder` | storage/storage.go:158-162 | stored numbers are ordered as their bytes, so the most significant byte comes first |
| `Bytes.LessIsNumeric` | storage/storage.go:158-162 | on strings of one length the order of the bytes is the order of the decoded numbers |
| `BatchVerifier.AnalyzeExactly` | verifier/batch.go:103-166 | a list is accepted exactly when created object IDs are distinct, no two attestations of the list agree in both enclave and timestamp, and each region's actions read nothing, Create, Update, or Update then Create; the marks then describe the list |
| `BatchVerifier.RejectionNamesTheOffence` | verifier/batch.go:103-166 | the error says what is wrong with the first action that cannot be added: a second creation or update, an update after a creation, an attestation used before |
| `BatchVerifier.AppendAttestations` | verifier/batch.go:117-125 | one more action keeps attestations fresh exactly when it brings two new and different ones, or none |
| `BatchVerifier.OrderByTarget` | verifier/batch.go:129-136 | events are in order on the list, by target and time of the first attestation, exactly when every target's queue is |
| `BatchVerifier.Verifier.AnalyzeActions` | verifier/batch.go:103-166 | the pass over the maps, with its error |
| `BatchVerifier.Verifier.MarkAction` | verifier/batch.go:106-163 | the marks and error of one action |
| `BatchVerifier.Verifier.VerifyAction` | verifier/batch.go:170-199 | accepts a known, valid action that does not create an object already marked, and reports which of the two it is |
| `BatchVerifier.Verifier.VerifyActions` | verifier/batch.go:92-96 | with the analysis marks in place, accepts exactly lists of valid events and input settings |
| `BatchVerifier.Verifier.VerifyBatchConstraints` | verifier/batch.go:240-250 | accepts exactly when each target's events are in order of time, for every map order |
| `BatchVerifier.Verifier.VerifyBatch` | verifier/batch.go:76-99 | accepts exactly batches of at most 256 valid events and input settings in which no two attestations agree in enclave and timestamp and the events of each target come in order of their first attestations' times; size, analysis and order errors have their exact conditions |
| `BatchVerifier.InOrder` | verifier/batch.go:243-249 | the ordering loop accepts exactly non-decreasing times from the zero time on |
| `PairMetrics.StoredRates` | regions/types.go:103-116 | each stored rate is the share at the last outcome of its own kind |
| `PairMetrics.StoredRatesAreUpperBounds` | regions/types.go:103-116 | over any outcomes the stored rates are at least the true shares |
| `PairMetrics.StoredRatesCoverAll` | regions/types.go:103-116 | the stored rates sum to at least one |
| `PairMetrics.StoredRatesAreTrueExactly` | regions/types.go:103-116 | the error rate is true exactly after a failure or without any, the success rate exactly after a success |
| `PairMetrics.ActiveMeansFewFailures` | regions/types.go:163-172 | an active pair has failed at most a tenth of all tasks |
| `PairMetrics.FailedExactly` | regions/types.go:163-172 | failed exactly when the last three outcomes were failures |
| `PairMetrics.DegradedExactly` | regions/types.go:163-172 | degraded if and only if fewer than three consecutive errors and a stored error rate over a tenth, which is more than a tenth failed up to the last failure; the success rate never decides |
| `PairMetrics.SuccessesRecoverExactly` | regions/types.go:103-172 | after any number of successes the pair is active if and only if the stored error rate was at most a tenth before them, and degraded otherwise |
| `PairMetrics.SuccessesNeverRecover` | regions/types.go:103-172 | a degraded pair stays degraded through any number of successes |
| `PairMetrics.AverageIsBounded` | regions/types.go:118-123 | the average lies between the least and greatest duration seen |
| `PairMetrics.AverageIsWeighted` | regions/types.go:118-123 | since the last stored zero the average is within one of the durations' mean with weights 1, 1, 2, 4 and so on, and never above it without negative durations |
| `PairMetrics.PositiveAverage` | regions/types.go:118-123 | for durations of at least one it is that mean of all durations, rounded down |
| `PairMetrics.TEEPairMetrics.UpdateMetrics` | regions/types.go:103-127 | the new metrics after one outcome |
| `PairMetrics.TEEPairMetrics.UpdateStatus` | regions/types.go:163-172 | the status from errors and rates |
| `PairMetrics.TEEPairMetrics.ResetMetrics` | regions/types.go:175-184 | the metrics a run starts from |
| `RegionConfigs.RunExactly` | storage/region_store.go:48-131 | over any run the cached store answers like a plain map if and only if no read hits a configuration that is deleted, in the database, and followed by an update of another region |
| `RegionConfigs.ReadExactly` | storage/region_store.go:48-79 | the same for one read |
| `RegionConfigs.AnswerExactly` | storage/region_store.go:48-79 | every answer from the calls alone: the configuration last set; after a deletion nothing, until another region is updated; otherwise what the database holds, missing, undecodable or decoded |
| `RegionConfigs.ValidIdExactly` | storage/region_store.go:178-183 | valid IDs hold one to 64 bytes and none of the eight reserved characters |
| `RegionConfigs.KeepingStoredConfigsSuffices` | storage/region_store.go:110-131 | it holds whenever no configuration of the database is deleted |
| `RegionConfigs.DeletedConfigResurfaces` | storage/region_store.go:158-169 | a deleted stored configuration shows again after another region is set |
| `RegionConfigs.ConfigKeyIsInjective` | storage/region_store.go:171-176 | different regions have different configuration keys |
| `RegionConfigs.RegionStore.constructor` | storage/region_store.go:34-46 | a new store sees the database and an empty cache |
| `RegionConfigs.RegionStore.GetRegionConfig` | storage/region_store.go:48-79 | answers from the cache, else from the view, and caches what it decoded |
| `RegionConfigs.RegionStore.SetRegionConfig` | storage/region_store.go:81-108 | writes through to a view rebuilt from the database, for valid IDs only |
| `RegionConfigs.RegionStore.DeleteRegionConfig` | storage/region_store.go:110-131 | removes from cache and from a view rebuilt from the database |
| `RegionalObjects.ObjectsReadBack` | storage/state_manager.go:278-345 | over any writes to regions kept apart an object reads back as last set, whatever other objects, regions and events are written |
| `RegionalObjects.SlashFreeObjectsReadBack` | storage/state_manager.go:278-397 | the same for all slash-free region IDs |
| `RegionalObjects.EventsAreKept` | storage/state_manager.go:374-397 | over any writes to regions kept apart the event last set stands under its flat key |
| `RegionalObjects.IsolatedExactly` | storage/region_store.go:319-321 | two regions share no key if and only if no key stem of one begins a stem of the other |
| `RegionalObjects.SlashFreeRegionsAreIsolated` | storage/region_store.go:319-321 | different slash-free regions share no key |
| `RegionalObjects.SlashedRegionsCollide` | storage/state_manager.go:118-120 | a region ID that continues another's stem shares keys with it |
| `RegionalObjects.KeysOfOneRegion` | storage/state_manager.go:118-120 | within a region the key determines kind and ID |
| `RegionalObjects.RegionRecoveredExactly` | storage/state_manager.go:765-773 | IsRegionalKey recovers the region of a regional key if and only if it holds no slash |
| `RegionalObjects.RegionalKeyExactly` | storage/state_manager.go:765-773 | exactly the keys that begin with r/ are regional, and the region is what follows up to the next slash or the end |
| `RegionalObjects.StateManager.OpenStore` | storage/state_manager.go:608-685 | a store exists or is created exactly for cached regions and regions with a TEE pair |
| `RegionalObjects.StateManager.Insert` | storage/region_store.go:208-245 | writes exactly when channel and database work, and can fail after the write only on the Merkle root |
| `RegionalObjects.StateManager.SetObject` | storage/state_manager.go:316-345 | writes one flat key or nothing, with the exact failure condition; only a Merkle root that cannot be read fails after the write |
| `RegionalObjects.StateManager.SetEvent` | storage/state_manager.go:374-397 | the same for an event, which may also fail to marshal |
| `RegionalObjects.StateManager.GetObject` | storage/state_manager.go:278-314 | reads the flat key, telling missing, undecodable, unreadable and unopened cases apart |

## Left out

- gRPC, HTTP, JSON-RPC, command line, faucet, wallet and generated code: input and output without a property of their own.
- Marshal and Unmarshal of actions: they rest on the packer of a foreign library.
- Worker registration, secure channels and worker messages: the pair table and the fate of a running task are inputs here.
- Health monitoring of workers and the coordinator's `cleanup()`: nothing starts them.
- Registration of pairs while a selection is outstanding: the load theorems fix the pair table.
- Pointers shared with callers (cached proofs and configurations, `TaskInfo`): values are modelled, so later mutation through such a pointer is not.
- `Deduct` in `storage/state_manager.go`: it removes a zero balance under another key than the one balances live under.
- `VerifiedTimestamp.RegionID` and the proofs list: the first is filled with a server ID, the second copies the responses.
- Saturation of `time.Sub` at about 292 years and 64-bit overflow of durations and task counts: times and counts are unbounded here.
- Errors returned by the state while changes are being applied: `Insert` and `Remove` always succeed here.
- `trackAccess`, `AddStateChange`, `AddDependency`, `ObjectExists`, `IsHealthy`, a nil intent or task: single-branch facts.
- The semaphore of `ProcessRegions`: confirmation is a gate that a cancelled context closes when there is a region to confirm.
- The global coordinator: `GetCoordinator` builds its store over a nil database, on which `Execute` cannot succeed; a coordinator over a working database is assumed here.
- Acceptance of the transfer check under some order: only acceptance under a given order and under every order is characterised.
- CheckRanges: slicing a short key is taken to panic, which Go does unless the slice has spare capacity.
