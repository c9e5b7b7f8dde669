# Fabric-Shortcut-Proxy: models and proofs

This project models the compare-and-swap protocols of the enterprise control plane (leader lease, Agent
registry, global catalog, task placement and dispatch) and the denser algorithms of the C++ agent (S3 listing,
Delta log, decimal bounds, calendar arithmetic, request canonicalisation, shard assignment, split planning,
byte cache, streaming hash, byte ranges), and proves what they promise.

How the code is turned into Dafny:

- Code that updates objects or loops over buffers is a class or a method with invariants, proved equal to a
  specification function or against an outright property. Code that only computes is a function, with lemmas.
- A protocol over a shared record is a state machine whose steps are the reads, the compare-and-swaps and the
  local updates of any number of actors. A run is any sequence of steps, so it covers every interleaving. One
  attempt of the lease class, and one operation of the catalog class, is proved to be a read step and a swap step
  with whatever others write in between.
- Strings are byte sequences with the order of `std::string`, or Dafny strings where only equality matters. Integers
  are unbounded; widths are written out where they matter (64-bit parsing, key ranges, the bit count of the
  hash). Truncating division is written out. Weights and scores are reals.
- Exceptions and error returns are `Option` or `Result` values. Clocks, the network, database rows, matching of
  table patterns, tie-break hashes and outcomes decided elsewhere are parameters.

Where a promise does not hold for every input, the model keeps the code as it is, shows an input, and proves the
condition under which it holds, as an equivalence wherever one exists:

- Following continuation tokens loses keys exactly when a plain key under the prefix ends with the delimiter and
  starts another key (`Listing.PagingCompleteIffNoShadow`; `Listing.ShadowingIndex` is such an index).
- The leadership loop re-acquires an expired lease under a new fence without attaching the registry again
  (enterprise/control/manager_app.py:360-412), and its stale fleet can then overwrite acknowledged commands
  (`RegistryRuns.StaleFleetLosesCommand`). A detached registry persists nothing and still acknowledges
  (enterprise/control/registry.py:223-225), so a command that reaches it after stepping down is lost
  (`RegistrySafety.DetachedCommandIsLost`). In any run, from the first durable fleet on, every acknowledged command is
  accounted for throughout exactly when each committed write found the fleet of its writer current and no detached
  registry acknowledged or handed out a command (`RegistrySafety.CommandsSurviveIff`). A Manager that checks that it is
  attached and writes only in the term of its last attach meets both (`RegistrySafety.DisciplineIsEnough`).
- `encode_decimal` is documented as minimal (agent-cpp/tier1/iceberg_stats.hpp:62). It is, except for the values
  -2^(8k-1), which take one byte more (`DecimalBounds.ShortestUnlessBoundary`).
- A Delta commit adds and removes each path once exactly when no new path repeats in the version and no dropped path
  repeats in the one before (`DeltaLog.CommitIsCleanIff`). Distinct object keys collide exactly as
  `DeltaLog.PathsCollideIff` says, and then a path is added twice (`DeltaLog.CollidingKeysAreAddedTwice`).
- A kept path is not added again, so the log keeps its old entry if the file changed (`DeltaLog.ResizedFileIsStale`).
  Replay gives the full entries of every version exactly when each version lists a path with one entry, and a path of
  the version before with the entry it has there (`DeltaLog.EntriesExactIff`).
- The scheduler counts a claim for a pool only if its holder is registered when it looks: at the start of the pass for
  the claims held, after delivery for those it issues. Either gap lets a pool exceed its limit
  (`PassLimits.UnregisteredHolderEscapesCap`, `PassLimits.AgentGoneEscapesCap`). Every pass keeps the limit over all
  holders exactly when all of them are registered as it begins and the pool's Agents stay until their claims are
  counted, or the pool is full already (`PassLimits.PassesKeepPoolLimitIff`; the converse is for a pool with a dataset
  whose own limits leave room for one claim more than the pool's).
- Whether a pool's store belongs to the tenant of the task is checked only where a policy names the store it
  requires. Every claim of every pass is stored in its own tenant exactly when each pool that may take a dataset
  without such a policy writes to a store of its tenant (`StoreTenants.StoreTenantIff`;
  `StoreTenants.StoreTenantUnchecked` is a configuration and a pass where it is not).
- A suffix range of an empty object is answered as partial content from 0 to -1 (`Ranges.EmptyObject`); for any other
  object the answer is the interval asked for (`Ranges.ResolvesToAsked`).

## Model

| member | source | states |
|---|---|---|
| `Listing.HandleList` | agent-cpp/agent.cpp:790-852 | for every valid index and token, the page is the first `maxKeys` of the ascending listing of the keys beyond the token, truncated exactly when it is full and keys under the prefix follow its last entry, which then is the next token |
| `Listing.FirstPosition` | agent-cpp/agent.cpp:797-816 | the two binary searches place the iterator after the token: past the whole group of a delimited token, past the key otherwise |
| `Listing.StartMeans` | agent-cpp/agent.cpp:797-816 | a request starts at the first key not below the prefix and beyond the token: above it, and not under it if it ends with the delimiter |
| `Listing.ScanPage` | agent-cpp/agent.cpp:818-839 | the loop with the emitted-prefix set fills exactly the page, and stops exactly where, the recursive scan does |
| `Listing.ContinuationTokenValid` | agent-cpp/agent.cpp:751-769 | accepts exactly the keys under the prefix and the delimited prefixes of keys |
| `Listing.RequestAnswers` | agent-cpp/agent.cpp:790-852 | what one request answers is that page, for every token and page size, also with shadowing keys |
| `Listing.IssuedTokenResumes` | agent-cpp/agent.cpp:797-816 | without a shadowing key, the listing beyond an issued token is the rest of the listing after it |
| `Listing.FindIsFirst` | agent-cpp/agent.cpp:827-829 | the delimiter search finds the first occurrence and misses none |
| `Listing.ItemShape` | agent-cpp/agent.cpp:824-836 | a key is rolled up exactly when a delimiter follows the prefix, into the part of the key up to the end of the first one; otherwise it shows as itself with its size |
| `ListingRows.ScanCovers` | agent-cpp/agent.cpp:818-852 | a page is the next stretch of items, its last item comes from the last entry scanned, and the rest is left untouched |
| `Listing.IssuedTokensAreValid` | agent-cpp/agent.cpp:751-769 | every token handed out passes the token check, for every index, prefix, delimiter and page size |
| `Listing.FollowListsItems` | agent-cpp/agent.cpp:790-852 | without a shadowing key, the concatenated answers to the requests are the items from the start on, for every page size |
| `Listing.ItemsAreTheListing` | agent-cpp/agent.cpp:818-839 | the items are each plain key and each distinct common prefix exactly once, ascending |
| `Listing.ListingUnique` | agent-cpp/agent.cpp:818-839 | there is only one such listing |
| `Listing.ShadowBreaksPaging` | agent-cpp/agent.cpp:800-816 | a shadowing key makes paging with one key per page lose an item |
| `Listing.PagingCompleteIffNoShadow` | agent-cpp/agent.cpp:751-852 | paging yields the complete listing for every page size if and only if no plain key under the prefix that ends with the delimiter starts another key |
| `Listing.ShadowingIndex` | agent-cpp/agent.cpp:800-816 | a valid index of two keys whose second key is lost when paging by one |
| `Lease.RunKeepsInv` | enterprise/control/lease.py:90-160 | in every interleaving, records, operations in flight and local beliefs agree with the records the store has held, and each proposal is exactly the acquisition, renewal, mutation or release of the record it read |
| `Lease.FenceNeverDecreases` | enterprise/control/lease.py:110-160 | the durable fence never decreases along any run |
| `Lease.OneOwnerPerFence` | enterprise/control/lease.py:110-160 | two records ever held with the same fence and a non-empty owner have the same owner |
| `Lease.TermsChangeHands` | enterprise/control/lease.py:107-160 | between consecutive durable records of any run the fence rises, by one, exactly when a released or expired lease is acquired; otherwise the owner gives the lease up, renews it in time or keeps its times |
| `Lease.RenewalProtects` | enterprise/control/lease.py:100-160 | in every run, a lease acquired or renewed at t for ttl is next acquired by another Manager only after t + ttl, under the next fence, and by its owner under the same fence until then |
| `Lease.OneLeaderPerTerm` | enterprise/control/lease.py:110-171 | two Managers that believe to lead the same term are the same Manager |
| `Lease.CommitHoldsNewestTerm` | enterprise/control/lease.py:202-228 | a mutation or release that commits carries the highest fence the store has ever held, so a superseded Manager never commits |
| `Lease.ReadsCheckOwnTerm` | enterprise/control/lease.py:291-319 | an operation is only put in flight in the term its Manager believes to hold |
| `Lease.CommitsInOwnNewestTerm` | enterprise/control/lease.py:202-319 | in every run, a mutation or release that commits carries the term its Manager held when it read, the record is still the one read then, and no newer term was ever written |
| `Lease.NoUpdateIsLost` | enterprise/control/lease.py:291-319 | each entry of the durable state is the value of the last successful mutation of that name, across takeovers, renewals and releases |
| `Lease.AttemptIsReadThenSwap` | enterprise/control/lease.py:110-160 | one attempt of the retry loop, with what others write in between, is a read step and a swap step of the state machine |
| `Lease.AcquireRunExtendsLatest` | enterprise/control/lease.py:110-160 | a won lease has the own name, the time and the ttl given, keeps the state of the last record written before its swap and raises its fence unless it was its own live lease; a lost one leaves that record alone, because another Manager holds it or every attempt was disturbed |
| `Lease.MutateRunExtendsLatest` | enterprise/control/lease.py:291-319 | a successful mutation adds its entry to the last record written before its swap, of its own live term; a failed one writes nothing, because that term is gone or every attempt was disturbed |
| `Lease.Store.CompareAndSwap` | enterprise/control/lease.py:110-160 | the store writes only over the record expected |
| `Lease.LeaderLease.AcquireOrRenew` | enterprise/control/lease.py:110-160 | four attempts against interference end in the record, result and local term of the attempt function; a won lease runs from now for the ttl |
| `Lease.LeaderLease.Validate` | enterprise/control/lease.py:173-200 | succeeds exactly with the live record of the owner and fence asked for, by default the own term; otherwise drops the local term |
| `Lease.LeaderLease.MutateState` | enterprise/control/lease.py:291-319 | eight attempts against interference end in the record and result of the attempt function |
| `Lease.LeaderLease.Release` | enterprise/control/lease.py:202-228 | clears the owner and time of the own term, keeps fence and state, and drops the local term in any case; any other record is left alone |
| `Fleet.AgeRounding` | enterprise/control/registry.py:125-157 | saving a time as milliseconds of age and loading it moves it forward by less than a millisecond |
| `Fleet.RollbackRestoresFleet` | enterprise/control/registry.py:223-233 | a failed persist puts back the same Agents, records and queues; their times move forward by the duration of the attempt, so ages stand still, plus less than a millisecond of rounding |
| `Fleet.RestoredIsDescribed` | enterprise/control/registry.py:158-221 | restoring a snapshot of supported Agents gives a fleet that it describes |
| `Fleet.SnapshotCaptures` | enterprise/control/registry.py:125-157 | a snapshot holds every field of every Agent, and its two times as whole milliseconds of age |
| `Fleet.RestoreRecreates` | enterprise/control/registry.py:158-221 | restoring gives exactly the supported Agents, field by field, with the pool of their identity and times of the saved age |
| `Fleet.ChangedMakes` | enterprise/control/registry.py:271-405 | which registrations, heartbeats and commands are taken, and what each makes of the fleet: times, report, queue and draining of its Agent, nothing else |
| `Registry.Registry.Persist` | enterprise/control/registry.py:223-233 | the snapshot becomes durable, or the fleet of before is put back; a detached registry writes nothing and succeeds |
| `Registry.PersistedIsDurable` | enterprise/control/registry.py:223-233 | after a successful persist the durable record holds the fleet, with its ages at that moment |
| `Registry.Registry.AttachDurableState` | enterprise/control/registry.py:235-248 | with restore, the durable fleet is loaded; in either form the fleet is written in the active term, whose fence is returned, and the registry is attached even if that write fails |
| `Registry.Registry.RegisterAgent` | enterprise/control/registry.py:271-325 | makes a fresh record with both times now and an empty queue, durable or rolled back, or in memory alone while detached; refused exactly for a bad port or shard, a refused host or an unsupported version |
| `Registry.Registry.ReportHeartbeat` | enterprise/control/registry.py:327-347 | sets the time and report of the Agent, hands out its queue in order and empties it, durably with age 0 or rolled back, in memory alone while detached; refused exactly for unknown Agents and other leases |
| `Registry.Registry.QueueCommand` | enterprise/control/registry.py:349-360 | appends the command durably or rolls back; while detached it answers true and appends in memory alone |
| `Registry.Registry.BroadcastCommand` | enterprise/control/registry.py:362-373 | appends the command to every queue durably or rolls back; while detached in memory alone |
| `Registry.Registry.RemoveAgent` | enterprise/control/registry.py:399-405 | removes the Agent durably or rolls back; while detached in memory alone |
| `RegistryRuns.LeasePartIsARun` | enterprise/control/lease.py:291-319 | the lease part of any run of registries and lease is a run of the lease alone |
| `RegistryRuns.RunKeepsInv` | enterprise/control/registry.py:223-248 | in every disciplined run a registry synced in the durable term holds the durable fleet, and the ledger accounts for it |
| `RegistryRuns.AcknowledgedCommandsSurvive` | enterprise/control/registry.py:327-373 | in disciplined runs, which write in the term of the last attach and promise nothing while detached, the commands acknowledged for an Agent are those handed out, in order, followed by its durable queue, across failed persists and failovers |
| `RegistrySafety.NextPrimaryRestoresQueues` | enterprise/control/registry.py:235-248 | in every run a primary that attaches restores exactly the durable queues, so it has every acknowledged and undelivered command if and only if the durable fleet accounts for them |
| `RegistrySafety.LedgerOnlyGrows` | enterprise/control/registry.py:296-371 | in every run, what was acknowledged or handed out, by an attached or a detached registry, stays so until the Agent registers again or is removed durably |
| `RegistrySafety.WriteIsSafeIff` | enterprise/control/registry.py:223-233 | a committed change keeps the account of acknowledged commands if and only if the writer's fleet has the Agents and queues of the durable one |
| `RegistrySafety.AttachIsSafeIff` | enterprise/control/registry.py:235-248 | an attach over a durable fleet keeps that account if and only if the fleet it writes has the same Agents and queues |
| `RegistrySafety.InMemoryIsSafeIff` | enterprise/control/registry.py:223-225 | what a detached registry accepts keeps the account if and only if it acknowledges and hands out no command |
| `RegistrySafety.RunKeepsBase` | enterprise/control/registry.py:223-248 | in every run only an attached registry has a change pending, each write in flight is that of the change holding the lock, and the durable fleet is supported |
| `RegistrySafety.StepAccountsIff` | enterprise/control/registry.py:223-248 | from an accounted state a step leads to an accounted one if and only if the writer it commits for, if any, was current and it is no promise of a detached registry |
| `RegistrySafety.CommandsSurviveIff` | enterprise/control/registry.py:223-373 | in every run, from the first durable fleet on, acknowledged commands are those handed out followed by the durable queues at all times, if and only if every committed write found its writer's fleet current and no detached registry acknowledged or handed out a command |
| `RegistrySafety.DisciplineIsEnough` | enterprise/control/registry.py:223-248 | writing only in the term of the last attach, and promising nothing while detached, meets that condition |
| `RegistryRuns.StaleFleetLosesCommand` | enterprise/control/manager_app.py:360-412 | a run without re-attachment acknowledges two commands and keeps only one |
| `RegistrySafety.DetachedCommandIsLost` | enterprise/control/registry.py:349-360 | a run in which a detached registry acknowledges a command that is not durable and is gone when it attaches again |
| `Catalog.ProposalIsConsistent` | enterprise/control/federation.py:305-422 | every accepted operation leaves each replica pointer genuine, in its own store, and equal to the write-once generation of its sequence |
| `Catalog.ProposalAdvances` | enterprise/control/federation.py:331-422 | no operation rewrites a generation or moves a replica back; the fence rises, by one, exactly at a handover or takeover, also when the same owner takes over again, and those keep both tables; at the same fence owner and location stay |
| `Catalog.ProposeMeans` | enterprise/control/federation.py:305-422 | an operation succeeds exactly when its arguments make sense, it stays inside the dataset, its descriptor is verified and the record allows it; what it then writes, field by field; and which error it reports otherwise |
| `Catalog.IdentityMeans` | enterprise/control/federation.py:195-227 | two generations have the same identity exactly when id, time and every object agree, wherever they lie |
| `Catalog.SameSequenceSameGeneration` | enterprise/control/federation.py:382-422 | two replicas with the same sequence hold the same generation, timestamp and objects |
| `Catalog.RetargetKeepsIdentity` | enterprise/control/federation.py:195-227 | a regional copy keeps the identity, stays genuine and lies in its own store |
| `CatalogRuns.RunKeepsInv` | enterprise/control/federation.py:295-422 | every durable record of every interleaving is consistent and ordered after the earlier ones |
| `CatalogRuns.ReplicasAgree` | enterprise/control/federation.py:382-422 | in every record ever durable, replicas at the same sequence hold the same generation |
| `CatalogRuns.NothingGoesBackwards` | enterprise/control/federation.py:331-422 | between any two durable records, generations stay and replica sequences do not fall |
| `CatalogRuns.FenceNamesOwner` | enterprise/control/federation.py:331-368 | two durable records with the same fence have the same owner and location |
| `CatalogRuns.CommitsAreEntitled` | enterprise/control/federation.py:305-422 | what commits was permitted against the very record it replaces, also a creation over nothing, and writes exactly what such an operation writes: owner, fence and expiry, or one replica pointer and one generation |
| `CatalogRuns.PermittedCommits` | enterprise/control/federation.py:295-422 | a permitted operation is put in flight, and commits what it writes if the record stays as it is |
| `CatalogRuns.OlderFenceNeverCommits` | enterprise/control/federation.py:295-380 | an operation checked against a fence that is no longer the newest never commits |
| `Replication.GlobalCatalog.Execute` | enterprise/control/federation.py:295-422 | one operation succeeds exactly when it is permitted and nobody else wrote between its read and its swap, and then commits what it writes; otherwise it reports its error or a conflict; no other dataset changes |
| `Replication.ExecuteIsReadThenSwap` | enterprise/control/federation.py:295-422 | that outcome is the one of a read step and a swap step of the catalog runs, commit for commit |
| `Replication.AdvertisedCopy` | enterprise/control/federation.py:681-727 | advertising a copy of the primary moves that replica up to it and changes nothing else |
| `Replication.CopyIsAccepted` | enterprise/control/federation.py:681-727 | with a live lease and no interference such an advertisement is never refused |
| `Replication.ReplicateDataset` | enterprise/control/federation.py:693-726 | the pass over one dataset catches its replicas up and counts the copies, or changes nothing if they already are; a refused copy is never advertised |
| `Replication.ReplicateOwned` | enterprise/control/federation.py:681-727 | a pass that completes leaves every replica of the owned datasets at or above its primary and all other records alone, and returns how many were behind; a pass that finds none behind does no work; with live leases and working copies it completes |
| `Placement.ValidateResidency` | enterprise/control/placement.py:674-712 | the check that collects stores as it goes accepts exactly the policies whose pools, endpoints and stores all lie within the residency |
| `Placement.ResidencyMeans` | enterprise/control/placement.py:674-712 | a policy is valid exactly when it narrows its connection and every pool, endpoint and store that data reaches is there and in its locations, or it has no locations and names nothing of the federated chain |
| `Placement.TenantMeans` | enterprise/control/placement.py:624-672 | with tenants declared, exactly when the policy and every store, pool and endpoint it names belong to the tenant of its connection |
| `Placement.DispatchMeans` | enterprise/control/placement.py:737-752 | and for dispatch, exactly when staging, publishing and every pool use the one active store |
| `Placement.PolicyForMeans` | enterprise/control/placement.py:591-606 | the policy in force is the override of the table, with the source limit of its connection unless it has one, or the policy of the connection, or the default |
| `Placement.PrefersRequired` | enterprise/control/task_scheduler.py:213-218 | the required pool comes before the fallbacks, in their order |
| `Placement.FromDict` | enterprise/control/placement.py:248-492 | a definition is loaded exactly when every pool, store, endpoint, policy, override, tenant and residency check passes |
| `Placement.DefinitionMeans` | enterprise/control/placement.py:248-470 | which names, pools, stores and endpoints a definition may have |
| `Placement.WellDefinedMeans` | enterprise/control/placement.py:921-983 | which pools, tenants and limits a policy may name |
| `Placement.CheckPools` | enterprise/control/placement.py:274-338 | the loop over pools accepts exactly the definitions whose pools have identities of their own, positive limits and declared tenants |
| `Placement.BuildConnections` | enterprise/control/placement.py:340-355 | the connection policies are those of the definition, or loading fails |
| `Placement.BuildTables` | enterprise/control/placement.py:357-398 | the table policies are the merged overrides, or loading fails |
| `Placement.OverrideInherits` | enterprise/control/placement.py:357-398 | under a connection with locations an override takes every field it does not set from its connection, elsewhere its tenant and the defaults |
| `Placement.OverrideRefusedIff` | enterprise/control/placement.py:368-398 | an override is refused exactly if it changes the tenant of its connection, or leaves or drops its locations |
| `Placement.ConnectionsArePlain` | enterprise/control/placement.py:340-355 | a connection has the fields set for it and the defaults |
| `Placement.OverrideStaysWithin` | enterprise/control/placement.py:368-398 | a loaded override has the tenant of its connection and a non-empty part of its residency |
| `Placement.SourceLimitIsIrrelevant` | enterprise/control/placement.py:591-606 | inheriting the source limit does not change whether a policy may be dispatched |
| `Placement.DispatchFailsOnlyForUnknown` | enterprise/control/placement.py:714-752 | after loading and binding, the dispatch check fails exactly for datasets that no policy covers while tenants are declared |
| `Placement.DispatchStaysInside` | enterprise/control/placement.py:737-752 | a valid dispatch under a connection with residency R names only pools in R that write to the active store, itself in R |
| `Placement.DispatchSharesTenant` | enterprise/control/placement.py:608-672 | task, policy and pool share one tenant, and the store too if the policy requires it by name |
| `Placement.PoolsMatchWhenBound` | enterprise/control/placement.py:478-492 | loading and binding establish that pools only reach connections of their tenant |
| `Placement.ForeignStore` | enterprise/control/placement.py:641-652 | a definition that loads and binds although a pool that may take its dataset unpinned writes to the store of another tenant |
| `Scheduler.EligibleAgents` | enterprise/control/task_scheduler.py:61-101 | the loop collects exactly the available Agents with their scores |
| `Scheduler.CountClaims` | enterprise/control/task_scheduler.py:296-322 | the four counters are those of the claims held |
| `Scheduler.DispatchOnce` | enterprise/control/task_scheduler.py:381-591 | the loop issues exactly the claims of the pass function, in order, with the registry read anew for every task, again before the claim and again after its delivery |
| `Scheduler.BestIsLeast` | enterprise/control/task_scheduler.py:527-533 | no eligible Agent has a lower score, or the same score and a lower tie-break, than the one chosen |
| `Scheduler.FirstTargetMeans` | enterprise/control/task_scheduler.py:213-218 | the Agents left are exactly those that fit in the first target pool that has one |
| `Scheduler.EligibleIffAdmissible` | enterprise/control/task_scheduler.py:122-220 | the Agents that the checks leave are exactly those alive, with room, of the right generation, shard, tenant and version, whose pool fits and has room |
| `Scheduler.AssignedIsChosen` | enterprise/control/task_scheduler.py:381-560 | a task goes to the admissible Agent with the least load for its capacity, ties by tie-break; to nobody only if it is fenced, none is admissible, or the one chosen is gone or not accepted |
| `Scheduler.CountersCount` | enterprise/control/task_scheduler.py:297-322 | each counter is the number of claims with that Agent, source, scope or pool |
| `Scheduler.EveryClaimIsJustified` | enterprise/control/task_scheduler.py:381-591 | in any pass every claim issued goes to the least loaded admissible Agent, still registered, and leaves the Agent, source, dataset and pool counts within the limits in force for its task |
| `Scheduler.EveryTaskIsServed` | enterprise/control/task_scheduler.py:381-591 | in any pass every task gets such a claim, or is left for one of those reasons |
| `Scheduler.ScopeMeans` | enterprise/control/task_scheduler.py:111-120 | tables with an override count by themselves, all others of a connection together |
| `PassLimits.PassKeepsCaps` | enterprise/control/task_scheduler.py:381-591 | pool, dataset and source counts that start within the limits common to all tasks stay within them |
| `PassLimits.PassKeepsAgentCap` | enterprise/control/task_scheduler.py:122-145 | an Agent within the largest limit the pass reads for it stays within it |
| `Scheduler.ClaimsStayInside` | enterprise/control/task_scheduler.py:395-591 | in any pass, a task under a connection with residency R goes to an Agent whose pool lies in R and writes to the active store, itself in R, through overrides and fallbacks |
| `Scheduler.AssignmentSharesTenant` | enterprise/control/task_scheduler.py:146-171 | with tenants declared, task, policy, Agent and pool share one tenant, and the required store too |
| `Scheduler.ClaimsShareTenant` | enterprise/control/task_scheduler.py:381-591 | with tenants declared, in any pass the holder of every claim issued, its pool, the policy and the required store belong to the tenant of the claim |
| `PassLimits.PoolCountIsExactIff` | enterprise/control/task_scheduler.py:318-322 | the pool count a pass starts from is the number of claims held by the pool's identities if and only if all holders are registered, and otherwise too low |
| `PassLimits.PassMissesTheGone` | enterprise/control/task_scheduler.py:381-591 | a pass misses exactly the claims of Agents gone by the time they are counted, on top of those missed at its start |
| `PassLimits.PassKeepsPoolLimit` | enterprise/control/task_scheduler.py:318-591 | if all holders are registered at the start and the Agents of the pool stay until their claims are counted, it does not end a pass with more claims held by its identities than its limit |
| `PassLimits.FullPoolGetsNothing` | enterprise/control/task_scheduler.py:122-220 | a pool whose counter is at its limit gets no claim in any pass |
| `PassLimits.NoneMissedIsEnough` | enterprise/control/task_scheduler.py:318-591 | that condition is enough for every pool, whatever the limits of its datasets |
| `PassLimits.PassesKeepPoolLimitIff` | enterprise/control/task_scheduler.py:318-591 | for a pool with a dataset that has room for one claim more than the pool, every pass keeps that limit if and only if all holders are registered at the start and the identities of the pool stay until counted, or it is full |
| `PassLimits.UnregisteredHolderEscapesCap` | enterprise/control/task_scheduler.py:318-322 | a pool limited to one claim ends a pass with two, one of them held by an Agent that is no longer registered |
| `PassLimits.AgentGoneEscapesCap` | enterprise/control/task_scheduler.py:586-591 | a pool limited to one claim gets two in one pass, since its Agent unregisters before each is counted |
| `StoreTenants.PassIsStored` | enterprise/control/placement.py:608-672 | under that condition on the configuration, every claim of a pass writes to a declared store of the tenant of its task |
| `StoreTenants.UnpinnedIsClaimed` | enterprise/control/task_scheduler.py:122-220 | a pool that may take a dataset unpinned is given a task of it by some pass |
| `StoreTenants.StoreTenantIff` | enterprise/control/placement.py:608-672 | every claim of every pass writes to a store of the tenant of its task if and only if each pool that may take a dataset unpinned writes to a declared store of its own tenant |
| `StoreTenants.StoreTenantUnchecked` | enterprise/control/placement.py:641-652 | a definition that loads and binds, and a pass whose claim writes to the store of another tenant |
| `Civil.CountsDays` | agent-cpp/tier1/split_planner.hpp:67-74 | the day number is 0 on 1970-01-01 and grows by one from each Gregorian date to the next |
| `Civil.PreservesOrder` | agent-cpp/tier1/split_planner.hpp:67-74 | an earlier date has a smaller number, and conversely |
| `Civil.DaysRoundTrip` | agent-cpp/tier1/split_planner.hpp:76-87 | every day number gives a valid date with that number |
| `Civil.DateRoundTrip` | agent-cpp/tier1/split_planner.hpp:67-87 | every valid date is computed back from its number |
| `Civil.YearOfEra` | agent-cpp/tier1/split_planner.hpp:79-82 | the year formula finds the year whose days include the given day of the era |
| `AmzDate.ParseDate` | agent-cpp/sigv4.hpp:255-279 | accepts exactly the valid UTC times of years 1 to 9999 and returns their seconds on the day count of `days_from_civil` |
| `AmzDate.PrintedIsAccepted` | agent-cpp/sigv4.hpp:255-279 | every second of years 1 to 9999 is accepted as printed, and read back |
| `AmzDate.AcceptedIsPrinted` | agent-cpp/sigv4.hpp:255-279 | nothing else is accepted |
| `AmzDate.SecondsCount` | agent-cpp/sigv4.hpp:271-279 | the result grows by one from each second to the next, from 0 at the start of 1970 |
| `AmzDate.CountDays` | agent-cpp/sigv4.hpp:271-277 | the independent day count with its month loop equals `days_from_civil` on every date accepted |
| `AmzDate.DatesSortAsTimes` | agent-cpp/sigv4.hpp:255-279 | accepted strings sort as the times they denote |
| `DecimalBounds.DivideBy256` | agent-cpp/tier1/iceberg_stats.hpp:46-53 | one long division yields a digit string of the same length and a remainder byte with the right value |
| `DecimalBounds.MagnitudeBytes` | agent-cpp/tier1/iceberg_stats.hpp:40-59 | repeated division ends in the big-endian magnitude without leading zero byte |
| `DecimalBounds.BitLength` | agent-cpp/tier1/iceberg_stats.hpp:73-79 | the bit length brackets the value between powers of two |
| `DecimalBounds.Pad` | agent-cpp/tier1/iceberg_stats.hpp:83-84 | copying to the end of the zeroed buffer keeps the value |
| `DecimalBounds.Negate` | agent-cpp/tier1/iceberg_stats.hpp:86-93 | the in-place loop leaves the two's complement of a positive value |
| `DecimalBounds.EncodeDecimal` | agent-cpp/tier1/iceberg_stats.hpp:63-95 | the bytes decode to the unscaled value of any signed decimal string, in the least length that holds the value and its negation |
| `DecimalBounds.UnscaledReads` | agent-cpp/tier1/iceberg_stats.hpp:63-72 | the value encoded reads the digits from left to right and ignores points |
| `DecimalBounds.UnscaledNegates` | agent-cpp/tier1/iceberg_stats.hpp:63-72 | a minus sign in front negates it |
| `DecimalBounds.NothingShorterDecodes` | agent-cpp/tier1/iceberg_stats.hpp:62-95 | the shortest length is a lower bound for every byte string that decodes to the value |
| `DecimalBounds.ShortestUnlessBoundary` | agent-cpp/tier1/iceberg_stats.hpp:80-81 | the length is the shortest possible if and only if the value is not -2^(8k-1) |
| `DecimalBounds.BoundaryTakesOneMore` | agent-cpp/tier1/iceberg_stats.hpp:80-81 | at -2^(8k-1) the length is k+1 where k bytes would do |
| `Utf8.ReplaceInvalid` | agent-cpp/sigv4.hpp:128-162 | the loop computes the repair function |
| `Utf8.TakenIsCharacter` | agent-cpp/sigv4.hpp:136-158 | a step copies a character exactly when the input starts with one by section 4 of RFC 3629, and otherwise emits U+FFFD |
| `Utf8.RepairIsWellFormed` | agent-cpp/sigv4.hpp:128-162 | the output is always well-formed UTF-8 |
| `Utf8.RepairKeepsWellFormed` | agent-cpp/sigv4.hpp:128-162 | well-formed UTF-8 is left alone |
| `Utf8.ReplacesMaximalSubpart` | agent-cpp/sigv4.hpp:140-158 | one replacement stands for the longest run of bytes that begins some character, or for one byte that begins none |
| `UriCoding.UriEncode` | agent-cpp/sigv4.hpp:85-100 | the loop computes the encoding that keeps the unreserved characters of section 2.3 of RFC 3986 |
| `UriCoding.EncodesByte` | agent-cpp/sigv4.hpp:85-100 | a byte is kept if it is unreserved, or a slash to be kept, and otherwise escaped in upper-case hexadecimal |
| `UriCoding.EncodesEachByte` | agent-cpp/sigv4.hpp:85-100 | strings are encoded byte by byte |
| `UriCoding.UriDecode` | agent-cpp/sigv4.hpp:164-180 | the loop computes the decoding, followed by the repair |
| `UriCoding.DecodesEscape` | agent-cpp/sigv4.hpp:164-180 | an escape in either case is decoded to its byte |
| `UriCoding.DecodesOther` | agent-cpp/sigv4.hpp:164-180 | every other byte is kept, also a stray percent sign and a plus |
| `UriCoding.DecodeInvertsEncode` | agent-cpp/sigv4.hpp:85-180 | decoding an encoded string is its UTF-8 repair, so the identity on well-formed text |
| `UriCoding.RecodingIsIdempotent` | agent-cpp/sigv4.hpp:182-189 | decoding and encoding again reaches a fixed point |
| `UriCoding.CanonicalUri` | agent-cpp/sigv4.hpp:106-125 | the loop computes the canonical path |
| `UriCoding.CanonicalPathIsIdempotent` | agent-cpp/sigv4.hpp:102-125 | the canonical path has only valid escapes, decodes to the same bytes, is its own canonical path, and equals the path exactly when that was non-empty and well escaped |
| `Splitting.SplitAt` | agent-cpp/sigv4.hpp:66-76 | the loop computes the split at each separator |
| `Splitting.JoinInvertsSplit` | agent-cpp/sigv4.hpp:66-76 | joining the parts gives the text back and no part holds a separator |
| `CanonicalQuery.CanonicalQuery` | agent-cpp/sigv4.hpp:182-198 | the loops compute the canonical query |
| `CanonicalQuery.PartMeans` | agent-cpp/sigv4.hpp:182-189 | a part is split at its first equals sign, and has an empty value without one |
| `CanonicalQuery.EmptyPartsAreIgnored` | agent-cpp/sigv4.hpp:182-189 | empty parts are ignored |
| `CanonicalQuery.CanonicalAscends` | agent-cpp/sigv4.hpp:190-198 | the parts of a canonical query ascend by encoded name, then by encoded value |
| `CanonicalQuery.CanonicalIsIdempotent` | agent-cpp/sigv4.hpp:182-198 | a canonical query is its own canonical query |
| `CanonicalQuery.CanonicalIffSameParameters` | agent-cpp/sigv4.hpp:182-198 | two queries have the same canonical form if and only if they carry the same decoded parameters with the same multiplicity |
| `CanonicalQuery.PartOrderDoesNotMatter` | agent-cpp/sigv4.hpp:182-198 | reordering the parts between ampersands does not change it |
| `Sorting.SortIgnoresOrder` | agent-cpp/sigv4.hpp:191-191 | sorting by a total order depends on the elements only |
| `ShardWeight.AssignOwners` | agent-cpp/tier1/shard_weight.hpp:38-61 | the sort and the load loop assign exactly the owners of the greedy rule, for one shard as for many |
| `ShardWeight.EachKeyToLightest` | agent-cpp/tier1/shard_weight.hpp:38-61 | keys are placed by descending weight and ascending name, each on the first shard that carries least of the keys before it |
| `ShardWeight.OrderDoesNotMatter` | agent-cpp/tier1/shard_weight.hpp:47-51 | the assignment does not depend on the order of the keys |
| `ShardWeight.PlacesEveryKey` | agent-cpp/tier1/shard_weight.hpp:38-61 | every key and nothing else is placed, on an existing shard |
| `ShardWeight.ShardsAreBalanced` | agent-cpp/tier1/shard_weight.hpp:52-60 | two shards differ by at most the largest weight, and none exceeds the average by more than (n-1)/n of it |
| `ShardWeight.WithinFourThirdsOfAny` | agent-cpp/tier1/shard_weight.hpp:36-61 | no shard carries more than 4/3 - 1/(3n) times the heaviest shard of any other assignment of the same keys |
| `Lpt.GreedyIsOptimal` | agent-cpp/tier1/shard_weight.hpp:52-60 | if every weight exceeds a third of the bound some schedule meets, the greedy rule meets it too |
| `Lpt.GrahamBound` | agent-cpp/tier1/shard_weight.hpp:52-60 | Graham's bound for weights in descending order |
| `DeltaLog.Log.RegisterVersion` | agent-cpp/tier1/delta_log.hpp:95-128 | the loops append exactly the commit of the specification and remember its files and version |
| `DeltaLog.CommitMeans` | agent-cpp/tier1/delta_log.hpp:95-128 | the first commit is protocol, metadata and all files; a later one the new paths followed by the gone ones with their size; all at the watermark |
| `DeltaLog.AddsFollowFiles` | agent-cpp/tier1/delta_log.hpp:102-122 | adds follow the order of the files |
| `DeltaLog.RemovesFollowFiles` | agent-cpp/tier1/delta_log.hpp:102-122 | removes follow the order of the files before |
| `DeltaLog.ReplayGivesNewest` | agent-cpp/tier1/delta_log.hpp:95-128 | replaying all commits gives the path set of the newest accepted version, for every sequence of versions |
| `DeltaLog.CommitIsExactIff` | agent-cpp/tier1/delta_log.hpp:102-122 | a commit on a log with exact entries leaves exact entries if and only if the version agrees with the one before |
| `DeltaLog.EntriesExactIff` | agent-cpp/tier1/delta_log.hpp:95-128 | replay gives the full entries of the newest version after every version if and only if each accepted version lists every path with one entry, and with the same one as the version before |
| `DeltaLog.ReplayGivesNewestEntries` | agent-cpp/tier1/delta_log.hpp:95-128 | if the path determines the file over all versions, replay gives exactly the full entries of the newest one |
| `DeltaLog.ResizedFileIsStale` | agent-cpp/tier1/delta_log.hpp:102-122 | two versions that list one path with different sizes, after which the log is not exact |
| `DeltaLog.CommitIsCleanIff` | agent-cpp/tier1/delta_log.hpp:102-122 | a commit adds no live path and removes no dead one if and only if no new path repeats in the version and no dropped one in the version before |
| `DeltaLog.CommitsAreClean` | agent-cpp/tier1/delta_log.hpp:95-128 | when no version repeats a path, every commit adds no live path and removes no dead one |
| `DeltaLog.CommitsAreNotEmpty` | agent-cpp/tier1/delta_log.hpp:95-128 | no commit is empty, whatever versions are registered |
| `DeltaLog.PathsCollideIff` | agent-cpp/tier1/delta_log.hpp:83-87 | two object keys share a path exactly when one is the other below the table path and the other is not below it |
| `DeltaLog.CollidingKeysAreAddedTwice` | agent-cpp/tier1/delta_log.hpp:83-122 | a version with two distinct object keys whose commit adds one path twice |
| `SplitPlanner.ComputeKeyRanges` | agent-cpp/tier1/split_planner.hpp:37-52 | the loops compute the ranges, with the special ones of an empty interval |
| `SplitPlanner.RangesCover` | agent-cpp/tier1/split_planner.hpp:37-52 | the ranges are contiguous and cover the interval |
| `SplitPlanner.BoundsAreFloors` | agent-cpp/tier1/split_planner.hpp:45-49 | range i of n starts at the i-th n-th of the interval, rounded down |
| `SplitPlanner.OddRequests` | agent-cpp/tier1/split_planner.hpp:37-44 | a count below one means one range, an empty interval one key in the first range |
| `SplitPlanner.WidthsDifferByOne` | agent-cpp/tier1/split_planner.hpp:45-50 | no two ranges differ in width by more than one, also for an empty interval |
| `SplitPlanner.IntermediatesFit` | agent-cpp/tier1/split_planner.hpp:45-49 | if span times count fits in 64 bits, so does every intermediate value |
| `SplitPlanner.LimitNeverTruncates` | agent-cpp/native/native_publish.cpp:312-316 | with unique integer keys the row limit of a range read never cuts it off |
| `SplitPlanner.PublishRanges` | agent-cpp/native/native_publish.cpp:303-318 | the nested loops read exactly the ranges of each version |
| `SplitPlanner.VersionHolds` | agent-cpp/native/native_publish.cpp:308-318 | the reads of a version concatenate to the rows below its frontier, in key order |
| `SplitPlanner.VersionTables` | agent-cpp/native/native_publish.cpp:308-318 | each table of a version holds exactly the rows of its range |
| `SplitPlanner.LastVersionIsWholeTable` | agent-cpp/native/native_publish.cpp:303-318 | the last version is the whole table in key order, no row lost or repeated |
| `SplitPlanner.VersionsGrow` | agent-cpp/native/native_publish.cpp:308-318 | each version's rows are the first rows of the next |
| `TemporalRanges.RangesPartition` | agent-cpp/tier1/split_planner.hpp:37-52 | every point of the interval lies in exactly one range and no other point in any; an empty interval counts as its lower bound |
| `TemporalRanges.DateRanges` | agent-cpp/tier1/split_planner.hpp:158-164 | the date ranges are the ordinal ranges converted back |
| `TemporalRanges.DatesPartition` | agent-cpp/tier1/split_planner.hpp:91-164 | a date is in some date range exactly when it lies between the bounds, or is the lower one if they are reversed |
| `TemporalRanges.MicrosRoundTrip` | agent-cpp/tier1/split_planner.hpp:137-156 | every instant, also before 1970, is read back from the fields printed for it |
| `TemporalRanges.MomentRoundTrip` | agent-cpp/tier1/split_planner.hpp:107-156 | every valid timestamp is printed back from its microseconds |
| `TemporalRanges.OffsetIsSubtracted` | agent-cpp/tier1/split_planner.hpp:107-135 | a zone offset is subtracted |
| `TemporalRanges.MicrosKeepOrder` | agent-cpp/tier1/split_planner.hpp:107-156 | a timestamp is sooner exactly when its microseconds are fewer |
| `TemporalRanges.MomentRanges` | agent-cpp/tier1/split_planner.hpp:166-172 | the timestamp ranges are the microsecond ranges converted back |
| `TemporalRanges.MomentsPartition` | agent-cpp/tier1/split_planner.hpp:107-172 | a timestamp is in some range exactly when it lies between the bounds, or is the lower one if they are reversed |
| `Sha256.Hasher.Update` | agent-cpp/tier1/sha256.hpp:15-24 | feeding bytes extends the message, however it is chopped; the buffer index stays below 64 |
| `Sha256.Hasher.Transform` | agent-cpp/tier1/sha256.hpp:49-80 | the chaining value is that of all whole blocks so far |
| `Sha256.Hasher.AppendMark` | agent-cpp/tier1/sha256.hpp:84-90 | the end mark and zeros are those of the padding, through an extra block if needed |
| `Sha256.Hasher.Finalize` | agent-cpp/tier1/sha256.hpp:82-96 | the bytes written are those of the compression of the message padded by section 5.1.1 of FIPS 180-4, with the bit count modulo 2^64 |
| `Sha256.InitialIsRoots` | agent-cpp/tier1/sha256.hpp:40-45 | the initial words are the first 32 bits of the fractional parts of the square roots of the first eight primes |
| `Sha256.PaddingMeans` | agent-cpp/tier1/sha256.hpp:82-91 | the padding is one bit, the fewest zero bits and the bit count |
| `Sha256.LengthBytesValue` | agent-cpp/tier1/sha256.hpp:91-91 | the eight length bytes hold the bit count, most significant first |
| `Sha256.WriteWords` | agent-cpp/tier1/sha256.hpp:93-95 | the nested loops write each word as four bytes, most significant first |
| `Sha256.OutputAt` | agent-cpp/tier1/sha256.hpp:93-95 | word i of the hash stands at bytes 4i to 4i+3 |
| `Sha256.BytesHoldValue` | agent-cpp/tier1/sha256.hpp:91-95 | the bytes written for a number hold its value |
| `LruCache.Cache.GetData` | agent-cpp/tier1/lru_cache.hpp:24-33 | returns the live entry and makes it newest, evicts an expired one |
| `LruCache.AfterHit` | agent-cpp/tier1/lru_cache.hpp:24-54 | a read moves its entry to the newest end until it expires, an eviction removes it, and the others keep their order |
| `LruCache.AfterMiss` | agent-cpp/tier1/lru_cache.hpp:24-54 | a key that is not there changes nothing |
| `LruCache.Cache.PutData` | agent-cpp/tier1/lru_cache.hpp:35-46 | index, list and byte count agree after the entry is replaced, room is made and the new one appended |
| `LruCache.AfterPut` | agent-cpp/tier1/lru_cache.hpp:35-46 | a put becomes the newest entry of its key, expiring after the ttl, and the fewest oldest others are dropped for it |
| `LruCache.Cache.MakeRoom` | agent-cpp/tier1/lru_cache.hpp:39-40 | the eviction loop drops exactly the entries that the specification drops |
| `LruCache.Cache.EvictKey` | agent-cpp/tier1/lru_cache.hpp:48-54 | removes the entry from index and list and takes its bytes off |
| `LruCache.DropForIsShortest` | agent-cpp/tier1/lru_cache.hpp:39-40 | exactly the shortest run of least recently used entries is dropped that makes room |
| `LruCache.HoldsLatestPut` | agent-cpp/tier1/lru_cache.hpp:24-54 | after any operations, whatever the cache holds for a key is the last put for it that was not too large, and the bytes stay within the limit |
| `Ranges.Accumulate` | agent-cpp/agent.cpp:138-149 | the digits are read without ever exceeding the limit, and refused exactly when their value does |
| `Ranges.ParseI64` | agent-cpp/agent.cpp:127-162 | accepts exactly the optionally signed digit strings with a value in the 64-bit range |
| `Ranges.IntegerMeans` | agent-cpp/agent.cpp:127-162 | which strings denote which 64-bit integers |
| `Ranges.ParseRangeHeader` | agent-cpp/agent.cpp:878-938 | malformed headers are invalid, well-formed ones are resolved |
| `Ranges.SpecMeans` | agent-cpp/agent.cpp:878-926 | `bytes=a-b` means a suffix, an open or a closed range, exactly when a and b denote suitable numbers |
| `Ranges.SpecHasForm` | agent-cpp/agent.cpp:878-926 | only headers of that form are accepted, and of a list the first range counts |
| `Ranges.ResolvesToAsked` | agent-cpp/agent.cpp:899-937 | for a non-empty object the interval lies within it and holds exactly the bytes asked for by section 14.1.2 of RFC 9110, or none is asked for |
| `Ranges.EmptyObject` | agent-cpp/agent.cpp:899-937 | for an empty object a suffix range is partial from 0 to -1 and every other is unsatisfiable |
| `Ranges.SendsWhatIsAsked` | agent-cpp/agent.cpp:984-986 | the length sent is the number of bytes asked for |

## Left out

- Sockets, threads, HTTP and XML, file streaming, JSON and Avro encodings, database drivers: not part of this model.
- Store errors that leave a compare-and-swap undecided: a swap either happens or does not.
- Reads of the catalog (`resolve`, tenant checks of the caller), publication of manifests and regional byte copies: copies are a parameter that succeeds or fails.
- `enterprise/control/work_queue.py` and generation membership: a claim is an atomic outcome; a claim that is released again because the Agent left before delivery is not counted, as in the code.
- Replication.ReplicateOwned: states the undisturbed pass over datasets listed once; interference with it is covered by the runs of `CatalogRuns`.
- RegistryRuns.RunKeepsInv: states the stronger invariant of runs that write in the term of the last attach; all runs are covered by `RegistrySafety.CommandsSurviveIff`.
- RegistryRuns.AcknowledgedCommandsSurvive: the same; the exact condition for any run is `RegistrySafety.CommandsSurviveIff`.
- RegistrySafety.CommandsSurviveIff: the account starts with the first durable fleet and takes over the queues it holds; what other registries acknowledged before there was any durable fleet is not counted. Runs attach with `restore`, as the only caller does.
- Registry.Registry.Persist: the methods of the registry class and the steps of `RegistryRuns` share the fleet and change functions, but no lemma relates them as for lease and catalog.
- Placement.DispatchSharesTenant: the store shares the tenant only under a required store; `StoreTenants.StoreTenantIff` is the exact condition for the rest.
- Scheduler.AssignmentSharesTenant: the same.
- Scheduler.ClaimsShareTenant: the same.
- Scheduler.DispatchOnce: the two reads of the registry that select the Agent of one task are one read.
- DecimalBounds.EncodeDecimal: the bit length is an unbounded integer, so strings of hundreds of millions of digits, whose bit length overflows `int`, behave as if it did not.
- DecimalBounds.EncodeDecimal: takes an optional minus sign, digits and points; other characters are not decimal strings and are not modelled.
- Placement.FromDict: keys are compared as given, without trimming; field types, unknown fields, version rings and the heartbeat and claim settings of pools are not part of this model.
- Sha256.Hasher.Transform: the compression of one block is a parameter, so only the buffering, padding and output are modelled.
- Civil.DaysRoundTrip: days and years are unbounded; 64-bit overflow at the ends of the range is not modelled.
- ShardWeight.AssignOwners: weights are real numbers, so rounding of `double` sums is not modelled.
- Parsing and printing of date and timestamp text in agent-cpp/tier1/split_planner.hpp; the fields are modelled.
- The round function of SHA-256 and HMAC: their value is their definition in FIPS 180-4 and RFC 2104, with nothing to preserve beside it.
- Header canonicalisation, the rest of signature verification and the single-value Iceberg encoders other than decimals: straight-line formatting without state.
- Split counts and shard load reports choose the arguments of the modelled code; the pinned cache is a plain dictionary.
