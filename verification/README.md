# Verified model of the TRv1 accounts database

A Dafny model of the garbage-collection, concurrency and start-up logic of the accounts database, and
of the small stateful structures it rests on. `dafny verify dfyconfig.toml` checks all of it.

- **Clean.** `DeleteDependencies.dfy`, `AccountsState.dfy`, `CleanAccounts.dfy`, `PurgeAccounts.dfy`,
  `AccountsDb.dfy`, `CleanScan.dfy`: how clean reads its candidates, reclaims older versions and decides which
  zero-lamport accounts may go. The worklist removes exactly the least closed set of slots, in whatever order
  candidates and slots come up; the purge then empties every store it touches and leaves no copy behind, takes
  every set of candidates that could go, and keeps index, alive counts and reference counts accurate.
- **Shrink.** `ShrinkSlots.dfy`: a storage is rewritten without its dead accounts and without zero-lamport only
  copies, and index, alive counts and reference counts stay accurate.
- **Restart.** `RestoreSafety.dfy` is a machine of new roots, flushes, reclaims, purges, shrinks, store drops and
  full snapshots, which are announced before they are archived. In every reachable state a rebuild from the
  storages shows every key the account the live database shows. So does a restore from the full snapshot overlaid
  with newer storages, except between announcement and archive, and then only keys that are gone can come back;
  `SnapshotWindow.dfy` has a run in which one does. `CleanIsPurge.dfy` composes a whole clean of the database
  object and shows that its purge is a step of that machine. `DatabaseRun.dfy` runs writes, roots, flushes, cleans,
  shrinks, removals and snapshots of the database in any order: every step is one of the machine or invisible to
  it, so accurate counters and safe restarts hold over every run, and what the code of clean and shrink does is
  such a step; `DatabaseProgress.dfy` shows that the other steps are possible whenever the database takes them.
- **Readers.** `ReadProtocol.dfy` interleaves readers with writers, the flusher, the shrinker, the cleaner
  and the slot purger. Over every run each index entry resolves, and neither the "Bad index entry" panic nor a
  second cache miss of a load with a fixed root can be reached; `LookupRace.dfy` reaches the panic with two
  lookups instead of three. `ProtocolProgress.dfy` shows that this does not hold for lack of steps: every write,
  flush, removal, shrink, clean and load can end, with what it is for. `SlotContention.dfy` is the handshake that
  keeps flush and removal of one slot apart, which the read protocol relies on; a removal that waits can always get
  to its purge.
- **Flush.** `FlushRoots.dfy`: flushing roots newest first, dropping what a newer root overwrites.
- **Start-up.** `IndexGeneration.dfy`, `StorageOrderer.dfy` and `StorageInterleaving.dfy`: the storages are
  handed out in a permuted order through a shared counter, scanned by any number of threads, and the sums
  minus the duplicates are the sums over the newest versions.
- **Structures.** `AccountCache.dfy` (hot-tier cache), `AccountLocks.dfy`, `StorageReader.dfy`,
  `WriteCache.dfy`, `SortDedup.dfy`, `LargestAccounts.dfy`, `TokenAmount.dfy`.

Code that updates things step by step is modelled by classes, methods and loops; protocols between threads
are state machines whose steps are the atomic actions of the threads.

Assumptions that come from outside the modelled code:

- Store ids are fresh, and a slot gets no writes once it is closed.
- Flush, shrink and clean of one slot do not overlap (clean and shrink run on one background thread, flush
  against removal is the handshake above). For `ReadProtocol.NoShrinkInProgress` that thread runs its jobs
  one after another on all slots.
- While a load with a fixed root runs, the open slot it sees is not closed, and the version it would take
  leaves the index only if it sees no other. The bank being replayed stays open; flush drops and clean
  reclaims only versions that a newer root supersedes (`FlushRoots.NewestUnchanged`,
  `CleanScan.RecountLeavesNewest`).
- No two removals of unrooted slots under way share a slot.
- Roots rise, a full snapshot is taken at a root, and one snapshot request is handled at a time, so none is
  announced before the last one is archived and no incremental snapshot is taken in between. That all roots up to
  the announced slot are flushed before the archive is taken is asserted by the handler.
- Clean stays below the roots still in the write cache, and slots that are not roots are written to but not flushed.
  `CleanIsPurge.CleanRooted` and `ShrinkSlots.ShrinkStorage` start from accurate counters; over the runs of
  `DatabaseRun.dfy` that is a theorem.
- A storage holds at most one version of a key that is not obsolete, and a scan visits a key once.
- The arena of the hot-tier cache never holds 2^64 - 1 nodes.

Slots, sizes and counters are unbounded naturals except where saturation or wrap-around is part of the
behaviour (the byte and access counts of the hot-tier cache, the sixteen-bit words of the lattice hash).

Where code and documentation disagree the model follows the code:

- The comments on the links of the hot-tier cache call `next` the newer neighbour; as coded it is the older
  one. The LFU scan therefore sees the oldest entry only, and does not pick the least used of the oldest
  quarter: `AccountCaching.LfuTakesDocumentedIff` says exactly when it does, `LfuEvictsMoreUsed` gives a
  cache where it does not.
- The storage orderer applies its selection to storage indices rather than to positions in the capacity
  order. `StorageInterleaving.KeepsOrderIff` says for which capacities a given ratio still hands out small and
  large storages as documented, whatever the unstable sort makes of equal ones; every ratio does so exactly for
  up to two storages, equal capacities, or capacities that already rise (`AlwaysKeepsOrderIff`). With the ratio
  of the snapshot archive up to five storages come out right, and six can come out wrong.
- The documentation of the snapshot filter says that it removes candidates with an empty slot list. As coded
  such a candidate is retained when the filter is off and panics when it is on
  (`AccountsDatabase.EmptyListStaysOrPanics`, `RemovesEmptyIff`); a clean that reads its own candidates never
  has one (`CleanIsPurge.CleanRooted`).
- The comment on removals asks that no two threads remove the same slot; nothing is said about one list. A list
  that names a slot twice waits for itself: `SlotContention.RepeatedWaitsForItself`, `RepeatedNeverPurges`.
- The purge of a cached slot removes the index entries before the cache, which is the order modelled.

## Model

| member | source | states |
|---|---|---|
| `DeleteDependencies.CalcDeleteDependencies` | accounts-db/src/accounts_db.rs:1263-1361 | whatever order candidates and pending slots are visited in, exactly the least closed set of slots leaves the store counts |
| `DeleteDependencies.BlockedIsLeastClosed` | accounts-db/src/accounts_db.rs:1263-1361 | the blocked slots are closed under undeletable candidates and shared keys, and contained in every closed set |
| `DeleteDependencies.ChainIsBlocked` | accounts-db/src/accounts_db.rs:1308-1361 | a slot joined by a chain of shared candidates to an undeletable one is blocked |
| `DeleteDependencies.BlockedHasChain` | accounts-db/src/accounts_db.rs:1308-1361 | every blocked slot has such a chain |
| `DeleteDependencies.FailedIsForced` | accounts-db/src/accounts_db.rs:1276-1306 | a candidate that fails against counts already reduced is forced by the original ones, so the visiting order does not matter |
| `DeleteDependencies.SpreadFrom` | accounts-db/src/accounts_db.rs:1308-1361 | the worklist terminates and ends with everything it reaches handled |
| `AccountsDatabase.AccountsDb.CollectStoreCounts` | accounts-db/src/accounts_db.rs:1944-2002 | drops reclaimed entries, refreshes reference counts, and counts per store what would stay alive if all candidates went |
| `AccountsDatabase.AccountsDb.FilterZeroLamportClean` | accounts-db/src/accounts_db.rs:2296-2354 | keeps exactly the candidates with nothing left in any of their stores and, if clean goes past the full snapshot, nothing newer than it; exactly those held back by a newer zero-lamport version alone are put off until after the next snapshot, under the slot of that version; panics exactly when a candidate to be checked has no entry or a newest one that is not zero-lamport |
| `AccountsDatabase.AccountsDb.CleanCandidates` | accounts-db/src/accounts_db.rs:1938-2059 | for any candidates read before the reclaim: panics, changing nothing, exactly when the filter does; otherwise purges exactly the candidates whose stores all go and that are old enough; counters stay accurate; nothing newer than the full snapshot is purged when filtering; with filtering off all stores of purged keys die and no copy is left |
| `AccountsDatabase.EmptyListStaysOrPanics` | accounts-db/src/accounts_db.rs:2296-2354 | a candidate with an empty slot list is retained when the filter is off and panics when it is on; the documentation has it removed |
| `AccountsDatabase.RemovesEmptyIff` | accounts-db/src/accounts_db.rs:2273-2354 | a call that returns leaves no empty slot list behind exactly when it was given none |
| `CleanScan.ScanCandidates` | accounts-db/src/accounts_db.rs:1800-1936 | over all keys: the candidates are exactly the keys whose newest rooted version is zero-lamport, listed with all their rooted versions, and per key the older versions to reclaim |
| `CleanScan.ScanKey` | accounts-db/src/accounts_db.rs:1815-1905 | one key: candidate or not, its rooted versions, its older ones |
| `CleanScan.OlderAre` | accounts-db/src/accounts_index.rs:1499-1534 | a version is reclaimed exactly if it is below the clean root, flushed and not the newest rooted one; of a key without rooted versions the one at slot zero is spared |
| `CleanScan.NewestRoot` | accounts-db/src/accounts_index.rs:1178-1191 | the newest rooted slot up to the limit, or zero when there is none |
| `CleanScan.KnownAfterReclaim` | accounts-db/src/accounts_index.rs:1499-1534 | reclaiming older versions takes exactly the listed versions other than the newest rooted one, and what was read of the newest still holds |
| `CleanScan.RecountLeavesNewest` | accounts-db/src/accounts_db.rs:1944-1976 | after reclaim and recount a candidate has exactly one entry, its newest rooted version, a zero-lamport one |
| `CleanAccounts.TouchedStoreIsFullyPurged` | accounts-db/src/accounts_db.rs:1944-2048 | everything alive in a store that a purged candidate is in is purged as well |
| `CleanAccounts.PurgedIsHeldNowhereElse` | accounts-db/src/accounts_db.rs:1276-1306 | a purged candidate is held by exactly the stores in its slot list |
| `CleanAccounts.PurgeLeavesNoCopy` | accounts-db/src/accounts_db.rs:1944-2048 | with filtering off the stores of a purged key are deleted and no remaining store holds it |
| `CleanAccounts.PurgeIsGreatest` | accounts-db/src/accounts_db.rs:1263-1361 | nothing is spared needlessly: every set of candidates that are listed with all their copies and whose stores hold nothing else alive is purged, with filtering as far as the full snapshot has seen it |
| `PurgeAccounts.PurgeKeysExact` | accounts-db/src/accounts_db.rs:1364-1403 | takes exactly the given entries out of the index, keys with none left too, and collects the offsets they pointed to |
| `PurgeAccounts.RemoveDeadAccounts` | accounts-db/src/accounts_db.rs:5361-5484 | lowers each store by its reclaimed offsets and finds exactly the stores that reach zero |
| `PurgeAccounts.CleanStoredDeadSlots` | accounts-db/src/accounts_db.rs:5588-5643 | every key still in the index loses one reference per dead store that held it |
| `PurgeAccounts.HandlePurge` | accounts-db/src/accounts_db.rs:2238-2271 | the loops together leave the index and the storages of the specification, with all counters accurate, and report exactly the reclaimed entries |
| `PurgeAccounts.OffsetsCount` | accounts-db/src/accounts_db.rs:5374-5383 | a store loses as many offsets as keys are purged in it |
| `AccountsState.PurgeKeepsAccurate` | accounts-db/src/accounts_db.rs:2238-2271 | purging entries, counting down stores, deleting dead ones and dropping their references keeps resolution, alive counts and reference counts accurate |
| `AccountsState.PurgeTakesListed` | accounts-db/src/accounts_db.rs:1364-1403 | a purge takes exactly the listed entries out of the index, and the keys left with none |
| `AccountsState.PurgeDropsEmptied` | accounts-db/src/accounts_db.rs:5361-5484 | a store goes exactly if something of it is purged and nothing stays alive in it; the others keep their file |
| `RestoreSafety.RestartIsSafe` | runtime/src/accounts_background_service.rs:218-292 | over every run a rebuild shows each key what the live database shows; a restore does whenever no full snapshot is announced and not yet archived, and in any state exactly for the keys that are alive or that the archive shows nothing for |
| `RestoreSafety.NextKeepsInv` | accounts-db/src/accounts_db.rs:2238-2354 | every new root, flush, reclaim, drop, purge, shrink, announcement and archive keeps the restart invariant |
| `RestoreSafety.ShrinkKeeps` | accounts-db/src/accounts_db.rs:2432-2458 | shrinking away a zero-lamport only copy at or below the announced full snapshot slot keeps what a restart shows, also before the archive exists |
| `RestoreSafety.UnguardedPurgeIsSafeIff` | accounts-db/src/accounts_db.rs:2273-2354 | without the snapshot guard a purge is safe exactly for keys the full snapshot shows nothing for, and keys not newer than the archive are such keys |
| `SnapshotWindow.WithoutGuardRestoreResurrects` | accounts-db/src/accounts_db.rs:2273-2291 | the documented scenario as a run: without the guard a restore brings the old balance back |
| `SnapshotWindow.WindowResurrects` | runtime/src/accounts_background_service.rs:234-283 | a run in which the clean between announcement and archive purges an account that a restore from the old archive would bring back, until the new archive is taken |
| `CleanIsPurge.CleanIsPurgeStep` | accounts-db/src/accounts_db.rs:1364-1403 | a purge of whole candidates by the database object is one purge step of the restart machine |
| `CleanIsPurge.CleanRooted` | accounts-db/src/accounts_db.rs:1752-2059 | a whole clean, from reading the candidates to the purge: never panics, keeps all counters accurate, reclaims exactly the older versions and purges exactly the chosen candidates |
| `CleanIsPurge.CleanedKeepsAccurate` | accounts-db/src/accounts_db.rs:1752-2059 | such a clean keeps all counters accurate after the reclaim and after the purge, and leaves no copy of a purged key whether or not it filters |
| `CleanIsPurge.CleanedIsGreatest` | accounts-db/src/accounts_db.rs:1752-2059 | a whole clean purges every set of the keys it looks at that can go together: the newest rooted version of each is zero-lamport and not newer than the full snapshot, if there is one, and after the reclaim no other store holds it and nothing outside the set is alive in its store |
| `CleanIsPurge.SinglePurgeLeavesNoCopy` | accounts-db/src/accounts_db.rs:1938-2059 | with one entry per candidate, the candidates of a store are purged or put off together, so the stores of purged keys die and no copy is left |
| `CleanIsPurge.CleanKeepsRestartSafe` | accounts-db/src/accounts_db.rs:1752-2059 | under the announced snapshot slot, archived or not, the purge of that clean is a purge step of the restart machine, and the reclaim and the purge keep its invariant |
| `CleanIsPurge.ReclaimKeepsInv` | accounts-db/src/accounts_index.rs:1499-1534 | reclaiming older versions is invisible to a restart |
| `ShrinkSlots.ShrinkStorage` | accounts-db/src/accounts_db.rs:2884-2999 | a storage worth shrinking with something to keep is replaced by one with exactly the accounts kept; dead ones lose a reference, dropped ones leave the index; all counters stay accurate |
| `ShrinkSlots.ShrinkKeepsAccurate` | accounts-db/src/accounts_db.rs:2705-2834 | rewriting, unreferencing dead accounts and unreferencing and purging zero-lamport only copies keeps resolution, alive counts and reference counts accurate |
| `ShrinkSlots.Collect` | accounts-db/src/accounts_db.rs:2416-2497 | the accounts of a storage are sorted into dead ones, zero-lamport only copies not newer than the full snapshot slot, and the rest |
| `ShrinkSlots.Rewrite` | accounts-db/src/accounts_db.rs:2942-2985 | the passes over index and storage together treat each key as specified |
| `DatabaseRun.DatabaseIsSafe` | runtime/src/accounts_background_service.rs:218-292 | over every run of writes, removals, roots, flushes, cleans, shrinks and snapshots: counters are accurate, every storage can be shrunk, and rebuild and restore show what the database shows as above |
| `DatabaseRun.NextKeepsInv` | accounts-db/src/accounts_db.rs:1752-2999 | every step of the database keeps accurate counters and the restart invariant |
| `DatabaseRun.StepClean` | accounts-db/src/accounts_db.rs:1752-2059 | in any state of a run the code of clean does not panic and takes a clean step |
| `DatabaseRun.StepShrink` | accounts-db/src/accounts_db.rs:2884-2999 | in any state of a run the code of shrink works on every storage and takes a shrink step, or changes nothing |
| `DatabaseRun.FlushKeepsAccurate` | accounts-db/src/accounts_index/in_mem_accounts_index.rs:577-661 | a flush that stores some cached accounts of a root and drops the others keeps all counters accurate |
| `DatabaseRun.FlushIsStep` | accounts-db/src/accounts_db.rs:4802-4918 | a flush is a flush step of the restart machine |
| `DatabaseRun.ShrinkIsStep` | accounts-db/src/accounts_db.rs:2884-2999 | a shrink is a shrink step of the restart machine |
| `DatabaseRun.MayGoIsDropped` | accounts-db/src/accounts_db.rs:2432-2458 | over every run, a zero-lamport only copy not newer than the full snapshot slot is dropped by the shrink of its storage |
| `DatabaseRun.DroppedMayGo` | accounts-db/src/accounts_db.rs:2432-2458 | and nothing else is dropped |
| `DatabaseProgress.WriteCanHappen` | accounts-db/src/accounts_cache.rs:196-214 | any key can be written to a slot that is no root, and no entry of another slot changes |
| `DatabaseProgress.RootCanHappen` | accounts-db/src/accounts_db.rs:6166-6172 | any slot above the roots so far can become one, and waits to be flushed |
| `DatabaseProgress.RemovalCanHappen` | accounts-db/src/accounts_db.rs:4448-4532 | cached keys of a slot that is no root can be removed, and no entry of another slot changes |
| `DatabaseProgress.FlushCanHappen` | accounts-db/src/accounts_db.rs:4802-4918 | a waiting root can be flushed whichever of its cached accounts are stored and whichever dropped; the stored ones are then in its storage and the index |
| `DatabaseProgress.AnnounceCanHappen` | runtime/src/accounts_background_service.rs:234-243 | once the last full snapshot is archived, one of any later root can be announced |
| `DatabaseProgress.CaptureCanHappen` | runtime/src/accounts_background_service.rs:234-283 | once the roots up to an announced snapshot are flushed it can be archived |
| `ReadProtocol.ReadersNeverPanic` | accounts-db/src/accounts_db.rs:3650-3926 | over every run no reader reaches the "Bad index entry" panic, and no load with a fixed maximum root misses the cache twice |
| `ReadProtocol.AnchoredKept` | accounts-db/src/accounts_db.rs:3776-3795 | of the slots a fixed-root load sees, the newest version stays where it was first found or in the slot still open, which is why it can miss a flush only once |
| `ReadProtocol.EveryEntryResolves` | accounts-db/src/accounts_db.rs:3650-3715 | over every run every index entry leads to the account last written for its key and slot |
| `ReadProtocol.LoadsAreWritten` | accounts-db/src/accounts_db.rs:3629-3926 | a load that succeeds gives the account last written for the key in the slot it chose; which slot that is says the next row |
| `ReadProtocol.FixedLoadsTakeNewest` | accounts-db/src/accounts_index.rs:986-1022 | over every run a load with a fixed root takes the newest version it may see, and when it is done newer ones can only be in slots still open |
| `ReadProtocol.LockedReadersNeverMiss` | accounts-db/src/accounts_db.rs:4124-4143 | a reader that holds the index entry never misses |
| `ReadProtocol.MissMeansMoved` | accounts-db/src/accounts_db.rs:3860-3926 | after a miss the index has no entry for that slot or one with another store |
| `ReadProtocol.AssertionsHold` | accounts-db/src/account_storage.rs:170-310 | over every run: a flush and a shrink insert a store where none is; a finished shrink replaces the store it started from; an account dropped from a cached slot has its index entry and its slot no store; the cache entry of a slot is there when it is removed, and after a flush a store; the alive counter is lowered only for an account it counts; a store goes exactly when no index entry of its slot is left |
| `ReadProtocol.NoShrinkInProgress` | accounts-db/src/account_storage.rs:75-177 | over every run of one background service no slot is being shrunk when a flush inserts or looks up its store, accounts are counted down, or a dead store is removed |
| `ReadProtocol.NextKeepsInv` | accounts-db/src/accounts_db.rs:3650-3926 | every step of every thread keeps the protocol invariant |
| `ReadProtocol.ShrinkerKeeps` | accounts-db/src/accounts_db.rs:2885-2999 | the steps of a shrink keep every index entry of its slot resolvable |
| `ReadProtocol.FlusherKeeps` | accounts-db/src/accounts_db.rs:4802-4918 | so do the steps of a flush or of the purge of a cached slot |
| `LookupRace.TwoLookupsCanPanic` | accounts-db/src/account_storage.rs:52-72 | without the third lookup a run reaches the panic |
| `ProtocolProgress.StepCanHappen` | accounts-db/src/accounts_db.rs:3650-3926 | a step of a slot can be taken whatever the readers are doing, unless it writes an index entry in use, closes a slot in sight of a load with a fixed root, or takes the version such a load would take while it sees another |
| `ProtocolProgress.ServiceCanGoOn` | accounts-db/src/account_storage.rs:75-177 | one background service may take every step that starts no job, start a shrink when only cached slots are being removed, and another job when nothing is being shrunk |
| `ProtocolProgress.WriteCanFinish` | accounts-db/src/accounts_cache.rs:196-214 | any account can be written to an open slot and is then found through the index |
| `ProtocolProgress.CloseCanHappen` | accounts-db/src/accounts_cache.rs:115-117 | once every write is in the index the slot can be closed |
| `ProtocolProgress.FlushCanFinish` | accounts-db/src/accounts_db.rs:4802-4918 | the flush of a closed slot can end, whichever of its accounts it drops, with the others in the store the index points to |
| `ProtocolProgress.RemovalCanFinish` | accounts-db/src/accounts_db.rs:4448-4532 | the removal of a closed cached slot, or a flush that drops everything, can end, with nothing of it left |
| `ProtocolProgress.ShrinkCanFinish` | accounts-db/src/accounts_db.rs:2884-2999 | a shrink can end, for any accounts it drops, with all other entries in the new store |
| `ProtocolProgress.CleanCanFinish` | accounts-db/src/accounts_db.rs:5361-5484 | any entry can be cleaned, and the store goes exactly with the last one |
| `ProtocolProgress.UndisturbedLoadSucceeds` | accounts-db/src/accounts_db.rs:3650-3926 | a load that nobody disturbs gives the account last written, in whatever stage flush, shrink or clean of the slot are |
| `ProtocolProgress.LoadCanFinish` | accounts-db/src/accounts_db.rs:3776-3926 | whatever a load is doing and has missed so far, left alone it ends with an account, with a fixed root through the newest version it sees |
| `ProtocolProgress.SecondMissPanics` | accounts-db/src/accounts_db.rs:3776-3795 | the second cache miss of a load with a fixed root is a panic, so its absence over every run says something |
| `SlotContention.OneWorkerPerSlot` | accounts-db/src/accounts_db.rs:4448-4532 | over every run a slot has one flusher at most and is not purged at the same time |
| `SlotContention.ReleasesHold` | accounts-db/src/accounts_db.rs:4939-4985 | both assertions on releasing slots hold, and a removal that purges has a list without repeats |
| `SlotContention.SleepersAreWoken` | accounts-db/src/accounts_db.rs:4460-4512 | no lost wakeup: a sleeping remover whose list repeats no slot waits for a running flush or a signal on its way |
| `SlotContention.QuietMeansPurging` | accounts-db/src/accounts_db.rs:4492-4512 | once nothing is being flushed a woken remover whose list repeats no slot gets all its slots |
| `SlotContention.RemovalCanFinish` | accounts-db/src/accounts_db.rs:4448-4532 | from every reachable state a waiting removal whose list repeats no slot can get to its purge |
| `SlotContention.RemovalCanRun` | accounts-db/src/accounts_db.rs:4448-4532 | from every reachable state a removal of distinct slots that no other removal names can start, get to its purge and end, with its slots released |
| `SlotContention.FlushGetsFreeSlot` | accounts-db/src/accounts_db.rs:4939-4985 | a flush gets a slot nobody works on, and is refused one somebody does |
| `SlotContention.RepeatedNeverPurges` | accounts-db/src/accounts_db.rs:4470-4512 | over every run a removal whose list repeats a slot never gets to purge |
| `SlotContention.RepeatedWaitsForItself` | accounts-db/src/accounts_db.rs:4470-4512 | alone, such a removal takes the slot, sleeps, and finds it taken whenever it wakes |
| `SlotContention.InsertAll` | accounts-db/src/accounts_db.rs:4470-4486 | the loop claims every free slot of the list and leaves the others, a repeated slot once per repetition, to wait for |
| `SlotContention.SharedRemovalIsLost` | accounts-db/src/accounts_db.rs:4474-4484 | two removals that share a slot can leave one asleep with nothing contended and no flush under way to signal it |
| `FlushRoots.Flusher.FlushWithClean` | accounts-db/src/accounts_db.rs:4733-4756 | for every key, scans at or above the oldest ongoing one and readers at or above the requested root see the same newest version and account; and of every entry it says whether it is gone, in terms of the flushed roots and the oldest scan alone |
| `FlushRoots.Flusher.FlushRootedAccountsCache` | accounts-db/src/accounts_db.rs:4765-4800 | exactly the unflushed roots up to the requested one are flushed; exactly the superseded entries leave the index, in terms of the flushed roots and the cleaning limit alone, all other flushed accounts are stored, the flushed slots leave the cache, and the highest flushed root is recorded |
| `FlushRoots.Flusher.FlushSlotCache` | accounts-db/src/accounts_db.rs:4802-4918 | one slot: accounts already written for a newer root are dropped, the others stored, older stored versions reclaimed if obsolete accounts are marked |
| `FlushRoots.NewestUnchanged` | accounts-db/src/accounts_db.rs:4733-4852 | no newest version at a root the flush does not clean below changes |
| `FlushRoots.FlushCleans` | accounts-db/src/accounts_db.rs:4733-4852 | of any flush: an entry leaves the index exactly if the flush cleans, a newer flushed root not above the cleaning limit has the key too, and the entry is a cached one of a flushed root, or a stored one and obsolete accounts are marked; the other entries of flushed roots become stored |
| `FlushRoots.MaxCleanRoot` | accounts-db/src/accounts_db.rs:1405-1417 | the cleaning limit is one of the two bounds and above neither |
| `FlushRoots.Flusher.ClearRoots` | accounts-db/src/accounts_cache.rs:233-246 | splits the ordered set of unflushed roots in two: the part taken ends at the requested root, the part kept begins behind it; without a request everything is taken |
| `FlushRoots.UpsertOne` | accounts-db/src/accounts_index/in_mem_accounts_index.rs:577-661 | storing one account replaces its entry and removes exactly the older stored versions when reclaiming |
| `IndexGeneration.GenerateIndex` | accounts-db/src/accounts_db.rs:6371-6706 | for every assignment of storages to threads, the index has exactly an entry for each account of a storage that is not obsolete; the data length is that of the newest versions with lamports, and each word of the hash the sum of their words, wrapped once |
| `IndexGeneration.GenerateIndexForSlot` | accounts-db/src/accounts_db.rs:6207-6369 | one storage: an entry for each account that is not obsolete, and the totals of those with lamports, added up plainly |
| `IndexGeneration.VisitDuplicates` | accounts-db/src/accounts_db.rs:6927-6979 | the totals of all versions but the newest of each key |
| `IndexGeneration.TakeOut` | accounts-db/src/accounts_db.rs:6705-6706 | taking the duplicates out does not underflow and leaves the newest versions |
| `IndexGeneration.HashFromIndex` | accounts-db/src/accounts_db.rs:5025-5082 | the walk over the index gives the same hash |
| `IndexGeneration.MixOutUndoesMixIn` | lattice-hash/src/lt_hash.rs:37-50 | mixing out undoes mixing in, with wrapping words |
| `IndexGeneration.SumTakes` | accounts-db/src/accounts_db.rs:6207-6369 | the sum does not depend on the order of its terms |
| `IndexGeneration.SumHasDataLength` | accounts-db/src/accounts_db.rs:6260-6272 | the data length of a sum is that of its accounts with lamports |
| `IndexGeneration.SumIsTotal` | accounts-db/src/accounts_db.rs:6207-6369 | running totals with wrapping words are the plain sums over the accounts with lamports, wrapped once |
| `StorageOrderer.SelectInRange` | accounts-db/src/account_storage.rs:473-490 | the selection does not underflow and stays in range |
| `StorageOrderer.SelectDiffers` | accounts-db/src/account_storage.rs:473-490 | different positions select different values |
| `StorageOrderer.SelectCounts` | accounts-db/src/account_storage.rs:466-490 | the nth selection takes the next value from the start or the end of the range |
| `StorageOrderer.SmallToLargeRatio` | accounts-db/src/account_storage.rs:336-350 | the orderer holds a permutation of the storages |
| `StorageOrderer.Consume` | accounts-db/src/account_storage.rs:424-438 | threads that call the consumer in any order each get what their calls drew, and once one of them gets nothing every storage has been taken exactly once: a schedule of index generation |
| `StorageOrderer.AllTaken` | accounts-db/src/account_storage.rs:424-438 | however the positions are spread over threads, the lists are a schedule of index generation |
| `StorageInterleaving.KeepsOrderIff` | accounts-db/src/account_storage.rs:332-350 | for any capacities and any ratio: the storages come out in the documented order, whatever the sort makes of equal capacities, exactly when the selection takes every storage of a rank to a storage of the selected rank |
| `StorageInterleaving.DistinctKeepsOrderIff` | accounts-db/src/account_storage.rs:332-350 | for distinct capacities: exactly when taking the rank and selecting commute |
| `StorageInterleaving.AlwaysKeepsOrderIff` | accounts-db/src/account_storage.rs:332-350 | for every ratio: exactly when there are at most two storages, all capacities are equal, or they rise with the index |
| `StorageInterleaving.SnapshotRatioUpToFive` | snapshots/src/archive.rs:18-21 | with four small to one large, up to five storages of any capacities come out as documented |
| `StorageInterleaving.SnapshotRatioCanMiss` | snapshots/src/archive.rs:18-21 | with the same ratio, six storages that do not |
| `AccountCaching.AccountCache.Get` | accounts-db/src/account_cache.rs:202-223 | refines moving the entry to the front of the recency sequence with its access count raised; only lookups of its key see a change |
| `AccountCaching.AccountCache.Insert` | accounts-db/src/account_cache.rs:238-269 | refines putting the entry in front; only lookups of its key see a change, keys stay distinct, and the byte count stays exact while it fits |
| `AccountCaching.AccountCache.Remove` | accounts-db/src/account_cache.rs:274-288 | refines taking the entry out; only lookups of its key see a change |
| `AccountCaching.AccountCache.EvictToWarm` | accounts-db/src/account_cache.rs:306-334 | evicts, oldest first, the shortest suffix that reaches the watermark, capped by the batch and, under LFU, by a saturated access count |
| `AccountCaching.AccountCache.EvictLru` | accounts-db/src/account_cache.rs:337-360 | evicts what the eviction count says and returns it oldest first |
| `AccountCaching.AccountCache.EvictLfu` | accounts-db/src/account_cache.rs:366-411 | the same, ending at an entry with a saturated access count |
| `AccountCaching.AccountCache.LeastUsed` | accounts-db/src/account_cache.rs:377-394 | the scan finds the tail or nothing |
| `AccountCaching.AccountCache.PushHead` | accounts-db/src/account_cache.rs:466-478 | keeps both chains and puts the node in front |
| `AccountCaching.AccountCache.Unlink` | accounts-db/src/account_cache.rs:481-501 | keeps both chains and takes the node out |
| `AccountCaching.AccountCache.AllocNode` | accounts-db/src/account_cache.rs:454-463 | listed and free nodes still partition the arena |
| `AccountCaching.EvictionIsShortest` | accounts-db/src/account_cache.rs:337-360 | with an exact byte count no shorter eviction reaches the watermark, and it ends only there, at the batch size, with nothing left or, under LFU, at a saturated access count |
| `AccountCaching.TotalSizeIs` | accounts-db/src/account_cache.rs:99-106 | the byte count is 160 per entry and the length of the data |
| `AccountCaching.LfuIsLruIff` | accounts-db/src/account_cache.rs:366-411 | LFU evicts what LRU does exactly when none of it has a saturated access count |
| `AccountCaching.LfuTakesDocumentedIff` | accounts-db/src/account_cache.rs:362-394 | LFU takes the documented victim exactly when the oldest entry is a least used one of the oldest quarter and its access count is not saturated |
| `AccountCaching.LfuEvictsMoreUsed` | accounts-db/src/account_cache.rs:377-394 | a cache where it takes another one |
| `AccountCaching.PutLookup` | accounts-db/src/account_cache.rs:238-269 | a put is seen by lookups of its key only |
| `AccountCaching.WithoutLookup` | accounts-db/src/account_cache.rs:274-288 | a removal is seen by lookups of its key only |
| `AccountLocking.LockAccounts` | accounts-db/src/accounts.rs:497-528 | validation, then strict or relaxed locking: an earlier error stays, then too many locks, a key twice and a lock in use are refused in this order, the latter exactly if a lock held before the call, or in strict mode granted earlier in it, is on the same key and one of the two writes; exactly the grants of the transactions that succeeded are added, batches stay apart, and strict mode keeps all grants free of conflicts |
| `AccountLocking.UnlockAccounts` | accounts-db/src/accounts.rs:531-547 | takes back exactly the grants of the transactions that succeeded; with none left both tables are empty |
| `AccountLocking.LockAndUnlock` | accounts-db/src/accounts.rs:497-547 | in either mode, unlocking what a call locked restores the grants and both tables |
| `AccountLocking.AccountLocks.TryLockAccounts` | accounts-db/src/account_locks.rs:24-32 | granted exactly when nothing held conflicts |
| `AccountLocking.AccountLocks.TryLockTransactionBatch` | accounts-db/src/account_locks.rs:39-57 | each request is judged against the locks held before the batch |
| `AccountLocking.AccountLocks.LockAccounts` | accounts-db/src/account_locks.rs:90-126 | counters equal the held locks |
| `AccountLocking.AccountLocks.UnlockAccounts` | accounts-db/src/account_locks.rs:63-156 | counters equal the held locks, with no zero entries |
| `AccountLocking.AccountLocks.CanLockAccounts` | accounts-db/src/account_locks.rs:73-118 | true exactly when no held lock clashes |
| `AccountLocking.WriterIsAlone` | accounts-db/src/account_locks.rs:110-118 | without conflicts a write lock is held once and alone |
| `AccountLocking.NothingHeld` | accounts-db/src/account_locks.rs:128-156 | with every grant returned both tables are empty |
| `AccountLocking.HasDuplicates` | accounts-db/src/account_locks.rs:178-199 | both methods find exactly the repeated keys |
| `AccountLocking.ValidateAccountLocks` | accounts-db/src/account_locks.rs:160-171 | too many locks exactly beyond the limit, then a key twice exactly if two locks are on one key, and success otherwise |
| `StorageReader.AccountStorageReader.constructor` | accounts-db/src/account_storage_reader.rs:28-68 | the stream is the file without the obsolete bytes and its length is known beforehand |
| `StorageReader.AccountStorageReader.Read` | accounts-db/src/account_storage_reader.rs:80-130 | for any buffer and any short reads, returns and skips exactly the next bytes of that stream, and terminates |
| `StorageReader.ReadAll` | accounts-db/src/account_storage_reader.rs:80-130 | reads with buffers of any sizes, joined, are exactly the bytes no obsolete account covers, up to what the buffers hold |
| `StorageReader.RemainingIsKept` | accounts-db/src/account_storage_reader.rs:84-108 | skipping ranges one by one leaves exactly the bytes no range covers |
| `StorageReader.RemainingLength` | accounts-db/src/account_storage_entry.rs:143-154 | the length is the file less the clipped ranges |
| `StorageReader.SortedStream` | accounts-db/src/account_storage_reader.rs:28-56 | sorting the ranges changes neither stream nor length |
| `StorageReader.RangesCoverObsolete` | accounts-db/src/account_storage_reader.rs:28-56 | the ranges skipped are exactly the bytes of the obsolete accounts |
| `WriteCache.AccountsCache.Store` | accounts-db/src/accounts_cache.rs:196-214 | the write lands in its slot cache and all sizes, counts and totals stay sums |
| `WriteCache.AccountsCache.Insert` | accounts-db/src/accounts_cache.rs:72-104 | the same for a slot cache already taken out, with no underflow |
| `WriteCache.AccountsCache.RemoveSlot` | accounts-db/src/accounts_cache.rs:221-223 | the slot leaves, the totals stay |
| `WriteCache.AccountsCache.Drop` | accounts-db/src/accounts_cache.rs:34-42 | dropping a slot cache takes exactly its share out of the totals |
| `SortDedup.SortAndRemoveDups` | accounts-db/src/accounts_db.rs:2556-2574 | strictly sorted, and of every key exactly the account found last |
| `SortDedup.RemoveDups` | accounts-db/src/accounts_db.rs:2559-2572 | the in-place loop compacts equal neighbours |
| `SortDedup.SortIsStable` | accounts-db/src/accounts_db.rs:2557-2558 | the sort keeps the accounts of each key in order |
| `SortDedup.CompactKeepsLast` | accounts-db/src/accounts_db.rs:2559-2572 | of sorted accounts the last of each key stays |
| `LargestAccounts.LoadLargestAccounts` | accounts-db/src/accounts.rs:254-307 | the first entries of all eligible accounts sorted by balance and key, whatever the scan order: accounts with lamports that the filter lets through, falling strictly, and every other such account is smaller than all of them, with as many as asked for given, or there is none |
| `LargestAccounts.LargestIsPrefix` | accounts-db/src/accounts.rs:285-307 | the heap in order is a prefix of the full list |
| `LargestAccounts.PrefixIsLargest` | accounts-db/src/accounts.rs:254-307 | a prefix of the list falling by balance and key has the largest eligible accounts |
| `TokenAmount.PrintedDenotes` | account-decoder-client-types/src/token.rs:36-47 | the printed amount reads back as the amount and its decimals, and starts with a zero only in front of the point or alone |
| `TokenAmount.TrimmedDenotes` | account-decoder-client-types/src/token.rs:49-56 | the trimmed form means the same number, does not end in a point, and has no zero at the end of a fraction |
| `TokenAmount.TrimmedKeepsInteger` | account-decoder-client-types/src/token.rs:49-56 | trimming leaves the integer digits alone |
| `TokenAmount.PrintedIsInjective` | account-decoder-client-types/src/token.rs:36-47 | for fixed decimals different amounts print differently |
| `TokenAmount.TrimmedIsInjective` | account-decoder-client-types/src/token.rs:49-56 | so they do trimmed |

## Left out

- The real accounts index, append vectors and tiered-storage files: the index is a map from keys and slots to locations, a storage a finite map with a fresh id.
- Candidate bins and the parallel iteration over them in clean: candidates are one map, visited in any order.
- CleanScan.ScanCandidates: keys come as a set; how the dirty and delayed keys are collected, and the ancient-account counters, are left out.
- ReadProtocol.LoadsAreWritten: taking the slot cache and reading the account from it is one step; without a fixed root any entry of the key may be chosen.
- ReadProtocol.ReadersNeverPanic: falling back to the slow path after very many failed iterations is not modelled.
- IndexGeneration.GenerateIndex: the threads run one after the other; what they put into the index has different slots, so only the order of the sums is at stake.
- DatabaseRun.DatabaseIsSafe: flushing slots that are not roots, removing stored slots that are not roots, and reclaiming older versions at a flush are left out; the contents of the write cache are not followed, so what is compared are the stored accounts.
- ShrinkSlots.ShrinkStorage: whether shrinking is worth it is a parameter, offsets grow by at least the size of an account, and obsolete marks are left out.
- FlushRoots.Flusher.ClearRoots: does not model the overflow of the root bound at the largest slot.
- A flush that finds its slot under contention and skips it: `SlotContention.dfy` has it, `FlushRoots.dfy` flushes alone.
- WriteCache.AccountsCache.Drop: the reference counts that decide when it happens are not modelled, and each operation is atomic.
- AccountCaching.AccountCache.EvictToWarm: the watermark is a parameter, since it comes from a floating-point product; hit rates and other statistics are left out.
- Sums of data lengths and lock counts are not bounded by 64 bits.
- The account hash is a parameter of index generation; blake3 is not modelled.
- Marking duplicates obsolete after index generation: an optional step behind the totals, put together from the reclaim and the purge modelled in `CleanScan.dfy` and `PurgeAccounts.dfy`.
- The offsets a storage keeps of its zero-lamport single references: they only pick storages for shrink; dropping such an account is part of `ShrinkSlots.dfy`.
- Secondary indexes: they narrow scans by owner or mint, and the scans modelled here read the whole index.
- The hook of the hot-tier cache in account loading: its adapter is not part of this model.
- Ancient-slot packing, shrink candidate selection by ratio, snapshots on disk, geyser notification, metrics, thread pools, and the account decoders.
