/**
 The clean of the database object in terms of the restart machine: the reclaim of older versions keeps
 its invariant, and the purge that follows is one of its steps.
 */
module CleanIsPurge {
  import opened Types
  import opened DeleteDependencies
  import opened AccountsState
  import opened CleanAccounts
  import opened PurgeAccounts
  import opened AccountsDatabase
  import opened CleanScan
  import Restore = RestoreSafety

  // The storages as the restart machine sees them; the frame has its roots and snapshots.
  function Abs(index: Index, storage: Storage, frame: Restore.State): Restore.State {
    frame.(stores := map s | s in storage ::
      Restore.Store(map k | k in storage[s].accounts :: storage[s].accounts[k].account, AliveKeys(index, storage, s)))
  }

  ghost function LiveSlots(index: Index, storage: Storage, k: Pubkey): set<Slot> {
    set s | s in storage && k in storage[s].accounts && AliveAt(index, k, s)
  }

  lemma AbsSlots(index: Index, storage: Storage, frame: Restore.State, k: Pubkey)
    ensures Abs(index, storage, frame).Held(k) == Holders(storage, k)
    ensures Abs(index, storage, frame).Live(k) == LiveSlots(index, storage, k)
  {
  }

  // What clean knows of a purged key: it purges every copy there is, the newest is zero-lamport
  // and not newer than the full snapshot slot, and the stores die.
  ghost predicate GoodPurge(storage: Storage, purge: Purge, full: Option<Slot>, k: Pubkey) {
    && k in purge && purge[k] != {} && purge[k] == Holders(storage, k)
    && storage[Restore.Newest(purge[k])].accounts[k].account.ZeroLamport()
    && (forall s | s in purge[k] :: full.Some? ==> s <= full.value)
    && purge[k] <= DeadSlots(storage, purge)
  }

  lemma EmptiedAreDead(index: Index, storage: Storage, purge: Purge, frame: Restore.State, s: Slot)
    requires Accurate(index, storage) && Purgeable(index, purge)
    requires forall k | k in purge :: purge[k] == Holders(storage, k)
    requires s in storage
    ensures Restore.Emptied(Abs(index, storage, frame), purge.Keys, s) <==> s in DeadSlots(storage, purge)
    ensures AliveKeys(index, storage, s) - PurgedAt(purge, s) == AliveKeys(index, storage, s) - purge.Keys
  {
    PurgedAreAlive(index, storage, purge, s);
    forall k | k in AliveKeys(index, storage, s) && k in purge ensures k in PurgedAt(purge, s) {
      assert s in Holders(storage, k);
    }
  }

  lemma AliveKeysAfter(index: Index, storage: Storage, purge: Purge, s: Slot)
    requires s in PurgedStorage(storage, purge)
    ensures s in storage
    ensures AliveKeys(IndexAfter(index, storage, purge), PurgedStorage(storage, purge), s)
         == AliveKeys(index, storage, s) - PurgedAt(purge, s)
  {
    PurgedStorageAt(storage, purge, s);
    forall k
      ensures k in AliveKeys(IndexAfter(index, storage, purge), PurgedStorage(storage, purge), s)
         <==> k in AliveKeys(index, storage, s) - PurgedAt(purge, s)
    {
      AliveAfter(index, storage, purge, k, s);
    }
  }

  lemma AbsStoreAfter(index: Index, storage: Storage, purge: Purge, frame: Restore.State, s: Slot)
    requires Accurate(index, storage) && Purgeable(index, purge)
    requires forall k | k in purge :: purge[k] == Holders(storage, k)
    ensures var left := Abs(IndexAfter(index, storage, purge), PurgedStorage(storage, purge), frame).stores;
            var right := Restore.AfterPurge(Abs(index, storage, frame), purge.Keys).stores;
            (s in left <==> s in right) && (s in left ==> left[s] == right[s])
  {
    PurgedStorageAt(storage, purge, s);
    if s in storage {
      EmptiedAreDead(index, storage, purge, frame, s);
      if s in PurgedStorage(storage, purge) {
        AliveKeysAfter(index, storage, purge, s);
      }
    }
  }

  lemma SameStates(a: Restore.State, b: Restore.State)
    requires a == b.(stores := a.stores)
    requires forall s :: (s in a.stores <==> s in b.stores) && (s in a.stores ==> a.stores[s] == b.stores[s])
    ensures a == b
  {
    assert a.stores == b.stores;
  }

  lemma AbsAfter(index: Index, storage: Storage, purge: Purge, frame: Restore.State)
    requires Accurate(index, storage) && Purgeable(index, purge)
    requires forall k | k in purge :: purge[k] == Holders(storage, k)
    ensures Abs(IndexAfter(index, storage, purge), PurgedStorage(storage, purge), frame)
         == Restore.AfterPurge(Abs(index, storage, frame), purge.Keys)
  {
    forall s {
      AbsStoreAfter(index, storage, purge, frame, s);
    }
    SameStates(Abs(IndexAfter(index, storage, purge), PurgedStorage(storage, purge), frame),
               Restore.AfterPurge(Abs(index, storage, frame), purge.Keys));
  }

  lemma AbsAccount(index: Index, storage: Storage, frame: Restore.State, k: Pubkey, s: Slot)
    requires s in Holders(storage, k)
    ensures s in Abs(index, storage, frame).Held(k)
    ensures Abs(index, storage, frame).At(s, k) == Visible(storage[s].accounts[k].account)
  {
  }

  // A key purged from all its stores is alive in all of them.
  lemma GoodPurgeIsAlive(index: Index, storage: Storage, purge: Purge, frame: Restore.State, k: Pubkey)
    requires Purgeable(index, purge) && k in purge && purge[k] == Holders(storage, k)
    ensures Abs(index, storage, frame).Live(k) == purge[k] && Abs(index, storage, frame).Held(k) == purge[k]
  {
    AbsSlots(index, storage, frame, k);
    forall s | s in purge[k] ensures s in LiveSlots(index, storage, k) {
      assert AliveAt(index, k, s);
    }
  }

  lemma GoodPurgeMayPurge(index: Index, storage: Storage, purge: Purge, frame: Restore.State, k: Pubkey)
    requires Accurate(index, storage) && Purgeable(index, purge)
    requires forall l | l in purge :: purge[l] == Holders(storage, l)
    requires GoodPurge(storage, purge, frame.guard, k)
    ensures Restore.MayPurge(Abs(index, storage, frame), purge.Keys, k)
  {
    GoodPurgeIsAlive(index, storage, purge, frame, k);
    AbsAccount(index, storage, frame, k, Restore.Newest(purge[k]));
    forall s | s in purge[k] ensures Restore.Emptied(Abs(index, storage, frame), purge.Keys, s) {
      EmptiedAreDead(index, storage, purge, frame, s);
    }
  }

  /** A clean whose purges are good takes the restart machine through one purge step. */
  lemma CleanIsPurgeStep(index: Index, storage: Storage, purge: Purge, frame: Restore.State)
    requires Accurate(index, storage) && Purgeable(index, purge)
    requires forall k | k in purge :: GoodPurge(storage, purge, frame.guard, k)
    ensures Restore.Purge(Abs(index, storage, frame),
                          Abs(IndexAfter(index, storage, purge), PurgedStorage(storage, purge), frame),
                          purge.Keys)
  {
    forall k | k in purge ensures purge[k] == Holders(storage, k) {
      assert GoodPurge(storage, purge, frame.guard, k);
    }
    forall k | k in purge ensures Restore.MayPurge(Abs(index, storage, frame), purge.Keys, k) {
      GoodPurgeMayPurge(index, storage, purge, frame, k);
    }
    AbsAfter(index, storage, purge, frame);
  }

  lemma NewestIsZero(index: Index, storage: Storage, k: Pubkey, info: CleaningInfo)
    requires AllResolve(index, storage) && CandidateCurrent(index, k, info) && EndsAtZero(info)
    ensures info.Slots() != {}
    ensures var s := Restore.Newest(info.Slots());
            s in storage && k in storage[s].accounts && storage[s].accounts[k].account.ZeroLamport()
  {
    var newest := NewestEntry(info.slotList);
    var n :| 0 <= n < |info.slotList| && info.slotList[n] == newest;
    var s := newest.0;
    assert s in info.Slots();
    Restore.NewestIs(info.Slots(), s);
    assert EntryCurrent(index, k, info.slotList[n]);
    assert ResolvesTo(storage, k, s, index[k].slots[s]);
  }

  lemma PurgedSlotsAreSeen(info: CleaningInfo, kept: StoreCounts, maxCleanRoot: Option<Slot>, full: Option<Slot>)
    requires AllUpTo(info, if maxCleanRoot.Some? then maxCleanRoot.value else SLOT_MAX)
    requires Purged(info, kept, Filtering(maxCleanRoot, full), full)
    ensures forall s | s in info.Slots() :: full.Some? ==> s <= full.value
  {
  }

  // With one entry each, the candidates of a store are purged together or put off together.
  lemma SinglesGoTogether(c: Candidates, kept: StoreCounts, filtering: bool, full: Option<Slot>, k: Pubkey, l: Pubkey,
                          s: Slot)
    requires forall m | m in c :: |c[m].slotList| == 1
    requires k in PurgeOf(c, kept, filtering, full) && s in c[k].Slots()
    requires l in PurgedAt(PurgeOf(c, kept, false, None), s)
    ensures l in PurgedAt(PurgeOf(c, kept, filtering, full), s)
  {
    assert c[k].slotList[0].0 == s && c[l].slotList[0].0 == s;
  }

  /** With one entry each, a purged candidate leaves no copy behind, whether or not clean filters. */
  lemma SinglePurgeLeavesNoCopy(index: Index, storage: Storage, c: Candidates, filtering: bool, full: Option<Slot>)
    requires Accurate(index, storage) && Current(index, c) && AllSlots(c) <= storage.Keys
    requires forall l | l in c :: |c[l].slotList| == 1
    ensures NoCopyLeft(storage, PurgeOf(c, KeptCounts(c, storage), filtering, full))
  {
    var kept := KeptCounts(c, storage);
    var purge := PurgeOf(c, kept, filtering, full);
    PurgeOfIsPurgeable(index, c, kept, filtering, full);
    forall k | k in purge
      ensures purge[k] <= DeadSlots(storage, purge) && Holders(PurgedStorage(storage, purge), k) == {}
    {
      forall s | s in purge[k] ensures s in DeadSlots(storage, purge) {
        TouchedStoreIsFullyPurged(index, storage, c, k, s);
        forall l | l in AliveKeys(index, storage, s) ensures l in PurgedAt(purge, s) {
          SinglesGoTogether(c, kept, filtering, full, k, l, s);
        }
        PurgedAreAlive(index, storage, purge, s);
        assert k in PurgedAt(purge, s);
      }
      PurgedIsHeldNowhereElse(index, storage, c, k);
    }
  }

  // What clean chooses to purge, with one entry per candidate, is a good purge.
  lemma ChosenPurgeIsGood(index: Index, storage: Storage, c: Candidates, maxCleanRoot: Option<Slot>,
                          full: Option<Slot>, k: Pubkey)
    requires Accurate(index, storage) && Current(index, c)
    requires AllSlots(c) <= storage.Keys
    requires forall l | l in c :: EndsAtZero(c[l]) && |c[l].slotList| == 1
    requires forall l | l in c :: AllUpTo(c[l], if maxCleanRoot.Some? then maxCleanRoot.value else SLOT_MAX)
    requires k in PurgeOf(c, KeptCounts(c, storage), Filtering(maxCleanRoot, full), full)
    ensures GoodPurge(storage, PurgeOf(c, KeptCounts(c, storage), Filtering(maxCleanRoot, full), full), full, k)
  {
    var filtering := Filtering(maxCleanRoot, full);
    var kept := KeptCounts(c, storage);
    var purge := PurgeOf(c, kept, filtering, full);
    var info := c[k];
    assert purge[k] == info.Slots() && Purged(info, kept, filtering, full) && info.slotList != [];
    SinglePurgeLeavesNoCopy(index, storage, c, filtering, full);
    assert purge[k] == Holders(storage, k) by {
      PurgedIsHeldNowhereElse(index, storage, c, k);
    }
    assert CandidateCurrent(index, k, info);
    NewestIsZero(index, storage, k, info);
    PurgedSlotsAreSeen(info, kept, maxCleanRoot, full);
  }

  // ---------- the reclaim of older versions ----------

  // Storages up to the clean root belong to roots.
  ghost predicate StoresAreRooted(storage: Storage, roots: set<Slot>, limit: Slot) {
    forall s | s in storage && s <= limit :: s in roots
  }

  // The newest stored version of a key is not an older one.
  lemma NewestIsSpared(index: Index, storage: Storage, roots: set<Slot>, limit: Slot, older: Purge, k: Pubkey)
    requires AllResolve(index, storage) && ReclaimsOlder(index, roots, limit, older) && Flushed(index, roots, limit)
    requires StoresAreRooted(storage, roots, limit) && k in older && LiveSlots(index, storage, k) != {}
    ensures Restore.Newest(LiveSlots(index, storage, k)) !in older[k]
  {
    var top := Restore.Newest(LiveSlots(index, storage, k));
    var newest :| IsNewestRoot(index[k].slots, roots, limit, newest)
        && older[k] == OldSlots(index[k].slots, newest, limit);
    if top < limit {
      assert top in Rooted(index[k].slots, roots, limit);
      assert AliveAt(index, k, newest);
      assert ResolvesTo(storage, k, newest, index[k].slots[newest]);
      assert newest in LiveSlots(index, storage, k);
    }
  }

  lemma LiveAfterPurge(index: Index, storage: Storage, purge: Purge, k: Pubkey)
    requires Accurate(index, storage) && Purgeable(index, purge)
    ensures LiveSlots(IndexAfter(index, storage, purge), PurgedStorage(storage, purge), k)
         == LiveSlots(index, storage, k) - if k in purge then purge[k] else {}
    ensures Holders(PurgedStorage(storage, purge), k) <= Holders(storage, k)
  {
    var index', storage' := IndexAfter(index, storage, purge), PurgedStorage(storage, purge);
    forall s
      ensures s in LiveSlots(index', storage', k)
         <==> s in LiveSlots(index, storage, k) && !(k in purge && s in purge[k])
    {
      AliveAfter(index, storage, purge, k, s);
      PurgedStorageAt(storage, purge, s);
      if AliveAt(index', k, s) {
        SurvivorKeepsStore(index, storage, purge, k, s);
      }
    }
  }

  lemma AbsAt(index: Index, storage: Storage, purge: Purge, frame: Restore.State, k: Pubkey, s: Slot)
    requires s in Holders(PurgedStorage(storage, purge), k)
    ensures s in Holders(storage, k)
    ensures Abs(IndexAfter(index, storage, purge), PurgedStorage(storage, purge), frame).At(s, k)
         == Abs(index, storage, frame).At(s, k)
  {
    PurgedStorageAt(storage, purge, s);
  }

  // The live and held slots of a key around the reclaim.
  lemma ReclaimThins(index: Index, storage: Storage, roots: set<Slot>, limit: Slot, older: Purge, k: Pubkey)
    requires Accurate(index, storage) && ReclaimsOlder(index, roots, limit, older) && Flushed(index, roots, limit)
    requires StoresAreRooted(storage, roots, limit)
    ensures var index', storage' := IndexAfter(index, storage, older), PurgedStorage(storage, older);
            && LiveSlots(index', storage', k) <= Holders(storage', k) && Holders(storage', k) <= Holders(storage, k)
            && LiveSlots(index', storage', k) <= LiveSlots(index, storage, k)
            && (LiveSlots(index, storage, k) != {} ==>
                Restore.Newest(LiveSlots(index, storage, k)) in LiveSlots(index', storage', k))
  {
    ReclaimsArePurgeable(index, roots, limit, older);
    LiveAfterPurge(index, storage, older, k);
    if k in older && LiveSlots(index, storage, k) != {} {
      NewestIsSpared(index, storage, roots, limit, older, k);
    }
  }

  // Reclaiming older versions keeps what a restart shows.
  lemma ReclaimKeepsKeyInv(index: Index, storage: Storage, roots: set<Slot>, limit: Slot, older: Purge,
                           frame: Restore.State, k: Pubkey)
    requires Accurate(index, storage) && ReclaimsOlder(index, roots, limit, older) && Flushed(index, roots, limit)
    requires StoresAreRooted(storage, roots, limit) && Restore.KeyInv(Abs(index, storage, frame), k)
    ensures Restore.KeyInv(Abs(IndexAfter(index, storage, older), PurgedStorage(storage, older), frame), k)
  {
    var index', storage' := IndexAfter(index, storage, older), PurgedStorage(storage, older);
    var st, st' := Abs(index, storage, frame), Abs(index', storage', frame);
    ReclaimThins(index, storage, roots, limit, older, k);
    AbsSlots(index, storage, frame, k);
    AbsSlots(index', storage', frame, k);
    forall s | s in st'.Held(k) ensures s in st.Held(k) && st'.At(s, k) == st.At(s, k) {
      AbsAt(index, storage, older, frame, k, s);
    }
    Restore.ThinnedKeeps(st, st', k);
  }

  lemma ReclaimKeepsInv(index: Index, storage: Storage, roots: set<Slot>, limit: Slot, older: Purge,
                        frame: Restore.State)
    requires Accurate(index, storage) && ReclaimsOlder(index, roots, limit, older) && Flushed(index, roots, limit)
    requires StoresAreRooted(storage, roots, limit) && Restore.Inv(Abs(index, storage, frame))
    ensures Restore.Inv(Abs(IndexAfter(index, storage, older), PurgedStorage(storage, older), frame))
  {
    Restore.FewerStoresKeep(Abs(index, storage, frame),
                            Abs(IndexAfter(index, storage, older), PurgedStorage(storage, older), frame));
    forall k ensures Restore.KeyInv(Abs(IndexAfter(index, storage, older), PurgedStorage(storage, older), frame), k) {
      ReclaimKeepsKeyInv(index, storage, roots, limit, older, frame, k);
    }
  }

  // ---------- the whole clean ----------

  // The highest slot clean looks at: its root, or without one the highest root.
  ghost predicate IsLimit(maxCleanRoot: Option<Slot>, roots: set<Slot>, limit: Slot) {
    limit <= SLOT_MAX && if maxCleanRoot.Some? then limit == maxCleanRoot.value else forall r | r in roots :: r <= limit
  }

  // Every candidate is down to its newest version, a zero-lamport one within the clean root.
  ghost predicate Single(c: Candidates, limit: Slot) {
    forall k | k in c :: |c[k].slotList| == 1 && EndsAtZero(c[k]) && AllUpTo(c[k], limit)
  }

  lemma RecountedAreSingle(index: Index, storage: Storage, older: Purge, reclaimed: Reclaimed,
                           roots: set<Slot>, limit: Slot, c: Candidates)
    requires Accurate(index, storage) && ReclaimsOlder(index, roots, limit, older)
             && Reports(index, storage, older, reclaimed)
    requires Flushed(index, roots, limit) && forall k | k in c :: k in older && ReadFrom(index, roots, limit, k, c[k])
    ensures forall k | k in c :: CandidateKnown(IndexAfter(index, storage, older), reclaimed, k, c[k])
    ensures Single(RecountedAll(IndexAfter(index, storage, older), reclaimed, c), limit)
  {
    forall k | k in c
      ensures CandidateKnown(IndexAfter(index, storage, older), reclaimed, k, c[k])
      ensures var left := Recounted(IndexAfter(index, storage, older), reclaimed, k, c[k]);
              |left.slotList| == 1 && EndsAtZero(left) && AllUpTo(left, limit)
    {
      RecountLeavesNewest(index, storage, older, reclaimed, roots, limit, k, c[k]);
    }
  }

  lemma ChosenIsPurgeStep(index: Index, storage: Storage, c: Candidates, maxCleanRoot: Option<Slot>, roots: set<Slot>,
                          limit: Slot,
                          frame: Restore.State, purge: Purge)
    requires Accurate(index, storage) && Single(c, limit) && IsLimit(maxCleanRoot, roots, limit)
    requires Chosen(index, storage, c, Filtering(maxCleanRoot, frame.guard), frame.guard, purge)
    ensures Restore.Purge(Abs(index, storage, frame),
                          Abs(IndexAfter(index, storage, purge), PurgedStorage(storage, purge), frame),
                          purge.Keys)
  {
    PurgeOfIsPurgeable(index, c, KeptCounts(c, storage), Filtering(maxCleanRoot, frame.guard), frame.guard);
    forall k | k in purge ensures GoodPurge(storage, purge, frame.guard, k) {
      ChosenPurgeIsGood(index, storage, c, maxCleanRoot, frame.guard, k);
    }
    CleanIsPurgeStep(index, storage, purge, frame);
  }

  lemma SingleNeverPanics(c: Candidates, limit: Slot)
    requires Single(c, limit)
    ensures forall kept, filtering :: !SomePanics(c, kept, filtering)
  {
  }

  // A clean of the given keys: older versions are reclaimed first, then exactly the chosen candidates,
  // of those whose newest rooted version is zero-lamport, are purged.
  ghost predicate Cleaned(index0: Index, storage0: Storage, keys: set<Pubkey>, roots: set<Slot>, limit: Slot,
                          filtering: bool, full: Option<Slot>, older: Purge, left: Candidates, purge: Purge,
                          index': Index, storage': Storage)
  {
    var index1, storage1 := IndexAfter(index0, storage0, older), PurgedStorage(storage0, older);
    && older.Keys == keys * index0.Keys && ReclaimsOlder(index0, roots, limit, older)
    && (forall k :: k in left <==> k in keys && k in index0 && IsCandidate(index0[k].slots, roots, limit))
    && Single(left, limit) && Chosen(index1, storage1, left, filtering, full, purge)
    && index' == IndexAfter(index1, storage1, purge) && storage' == PurgedStorage(storage1, purge)
  }

  // The two purges of a clean are of alive entries.
  lemma CleanedKeepsAccurate(index0: Index, storage0: Storage, keys: set<Pubkey>, roots: set<Slot>, limit: Slot,
                             filtering: bool, full: Option<Slot>, older: Purge, left: Candidates, purge: Purge,
                             index': Index, storage': Storage)
    requires Accurate(index0, storage0)
    requires Cleaned(index0, storage0, keys, roots, limit, filtering, full, older, left, purge, index', storage')
    ensures Accurate(IndexAfter(index0, storage0, older), PurgedStorage(storage0, older)) && Accurate(index', storage')
    ensures NoCopyLeft(PurgedStorage(storage0, older), purge)
  {
    var index1, storage1 := IndexAfter(index0, storage0, older), PurgedStorage(storage0, older);
    ReclaimsArePurgeable(index0, roots, limit, older);
    PurgeKeepsAccurate(index0, storage0, older);
    PurgeOfIsPurgeable(index1, left, KeptCounts(left, storage1), filtering, full);
    PurgeKeepsAccurate(index1, storage1, purge);
    SinglePurgeLeavesNoCopy(index1, storage1, left, filtering, full);
  }

  lemma FilteringHasSnapshot(maxCleanRoot: Option<Slot>, full: Option<Slot>, roots: set<Slot>, limit: Slot)
    requires IsLimit(maxCleanRoot, roots, limit) && Filtering(maxCleanRoot, full)
    ensures full.Some?
  {
  }

  ghost predicate SlotsUpTo(c: Candidates, p: set<Pubkey>, full: Option<Slot>) {
    forall k, s | k in p && k in c && s in c[k].Slots() :: full.Some? ==> s <= full.value
  }

  lemma ChosenIsGreatest(index: Index, storage: Storage, c: Candidates, filtering: bool, full: Option<Slot>,
                         purge: Purge, p: set<Pubkey>)
    requires Accurate(index, storage) && Chosen(index, storage, c, filtering, full, purge)
    requires SafeToPurge(index, storage, c, p)
    requires filtering ==> full.Some? && SlotsUpTo(c, p, full)
    ensures p <= purge.Keys
  {
    PurgeIsGreatest(index, storage, c, p, filtering, full);
  }

  // The newest rooted version of the key within the clean root is a zero-lamport one. After the reclaim no other
  // store holds the key, all that is alive in its store is in the set, and the full snapshot has seen it.
  ghost predicate CanGo(index0: Index, roots: set<Slot>, limit: Slot, full: Option<Slot>, index1: Index,
                        storage1: Storage, p: set<Pubkey>, k: Pubkey, s: Slot)
  {
    && k in index0 && s in index0[k].slots && s in roots && s <= limit && index0[k].slots[s].zeroLamport
    && (forall t | t in index0[k].slots && t in roots && t <= limit :: t <= s)
    && s in storage1 && Holders(storage1, k) == {s} && AliveKeys(index1, storage1, s) <= p
    && (full.Some? ==> s <= full.value)
  }

  lemma CanGoIsCandidate(index0: Index, roots: set<Slot>, limit: Slot, full: Option<Slot>, index1: Index,
                         storage1: Storage, p: set<Pubkey>, k: Pubkey, s: Slot)
    requires CanGo(index0, roots, limit, full, index1, storage1, p, k, s)
    ensures IsCandidate(index0[k].slots, roots, limit)
  {
    assert IsTop(Rooted(index0[k].slots, roots, limit), s);
  }

  lemma SingleSlot(index: Index, storage: Storage, k: Pubkey, info: CleaningInfo, s: Slot)
    requires AllResolve(index, storage) && CandidateCurrent(index, k, info) && |info.slotList| == 1
    requires Holders(storage, k) == {s}
    ensures info.Slots() == {s}
  {
    var t := info.slotList[0].0;
    assert EntryCurrent(index, k, info.slotList[0]);
    assert ResolvesTo(storage, k, t, index[k].slots[t]);
    assert t in Holders(storage, k);
    assert info.Slots() == {t};
  }

  // All keys of the set can go together.
  ghost predicate AllCanGo(index0: Index, roots: set<Slot>, limit: Slot, full: Option<Slot>, index1: Index,
                           storage1: Storage, p: set<Pubkey>)
  {
    forall k | k in p :: exists s :: CanGo(index0, roots, limit, full, index1, storage1, p, k, s)
  }

  lemma AllCanGoIsSafe(index0: Index, roots: set<Slot>, limit: Slot, full: Option<Slot>, index1: Index,
                       storage1: Storage, left: Candidates, p: set<Pubkey>)
    requires AllCanGo(index0, roots, limit, full, index1, storage1, p)
    requires AllResolve(index1, storage1) && Current(index1, left) && Single(left, limit)
    requires forall k | k in p && k in index0 && IsCandidate(index0[k].slots, roots, limit) :: k in left
    ensures SafeToPurge(index1, storage1, left, p) && SlotsUpTo(left, p, full)
  {
    forall k | k in p
      ensures k in left && left[k].slotList != [] && left[k].Slots() == Holders(storage1, k)
      ensures forall s | s in left[k].Slots() ::
                s in storage1 && AliveKeys(index1, storage1, s) <= p && (full.Some? ==> s <= full.value)
    {
      var s :| CanGo(index0, roots, limit, full, index1, storage1, p, k, s);
      CanGoIsCandidate(index0, roots, limit, full, index1, storage1, p, k, s);
      assert CandidateCurrent(index1, k, left[k]);
      SingleSlot(index1, storage1, k, left[k], s);
    }
  }

  /** A clean purges as much as it can: every set of the keys it looks at that can go together. */
  lemma CleanedIsGreatest(index0: Index, storage0: Storage, keys: set<Pubkey>, roots: set<Slot>,
                          maxCleanRoot: Option<Slot>, limit: Slot, full: Option<Slot>, older: Purge, left: Candidates,
                          purge: Purge, index': Index, storage': Storage, p: set<Pubkey>)
    requires Accurate(index0, storage0) && IsLimit(maxCleanRoot, roots, limit)
    requires Cleaned(index0, storage0, keys, roots, limit, Filtering(maxCleanRoot, full), full, older, left, purge,
                     index', storage')
    requires p <= keys
    requires AllCanGo(index0, roots, limit, full, IndexAfter(index0, storage0, older), PurgedStorage(storage0, older),
                      p)
    ensures p <= purge.Keys
  {
    var filtering := Filtering(maxCleanRoot, full);
    var index1, storage1 := IndexAfter(index0, storage0, older), PurgedStorage(storage0, older);
    if filtering {
      FilteringHasSnapshot(maxCleanRoot, full, roots, limit);
    }
    CleanedKeepsAccurate(index0, storage0, keys, roots, limit, filtering, full, older, left, purge, index', storage');
    AllCanGoIsSafe(index0, roots, limit, full, index1, storage1, left, p);
    ChosenIsGreatest(index1, storage1, left, filtering, full, purge, p);
  }

  /**
   One clean from the index it finds: it reads the candidates, reclaims older versions, and purges. It
   does not panic and keeps all counters accurate.
   */
  method CleanRooted(db: AccountsDb, keys: set<Pubkey>, roots: set<Slot>, maxCleanRoot: Option<Slot>, limit: Slot)
    returns (purge: Option<Purge>, ghost older: Purge, ghost left: Candidates)
    requires Accurate(db.index, db.storage) && Flushed(db.index, roots, limit) && IsLimit(maxCleanRoot, roots, limit)
    modifies db`index, db`storage, db`zeroLamportsToPurgeAfterSnapshot
    ensures purge.Some? && Accurate(db.index, db.storage)
    ensures Cleaned(old(db.index), old(db.storage), keys, roots, limit,
                    Filtering(maxCleanRoot, db.latestFullSnapshotSlot),
                    db.latestFullSnapshotSlot, older, left, purge.value, db.index, db.storage)
  {
    ghost var index0, storage0 := db.index, db.storage;
    var c, reclaim := ScanCandidates(db.index, keys, roots, limit);
    older := reclaim;
    ReclaimsArePurgeable(db.index, roots, limit, reclaim);
    var reclaimed;
    db.index, db.storage, reclaimed := HandlePurge(db.index, db.storage, reclaim);
    RecountedAreSingle(index0, storage0, older, reclaimed, roots, limit, c);
    left := RecountedAll(db.index, reclaimed, c);
    SingleNeverPanics(left, limit);
    purge := db.CleanCandidates(c, reclaimed, maxCleanRoot);
  }

  /** After a clean, what a restart shows is still what the database shows: its purge is a step of the machine. */
  lemma CleanKeepsRestartSafe(index0: Index, storage0: Storage, keys: set<Pubkey>, roots: set<Slot>,
                              maxCleanRoot: Option<Slot>,
                              limit: Slot, frame: Restore.State,
                              older: Purge, left: Candidates, purge: Purge, index': Index, storage': Storage)
    requires Accurate(index0, storage0) && Flushed(index0, roots, limit) && IsLimit(maxCleanRoot, roots, limit)
    requires StoresAreRooted(storage0, roots, limit)
    requires Cleaned(index0, storage0, keys, roots, limit, Filtering(maxCleanRoot, frame.guard), frame.guard, older,
                     left, purge, index', storage')
    ensures Restore.Purge(Abs(IndexAfter(index0, storage0, older), PurgedStorage(storage0, older), frame),
                          Abs(index', storage', frame), purge.Keys)
    ensures Restore.Inv(Abs(index0, storage0, frame)) ==> Restore.Inv(Abs(index', storage', frame))
  {
    var index1, storage1 := IndexAfter(index0, storage0, older), PurgedStorage(storage0, older);
    ReclaimsArePurgeable(index0, roots, limit, older);
    PurgeKeepsAccurate(index0, storage0, older);
    ChosenIsPurgeStep(index1, storage1, left, maxCleanRoot, roots, limit, frame, purge);
    if Restore.Inv(Abs(index0, storage0, frame)) {
      ReclaimKeepsInv(index0, storage0, roots, limit, older, frame);
      Restore.NextKeepsInv(Abs(index1, storage1, frame), Abs(index', storage', frame));
    }
  }
}
