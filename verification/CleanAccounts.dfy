/**
 The purge half of clean: count what each store would keep, find the stores that can be emptied,
 drop the candidates that must stay, and purge the rest from index and storage.
 */
module CleanAccounts {
  import opened Types
  import opened DeleteDependencies
  import opened AccountsState

  const SLOT_MAX: Slot := 0xFFFF_FFFF_FFFF_FFFF

  // ---------- what the earlier reclaim of old versions left of a candidate ----------

  function RefCountOf(index: Index, k: Pubkey): nat {
    if k in index then index[k].refCount else 0
  }

  predicate DistinctSlots(slotList: seq<(Slot, AccountInfo)>) {
    forall i, j | 0 <= i < j < |slotList| :: slotList[i].0 != slotList[j].0
  }

  ghost predicate EntryCurrent(index: Index, k: Pubkey, item: (Slot, AccountInfo)) {
    AliveAt(index, k, item.0) && index[k].slots[item.0] == item.1
  }

  // A candidate was read from the index before old versions were reclaimed.
  ghost predicate CandidateKnown(index: Index, reclaimed: Reclaimed, k: Pubkey, info: CleaningInfo) {
    && DistinctSlots(info.slotList)
    && (forall i | 0 <= i < |info.slotList| ::
          reclaimed.Gone(k, info.slotList[i].0, info.slotList[i].1) || EntryCurrent(index, k, info.slotList[i]))
    && (k !in reclaimed.purgedSlots ==> info.refCount == RefCountOf(index, k))
  }

  // After recounting, every entry of every candidate is in the index and reference counts are fresh.
  ghost predicate CandidateCurrent(index: Index, k: Pubkey, info: CleaningInfo) {
    && DistinctSlots(info.slotList)
    && (forall i | 0 <= i < |info.slotList| :: EntryCurrent(index, k, info.slotList[i]))
    && info.refCount == RefCountOf(index, k)
  }

  ghost predicate Current(index: Index, c: Candidates) {
    forall k | k in c :: CandidateCurrent(index, k, c[k])
  }

  function StillThere(reclaimed: Reclaimed, k: Pubkey, slotList: seq<(Slot, AccountInfo)>): seq<(Slot, AccountInfo)> {
    if slotList == [] then []
    else
      var last := slotList[|slotList| - 1];
      StillThere(reclaimed, k, slotList[..|slotList| - 1])
      + if reclaimed.Gone(k, last.0, last.1) then [] else [last]
  }

  function Recounted(index: Index, reclaimed: Reclaimed, k: Pubkey, info: CleaningInfo): CleaningInfo {
    CleaningInfo(StillThere(reclaimed, k, info.slotList),
                 if k in reclaimed.purgedSlots then RefCountOf(index, k) else info.refCount)
  }

  lemma {:induction false} StillThereIsCurrent(index: Index, reclaimed: Reclaimed, k: Pubkey,
                                               slotList: seq<(Slot, AccountInfo)>)
    requires DistinctSlots(slotList)
    requires forall i | 0 <= i < |slotList| ::
               reclaimed.Gone(k, slotList[i].0, slotList[i].1) || EntryCurrent(index, k, slotList[i])
    ensures DistinctSlots(StillThere(reclaimed, k, slotList))
    ensures forall item | item in StillThere(reclaimed, k, slotList) ::
              item in slotList && EntryCurrent(index, k, item)
  {
    if slotList != [] {
      var front := slotList[..|slotList| - 1];
      StillThereIsCurrent(index, reclaimed, k, front);
      var kept := StillThere(reclaimed, k, front);
      forall i | 0 <= i < |kept| ensures kept[i].0 != slotList[|slotList| - 1].0 {
        assert kept[i] in front;
      }
    }
  }

  lemma RecountedIsCurrent(index: Index, reclaimed: Reclaimed, k: Pubkey, info: CleaningInfo)
    requires CandidateKnown(index, reclaimed, k, info)
    ensures CandidateCurrent(index, k, Recounted(index, reclaimed, k, info))
  {
    StillThereIsCurrent(index, reclaimed, k, info.slotList);
  }

  // ---------- store counts as if every candidate were purged ----------

  function KeysAt(c: Candidates, s: Slot): set<Pubkey> {
    set k | k in c && s in c[k].Slots()
  }

  function CountsOf(c: Candidates, storage: Storage): StoreCounts
    requires AllSlots(c) <= storage.Keys
  {
    map s | s in AllSlots(c) :: StoreCount(Minus(storage[s].count, |KeysAt(c, s)|), KeysAt(c, s))
  }

  lemma CurrentSlotsAreStored(index: Index, storage: Storage, c: Candidates)
    requires AllResolve(index, storage) && Current(index, c)
    ensures AllSlots(c) <= storage.Keys
    ensures forall s | s in AllSlots(c) :: KeysAt(c, s) <= AliveKeys(index, storage, s)
  {
    forall k, s | k in c && s in c[k].Slots()
      ensures s in storage && k in storage[s].accounts && AliveAt(index, k, s)
    {
      var i :| 0 <= i < |c[k].slotList| && c[k].slotList[i].0 == s;
      assert CandidateCurrent(index, k, c[k]) && EntryCurrent(index, k, c[k].slotList[i]);
      assert ResolvesTo(storage, k, s, index[k].slots[s]);
    }
  }

  lemma CountsAreLinked(c: Candidates, storage: Storage)
    requires AllSlots(c) <= storage.Keys
    ensures Linked(c, CountsOf(c, storage))
  {
  }

  // ---------- which candidates are purged ----------

  predicate StoresGo(info: CleaningInfo, kept: StoreCounts) {
    forall i | 0 <= i < |info.slotList| ::
      info.slotList[i].0 in kept && kept[info.slotList[i].0].count == 0
  }

  // Clean reaches past the latest full snapshot, so zero-lamport accounts newer than it must stay.
  predicate Filtering(maxCleanRoot: Option<Slot>, full: Option<Slot>) {
    var upTo := if maxCleanRoot.Some? then maxCleanRoot.value else SLOT_MAX;
    var snapshot := if full.Some? then full.value else SLOT_MAX;
    upTo > snapshot
  }

  predicate AllUpTo(info: CleaningInfo, s: Slot) {
    forall i | 0 <= i < |info.slotList| :: info.slotList[i].0 <= s
  }

  predicate Purged(info: CleaningInfo, kept: StoreCounts, filtering: bool, full: Option<Slot>) {
    StoresGo(info, kept) && (filtering ==> full.Some? && AllUpTo(info, full.value))
  }

  function PurgeOf(c: Candidates, kept: StoreCounts, filtering: bool, full: Option<Slot>): Purge {
    map k | k in c && c[k].slotList != [] && Purged(c[k], kept, filtering, full) :: c[k].Slots()
  }

  lemma PurgeOfIsPurgeable(index: Index, c: Candidates, kept: StoreCounts, filtering: bool, full: Option<Slot>)
    requires Current(index, c)
    ensures Purgeable(index, PurgeOf(c, kept, filtering, full))
  {
    var purge := PurgeOf(c, kept, filtering, full);
    forall k, s | k in purge && s in purge[k] ensures AliveAt(index, k, s) {
      var i :| 0 <= i < |c[k].slotList| && c[k].slotList[i].0 == s;
      assert CandidateCurrent(index, k, c[k]) && EntryCurrent(index, k, c[k].slotList[i]);
    }
  }

  // ---------- the purge empties every store it touches ----------

  lemma {:induction false} DistinctSlotsCard(info: CleaningInfo)
    requires DistinctSlots(info.slotList)
    ensures |info.Slots()| == |info.slotList|
    decreases |info.slotList|
  {
    if info.slotList != [] {
      var n := |info.slotList| - 1;
      var front := CleaningInfo(info.slotList[..n], info.refCount);
      DistinctSlotsCard(front);
      assert info.Slots() == front.Slots() + {info.slotList[n].0};
      assert info.slotList[n].0 !in front.Slots();
    } else {
      assert info.Slots() == {};
    }
  }

  // A candidate that shares an unblocked counted slot with nothing left in it goes too.
  lemma SharerGoes(c: Candidates, counts: StoreCounts, s: Slot, k: Pubkey)
    requires Linked(c, counts)
    requires s in counts && s !in Blocked(c, counts) && k in c && s in c[k].Slots()
    ensures Deletable(c[k], counts)
    ensures StoresGo(c[k], counts - Blocked(c, counts))
  {
    BlockedIsLeastClosed(c, counts);
    assert Deletable(c[k], counts);
    forall i | 0 <= i < |c[k].slotList|
      ensures c[k].slotList[i].0 in counts - Blocked(c, counts)
    {
      var t := c[k].slotList[i].0;
      assert t in c[k].Slots();
      assert k in counts[t].keys;
    }
  }

  lemma OnlyCandidatesAlive(index: Index, storage: Storage, c: Candidates, s: Slot)
    requires Accurate(index, storage) && Current(index, c)
    requires AllSlots(c) <= storage.Keys && s in AllSlots(c)
    requires CountsOf(c, storage)[s].count == 0
    ensures KeysAt(c, s) == AliveKeys(index, storage, s)
  {
    CurrentSlotsAreStored(index, storage, c);
    SubsetCard(KeysAt(c, s), AliveKeys(index, storage, s));
  }

  lemma SharerIsPurged(c: Candidates, counts: StoreCounts, s: Slot, k: Pubkey)
    requires Linked(c, counts)
    requires s in counts && s !in Blocked(c, counts) && k in c && s in c[k].Slots()
    ensures k in PurgedAt(PurgeOf(c, counts - Blocked(c, counts), false, None), s)
  {
    SharerGoes(c, counts, s, k);
  }

  // Everything alive in a store a purged candidate is in is purged as well.
  lemma TouchedStoreIsFullyPurged(index: Index, storage: Storage, c: Candidates, k: Pubkey, s: Slot)
    requires Accurate(index, storage) && Current(index, c)
    requires AllSlots(c) <= storage.Keys
    requires k in c && s in c[k].Slots()
    requires StoresGo(c[k], CountsOf(c, storage) - Blocked(c, CountsOf(c, storage)))
    ensures s in storage
    ensures AliveKeys(index, storage, s)
         <= PurgedAt(PurgeOf(c, CountsOf(c, storage) - Blocked(c, CountsOf(c, storage)), false, None), s)
  {
    var counts: StoreCounts := CountsOf(c, storage);
    CountsAreLinked(c, storage);
    assert s in AllSlots(c);
    assert s in counts - Blocked(c, counts) && counts[s].count == 0;
    OnlyCandidatesAlive(index, storage, c, s);
    forall l | l in KeysAt(c, s)
      ensures l in PurgedAt(PurgeOf(c, counts - Blocked(c, counts), false, None), s)
    {
      SharerIsPurged(c, counts, s, l);
    }
  }

  // A purged candidate is held by exactly the stores in its slot list.
  lemma PurgedIsHeldNowhereElse(index: Index, storage: Storage, c: Candidates, k: Pubkey)
    requires Accurate(index, storage) && Current(index, c)
    requires AllSlots(c) <= storage.Keys
    requires k in c && c[k].slotList != []
    requires StoresGo(c[k], CountsOf(c, storage) - Blocked(c, CountsOf(c, storage)))
    ensures Holders(storage, k) == c[k].Slots()
  {
    var counts: StoreCounts := CountsOf(c, storage);
    CountsAreLinked(c, storage);
    var s := c[k].slotList[0].0;
    assert s in c[k].Slots() && s in counts - Blocked(c, counts);
    SharerGoes(c, counts, s, k);
    CurrentSlotsAreStored(index, storage, c);
    assert c[k].Slots() <= Holders(storage, k) by {
      forall t | t in c[k].Slots() ensures t in Holders(storage, k) {
        assert t in AllSlots(c) && k in KeysAt(c, t);
      }
    }
    assert CandidateCurrent(index, k, c[k]) && EntryCurrent(index, k, c[k].slotList[0]);
    DistinctSlotsCard(c[k]);
    SubsetCard(c[k].Slots(), Holders(storage, k));
  }

  // A set of candidates whose stores can all be emptied by purging the set.
  ghost predicate SafeToPurge(index: Index, storage: Storage, c: Candidates, p: set<Pubkey>) {
    && p <= c.Keys
    && forall k | k in p ::
         && c[k].slotList != [] && c[k].Slots() == Holders(storage, k)
         && forall s | s in c[k].Slots() && s in storage :: AliveKeys(index, storage, s) <= p
  }

  // Nothing stays alive in a store of the set.
  lemma SafeEmpties(index: Index, storage: Storage, c: Candidates, p: set<Pubkey>, k: Pubkey, s: Slot)
    requires Accurate(index, storage) && Current(index, c) && AllSlots(c) <= storage.Keys
    requires SafeToPurge(index, storage, c, p) && k in p && s in c[k].Slots()
    ensures s in CountsOf(c, storage) && CountsOf(c, storage)[s].count == 0
  {
    CurrentSlotsAreStored(index, storage, c);
    assert s in AllSlots(c);
    forall l | l in AliveKeys(index, storage, s) ensures l in KeysAt(c, s) {
      assert l in p && s in Holders(storage, l);
    }
    assert AliveKeys(index, storage, s) == KeysAt(c, s);
  }

  lemma SafeIsDeletable(index: Index, storage: Storage, c: Candidates, p: set<Pubkey>, k: Pubkey)
    requires Accurate(index, storage) && Current(index, c) && AllSlots(c) <= storage.Keys
    requires SafeToPurge(index, storage, c, p) && k in p
    ensures Deletable(c[k], CountsOf(c, storage))
  {
    assert CandidateCurrent(index, k, c[k]) && EntryCurrent(index, k, c[k].slotList[0]);
    DistinctSlotsCard(c[k]);
    forall i | 0 <= i < |c[k].slotList|
      ensures c[k].slotList[i].0 in CountsOf(c, storage) && CountsOf(c, storage)[c[k].slotList[i].0].count == 0
    {
      assert c[k].slotList[i].0 in c[k].Slots();
      SafeEmpties(index, storage, c, p, k, c[k].slotList[i].0);
    }
  }

  // A candidate outside the set shares no slot with it.
  lemma OutsideIsApart(index: Index, storage: Storage, c: Candidates, p: set<Pubkey>, k: Pubkey, l: Pubkey, s: Slot)
    requires Accurate(index, storage) && Current(index, c) && AllSlots(c) <= storage.Keys
    requires SafeToPurge(index, storage, c, p) && k in c && k !in p && l in p && s in c[k].Slots()
    ensures s !in c[l].Slots()
  {
    CurrentSlotsAreStored(index, storage, c);
    assert s in AllSlots(c) && k in KeysAt(c, s);
  }

  // Candidates in and outside the set share no slot.
  ghost predicate Apart(c: Candidates, p: set<Pubkey>) {
    forall k, l, s | k in c && k !in p && l in c && l in p && s in c[k].Slots() :: s !in c[l].Slots()
  }

  lemma SafeIsApart(index: Index, storage: Storage, c: Candidates, p: set<Pubkey>)
    requires Accurate(index, storage) && Current(index, c) && AllSlots(c) <= storage.Keys
    requires SafeToPurge(index, storage, c, p)
    ensures Apart(c, p)
  {
    forall k, l, s | k in c && k !in p && l in c && l in p && s in c[k].Slots() ensures s !in c[l].Slots() {
      OutsideIsApart(index, storage, c, p, k, l, s);
    }
  }

  ghost function Outside(c: Candidates, p: set<Pubkey>): set<Slot> {
    set k, s | k in c && k !in p && s in c[k].Slots() :: s
  }

  lemma OutsideIsClosed(c: Candidates, counts: StoreCounts, p: set<Pubkey>)
    requires Apart(c, p) && forall k | k in c && k in p :: Deletable(c[k], counts)
    requires forall s, k | s in counts && k in counts[s].keys && k in c :: s in c[k].Slots()
    ensures Closed(c, counts, Outside(c, p))
  {
    forall s, k | s in Outside(c, p) && s in counts && k in counts[s].keys && k in c
      ensures c[k].Slots() <= Outside(c, p)
    {
      var l :| l in c && l !in p && s in c[l].Slots();
    }
  }

  lemma SafeIsNotBlocked(index: Index, storage: Storage, c: Candidates, p: set<Pubkey>, k: Pubkey, s: Slot)
    requires Accurate(index, storage) && Current(index, c) && AllSlots(c) <= storage.Keys
    requires SafeToPurge(index, storage, c, p) && k in p && s in c[k].Slots()
    ensures s !in Blocked(c, CountsOf(c, storage))
  {
    var counts := CountsOf(c, storage);
    SafeIsApart(index, storage, c, p);
    forall l | l in c && l in p ensures Deletable(c[l], counts) {
      SafeIsDeletable(index, storage, c, p, l);
    }
    OutsideIsClosed(c, counts, p);
    BlockedIsLeastClosed(c, counts);
  }

  lemma SafeStoresGo(index: Index, storage: Storage, c: Candidates, p: set<Pubkey>, k: Pubkey)
    requires Accurate(index, storage) && Current(index, c) && AllSlots(c) <= storage.Keys
    requires SafeToPurge(index, storage, c, p) && k in p
    ensures StoresGo(c[k], CountsOf(c, storage) - Blocked(c, CountsOf(c, storage)))
  {
    var counts: StoreCounts := CountsOf(c, storage);
    SafeIsDeletable(index, storage, c, p, k);
    forall i | 0 <= i < |c[k].slotList| ensures c[k].slotList[i].0 !in Blocked(c, counts) {
      assert c[k].slotList[i].0 in c[k].Slots();
      SafeIsNotBlocked(index, storage, c, p, k, c[k].slotList[i].0);
    }
  }

  /**
   Clean purges as much as it can: every set of candidates whose stores can all be emptied is purged, with
   snapshot filtering as far as the full snapshot has seen it.
   */
  lemma PurgeIsGreatest(index: Index, storage: Storage, c: Candidates, p: set<Pubkey>, filtering: bool,
                        full: Option<Slot>)
    requires Accurate(index, storage) && Current(index, c) && AllSlots(c) <= storage.Keys
    requires SafeToPurge(index, storage, c, p)
    requires filtering ==> full.Some? && forall k, s | k in p && s in c[k].Slots() :: s <= full.value
    ensures p <= PurgeOf(c, CountsOf(c, storage) - Blocked(c, CountsOf(c, storage)), filtering, full).Keys
  {
    var counts: StoreCounts := CountsOf(c, storage);
    forall k | k in p ensures k in PurgeOf(c, counts - Blocked(c, counts), filtering, full) {
      SafeStoresGo(index, storage, c, p, k);
      assert filtering ==> AllUpTo(c[k], full.value) by {
        forall i | 0 <= i < |c[k].slotList| ensures c[k].slotList[i].0 in c[k].Slots() {
        }
      }
    }
  }

  /**
   With snapshot filtering off, the purge drops every store any purged key was in, and no
   remaining store holds a copy of a purged key.
   */
  lemma PurgeLeavesNoCopy(index: Index, storage: Storage, c: Candidates, k: Pubkey)
    requires Accurate(index, storage) && Current(index, c)
    requires AllSlots(c) <= storage.Keys
    requires k in PurgeOf(c, CountsOf(c, storage) - Blocked(c, CountsOf(c, storage)), false, None)
    ensures var purge := PurgeOf(c, CountsOf(c, storage) - Blocked(c, CountsOf(c, storage)), false, None);
            && purge[k] <= DeadSlots(storage, purge)
            && Holders(PurgedStorage(storage, purge), k) == {}
  {
    var purge := PurgeOf(c, CountsOf(c, storage) - Blocked(c, CountsOf(c, storage)), false, None);
    PurgeOfIsPurgeable(index, c, CountsOf(c, storage) - Blocked(c, CountsOf(c, storage)), false, None);
    forall s | s in purge[k] ensures s in DeadSlots(storage, purge) {
      TouchedStoreIsFullyPurged(index, storage, c, k, s);
      PurgedAreAlive(index, storage, purge, s);
      assert k in PurgedAt(purge, s);
    }
    PurgedIsHeldNowhereElse(index, storage, c, k);
  }
}
