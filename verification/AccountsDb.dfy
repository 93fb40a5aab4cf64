/** The database object whose index and storages clean rewrites in place. */
module AccountsDatabase {
  import opened Types
  import opened DeleteDependencies
  import opened AccountsState
  import opened CleanAccounts
  import opened PurgeAccounts

  lemma CountsIgnoreEmpty(storage: Storage, c: Candidates, k: Pubkey, refCount: nat)
    requires k !in c && AllSlots(c) <= storage.Keys
    ensures AllSlots(c[k := CleaningInfo([], refCount)]) == AllSlots(c)
    ensures CountsOf(c[k := CleaningInfo([], refCount)], storage) == CountsOf(c, storage)
  {
    var c' := c[k := CleaningInfo([], refCount)];
    assert c'[k].Slots() == {};
    assert forall l | l in c :: c'[l] == c[l];
    forall s ensures KeysAt(c', s) == KeysAt(c, s) {
    }
    assert AllSlots(c') == AllSlots(c);
  }

  lemma SlotsAppend(slotList: seq<(Slot, AccountInfo)>, refCount: nat, item: (Slot, AccountInfo))
    ensures CleaningInfo(slotList + [item], refCount).Slots() == CleaningInfo(slotList, refCount).Slots() + {item.0}
  {
    var longer := slotList + [item];
    assert longer[|slotList|] == item;
    assert forall i | 0 <= i < |slotList| :: longer[i] == slotList[i];
  }

  lemma KeysAtAppend(c: Candidates, c': Candidates, k: Pubkey, s: Slot)
    requires k in c && c'.Keys == c.Keys
    requires forall l | l in c && l != k :: c'[l] == c[l]
    requires c'[k].Slots() == c[k].Slots() + {s}
    ensures AllSlots(c') == AllSlots(c) + {s}
    ensures KeysAt(c', s) == KeysAt(c, s) + {k}
    ensures forall t | t != s :: KeysAt(c', t) == KeysAt(c, t)
  {
    forall t ensures t in AllSlots(c') <==> t in AllSlots(c) + {s} {
      if t in AllSlots(c) {
        var l :| l in c && t in c[l].Slots();
        assert t in c'[l].Slots();
      }
      if t == s {
        assert s in c'[k].Slots();
      }
      if t in AllSlots(c') {
        var l :| l in c' && t in c'[l].Slots();
        assert l == k || t in c[l].Slots();
      }
    }
  }

  function CountedIn(counts: StoreCounts, storage: Storage, k: Pubkey, s: Slot): StoreCounts
    requires s in storage
  {
    if s in counts then counts[s := StoreCount(Minus(counts[s].count, 1), counts[s].keys + {k})]
    else counts[s := StoreCount(Minus(storage[s].count, 1), {k})]
  }

  lemma SameCounts(left: StoreCounts, right: StoreCounts)
    requires forall t :: (t in left <==> t in right) && (t in left ==> left[t] == right[t])
    ensures left == right
  {
  }

  lemma CountUpdateAt(storage: Storage, c: Candidates, c': Candidates, k: Pubkey, s: Slot, t: Slot)
    requires AllSlots(c) <= storage.Keys && s in storage
    requires AllSlots(c') == AllSlots(c) + {s}
    requires KeysAt(c', s) == KeysAt(c, s) + {k} && k !in KeysAt(c, s)
    requires t != s ==> KeysAt(c', t) == KeysAt(c, t)
    requires s !in AllSlots(c) ==> KeysAt(c, s) == {}
    requires |KeysAt(c', s)| <= storage[s].count
    ensures var left, right := CountsOf(c', storage), CountedIn(CountsOf(c, storage), storage, k, s);
            (t in left <==> t in right) && (t in left ==> left[t] == right[t])
    ensures s in CountsOf(c, storage) ==> CountsOf(c, storage)[s].count > 0
    ensures storage[s].count > 0
  {
    assert |KeysAt(c', s)| == |KeysAt(c, s)| + 1;
  }

  lemma CountUpdate(storage: Storage, c: Candidates, c': Candidates, k: Pubkey, s: Slot)
    requires k in c && c'.Keys == c.Keys
    requires forall l | l in c && l != k :: c'[l] == c[l]
    requires c'[k].Slots() == c[k].Slots() + {s}
    requires s !in c[k].Slots()
    requires AllSlots(c) <= storage.Keys && s in storage
    requires |KeysAt(c', s)| <= storage[s].count
    ensures AllSlots(c') <= storage.Keys
    ensures s in CountsOf(c, storage) ==> CountsOf(c, storage)[s].count > 0
    ensures storage[s].count > 0
    ensures CountsOf(c', storage) == CountedIn(CountsOf(c, storage), storage, k, s)
  {
    KeysAtAppend(c, c', k, s);
    assert k !in KeysAt(c, s);
    assert s !in AllSlots(c) ==> KeysAt(c, s) == {};
    forall t {
      CountUpdateAt(storage, c, c', k, s, t);
    }
    CountUpdateAt(storage, c, c', k, s, s);
    SameCounts(CountsOf(c', storage), CountedIn(CountsOf(c, storage), storage, k, s));
  }

  // Taking one more entry of `k` into account adds `k` to one store and lowers its count by one.
  lemma CountOneMore(index: Index, storage: Storage, c: Candidates, k: Pubkey,
                     slotList: seq<(Slot, AccountInfo)>, refCount: nat, item: (Slot, AccountInfo))
    requires Accurate(index, storage)
    requires k in c && c[k] == CleaningInfo(slotList, refCount)
    requires Current(index, c[k := CleaningInfo(slotList + [item], refCount)])
    requires AllSlots(c) <= storage.Keys
    ensures var c' := c[k := CleaningInfo(slotList + [item], refCount)];
            && AllSlots(c') <= storage.Keys
            && item.0 in storage && storage[item.0].id == item.1.storeId
            && (item.0 in CountsOf(c, storage) ==> CountsOf(c, storage)[item.0].count > 0)
            && storage[item.0].count > 0
            && CountsOf(c', storage) == CountedIn(CountsOf(c, storage), storage, k, item.0)
  {
    var c' := c[k := CleaningInfo(slotList + [item], refCount)];
    var s := item.0;
    var longer := slotList + [item];
    assert longer[|slotList|] == item;
    SlotsAppend(slotList, refCount, item);
    CurrentSlotsAreStored(index, storage, c');
    assert CandidateCurrent(index, k, c'[k]) && EntryCurrent(index, k, longer[|slotList|]);
    assert ResolvesTo(storage, k, s, item.1);
    forall i | 0 <= i < |slotList| ensures slotList[i].0 != s {
      assert longer[i] == slotList[i];
    }
    assert s in AllSlots(c') by { assert s in c'[k].Slots(); }
    SubsetCard(KeysAt(c', s), AliveKeys(index, storage, s));
    CountUpdate(storage, c, c', k, s);
  }

  lemma CurrentUpdate(index: Index, c: Candidates, k: Pubkey, info: CleaningInfo)
    requires Current(index, c) && CandidateCurrent(index, k, info)
    ensures Current(index, c[k := info])
  {
  }

  lemma UpdateTwice(c: Candidates, k: Pubkey, info: CleaningInfo, info': CleaningInfo)
    ensures c[k := info][k := info'] == c[k := info']
  {
  }

  lemma NextEntryIsCurrent(index: Index, reclaimed: Reclaimed, k: Pubkey, info: CleaningInfo, i: nat)
    requires CandidateKnown(index, reclaimed, k, info)
    requires i < |info.slotList|
    ensures StillThere(reclaimed, k, info.slotList[..i + 1]) ==
            StillThere(reclaimed, k, info.slotList[..i]) +
            if reclaimed.Gone(k, info.slotList[i].0, info.slotList[i].1) then [] else [info.slotList[i]]
    ensures CandidateCurrent(index, k,
                             CleaningInfo(StillThere(reclaimed, k, info.slotList[..i + 1]), RefCountOf(index, k)))
  {
    assert info.slotList[..i + 1][..i] == info.slotList[..i];
    StillThereIsCurrent(index, reclaimed, k, info.slotList[..i + 1]);
  }

  // The entry with the highest slot, the last one of equal slots.
  function NewestEntry(slotList: seq<(Slot, AccountInfo)>): (newest: (Slot, AccountInfo))
    requires slotList != []
    ensures newest in slotList && forall i | 0 <= i < |slotList| :: slotList[i].0 <= newest.0
  {
    var last, front := slotList[|slotList| - 1], slotList[..|slotList| - 1];
    if front == [] then last
    else
      var rest := NewestEntry(front);
      assert forall i | 0 <= i < |front| :: slotList[i] == front[i];
      if rest.0 <= last.0 then last else rest
  }

  // The newest version of a candidate is a zero-lamport one.
  predicate EndsAtZero(info: CleaningInfo) {
    info.slotList != [] && NewestEntry(info.slotList).1.zeroLamport
  }

  function RecountedAll(index: Index, reclaimed: Reclaimed, c: Candidates): Candidates {
    map k | k in c :: Recounted(index, reclaimed, k, c[k])
  }

  // Its stores go, but its zero-lamport version is newer than the full snapshot.
  predicate PutOff(info: CleaningInfo, kept: StoreCounts, filtering: bool, full: Option<Slot>) {
    StoresGo(info, kept) && !Purged(info, kept, filtering, full)
  }

  // The filter unwraps the newest entry and asserts that it is a zero-lamport one.
  predicate Panics(info: CleaningInfo, kept: StoreCounts, filtering: bool) {
    filtering && StoresGo(info, kept) && !EndsAtZero(info)
  }

  ghost predicate SomePanics(c: Candidates, kept: StoreCounts, filtering: bool) {
    exists k :: k in c && Panics(c[k], kept, filtering)
  }

  datatype Verdict = Retain | Discard | Delay | Panic

  // Retained candidates, or the panic of the filter.
  datatype Filtered = Retained(candidates: Candidates) | Panicked

  function PutOffEntries(c: Candidates, keys: set<Pubkey>): set<(Slot, Pubkey)> {
    set k | k in keys && k in c && c[k].slotList != [] :: (NewestEntry(c[k].slotList).0, k)
  }

  function RetainedOf(c: Candidates, kept: StoreCounts, filtering: bool, full: Option<Slot>): Candidates {
    map k | k in c && Purged(c[k], kept, filtering, full) :: c[k]
  }

  function PutOffOf(c: Candidates, kept: StoreCounts, filtering: bool, full: Option<Slot>): set<Pubkey> {
    set k | k in c && PutOff(c[k], kept, filtering, full)
  }

  // Clean goes past the full snapshot and only its zero-lamport version, newer than that, holds a candidate back.
  ghost predicate Delayed(c: Candidates, kept: StoreCounts, upTo: Slot, full: Option<Slot>, s: Slot, k: Pubkey) {
    && k in c && s in c[k].Slots() && (forall t | t in c[k].Slots() :: t <= s && t in kept && kept[t].count == 0)
    && full.Some? && full.value < upTo && full.value < s
  }

  ghost predicate Keeps(info: CleaningInfo, kept: StoreCounts, upTo: Slot, full: Option<Slot>) {
    forall s | s in info.Slots() ::
      s in kept && kept[s].count == 0 && (full.Some? && full.value < upTo ==> s <= full.value)
  }

  lemma ListedSlots(info: CleaningInfo)
    ensures forall i | 0 <= i < |info.slotList| :: info.slotList[i].0 in info.Slots()
  {
  }

  lemma RetainedKeeps(c: Candidates, kept: StoreCounts, maxCleanRoot: Option<Slot>, full: Option<Slot>, k: Pubkey)
    requires maxCleanRoot.Some? ==> maxCleanRoot.value <= SLOT_MAX
    ensures var upTo := if maxCleanRoot.Some? then maxCleanRoot.value else SLOT_MAX;
            k in RetainedOf(c, kept, Filtering(maxCleanRoot, full), full) <==> k in c && Keeps(c[k], kept, upTo, full)
  {
    if k in c {
      ListedSlots(c[k]);
    }
  }

  lemma PutOffIsDelayed(c: Candidates, kept: StoreCounts, maxCleanRoot: Option<Slot>, full: Option<Slot>, s: Slot,
                        k: Pubkey)
    requires maxCleanRoot.Some? ==> maxCleanRoot.value <= SLOT_MAX
    ensures var upTo := if maxCleanRoot.Some? then maxCleanRoot.value else SLOT_MAX;
            (s, k) in PutOffEntries(c, PutOffOf(c, kept, Filtering(maxCleanRoot, full), full))
            <==> Delayed(c, kept, upTo, full, s, k)
  {
    if k in c {
      ListedSlots(c[k]);
      if c[k].slotList != [] {
        var newest := NewestEntry(c[k].slotList).0;
        assert newest in c[k].Slots();
      }
    }
  }

  ghost predicate Splits(c: Candidates, kept: StoreCounts, upTo: Slot, full: Option<Slot>, candidates: Candidates) {
    && (forall k :: k in candidates <==> k in c && Keeps(c[k], kept, upTo, full))
    && (forall k | k in candidates :: candidates[k] == c[k])
  }

  ghost predicate Delays(c: Candidates, kept: StoreCounts, upTo: Slot, full: Option<Slot>,
                         before: set<(Slot, Pubkey)>, after: set<(Slot, Pubkey)>)
  {
    forall s: Slot, k: Pubkey :: (s, k) in after <==> (s, k) in before || Delayed(c, kept, upTo, full, s, k)
  }

  lemma FilterSplits(c: Candidates, kept: StoreCounts, maxCleanRoot: Option<Slot>, full: Option<Slot>)
    requires maxCleanRoot.Some? ==> maxCleanRoot.value <= SLOT_MAX
    ensures Splits(c, kept, if maxCleanRoot.Some? then maxCleanRoot.value else SLOT_MAX, full,
                   RetainedOf(c, kept, Filtering(maxCleanRoot, full), full))
  {
    forall k {
      RetainedKeeps(c, kept, maxCleanRoot, full, k);
    }
  }

  lemma FilterDelays(c: Candidates, kept: StoreCounts, maxCleanRoot: Option<Slot>, full: Option<Slot>,
                     before: set<(Slot, Pubkey)>)
    requires maxCleanRoot.Some? ==> maxCleanRoot.value <= SLOT_MAX
    ensures Delays(c, kept, if maxCleanRoot.Some? then maxCleanRoot.value else SLOT_MAX, full, before,
                   before + PutOffEntries(c, PutOffOf(c, kept, Filtering(maxCleanRoot, full), full)))
  {
    forall s: Slot, k: Pubkey {
      PutOffIsDelayed(c, kept, maxCleanRoot, full, s, k);
    }
  }

  ghost function KeptCounts(c: Candidates, storage: Storage): StoreCounts
    requires AllSlots(c) <= storage.Keys
  {
    CountsOf(c, storage) - Blocked(c, CountsOf(c, storage))
  }

  function SlotSets(retained: Candidates): Purge {
    map k | k in retained && retained[k].slotList != [] :: retained[k].Slots()
  }

  lemma RetainedArePurged(c: Candidates, kept: StoreCounts, filtering: bool, full: Option<Slot>)
    ensures SlotSets(RetainedOf(c, kept, filtering, full)) == PurgeOf(c, kept, filtering, full)
  {
  }

  // Only versions the full snapshot has seen are purged.
  ghost predicate SeenBySnapshot(purge: Purge, full: Option<Slot>) {
    forall k, s | k in purge && s in purge[k] :: full.Some? && s <= full.value
  }

  // The stores the purged keys were in die, and no other store holds a copy.
  ghost predicate NoCopyLeft(storage: Storage, purge: Purge) {
    forall k | k in purge ::
      purge[k] <= DeadSlots(storage, purge) && Holders(PurgedStorage(storage, purge), k) == {}
  }

  lemma FilteredPurgeIsSeen(c: Candidates, kept: StoreCounts, full: Option<Slot>)
    ensures SeenBySnapshot(PurgeOf(c, kept, true, full), full)
  {
    var purge := PurgeOf(c, kept, true, full);
    forall k, s | k in purge && s in purge[k] ensures full.Some? && s <= full.value {
      var i :| 0 <= i < |c[k].slotList| && c[k].slotList[i].0 == s;
    }
  }

  lemma UnfilteredPurgeLeavesNoCopy(index: Index, storage: Storage, c: Candidates, full: Option<Slot>)
    requires Accurate(index, storage) && Current(index, c)
    requires AllSlots(c) <= storage.Keys
    ensures NoCopyLeft(storage, PurgeOf(c, KeptCounts(c, storage), false, full))
  {
    var purge := PurgeOf(c, KeptCounts(c, storage), false, None);
    assert PurgeOf(c, KeptCounts(c, storage), false, full) == purge;
    forall k | k in purge
      ensures purge[k] <= DeadSlots(storage, purge) && Holders(PurgedStorage(storage, purge), k) == {}
    {
      PurgeLeavesNoCopy(index, storage, c, k);
    }
  }

  // Exactly the candidates whose stores all go and, when filtering, are old enough.
  ghost predicate Chosen(index: Index, storage: Storage, c: Candidates, filtering: bool, full: Option<Slot>,
                         purge: Purge)
  {
    && Current(index, c) && AllSlots(c) <= storage.Keys
    && purge == PurgeOf(c, KeptCounts(c, storage), filtering, full)
  }

  ghost predicate SafeChoice(index: Index, storage: Storage, c: Candidates, filtering: bool, full: Option<Slot>,
                             purge: Purge)
  {
    && Chosen(index, storage, c, filtering, full, purge) && Purgeable(index, purge)
    && (filtering ==> SeenBySnapshot(purge, full))
    && (!filtering ==> NoCopyLeft(storage, purge))
  }

  ghost predicate CleanPanics(index: Index, storage: Storage, c: Candidates, filtering: bool) {
    Current(index, c) && AllSlots(c) <= storage.Keys && SomePanics(c, KeptCounts(c, storage), filtering)
  }

  lemma ChosenPurgeIsSafe(index: Index, storage: Storage, c: Candidates, filtering: bool, full: Option<Slot>,
                          purge: Purge)
    requires Accurate(index, storage) && Chosen(index, storage, c, filtering, full, purge)
    ensures SafeChoice(index, storage, c, filtering, full, purge)
  {
    PurgeOfIsPurgeable(index, c, KeptCounts(c, storage), filtering, full);
    if filtering {
      FilteredPurgeIsSeen(c, KeptCounts(c, storage), full);
    } else {
      UnfilteredPurgeLeavesNoCopy(index, storage, c, full);
    }
  }

  // The documentation has candidates with an empty slot list removed. As coded such a candidate is
  // never removed: it stays when the filter is off and panics when it is on.
  lemma EmptyListStaysOrPanics(info: CleaningInfo, kept: StoreCounts, filtering: bool, full: Option<Slot>)
    requires info.slotList == []
    ensures Panics(info, kept, filtering) <==> filtering
    ensures !filtering ==> Purged(info, kept, filtering, full)
  {
  }

  // So a call that returns leaves no empty slot list behind exactly when it was given none.
  lemma RemovesEmptyIff(c: Candidates, kept: StoreCounts, filtering: bool, full: Option<Slot>)
    ensures !SomePanics(c, kept, filtering)
            && (forall k | k in RetainedOf(c, kept, filtering, full) :: c[k].slotList != [])
            <==> (forall k | k in c :: c[k].slotList != []) && !SomePanics(c, kept, filtering)
  {
    forall k | k in c && c[k].slotList == []
      ensures Panics(c[k], kept, filtering) || k in RetainedOf(c, kept, filtering, full)
    {
      EmptyListStaysOrPanics(c[k], kept, filtering, full);
    }
  }

  class AccountsDb {
    var index: Index
    var storage: Storage
    var latestFullSnapshotSlot: Option<Slot>
    var zeroLamportsToPurgeAfterSnapshot: set<(Slot, Pubkey)>

    method CountIn(counts0: StoreCounts, k: Pubkey, slot: Slot) returns (counts: StoreCounts)
      requires slot in storage && storage[slot].count > 0
      requires slot in counts0 ==> counts0[slot].count > 0
      ensures counts == CountedIn(counts0, storage, k, slot)
    {
      if slot in counts0 {
        counts := counts0[slot := StoreCount(counts0[slot].count - 1, counts0[slot].keys + {k})];
      } else {
        counts := counts0[slot := StoreCount(storage[slot].count - 1, {k})];
      }
    }

    // Drops the entries of one candidate that were reclaimed, and counts the others in their stores.
    method CountCandidate(k: Pubkey, info: CleaningInfo, reclaimed: Reclaimed, counts0: StoreCounts,
                          ghost done: Candidates)
      returns (recounted: CleaningInfo, counts: StoreCounts)
      requires Accurate(index, storage)
      requires CandidateKnown(index, reclaimed, k, info)
      requires k !in done && Current(index, done) && AllSlots(done) <= storage.Keys
      requires counts0 == CountsOf(done, storage)
      ensures recounted == Recounted(index, reclaimed, k, info)
      ensures AllSlots(done[k := recounted]) <= storage.Keys
      ensures counts == CountsOf(done[k := recounted], storage)
    {
      counts := counts0;
      var refCount := info.refCount;
      if k in reclaimed.purgedSlots {
        refCount := RefCountOf(index, k);
      }
      var kept: seq<(Slot, AccountInfo)> := [];
      ghost var c := done[k := CleaningInfo([], refCount)];
      CountsIgnoreEmpty(storage, done, k, refCount);
      CurrentUpdate(index, done, k, CleaningInfo([], refCount));
      for i := 0 to |info.slotList|
        invariant kept == StillThere(reclaimed, k, info.slotList[..i])
        invariant c == done[k := CleaningInfo(kept, refCount)]
        invariant Current(index, c)
        invariant AllSlots(c) <= storage.Keys
        invariant counts == CountsOf(c, storage)
      {
        var item := info.slotList[i];
        NextEntryIsCurrent(index, reclaimed, k, info, i);
        if !reclaimed.Gone(k, item.0, item.1) {
          CurrentUpdate(index, c, k, CleaningInfo(kept + [item], refCount));
          CountOneMore(index, storage, c, k, kept, refCount, item);
          counts := CountIn(counts, k, item.0);
          UpdateTwice(done, k, CleaningInfo(kept, refCount), CleaningInfo(kept + [item], refCount));
          kept := kept + [item];
          c := c[k := CleaningInfo(kept, refCount)];
        }
      }
      assert info.slotList[..|info.slotList|] == info.slotList;
      recounted := CleaningInfo(kept, refCount);
    }

    /** Store counts as if every candidate were purged. */
    method CollectStoreCounts(c: Candidates, reclaimed: Reclaimed)
      returns (recounted: Candidates, counts: StoreCounts)
      requires Accurate(index, storage)
      requires forall k | k in c :: CandidateKnown(index, reclaimed, k, c[k])
      ensures recounted == RecountedAll(index, reclaimed, c)
      ensures Current(index, recounted) && AllSlots(recounted) <= storage.Keys
      ensures counts == CountsOf(recounted, storage)
    {
      counts, recounted := map[], map[];
      var todo := c.Keys;
      while todo != {}
        invariant todo <= c.Keys
        invariant recounted.Keys == c.Keys - todo
        invariant forall k | k in recounted :: recounted[k] == Recounted(index, reclaimed, k, c[k])
        invariant Current(index, recounted) && AllSlots(recounted) <= storage.Keys
        invariant counts == CountsOf(recounted, storage)
        decreases todo
      {
        var k :| k in todo;
        var info;
        info, counts := CountCandidate(k, c[k], reclaimed, counts, recounted);
        RecountedIsCurrent(index, reclaimed, k, c[k]);
        CurrentUpdate(index, recounted, k, info);
        recounted := recounted[k := info];
        todo := todo - {k};
      }
    }

    method StoresAllGo(info: CleaningInfo, kept: StoreCounts) returns (go: bool)
      ensures go == StoresGo(info, kept)
    {
      for i := 0 to |info.slotList|
        invariant forall j | 0 <= j < i :: info.slotList[j].0 in kept && kept[info.slotList[j].0].count == 0
      {
        if info.slotList[i].0 !in kept || kept[info.slotList[i].0].count != 0 {
          return false;
        }
      }
      return true;
    }

    method DecideCandidate(info: CleaningInfo, kept: StoreCounts, filtering: bool, full: Option<Slot>)
      returns (verdict: Verdict)
      requires filtering ==> full.Some?
      ensures verdict.Panic? <==> Panics(info, kept, filtering)
      ensures !verdict.Panic? ==> (verdict.Retain? <==> Purged(info, kept, filtering, full))
      ensures !verdict.Panic? ==> (verdict.Delay? <==> PutOff(info, kept, filtering, full))
    {
      var go := StoresAllGo(info, kept);
      if !go {
        return Discard;
      }
      if !filtering {
        return Retain;
      }
      if info.slotList == [] || !NewestEntry(info.slotList).1.zeroLamport {
        return Panic;
      }
      return if NewestEntry(info.slotList).0 > full.value then Delay else Retain;
    }

    method SplitCandidates(c: Candidates, kept: StoreCounts, filtering: bool, full: Option<Slot>)
      returns (panicked: bool, retained: Candidates, putOff: set<Pubkey>)
      requires filtering ==> full.Some?
      ensures panicked <==> SomePanics(c, kept, filtering)
      ensures !panicked ==>
                && retained == RetainedOf(c, kept, filtering, full)
                && putOff == PutOffOf(c, kept, filtering, full)
      ensures putOff <= PutOffOf(c, kept, filtering, full)
    {
      panicked, retained, putOff := false, map[], {};
      var todo := c.Keys;
      while todo != {}
        invariant todo <= c.Keys
        invariant forall k | k in c && k !in todo :: !Panics(c[k], kept, filtering)
        invariant forall k | k in retained :: k in c && retained[k] == c[k]
        invariant forall k :: k in retained <==> k in c && k !in todo && Purged(c[k], kept, filtering, full)
        invariant forall k :: k in putOff <==> k in c && k !in todo && PutOff(c[k], kept, filtering, full)
        decreases todo
      {
        var k :| k in todo;
        var verdict := DecideCandidate(c[k], kept, filtering, full);
        if verdict.Panic? {
          return true, retained, putOff;
        }
        todo := todo - {k};
        if verdict.Retain? {
          retained := retained[k := c[k]];
        }
        if verdict.Delay? {
          putOff := putOff + {k};
        }
      }
    }

    /** Keeps the candidates whose whole history goes and, past a full snapshot, that it has seen. */
    method FilterZeroLamportClean(maxCleanRoot: Option<Slot>, kept: StoreCounts, c: Candidates)
      returns (result: Filtered)
      requires maxCleanRoot.Some? ==> maxCleanRoot.value <= SLOT_MAX
      modifies this`zeroLamportsToPurgeAfterSnapshot
      ensures var filtering, full := Filtering(maxCleanRoot, latestFullSnapshotSlot), latestFullSnapshotSlot;
              var delayed := PutOffEntries(c, PutOffOf(c, kept, filtering, full));
              && (result.Panicked? <==> SomePanics(c, kept, filtering))
              && (result.Retained? ==> result.candidates == RetainedOf(c, kept, filtering, full))
              && (result.Retained? ==>
                    zeroLamportsToPurgeAfterSnapshot == old(zeroLamportsToPurgeAfterSnapshot) + delayed)
              && old(zeroLamportsToPurgeAfterSnapshot) <= zeroLamportsToPurgeAfterSnapshot
              && zeroLamportsToPurgeAfterSnapshot <= old(zeroLamportsToPurgeAfterSnapshot) + delayed
      ensures var upTo := if maxCleanRoot.Some? then maxCleanRoot.value else SLOT_MAX;
              result.Retained? ==>
                && Splits(c, kept, upTo, latestFullSnapshotSlot, result.candidates)
                && Delays(c, kept, upTo, latestFullSnapshotSlot, old(zeroLamportsToPurgeAfterSnapshot),
                          zeroLamportsToPurgeAfterSnapshot)
    {
      var filtering := Filtering(maxCleanRoot, latestFullSnapshotSlot);
      var panicked, retained, putOff := SplitCandidates(c, kept, filtering, latestFullSnapshotSlot);
      zeroLamportsToPurgeAfterSnapshot := zeroLamportsToPurgeAfterSnapshot + PutOffEntries(c, putOff);
      result := if panicked then Panicked else Retained(retained);
      FilterSplits(c, kept, maxCleanRoot, latestFullSnapshotSlot);
      FilterDelays(c, kept, maxCleanRoot, latestFullSnapshotSlot, old(zeroLamportsToPurgeAfterSnapshot));
    }

    /** The purge is exactly the candidates whose stores all go and, when filtering, are old enough. */
    method ChoosePurge(c: Candidates, reclaimed: Reclaimed, maxCleanRoot: Option<Slot>)
      returns (purge: Option<Purge>)
      requires Accurate(index, storage)
      requires maxCleanRoot.Some? ==> maxCleanRoot.value <= SLOT_MAX
      requires forall k | k in c :: CandidateKnown(index, reclaimed, k, c[k])
      modifies this`zeroLamportsToPurgeAfterSnapshot
      ensures CleanPanics(index, storage, RecountedAll(index, reclaimed, c),
                          Filtering(maxCleanRoot, latestFullSnapshotSlot))
              <==> purge.None?
      ensures purge.Some? ==>
                Chosen(index, storage, RecountedAll(index, reclaimed, c),
                       Filtering(maxCleanRoot, latestFullSnapshotSlot), latestFullSnapshotSlot, purge.value)
    {
      var recounted, counts := CollectStoreCounts(c, reclaimed);
      CountsAreLinked(recounted, storage);
      var kept := CalcDeleteDependencies(recounted, counts);
      var result := FilterZeroLamportClean(maxCleanRoot, kept, recounted);
      if result.Panicked? {
        return None;
      }
      purge := Some(SlotSets(result.candidates));
      RetainedArePurged(recounted, kept, Filtering(maxCleanRoot, latestFullSnapshotSlot), latestFullSnapshotSlot);
    }

    method ChooseSafePurge(c: Candidates, reclaimed: Reclaimed, maxCleanRoot: Option<Slot>)
      returns (purge: Option<Purge>)
      requires Accurate(index, storage)
      requires maxCleanRoot.Some? ==> maxCleanRoot.value <= SLOT_MAX
      requires forall k | k in c :: CandidateKnown(index, reclaimed, k, c[k])
      modifies this`zeroLamportsToPurgeAfterSnapshot
      ensures CleanPanics(index, storage, RecountedAll(index, reclaimed, c),
                          Filtering(maxCleanRoot, latestFullSnapshotSlot))
              <==> purge.None?
      ensures purge.Some? ==>
                SafeChoice(index, storage, RecountedAll(index, reclaimed, c),
                           Filtering(maxCleanRoot, latestFullSnapshotSlot), latestFullSnapshotSlot, purge.value)
    {
      purge := ChoosePurge(c, reclaimed, maxCleanRoot);
      if purge.Some? {
        ChosenPurgeIsSafe(index, storage, RecountedAll(index, reclaimed, c),
                          Filtering(maxCleanRoot, latestFullSnapshotSlot), latestFullSnapshotSlot, purge.value);
      }
    }

    /**
     One clean of the given candidates: counters stay accurate, nothing newer than the full
     snapshot is purged and, with filtering off, every store a purged key was in is gone and no
     store left holds a copy of it. A panic of the filter leaves index and storages alone.
     */
    method CleanCandidates(c: Candidates, reclaimed: Reclaimed, maxCleanRoot: Option<Slot>)
      returns (purge: Option<Purge>)
      requires Accurate(index, storage)
      requires maxCleanRoot.Some? ==> maxCleanRoot.value <= SLOT_MAX
      requires forall k | k in c :: CandidateKnown(index, reclaimed, k, c[k])
      modifies this`index, this`storage, this`zeroLamportsToPurgeAfterSnapshot
      ensures Accurate(index, storage)
      ensures CleanPanics(old(index), old(storage), RecountedAll(old(index), reclaimed, c),
                          Filtering(maxCleanRoot, latestFullSnapshotSlot))
              <==> purge.None?
      ensures purge.None? ==> index == old(index) && storage == old(storage)
      ensures purge.Some? ==>
                && SafeChoice(old(index), old(storage), RecountedAll(old(index), reclaimed, c),
                              Filtering(maxCleanRoot, latestFullSnapshotSlot), latestFullSnapshotSlot, purge.value)
                && index == IndexAfter(old(index), old(storage), purge.value)
                && storage == PurgedStorage(old(storage), purge.value)
    {
      purge := ChooseSafePurge(c, reclaimed, maxCleanRoot);
      if purge.Some? {
        var again;
        index, storage, again := HandlePurge(index, storage, purge.value);
      }
    }
  }
}
