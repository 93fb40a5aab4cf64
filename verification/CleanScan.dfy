/**
 The first half of clean: candidates are read from the index, all but the newest rooted version of
 each key is reclaimed, and the recount then leaves every candidate its newest version alone.
 */
module CleanScan {
  import opened Types
  import opened DeleteDependencies
  import opened AccountsState
  import opened PurgeAccounts
  import opened CleanAccounts
  import opened AccountsDatabase

  // The slots of an entry that are rooted and within the clean root.
  function Rooted(slots: map<Slot, AccountInfo>, roots: set<Slot>, limit: Slot): set<Slot> {
    set s | s in slots && s in roots && s <= limit
  }

  ghost predicate IsTop(slots: set<Slot>, top: Slot) {
    top in slots && forall s | s in slots :: s <= top
  }

  // Versions below the clean root go, except the newest rooted one and those still in the write cache.
  function OldSlots(slots: map<Slot, AccountInfo>, newest: Slot, limit: Slot): set<Slot> {
    set s | s in slots && s < limit && s != newest && !slots[s].cached
  }

  // The newest rooted slot, or zero when none is rooted.
  ghost predicate IsNewestRoot(slots: map<Slot, AccountInfo>, roots: set<Slot>, limit: Slot, newest: Slot) {
    if Rooted(slots, roots, limit) == {} then newest == 0 else IsTop(Rooted(slots, roots, limit), newest)
  }

  // Clean runs after the roots up to its limit have left the write cache.
  ghost predicate Flushed(index: Index, roots: set<Slot>, limit: Slot) {
    forall k, s | k in index && s in Rooted(index[k].slots, roots, limit) :: !index[k].slots[s].cached
  }

  // A candidate lists exactly its rooted versions, the newest of them a zero-lamport one.
  ghost predicate ReadFrom(index: Index, roots: set<Slot>, limit: Slot, k: Pubkey, info: CleaningInfo) {
    && k in index && info.refCount == index[k].refCount && DistinctSlots(info.slotList) && EndsAtZero(info)
    && forall s, i :: (s, i) in info.slotList <==> s in Rooted(index[k].slots, roots, limit) && index[k].slots[s] == i
  }

  ghost predicate ReclaimsOlder(index: Index, roots: set<Slot>, limit: Slot, older: Purge) {
    forall k | k in older :: k in index && exists newest ::
      IsNewestRoot(index[k].slots, roots, limit, newest) && older[k] == OldSlots(index[k].slots, newest, limit)
  }

  // ---------- the scan ----------

  method NewestRoot(slots: map<Slot, AccountInfo>, roots: set<Slot>, limit: Slot) returns (newest: Slot)
    ensures IsNewestRoot(slots, roots, limit, newest)
  {
    var rooted := Rooted(slots, roots, limit);
    newest := 0;
    if rooted != {} {
      ghost var top := TopOf(rooted);
      newest :| newest in rooted && forall s | s in rooted :: s <= newest;
    }
  }

  // The rooted entries as a list, in whatever order the slot list has them.
  method RootedEntries(slots: map<Slot, AccountInfo>, roots: set<Slot>, limit: Slot)
    returns (list: seq<(Slot, AccountInfo)>)
    ensures DistinctSlots(list)
    ensures forall s, i :: (s, i) in list <==> s in Rooted(slots, roots, limit) && slots[s] == i
  {
    list := [];
    var todo := Rooted(slots, roots, limit);
    while todo != {}
      invariant todo <= Rooted(slots, roots, limit) && DistinctSlots(list)
      invariant forall s, i :: (s, i) in list <==> s in Rooted(slots, roots, limit) - todo && slots[s] == i
    {
      var s :| s in todo;
      forall j | 0 <= j < |list| ensures list[j].0 != s {
        assert (list[j].0, list[j].1) in list;
      }
      list, todo := list + [(s, slots[s])], todo - {s};
    }
  }

  lemma ListEndsAtZero(slots: map<Slot, AccountInfo>, roots: set<Slot>, limit: Slot, newest: Slot, info: CleaningInfo)
    requires forall s, i :: (s, i) in info.slotList <==> s in Rooted(slots, roots, limit) && slots[s] == i
    requires IsTop(Rooted(slots, roots, limit), newest) && slots[newest].zeroLamport
    ensures EndsAtZero(info)
  {
    assert (newest, slots[newest]) in info.slotList;
    var last := NewestEntry(info.slotList);
    assert (last.0, last.1) in info.slotList;
  }

  // The newest rooted version is a zero-lamport one.
  ghost predicate IsCandidate(slots: map<Slot, AccountInfo>, roots: set<Slot>, limit: Slot) {
    exists top :: IsTop(Rooted(slots, roots, limit), top) && slots[top].zeroLamport
  }

  // One key: a candidate if its newest rooted version is zero-lamport, and its older versions to reclaim.
  method ScanKey(index: Index, k: Pubkey, roots: set<Slot>, limit: Slot)
    returns (info: Option<CleaningInfo>, older: set<Slot>)
    requires k in index
    ensures info.Some? <==> IsCandidate(index[k].slots, roots, limit)
    ensures info.Some? ==> ReadFrom(index, roots, limit, k, info.value)
    ensures exists newest ::
              && IsNewestRoot(index[k].slots, roots, limit, newest)
              && older == OldSlots(index[k].slots, newest, limit)
  {
    var slots := index[k].slots;
    var newest := NewestRoot(slots, roots, limit);
    info, older := None, OldSlots(slots, newest, limit);
    if newest in Rooted(slots, roots, limit) && slots[newest].zeroLamport {
      var list := RootedEntries(slots, roots, limit);
      ListEndsAtZero(slots, roots, limit, newest, CleaningInfo(list, index[k].refCount));
      info := Some(CleaningInfo(list, index[k].refCount));
      assert IsTop(Rooted(slots, roots, limit), newest);
    }
  }

  method ScanCandidates(index: Index, keys: set<Pubkey>, roots: set<Slot>, limit: Slot)
    returns (c: Candidates, older: Purge)
    ensures forall k :: k in c <==> k in keys && k in index && IsCandidate(index[k].slots, roots, limit)
    ensures forall k | k in c :: ReadFrom(index, roots, limit, k, c[k])
    ensures older.Keys == keys * index.Keys && ReclaimsOlder(index, roots, limit, older)
  {
    c, older := map[], map[];
    var todo := keys;
    while todo != {}
      invariant todo <= keys && older.Keys == (keys - todo) * index.Keys
      invariant forall k :: k in c <==> k in older && IsCandidate(index[k].slots, roots, limit)
      invariant forall k | k in c :: ReadFrom(index, roots, limit, k, c[k])
      invariant ReclaimsOlder(index, roots, limit, older)
    {
      var k :| k in todo;
      todo := todo - {k};
      if k in index {
        var info, slots := ScanKey(index, k, roots, limit);
        older := older[k := slots];
        if info.Some? {
          c := c[k := info.value];
        }
      }
    }
  }

  // ---------- after the reclaim ----------

  lemma ReclaimsArePurgeable(index: Index, roots: set<Slot>, limit: Slot, older: Purge)
    requires ReclaimsOlder(index, roots, limit, older)
    ensures Purgeable(index, older)
  {
  }

  // A version is reclaimed exactly if it is below the clean root, flushed and not the newest rooted one;
  // of a key without rooted versions the one at slot zero is spared.
  lemma OlderAre(index: Index, roots: set<Slot>, limit: Slot, older: Purge, k: Pubkey, s: Slot)
    requires ReclaimsOlder(index, roots, limit, older) && k in older
    ensures s in older[k] <==>
            && s in index[k].slots && s < limit && !index[k].slots[s].cached
            && !(s in roots && forall t | t in index[k].slots && t in roots && t <= limit :: t <= s)
            && !(s == 0 && forall t | t in index[k].slots && t in roots :: t > limit)
  {
    var slots := index[k].slots;
    var newest :| IsNewestRoot(slots, roots, limit, newest) && older[k] == OldSlots(slots, newest, limit);
    assert forall t :: t in Rooted(slots, roots, limit) <==> t in slots && t in roots && t <= limit;
  }

  // The newest rooted slot of a candidate, and that it is the only rooted one the reclaim spares.
  lemma NewestOf(index: Index, roots: set<Slot>, limit: Slot, older: Purge, k: Pubkey, info: CleaningInfo)
    returns (newest: Slot)
    requires ReclaimsOlder(index, roots, limit, older) && k in older && ReadFrom(index, roots, limit, k, info)
    ensures IsTop(Rooted(index[k].slots, roots, limit), newest)
    ensures older[k] == OldSlots(index[k].slots, newest, limit)
  {
    var last := NewestEntry(info.slotList);
    assert (last.0, last.1) in info.slotList;
    newest :| IsNewestRoot(index[k].slots, roots, limit, newest) && older[k] == OldSlots(index[k].slots, newest, limit);
  }

  lemma OlderIsGone(index: Index, storage: Storage, older: Purge, reclaimed: Reclaimed, k: Pubkey, s: Slot)
    requires Reports(index, storage, older, reclaimed) && k in older && s in older[k] && k in index
             && s in index[k].slots
    ensures reclaimed.Gone(k, s, index[k].slots[s])
  {
    assert (s, index[k].slots[s].offset) in ReclaimsOf(index, k, older[k]);
  }

  // An entry the reclaim spares keeps its store and is not reported.
  lemma SparedIsNotGone(index: Index, storage: Storage, older: Purge, reclaimed: Reclaimed, k: Pubkey, s: Slot)
    requires Accurate(index, storage) && Purgeable(index, older) && Reports(index, storage, older, reclaimed)
    requires AliveAt(index, k, s) && k !in PurgedAt(older, s)
    ensures !reclaimed.Gone(k, s, index[k].slots[s])
  {
    assert ResolvesTo(storage, k, s, index[k].slots[s]);
    assert k in AliveKeys(index, storage, s);
    PurgedAreAlive(index, storage, older, s);
    forall l | l in older && s in older[l] && l in index && s in index[l].slots
      ensures index[l].slots[s].offset != index[k].slots[s].offset
    {
      assert AliveAt(index, l, s) && ResolvesTo(storage, l, s, index[l].slots[s]);
      assert OffsetsDistinct(storage[s]);
    }
  }

  lemma RefCountSpared(index: Index, storage: Storage, older: Purge, reclaimed: Reclaimed, k: Pubkey, s: Slot)
    requires Reports(index, storage, older, reclaimed) && k !in reclaimed.purgedSlots
    requires AliveAt(index, k, s) && k !in PurgedAt(older, s)
    ensures RefCountOf(IndexAfter(index, storage, older), k) == index[k].refCount
  {
    AliveAfter(index, storage, older, k, s);
    assert HeldIn(storage, DeadSlots(storage, older), k) == {};
  }

  lemma EntryAfterReclaim(index: Index, storage: Storage, older: Purge, reclaimed: Reclaimed,
                          roots: set<Slot>, limit: Slot, k: Pubkey, newest: Slot, item: (Slot, AccountInfo))
    requires Accurate(index, storage) && Purgeable(index, older) && Reports(index, storage, older, reclaimed)
    requires Flushed(index, roots, limit) && k in index && k in older
    requires IsTop(Rooted(index[k].slots, roots, limit), newest) && older[k] == OldSlots(index[k].slots, newest, limit)
    requires item.0 in Rooted(index[k].slots, roots, limit) && index[k].slots[item.0] == item.1
    ensures reclaimed.Gone(k, item.0, item.1) <==> item.0 != newest
    ensures item.0 == newest ==> EntryCurrent(IndexAfter(index, storage, older), k, item)
  {
    if item.0 != newest {
      OlderIsGone(index, storage, older, reclaimed, k, item.0);
    } else {
      SparedIsNotGone(index, storage, older, reclaimed, k, newest);
      AliveAfter(index, storage, older, k, newest);
    }
  }

  // Of the listed versions, all but the one at this slot were reclaimed.
  ghost predicate OnlyAt(reclaimed: Reclaimed, k: Pubkey, list: seq<(Slot, AccountInfo)>, newest: Slot) {
    forall i | 0 <= i < |list| :: reclaimed.Gone(k, list[i].0, list[i].1) <==> list[i].0 != newest
  }

  ghost predicate OnlyPlace(list: seq<(Slot, AccountInfo)>, s: Slot, n: nat) {
    n < |list| && forall i | 0 <= i < |list| :: list[i].0 == s <==> i == n
  }

  // What clean needs to know of a candidate read before the reclaim.
  lemma KnownAfterReclaim(index: Index, storage: Storage, older: Purge, reclaimed: Reclaimed,
                          roots: set<Slot>, limit: Slot, k: Pubkey, info: CleaningInfo) returns (newest: Slot)
    requires Accurate(index, storage) && ReclaimsOlder(index, roots, limit, older)
             && Reports(index, storage, older, reclaimed)
    requires Flushed(index, roots, limit) && k in older && ReadFrom(index, roots, limit, k, info)
    ensures CandidateKnown(IndexAfter(index, storage, older), reclaimed, k, info)
    ensures IsTop(Rooted(index[k].slots, roots, limit), newest)
    ensures OnlyAt(reclaimed, k, info.slotList, newest)
  {
    ReclaimsArePurgeable(index, roots, limit, older);
    newest := NewestOf(index, roots, limit, older, k, info);
    forall i | 0 <= i < |info.slotList|
      ensures reclaimed.Gone(k, info.slotList[i].0, info.slotList[i].1) <==> info.slotList[i].0 != newest
      ensures info.slotList[i].0 == newest ==> EntryCurrent(IndexAfter(index, storage, older), k, info.slotList[i])
    {
      assert (info.slotList[i].0, info.slotList[i].1) in info.slotList;
      EntryAfterReclaim(index, storage, older, reclaimed, roots, limit, k, newest, info.slotList[i]);
    }
    if k !in reclaimed.purgedSlots {
      RefCountSpared(index, storage, older, reclaimed, k, newest);
    }
  }

  lemma {:induction false} OneStaysThere(reclaimed: Reclaimed, k: Pubkey, list: seq<(Slot, AccountInfo)>, n: nat,
                                         m: nat)
    requires n < |list| && m <= |list|
    requires forall i | 0 <= i < |list| :: reclaimed.Gone(k, list[i].0, list[i].1) <==> i != n
    ensures StillThere(reclaimed, k, list[..m]) == if n < m then [list[n]] else []
  {
    if m > 0 {
      assert list[..m][..m - 1] == list[..m - 1];
      OneStaysThere(reclaimed, k, list, n, m - 1);
    }
  }

  // The newest entry of a candidate is the one at the newest rooted slot, and the only one there.
  lemma NewestPosition(index: Index, roots: set<Slot>, limit: Slot, k: Pubkey, info: CleaningInfo, newest: Slot)
    returns (n: nat)
    requires ReadFrom(index, roots, limit, k, info) && IsTop(Rooted(index[k].slots, roots, limit), newest)
    ensures OnlyPlace(info.slotList, newest, n) && info.slotList[n] == NewestEntry(info.slotList)
  {
    var last := NewestEntry(info.slotList);
    n :| 0 <= n < |info.slotList| && info.slotList[n] == last;
    assert (last.0, last.1) in info.slotList && (newest, index[k].slots[newest]) in info.slotList;
    var m :| 0 <= m < |info.slotList| && info.slotList[m] == (newest, index[k].slots[newest]);
  }

  lemma NewestStaysThere(reclaimed: Reclaimed, k: Pubkey, list: seq<(Slot, AccountInfo)>, newest: Slot, n: nat)
    requires OnlyAt(reclaimed, k, list, newest) && OnlyPlace(list, newest, n)
    ensures StillThere(reclaimed, k, list) == [list[n]]
  {
    OneStaysThere(reclaimed, k, list, n, |list|);
    assert list[..|list|] == list;
  }

  lemma SingleLeft(left: CleaningInfo, item: (Slot, AccountInfo), limit: Slot)
    requires left.slotList == [item] && item.1.zeroLamport && item.0 <= limit
    ensures EndsAtZero(left) && AllUpTo(left, limit)
  {
  }

  // The recount leaves a candidate exactly its newest rooted version.
  lemma RecountLeavesNewest(index: Index, storage: Storage, older: Purge, reclaimed: Reclaimed,
                            roots: set<Slot>, limit: Slot, k: Pubkey, info: CleaningInfo)
    requires Accurate(index, storage) && ReclaimsOlder(index, roots, limit, older)
             && Reports(index, storage, older, reclaimed)
    requires Flushed(index, roots, limit) && k in older && ReadFrom(index, roots, limit, k, info)
    ensures CandidateKnown(IndexAfter(index, storage, older), reclaimed, k, info)
    ensures var left := Recounted(IndexAfter(index, storage, older), reclaimed, k, info);
            && |left.slotList| == 1 && EndsAtZero(left) && AllUpTo(left, limit)
            && IsTop(Rooted(index[k].slots, roots, limit), left.slotList[0].0)
  {
    var newest := KnownAfterReclaim(index, storage, older, reclaimed, roots, limit, k, info);
    var n := NewestPosition(index, roots, limit, k, info, newest);
    NewestStaysThere(reclaimed, k, info.slotList, newest, n);
    SingleLeft(Recounted(IndexAfter(index, storage, older), reclaimed, k, info), info.slotList[n], limit);
  }
}
