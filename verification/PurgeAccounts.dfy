/**
 Carrying out a purge: index entries go first, then the alive counts of the stores they pointed into
 are lowered, and stores that reach zero are unreferenced account by account and deleted.
 */
module PurgeAccounts {
  import opened Types
  import opened AccountsState

  // What purging index entries reclaims.
  type Reclaims = set<(Slot, Offset)>

  function OffsetsAt(reclaims: Reclaims, s: Slot): set<Offset> {
    set r | r in reclaims && r.0 == s :: r.1
  }

  // ---------- purging index entries ----------

  function ReclaimsOf(index: Index, k: Pubkey, slots: set<Slot>): Reclaims {
    set s | s in slots && k in index && s in index[k].slots :: (s, index[k].slots[s].offset)
  }

  ghost predicate EntryPurged(index: Index, purge: Purge, done: set<Pubkey>, index': Index, k: Pubkey) {
    if k !in index || (k in purge && k in done && index[k].slots.Keys <= purge[k]) then k !in index'
    else
      && k in index'
      && index'[k] == if k in purge && k in done then index[k].(slots := index[k].slots - purge[k]) else index[k]
  }

  ghost predicate Collected(index: Index, purge: Purge, done: set<Pubkey>, reclaims: Reclaims) {
    forall r :: r in reclaims <==> exists k :: k in done && k in purge && r in ReclaimsOf(index, k, purge[k])
  }

  lemma CollectedNext(index: Index, purge: Purge, done: set<Pubkey>, reclaims: Reclaims, k: Pubkey)
    requires Collected(index, purge, done, reclaims) && k in purge
    ensures Collected(index, purge, done + {k}, reclaims + ReclaimsOf(index, k, purge[k]))
  {
  }

  // One key: its entries in the given slots go, and the key with the last one.
  function PurgeExact(index: Index, k: Pubkey, slots: set<Slot>): Index {
    if k !in index then index
    else if index[k].slots - slots == map[] then index - {k}
    else index[k := index[k].(slots := index[k].slots - slots)]
  }

  lemma NothingLeft(slots: map<Slot, AccountInfo>, purged: set<Slot>)
    ensures slots - purged == map[] <==> slots.Keys <= purged
  {
    var rest := slots - purged;
    assert rest.Keys == slots.Keys - purged;
    assert rest == map[] <==> rest.Keys == {};
    forall s | s in slots && rest.Keys == {} ensures s in purged {
      assert s !in slots.Keys - purged;
    }
  }

  lemma PurgedNext(index: Index, purge: Purge, done: set<Pubkey>, now: Index, key: Pubkey)
    requires key in purge && key !in done && forall k :: EntryPurged(index, purge, done, now, k)
    ensures forall k :: EntryPurged(index, purge, done + {key}, PurgeExact(now, key, purge[key]), k)
  {
    forall k ensures EntryPurged(index, purge, done + {key}, PurgeExact(now, key, purge[key]), k) {
      assert EntryPurged(index, purge, done, now, k);
      if k == key && k in index {
        NothingLeft(now[k].slots, purge[k]);
      }
    }
  }

  lemma SamePurged(index: Index, purge: Purge, index': Index)
    requires forall k :: EntryPurged(index, purge, purge.Keys, index', k)
    ensures index' == PurgedIndex(index, purge)
  {
    forall k
      ensures (k in index' <==> k in PurgedIndex(index, purge))
              && (k in index' ==> index'[k] == PurgedIndex(index, purge)[k])
    {
      assert EntryPurged(index, purge, purge.Keys, index', k);
    }
  }

  method PurgeKeysExact(index: Index, purge: Purge) returns (index': Index, reclaims: Reclaims)
    ensures index' == PurgedIndex(index, purge)
    ensures Collected(index, purge, purge.Keys, reclaims)
  {
    index', reclaims := index, {};
    var todo := purge.Keys;
    ghost var done: set<Pubkey> := {};
    while todo != {}
      invariant todo <= purge.Keys && done == purge.Keys - todo
      invariant forall k :: EntryPurged(index, purge, done, index', k)
      invariant Collected(index, purge, done, reclaims)
    {
      var k :| k in todo;
      CollectedNext(index, purge, done, reclaims, k);
      PurgedNext(index, purge, done, index', k);
      reclaims := reclaims + ReclaimsOf(index, k, purge[k]);
      index' := PurgeExact(index', k, purge[k]);
      todo, done := todo - {k}, done + {k};
    }
    assert done == purge.Keys;
    SamePurged(index, purge, index');
  }

  // ---------- lowering alive counts ----------

  ghost predicate StoreLowered(storage: Storage, reclaims: Reclaims, done: set<Slot>, storage': Storage, s: Slot) {
    && (s in storage' <==> s in storage)
    && (s in storage ==>
          storage'[s] == if s in done then storage[s].(count := Minus(storage[s].count, |OffsetsAt(reclaims, s)|))
                         else storage[s])
  }

  function SlotsOf(reclaims: Reclaims): set<Slot> {
    set r | r in reclaims :: r.0
  }

  function Lower(storage: Storage, reclaims: Reclaims, s: Slot): Storage
    requires s in storage && |OffsetsAt(reclaims, s)| <= storage[s].count
  {
    storage[s := storage[s].(count := storage[s].count - |OffsetsAt(reclaims, s)|)]
  }

  lemma LowerNext(storage: Storage, reclaims: Reclaims, done: set<Slot>, now: Storage, s: Slot)
    requires s !in done && s in storage && |OffsetsAt(reclaims, s)| <= storage[s].count
    requires forall t :: StoreLowered(storage, reclaims, done, now, t)
    ensures s in now && now[s] == storage[s]
    ensures forall t :: StoreLowered(storage, reclaims, done + {s}, Lower(now, reclaims, s), t)
  {
    assert StoreLowered(storage, reclaims, done, now, s);
    forall t ensures StoreLowered(storage, reclaims, done + {s}, Lower(now, reclaims, s), t) {
      assert StoreLowered(storage, reclaims, done, now, t);
    }
  }

  lemma LowerSkip(storage: Storage, reclaims: Reclaims, done: set<Slot>, now: Storage, s: Slot)
    requires s !in storage && forall t :: StoreLowered(storage, reclaims, done, now, t)
    ensures forall t :: StoreLowered(storage, reclaims, done + {s}, now, t)
  {
    forall t ensures StoreLowered(storage, reclaims, done + {s}, now, t) {
      assert StoreLowered(storage, reclaims, done, now, t);
    }
  }

  lemma TouchedSlot(reclaims: Reclaims, s: Slot)
    ensures s in SlotsOf(reclaims) <==> OffsetsAt(reclaims, s) != {}
  {
    if s in SlotsOf(reclaims) {
      var r :| r in reclaims && r.0 == s;
      assert r.1 in OffsetsAt(reclaims, s);
    }
    if OffsetsAt(reclaims, s) != {} {
      var o :| o in OffsetsAt(reclaims, s);
    }
  }

  // Offsets are grouped by slot; a store whose count reaches zero is dead.
  method RemoveDeadAccounts(storage: Storage, reclaims: Reclaims) returns (storage': Storage, dead: set<Slot>)
    requires forall s | s in storage :: |OffsetsAt(reclaims, s)| <= storage[s].count
    ensures forall s :: StoreLowered(storage, reclaims, SlotsOf(reclaims), storage', s)
    ensures forall s :: s in dead <==>
              s in storage && OffsetsAt(reclaims, s) != {} && |OffsetsAt(reclaims, s)| == storage[s].count
  {
    storage', dead := storage, {};
    var slots := SlotsOf(reclaims);
    var todo := slots;
    ghost var done: set<Slot> := {};
    while todo != {}
      invariant todo <= slots && done == slots - todo
      invariant forall s :: StoreLowered(storage, reclaims, done, storage', s)
      invariant forall s :: s in dead <==> s in done && s in storage && |OffsetsAt(reclaims, s)| == storage[s].count
    {
      var s :| s in todo;
      if s in storage {
        LowerNext(storage, reclaims, done, storage', s);
        storage' := Lower(storage', reclaims, s);
        if storage'[s].count == 0 {
          dead := dead + {s};
        }
      } else {
        LowerSkip(storage, reclaims, done, storage', s);
      }
      todo, done := todo - {s}, done + {s};
    }
    assert done == slots;
    forall s ensures s in slots <==> OffsetsAt(reclaims, s) != {} {
      TouchedSlot(reclaims, s);
    }
  }

  // ---------- unreferencing what dead stores held ----------

  function PairsOf(storage: Storage, dead: set<Slot>): set<(Slot, Pubkey)> {
    set s, k | s in dead && s in storage && k in storage[s].accounts :: (s, k)
  }

  function SlotsIn(pairs: set<(Slot, Pubkey)>, k: Pubkey): set<Slot> {
    set p | p in pairs && p.1 == k :: p.0
  }

  ghost predicate EntryUnreffed(index: Index, done: set<(Slot, Pubkey)>, index': Index, k: Pubkey) {
    && (k in index' <==> k in index)
    && (k in index ==> index'[k] == index[k].(refCount := Minus(index[k].refCount, |SlotsIn(done, k)|)))
  }

  function UnrefOne(index: Index, k: Pubkey): Index {
    if k in index then index[k := index[k].(refCount := Minus(index[k].refCount, 1))] else index
  }

  lemma SlotsInNext(done: set<(Slot, Pubkey)>, p: (Slot, Pubkey), k: Pubkey)
    requires p !in done
    ensures |SlotsIn(done + {p}, k)| == |SlotsIn(done, k)| + if p.1 == k then 1 else 0
  {
    if p.1 == k {
      assert SlotsIn(done + {p}, k) == SlotsIn(done, k) + {p.0};
      forall q | q in done && q.1 == k ensures q.0 != p.0 {
        assert q == (q.0, k) && p == (p.0, k);
      }
    } else {
      assert SlotsIn(done + {p}, k) == SlotsIn(done, k);
    }
  }

  lemma UnrefNext(index: Index, done: set<(Slot, Pubkey)>, now: Index, p: (Slot, Pubkey))
    requires p !in done && forall k :: EntryUnreffed(index, done, now, k)
    ensures forall k :: EntryUnreffed(index, done + {p}, UnrefOne(now, p.1), k)
  {
    forall k ensures EntryUnreffed(index, done + {p}, UnrefOne(now, p.1), k) {
      assert EntryUnreffed(index, done, now, k);
      SlotsInNext(done, p, k);
    }
  }

  lemma PairsAreHeld(storage: Storage, dead: set<Slot>, k: Pubkey)
    ensures SlotsIn(PairsOf(storage, dead), k) == HeldIn(storage, dead, k)
  {
    forall s | s in HeldIn(storage, dead, k) ensures s in SlotsIn(PairsOf(storage, dead), k) {
      assert (s, k) in PairsOf(storage, dead);
    }
  }

  lemma SameUnreffed(index: Index, storage: Storage, dead: set<Slot>, index': Index)
    requires forall k :: EntryUnreffed(index, PairsOf(storage, dead), index', k)
    ensures index' == Unreffed(index, storage, dead)
  {
    forall k ensures (k in index' <==> k in index) && (k in index ==> index'[k] == Unreffed(index, storage, dead)[k]) {
      assert EntryUnreffed(index, PairsOf(storage, dead), index', k);
      PairsAreHeld(storage, dead, k);
    }
  }

  // Keys the purge removed from the index are not there any more and are skipped.
  method CleanStoredDeadSlots(index: Index, storage: Storage, dead: set<Slot>) returns (index': Index)
    ensures index' == Unreffed(index, storage, dead)
  {
    index' := index;
    var todo := PairsOf(storage, dead);
    ghost var pairs, done: set<(Slot, Pubkey)> := todo, {};
    forall k ensures SlotsIn({}, k) == {} { }
    while todo != {}
      invariant todo <= pairs && done == pairs - todo
      invariant forall k :: EntryUnreffed(index, done, index', k)
    {
      var p :| p in todo;
      UnrefNext(index, done, index', p);
      index' := UnrefOne(index', p.1);
      todo, done := todo - {p}, done + {p};
    }
    assert done == pairs;
    SameUnreffed(index, storage, dead, index');
  }

  // ---------- the whole purge ----------

  lemma {:induction false} ImageSize(keys: set<Pubkey>, slots: map<Pubkey, Offset>, image: set<Offset>)
    requires keys <= slots.Keys && forall k, l | k in keys && l in keys && k != l :: slots[k] != slots[l]
    requires image == set k | k in keys :: slots[k]
    ensures |image| == |keys|
  {
    if keys != {} {
      var k :| k in keys;
      ImageSize(keys - {k}, slots, image - {slots[k]});
    }
  }

  // A store loses as many offsets as keys are purged in it.
  lemma OffsetsCount(index: Index, storage: Storage, purge: Purge, reclaims: Reclaims, s: Slot)
    requires Accurate(index, storage) && Purgeable(index, purge) && Collected(index, purge, purge.Keys, reclaims)
    requires s in storage
    ensures |OffsetsAt(reclaims, s)| == |PurgedAt(purge, s)|
  {
    var keys := PurgedAt(purge, s);
    forall k | k in keys ensures AliveAt(index, k, s) && ResolvesTo(storage, k, s, index[k].slots[s]) { }
    var offsets := map k | k in keys :: storage[s].accounts[k].offset;
    assert OffsetsDistinct(storage[s]);
    forall o ensures o in OffsetsAt(reclaims, s) <==> exists k :: k in keys && offsets[k] == o {
      if o in OffsetsAt(reclaims, s) {
        assert (s, o) in reclaims;
        var k :| k in purge && (s, o) in ReclaimsOf(index, k, purge[k]);
        assert k in keys && offsets[k] == o;
      }
      if k :| k in keys && offsets[k] == o {
        assert (s, o) in ReclaimsOf(index, k, purge[k]);
        assert (s, o) in reclaims && (s, o).0 == s;
      }
    }
    ImageSize(keys, offsets, OffsetsAt(reclaims, s));
  }

  // What a purge reports: the offsets reclaimed per slot, and per key the dead slots that held it.
  ghost predicate Reports(index: Index, storage: Storage, purge: Purge, reclaimed: Reclaimed) {
    && (forall s, o :: s in reclaimed.removed && o in reclaimed.removed[s] <==>
          exists k :: k in purge && (s, o) in ReclaimsOf(index, k, purge[k]))
    && (forall k, s :: k in reclaimed.purgedSlots && s in reclaimed.purgedSlots[k] <==>
          s in HeldIn(storage, DeadSlots(storage, purge), k))
    && (forall k :: k in reclaimed.purgedSlots <==> HeldIn(storage, DeadSlots(storage, purge), k) != {})
  }

  function GroupOffsets(reclaims: Reclaims): map<Slot, set<Offset>> {
    map s | s in SlotsOf(reclaims) :: OffsetsAt(reclaims, s)
  }

  function KeysOf(pairs: set<(Slot, Pubkey)>): set<Pubkey> {
    set p | p in pairs :: p.1
  }

  function GroupSlots(pairs: set<(Slot, Pubkey)>): map<Pubkey, set<Slot>> {
    map k | k in KeysOf(pairs) :: SlotsIn(pairs, k)
  }

  lemma KeysHaveSlots(pairs: set<(Slot, Pubkey)>, k: Pubkey)
    ensures k in KeysOf(pairs) <==> SlotsIn(pairs, k) != {}
  {
    if k in KeysOf(pairs) {
      var p :| p in pairs && p.1 == k;
      assert p.0 in SlotsIn(pairs, k);
    }
    if SlotsIn(pairs, k) != {} {
      var s :| s in SlotsIn(pairs, k);
    }
  }

  lemma GroupsReport(index: Index, storage: Storage, purge: Purge, reclaims: Reclaims, dead: set<Slot>)
    requires Collected(index, purge, purge.Keys, reclaims) && dead == DeadSlots(storage, purge)
    ensures Reports(index, storage, purge, Reclaimed(GroupSlots(PairsOf(storage, dead)), GroupOffsets(reclaims)))
  {
    var removed, pairs := GroupOffsets(reclaims), PairsOf(storage, dead);
    forall s, o ensures s in removed && o in removed[s] <==> (s, o) in reclaims {
      if (s, o) in reclaims {
        assert (s, o).0 in SlotsOf(reclaims) && (s, o).1 in OffsetsAt(reclaims, s);
      }
    }
    forall k
      ensures SlotsIn(pairs, k) == HeldIn(storage, dead, k) && (k in KeysOf(pairs) <==> SlotsIn(pairs, k) != {})
    {
      PairsAreHeld(storage, dead, k);
      KeysHaveSlots(pairs, k);
    }
  }

  lemma LoweredIsCounted(storage: Storage, purge: Purge, reclaims: Reclaims, storage': Storage, dead: set<Slot>)
    requires forall s | s in storage :: |OffsetsAt(reclaims, s)| == |PurgedAt(purge, s)| <= storage[s].count
    requires forall s :: StoreLowered(storage, reclaims, SlotsOf(reclaims), storage', s)
    requires forall s :: s in dead <==>
               s in storage && OffsetsAt(reclaims, s) != {} && |OffsetsAt(reclaims, s)| == storage[s].count
    ensures storage' == CountedStorage(storage, purge) && dead == DeadSlots(storage, purge)
  {
    forall s
      ensures (s in storage' <==> s in storage) && (s in storage ==> storage'[s] == CountedStorage(storage, purge)[s])
    {
      assert StoreLowered(storage, reclaims, SlotsOf(reclaims), storage', s);
      TouchedSlot(reclaims, s);
    }
    forall s | s in storage ensures OffsetsAt(reclaims, s) == {} <==> PurgedAt(purge, s) == {} {
      assert |OffsetsAt(reclaims, s)| == |PurgedAt(purge, s)|;
    }
  }

  method HandlePurge(index: Index, storage: Storage, purge: Purge)
    returns (index': Index, storage': Storage, reclaimed: Reclaimed)
    requires Accurate(index, storage) && Purgeable(index, purge)
    ensures index' == IndexAfter(index, storage, purge) && storage' == PurgedStorage(storage, purge)
    ensures Accurate(index', storage') && Reports(index, storage, purge, reclaimed)
  {
    var reclaims, dead;
    index', reclaims := PurgeKeysExact(index, purge);
    forall s | s in storage
      ensures |OffsetsAt(reclaims, s)| == |PurgedAt(purge, s)| && |OffsetsAt(reclaims, s)| <= storage[s].count
    {
      OffsetsCount(index, storage, purge, reclaims, s);
      PurgedAreAlive(index, storage, purge, s);
    }
    storage', dead := RemoveDeadAccounts(storage, reclaims);
    LoweredIsCounted(storage, purge, reclaims, storage', dead);
    GroupsReport(index, storage, purge, reclaims, dead);
    reclaimed := Reclaimed(GroupSlots(PairsOf(storage, dead)), GroupOffsets(reclaims));
    index' := CleanStoredDeadSlots(index', storage, dead);
    storage' := storage' - dead;
    PurgeKeepsAccurate(index, storage, purge);
  }
}
