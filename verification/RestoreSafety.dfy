/**
 What a restart sees. Storages are archived as files, so a restore shows the newest copy of a key
 that is physically there, dead or alive. This machine runs new roots, flushes, reclaims of old versions,
 zero-lamport purges, shrinks, store drops and full snapshots in any order. A full snapshot is announced
 first, which lets clean and shrink go on as if it were taken, and archived later. A rebuild from the
 storages always gives every key the account the live index gives it; so does a restore from the full
 snapshot overlaid with the newer storages, except between the two for keys purged in the meantime.
 */
module RestoreSafety {
  import opened Types

  // `accounts` is what the file holds, `live` the keys whose index entry points into it.
  datatype Store = Store(accounts: map<Pubkey, Account>, live: set<Pubkey>)

  lemma NewestExists(slots: set<Slot>)
    requires slots != {}
    ensures exists newest | newest in slots :: forall s | s in slots :: s <= newest
  {
    var newest := TopOf(slots);
  }

  ghost function Newest(slots: set<Slot>): (newest: Slot)
    requires slots != {}
    ensures newest in slots
    ensures forall s | s in slots :: s <= newest
  {
    NewestExists(slots);
    var newest :| newest in slots && forall s | s in slots :: s <= newest;
    newest
  }

  // `cached` are the roots still in the write cache, all roots lie below `nextRoot`. `guard` is the full
  // snapshot slot that clean and shrink look at, `full` the slot of the archive and `snapshot` what it shows.
  datatype State = State(
    stores: map<Slot, Store>,
    cached: set<Slot>,
    nextRoot: Slot,
    guard: Option<Slot>,
    full: Option<Slot>,
    snapshot: map<Pubkey, Account>)
  {
    function Held(k: Pubkey): set<Slot> {
      set s | s in stores && k in stores[s].accounts
    }

    function Live(k: Pubkey): set<Slot> {
      set s | s in stores && k in stores[s].live
    }

    predicate UpToGuard(s: Slot) {
      guard.Some? ==> s <= guard.value
    }

    // Storages a restore adds on top of the full snapshot.
    function HeldPastFull(k: Pubkey): set<Slot> {
      set s | s in Held(k) && full.Some? && s > full.value
    }

    // Storages a full snapshot at a slot archives.
    function HeldUpTo(k: Pubkey, slot: Slot): set<Slot> {
      set s | s in Held(k) && s <= slot
    }

    function At(s: Slot, k: Pubkey): Option<Account>
      requires s in Held(k)
    {
      Visible(stores[s].accounts[k])
    }

    ghost function LiveView(k: Pubkey): Option<Account>
      requires Live(k) <= Held(k)
    {
      if Live(k) == {} then None else At(Newest(Live(k)), k)
    }

    ghost function RebuiltView(k: Pubkey): Option<Account> {
      if Held(k) == {} then None else At(Newest(Held(k)), k)
    }

    function SnapshotView(k: Pubkey): Option<Account> {
      if k in snapshot then Visible(snapshot[k]) else None
    }

    ghost function RestoredView(k: Pubkey): Option<Account>
      requires full.Some?
    {
      if HeldPastFull(k) == {} then SnapshotView(k) else At(Newest(HeldPastFull(k)), k)
    }
  }

  lemma NewestIs(slots: set<Slot>, n: Slot)
    requires n in slots && forall s | s in slots :: s <= n
    ensures Newest(slots) == n
  {
  }

  // ---------- the invariant ----------

  ghost predicate KeyInv(st: State, k: Pubkey) {
    && st.Live(k) <= st.Held(k)
    // dead copies are older than some live version
    && (st.Live(k) == {} ==> st.Held(k) == {})
    && (st.Live(k) != {} ==> forall s | s in st.Held(k) :: s <= Newest(st.Live(k)))
    // a key not written since the full snapshot is as the snapshot has it
    && (st.full.Some? && st.Live(k) != {} && Newest(st.Live(k)) <= st.full.value ==>
        st.SnapshotView(k) == st.LiveView(k))
    // and so is a key that is gone, unless a newer snapshot is announced
    && (st.full.Some? && st.guard == st.full && st.Live(k) == {} ==> st.SnapshotView(k) == None)
  }

  // Roots are flushed up to the full snapshot, and stores and snapshots belong to roots.
  ghost predicate SlotsInv(st: State) {
    && (forall s | s in st.stores :: s < st.nextRoot)
    && (forall s | s in st.cached :: s < st.nextRoot && s !in st.stores && (st.full.Some? ==> st.full.value < s))
    && (st.guard.Some? ==> st.guard.value < st.nextRoot)
    && (st.full.Some? ==> st.guard.Some? && st.full.value <= st.guard.value)
  }

  ghost predicate Inv(st: State) {
    SlotsInv(st) && forall k :: KeyInv(st, k)
  }

  // ---------- the steps ----------

  ghost predicate Root(st: State, st': State, slot: Slot) {
    && st.nextRoot <= slot
    && st' == st.(cached := st.cached + {slot}, nextRoot := slot + 1)
  }

  // A root leaves the write cache; without accounts to store it leaves no storage.
  ghost predicate Flush(st: State, st': State, slot: Slot, accounts: map<Pubkey, Account>) {
    && slot in st.cached
    && st' == st.(cached := st.cached - {slot},
                  stores := if accounts == map[] then st.stores else st.stores[slot := Store(accounts, accounts.Keys)])
  }

  // An old version loses its index entry because a newer one has one.
  ghost predicate Reclaim(st: State, st': State, slot: Slot, k: Pubkey) {
    && slot in st.Live(k)
    && (exists s | s in st.Live(k) :: slot < s)
    && st' == st.(stores := st.stores[slot := st.stores[slot].(live := st.stores[slot].live - {k})])
  }

  // A store with nothing alive in it is deleted.
  ghost predicate Drop(st: State, st': State, slot: Slot) {
    && slot in st.stores && st.stores[slot].live == {}
    && st' == st.(stores := st.stores - {slot})
  }

  predicate Emptied(st: State, keys: set<Pubkey>, s: Slot)
    requires s in st.stores
  {
    st.stores[s].live != {} && st.stores[s].live <= keys
  }

  ghost predicate MayPurge(st: State, keys: set<Pubkey>, k: Pubkey) {
    // every store that holds the key has it in its slot list
    && st.Live(k) != {} && st.Live(k) == st.Held(k)
    // its newest version is a zero-lamport one, not newer than the announced snapshot
    && st.At(Newest(st.Held(k)), k) == None
    && (forall s | s in st.Held(k) :: st.UpToGuard(s))
    // all its stores go
    && (forall s | s in st.Held(k) :: Emptied(st, keys, s))
  }

  function AfterPurge(st: State, keys: set<Pubkey>): State {
    st.(stores := map s | s in st.stores && !Emptied(st, keys, s) ::
          st.stores[s].(live := st.stores[s].live - keys))
  }

  ghost predicate Purge(st: State, st': State, keys: set<Pubkey>) {
    && (forall k | k in keys :: MayPurge(st, keys, k))
    && st' == AfterPurge(st, keys)
  }

  // A zero-lamport account that is the only copy of its key, not newer than the announced snapshot.
  predicate MayShrinkAway(st: State, slot: Slot, k: Pubkey) {
    && slot in st.Live(k)
    && st.Held(k) == {slot}
    && st.At(slot, k) == None
    && st.UpToGuard(slot)
  }

  predicate Rewritten(store: Store, dropped: set<Pubkey>, store': Store) {
    && store'.live == store.live - dropped
    && store'.accounts.Keys == store.accounts.Keys * store'.live
    && forall k | k in store'.accounts :: store'.accounts[k] == store.accounts[k]
  }

  // A store is rewritten with its live accounts, less the dropped zero-lamport ones.
  ghost predicate Shrink(st: State, st': State, slot: Slot, dropped: set<Pubkey>) {
    && slot in st.stores && slot in st'.stores
    && (forall k | k in dropped :: MayShrinkAway(st, slot, k))
    && st' == st.(stores := st.stores[slot := st'.stores[slot]])
    && Rewritten(st.stores[slot], dropped, st'.stores[slot])
  }

  // A full snapshot at a root is about to be taken.
  ghost predicate Announce(st: State, st': State, slot: Slot) {
    && st.guard == st.full && slot < st.nextRoot && (st.full.Some? ==> st.full.value <= slot)
    && st' == st.(guard := Some(slot))
  }

  // With all roots up to the announced slot flushed, the storages up to it are archived, and their newest
  // copies are what the archive shows. Later roots may be in storages already.
  ghost predicate Capture(st: State, st': State) {
    && st.guard.Some? && (forall s | s in st.cached :: st.guard.value < s)
    && st' == st.(full := st.guard, snapshot := st'.snapshot)
    && (forall k :: k in st'.snapshot <==> st.HeldUpTo(k, st.guard.value) != {})
    && (forall k | k in st'.snapshot ::
        st'.snapshot[k] == st.stores[Newest(st.HeldUpTo(k, st.guard.value))].accounts[k])
  }

  ghost predicate Next(st: State, st': State) {
    || (exists slot :: Root(st, st', slot))
    || (exists slot, accounts :: Flush(st, st', slot, accounts))
    || (exists slot, k :: Reclaim(st, st', slot, k))
    || (exists slot :: Drop(st, st', slot))
    || (exists keys :: Purge(st, st', keys))
    || (exists slot, dropped :: Shrink(st, st', slot, dropped))
    || (exists slot :: Announce(st, st', slot))
    || Capture(st, st')
  }

  // ---------- each step keeps the invariant ----------

  // The same storages, and the archive as good as before.
  lemma SameStoresKeep(st: State, st': State, k: Pubkey)
    requires KeyInv(st, k) && st'.stores == st.stores && st'.full == st.full && st'.snapshot == st.snapshot
    requires st'.guard == st'.full ==> st.guard == st.full
    ensures KeyInv(st', k)
  {
    assert st'.Held(k) == st.Held(k) && st'.Live(k) == st.Live(k);
  }

  lemma FlushKeeps(st: State, st': State, slot: Slot, accounts: map<Pubkey, Account>, k: Pubkey)
    requires KeyInv(st, k) && SlotsInv(st) && Flush(st, st', slot, accounts)
    ensures KeyInv(st', k)
  {
    if k in accounts {
      assert st'.Held(k) == st.Held(k) + {slot} && st'.Live(k) == st.Live(k) + {slot};
      forall s | s in st'.Held(k) ensures s <= Newest(st'.Live(k)) {
        if s != slot {
          assert Newest(st.Live(k)) in st'.Live(k);
        }
      }
    } else {
      assert st'.Held(k) == st.Held(k) && st'.Live(k) == st.Live(k);
      forall s | s in st.Held(k) ensures st'.At(s, k) == st.At(s, k) {
      }
    }
  }

  lemma ReclaimKeeps(st: State, st': State, slot: Slot, gone: Pubkey, k: Pubkey)
    requires KeyInv(st, k) && Reclaim(st, st', slot, gone)
    ensures KeyInv(st', k)
  {
    assert st'.Held(k) == st.Held(k);
    forall s | s in st.Held(k) ensures st'.At(s, k) == st.At(s, k) {
    }
    if k == gone {
      assert st'.Live(k) == st.Live(k) - {slot};
      NewestIs(st'.Live(k), Newest(st.Live(k)));
    } else {
      assert st'.Live(k) == st.Live(k);
    }
  }

  // Losing dead copies, and live ones but the newest, is invisible.
  lemma ThinnedKeeps(st: State, st': State, k: Pubkey)
    requires KeyInv(st, k) && st'.full == st.full && st'.guard == st.guard && st'.snapshot == st.snapshot
    requires st'.Held(k) <= st.Held(k) && st'.Live(k) <= st'.Held(k) && st'.Live(k) <= st.Live(k)
    requires st.Live(k) != {} ==> Newest(st.Live(k)) in st'.Live(k)
    requires forall s | s in st'.Held(k) :: st'.At(s, k) == st.At(s, k)
    ensures KeyInv(st', k)
  {
    if st.Live(k) != {} {
      NewestIs(st'.Live(k), Newest(st.Live(k)));
    }
  }

  lemma DropKeeps(st: State, st': State, slot: Slot, k: Pubkey)
    requires KeyInv(st, k) && Drop(st, st', slot)
    ensures KeyInv(st', k)
  {
    assert st'.Held(k) == st.Held(k) - {slot};
    assert st'.Live(k) == st.Live(k);
    forall s | s in st'.Held(k) ensures st'.At(s, k) == st.At(s, k) {
    }
  }

  lemma PurgeKeeps(st: State, st': State, keys: set<Pubkey>, k: Pubkey)
    requires KeyInv(st, k) && Purge(st, st', keys)
    ensures KeyInv(st', k)
  {
    assert st'.Held(k) <= st.Held(k);
    forall s | s in st'.Held(k) ensures st'.At(s, k) == st.At(s, k) {
    }
    if k in keys {
      assert MayPurge(st, keys, k);
      forall s ensures s !in st'.Held(k) {
        if s in st.Held(k) { assert Emptied(st, keys, s); }
      }
      assert st'.Held(k) == {} && st'.Live(k) == {};
    } else {
      forall s | s in st.Live(k) ensures s in st'.stores {
        assert !Emptied(st, keys, s);
      }
      assert st'.Live(k) == st.Live(k);
    }
  }

  lemma ShrinkKeeps(st: State, st': State, slot: Slot, dropped: set<Pubkey>, k: Pubkey)
    requires KeyInv(st, k) && Shrink(st, st', slot, dropped)
    ensures KeyInv(st', k)
  {
    assert st'.Held(k) <= st.Held(k);
    forall s | s in st'.Held(k) ensures st'.At(s, k) == st.At(s, k) {
    }
    if k in dropped {
      assert MayShrinkAway(st, slot, k);
      assert st.Live(k) == {slot};
      NewestIs(st.Live(k), slot);
      forall s ensures s !in st'.Held(k) && s !in st'.Live(k) {
        assert s != slot ==> s !in st.Held(k) && s !in st.Live(k);
      }
    } else {
      assert st'.Live(k) == st.Live(k);
    }
  }

  lemma CaptureKeeps(st: State, st': State, k: Pubkey)
    requires KeyInv(st, k) && Capture(st, st')
    ensures KeyInv(st', k)
  {
    assert st'.Held(k) == st.Held(k) && st'.Live(k) == st.Live(k);
    forall s | s in st.Held(k) ensures st'.At(s, k) == st.At(s, k) {
    }
    if st.Live(k) != {} && Newest(st.Live(k)) <= st.guard.value {
      NewestIs(st.HeldUpTo(k, st.guard.value), Newest(st.Live(k)));
    }
  }

  lemma KeyKept(st: State, st': State, k: Pubkey)
    requires KeyInv(st, k) && SlotsInv(st) && Next(st, st')
    ensures KeyInv(st', k)
  {
    if slot :| Root(st, st', slot) {
      SameStoresKeep(st, st', k);
    } else if slot, accounts :| Flush(st, st', slot, accounts) {
      FlushKeeps(st, st', slot, accounts, k);
    } else if slot, gone :| Reclaim(st, st', slot, gone) {
      ReclaimKeeps(st, st', slot, gone, k);
    } else if slot :| Drop(st, st', slot) {
      DropKeeps(st, st', slot, k);
    } else if keys :| Purge(st, st', keys) {
      PurgeKeeps(st, st', keys, k);
    } else if slot, dropped :| Shrink(st, st', slot, dropped) {
      ShrinkKeeps(st, st', slot, dropped, k);
    } else if slot :| Announce(st, st', slot) {
      SameStoresKeep(st, st', k);
    } else {
      CaptureKeeps(st, st', k);
    }
  }

  lemma FewerStoresKeep(st: State, st': State)
    requires SlotsInv(st) && st'.stores.Keys <= st.stores.Keys && st' == st.(stores := st'.stores)
    ensures SlotsInv(st')
  {
  }

  lemma RootKeepsSlots(st: State, st': State, slot: Slot)
    requires SlotsInv(st) && Root(st, st', slot)
    ensures SlotsInv(st')
  {
  }

  lemma FlushKeepsSlots(st: State, st': State, slot: Slot, accounts: map<Pubkey, Account>)
    requires SlotsInv(st) && Flush(st, st', slot, accounts)
    ensures SlotsInv(st')
  {
  }

  lemma SlotsKept(st: State, st': State)
    requires SlotsInv(st) && Next(st, st')
    ensures SlotsInv(st')
  {
    if slot :| Root(st, st', slot) {
      RootKeepsSlots(st, st', slot);
    } else if slot, accounts :| Flush(st, st', slot, accounts) {
      FlushKeepsSlots(st, st', slot, accounts);
    } else if (exists slot :: Announce(st, st', slot)) || Capture(st, st') {
    } else {
      FewerStoresKeep(st, st');
    }
  }

  lemma NextKeepsInv(st: State, st': State)
    requires Inv(st) && Next(st, st')
    ensures Inv(st')
  {
    SlotsKept(st, st');
    forall k ensures KeyInv(st', k) {
      KeyKept(st, st', k);
    }
  }

  // ---------- what a restart shows ----------

  lemma RebuildShowsLive(st: State, k: Pubkey)
    requires KeyInv(st, k)
    ensures st.RebuiltView(k) == st.LiveView(k)
  {
    if st.Live(k) != {} {
      NewestIs(st.Held(k), Newest(st.Live(k)));
    }
  }

  // A restore is wrong exactly for a key that is gone and that the archive still shows.
  lemma RestoreShowsLiveIff(st: State, k: Pubkey)
    requires KeyInv(st, k) && st.full.Some?
    ensures st.RestoredView(k) == st.LiveView(k) <==> st.Live(k) != {} || st.SnapshotView(k) == None
  {
    if st.Live(k) != {} {
      RebuildShowsLive(st, k);
      if st.HeldPastFull(k) != {} {
        NewestIs(st.HeldPastFull(k), Newest(st.Held(k)));
      } else {
        assert Newest(st.Live(k)) in st.Held(k) && Newest(st.Live(k)) !in st.HeldPastFull(k);
      }
    }
  }

  const START := State(map[], {}, 0, None, None, map[])

  ghost predicate IsRun(run: seq<State>) {
    && run != [] && run[0] == START
    && forall i | 0 <= i < |run| - 1 :: Next(run[i], run[i + 1])
  }

  lemma {:induction false} RunKeepsInv(run: seq<State>, n: nat)
    requires IsRun(run) && n < |run|
    ensures Inv(run[n])
  {
    if n == 0 {
      forall k ensures KeyInv(START, k) {
        assert START.Held(k) == {} && START.Live(k) == {};
      }
    } else {
      RunKeepsInv(run, n - 1);
      assert Next(run[n - 1], run[n - 1 + 1]);
      NextKeepsInv(run[n - 1], run[n]);
    }
  }

  /**
   In every reachable state a rebuild shows what the database shows, and so does a restore unless a full
   snapshot is announced and not yet archived. Even then only keys that are gone can come back.
   */
  lemma RestartIsSafe(run: seq<State>, n: nat, k: Pubkey)
    requires IsRun(run) && n < |run|
    ensures run[n].Live(k) <= run[n].Held(k)
    ensures run[n].RebuiltView(k) == run[n].LiveView(k)
    ensures run[n].full.Some? && run[n].guard == run[n].full ==> run[n].RestoredView(k) == run[n].LiveView(k)
    ensures run[n].full.Some? ==>
              (run[n].RestoredView(k) == run[n].LiveView(k) <==> run[n].Live(k) != {} || run[n].SnapshotView(k) == None)
  {
    RunKeepsInv(run, n);
    assert KeyInv(run[n], k);
    RebuildShowsLive(run[n], k);
    if run[n].full.Some? {
      RestoreShowsLiveIff(run[n], k);
    }
  }

  // ---------- the snapshot guard is exact ----------

  // A purge that empties all stores of its keys but does not look at the full snapshot.
  ghost predicate UnguardedPurge(st: State, keys: set<Pubkey>) {
    forall k | k in keys ::
      && st.Live(k) != {} && st.Live(k) == st.Held(k)
      && st.At(Newest(st.Held(k)), k) == None
      && forall s | s in st.Held(k) :: Emptied(st, keys, s)
  }

  // Without the guard a restore still shows the truth exactly for the keys the snapshot shows
  // nothing for; the guard is one way to know that.
  lemma UnguardedPurgeIsSafeIff(st: State, keys: set<Pubkey>, k: Pubkey)
    requires Inv(st) && st.full.Some? && UnguardedPurge(st, keys) && k in keys
    ensures AfterPurge(st, keys).Live(k) == {} && AfterPurge(st, keys).Held(k) == {}
    ensures AfterPurge(st, keys).RestoredView(k) == AfterPurge(st, keys).LiveView(k) <==> st.SnapshotView(k) == None
    ensures (forall s | s in st.Held(k) :: s <= st.full.value) ==> st.SnapshotView(k) == None
  {
    var st' := AfterPurge(st, keys);
    forall s ensures s !in st'.Held(k) && s !in st'.Live(k) {
      if s in st.Held(k) {
        assert Emptied(st, keys, s);
      }
      assert s in st'.Held(k) ==> s in st.Held(k);
    }
    assert KeyInv(st, k);
  }
}
