/**
 The runs of the database are not empty: any account can be written to a slot that is no root yet, any later slot
 can become a root, every waiting root can be flushed, and full snapshots can be announced and archived.
 */
module DatabaseProgress {
  import opened Types
  import opened AccountsState
  import opened ShrinkSlots
  import opened DatabaseRun
  import Restore = RestoreSafety

  // A storage for any accounts.
  lemma {:induction false} StoreFor(accounts: map<Pubkey, Account>, id: StoreId) returns (store: Store)
    ensures store.id == id && store.count == |store.accounts| == |accounts| && OffsetsDistinct(store)
    ensures store.accounts.Keys == accounts.Keys
    ensures forall k | k in accounts ::
              store.accounts[k].account == accounts[k] && store.accounts[k].offset < |accounts|
    decreases |accounts|
  {
    if accounts == map[] {
      store := Store(id, 0, map[]);
    } else {
      var k :| k in accounts;
      var rest := accounts - {k};
      assert accounts.Keys == rest.Keys + {k} && |accounts.Keys| == |accounts| && |rest.Keys| == |rest|;
      var smaller := StoreFor(rest, id);
      store := Store(id, |accounts|, smaller.accounts[k := StoredAccount(|rest|, accounts[k])]);
      assert store.accounts.Keys == accounts.Keys && |store.accounts.Keys| == |store.accounts|;
    }
  }

  // Entries other than those of one slot stay.
  ghost predicate OthersStay(index: Index, index': Index, s: Slot) {
    forall k, t | k in index && t in index[k].slots && t != s ::
      k in index' && t in index'[k].slots && index'[k].slots[t] == index[k].slots[t]
  }

  lemma WriteCanHappen(db: Db, k: Pubkey, s: Slot, zeroLamport: bool) returns (db': Db)
    requires s !in db.roots
    ensures Next(db, db') && OthersStay(db.index, db'.index, s)
    ensures CachedAt(db'.index, k, s) && db'.index[k].slots[s].zeroLamport == zeroLamport
  {
    var entry := if k in db.index then db.index[k] else IndexEntry(map[], 0);
    db' := db.(index := db.index[k := entry.(slots := entry.slots[s := AccountInfo(0, 0, zeroLamport, true)])]);
    assert Write(db, db', k, s, zeroLamport);
  }

  lemma RootCanHappen(db: Db, s: Slot) returns (db': Db)
    requires db.rest.nextRoot <= s
    ensures Next(db, db') && s in db'.roots && s in db'.rest.cached && db'.rest.nextRoot == s + 1
  {
    db' := db.(roots := db.roots + {s}, rest := db.rest.(cached := db.rest.cached + {s}, nextRoot := s + 1));
    assert MakeRoot(db, db', s);
  }

  function Dropped(index: Index, s: Slot, keys: set<Pubkey>): Index {
    map k | k in index && !(k in keys && index[k].slots.Keys <= {s}) ::
      if k in keys then index[k].(slots := index[k].slots - {s}) else index[k]
  }

  lemma RemovalCanHappen(db: Db, s: Slot, keys: set<Pubkey>) returns (db': Db)
    requires s !in db.roots && forall k | k in keys :: CachedAt(db.index, k, s)
    ensures Next(db, db') && OthersStay(db.index, db'.index, s)
    ensures forall k | k in keys :: !CachedAt(db'.index, k, s)
  {
    db' := db.(index := Dropped(db.index, s, keys));
    forall k ensures EntryDropped(db.index, s, keys, db'.index, k) {
    }
    assert RemoveCached(db, db', s, keys);
  }

  function Flushed(index: Index, s: Slot, store: Store, dropped: set<Pubkey>): Index {
    map k | k in index && (k in store.accounts || !(k in dropped && index[k].slots.Keys <= {s})) ::
      if k in store.accounts then IndexEntry(index[k].slots[s := InfoIn(store, k)], index[k].refCount + 1)
      else if k in dropped then index[k].(slots := index[k].slots - {s})
      else index[k]
  }

  lemma FlushedEntries(index: Index, s: Slot, store: Store, dropped: set<Pubkey>)
    requires forall k | k in store.accounts :: CachedAt(index, k, s)
    ensures forall k :: EntryFlushed(index, s, store, dropped, Flushed(index, s, store, dropped), k)
    ensures OthersStay(index, Flushed(index, s, store, dropped), s)
  {
    forall k ensures EntryFlushed(index, s, store, dropped, Flushed(index, s, store, dropped), k) {
    }
  }

  lemma FlushedEntry(index: Index, s: Slot, store: Store, dropped: set<Pubkey>, k: Pubkey)
    requires forall l | l in store.accounts :: CachedAt(index, l, s)
    ensures var index' := Flushed(index, s, store, dropped);
            if k in store.accounts then
              AliveAt(index', k, s) && index'[k].slots[s].zeroLamport == (store.accounts[k].account.lamports == 0)
            else k in dropped && k in index' ==> s !in index'[k].slots
  {
  }

  // The accounts are in the slot's storage and in the index.
  ghost predicate Stored(db: Db, s: Slot, k: Pubkey, account: Account) {
    && AliveAt(db.index, k, s) && db.index[k].slots[s].zeroLamport == (account.lamports == 0)
    && s in db.storage && k in db.storage[s].accounts && db.storage[s].accounts[k].account == account
  }

  // A waiting root can be flushed, whichever of its cached accounts are stored and whichever dropped.
  lemma FlushCanHappen(db: Db, s: Slot, accounts: map<Pubkey, Account>, dropped: set<Pubkey>, id: StoreId)
    returns (db': Db)
    requires s in db.rest.cached && accounts.Keys !! dropped
    requires forall k :: CachedAt(db.index, k, s) <==> k in accounts || k in dropped
    ensures Next(db, db') && db'.rest.cached == db.rest.cached - {s} && OthersStay(db.index, db'.index, s)
    ensures forall k | k in accounts :: Stored(db', s, k, accounts[k])
    ensures forall k | k in dropped :: k in db'.index ==> s !in db'.index[k].slots
  {
    var store := StoreFor(accounts, id);
    var index' := Flushed(db.index, s, store, dropped);
    var storage' := if store.accounts == map[] then db.storage else db.storage[s := store];
    db' := db.(index := index', storage := storage', rest := db.rest.(cached := db.rest.cached - {s}));
    FlushedEntries(db.index, s, store, dropped);
    assert Flush(db, db', s, store, dropped);
    forall k | k in accounts ensures Stored(db', s, k, accounts[k]) {
      FlushedEntry(db.index, s, store, dropped, k);
    }
    forall k | k in dropped && k in db'.index ensures s !in db'.index[k].slots {
      FlushedEntry(db.index, s, store, dropped, k);
    }
  }

  // A full snapshot of any root so far, not older than the last, can be announced once that one is archived.
  lemma AnnounceCanHappen(db: Db, slot: Slot) returns (db': Db)
    requires db.rest.guard == db.rest.full && slot < db.rest.nextRoot
    requires db.rest.full.Some? ==> db.rest.full.value <= slot
    ensures Next(db, db') && db'.rest.guard == Some(slot) && db'.rest.full == db.rest.full
  {
    db' := db.(rest := db.rest.(guard := Some(slot)));
    assert Restore.Announce(db.Seen(), db'.Seen(), slot);
  }

  ghost function KeysOf(st: Restore.State): set<Pubkey> {
    set s, k | s in st.stores && k in st.stores[s].accounts :: k
  }

  ghost function Archive(st: Restore.State, slot: Slot): map<Pubkey, Account> {
    map k | k in KeysOf(st) && st.HeldUpTo(k, slot) != {} :: st.stores[Restore.Newest(st.HeldUpTo(k, slot))].accounts[k]
  }

  lemma HeldIsKey(st: Restore.State, slot: Slot, k: Pubkey)
    requires st.HeldUpTo(k, slot) != {}
    ensures k in KeysOf(st)
  {
    var s :| s in st.HeldUpTo(k, slot);
  }

  lemma CaptureCanHappen(db: Db) returns (db': Db)
    requires db.rest.guard.Some? && forall s | s in db.rest.cached :: db.rest.guard.value < s
    ensures Next(db, db') && db'.rest.full == db.rest.guard
  {
    var st := db.Seen();
    db' := db.(rest := db.rest.(full := db.rest.guard, snapshot := Archive(st, db.rest.guard.value)));
    forall k | st.HeldUpTo(k, db.rest.guard.value) != {} ensures k in KeysOf(st) {
      HeldIsKey(st, db.rest.guard.value, k);
    }
    assert Restore.Capture(st, db'.Seen());
  }
}
