/**
 Whole runs of the database: writes to the cache, new roots, flushes, cleans, shrinks, removals of cached
 slots and full snapshots. Each step is one of the restart machine or invisible to it, so in every
 reachable state the counters are accurate and a restart shows what the database shows.
 */
module DatabaseRun {
  import opened Types
  import opened AccountsState
  import opened CleanAccounts
  import opened CleanScan
  import opened CleanIsPurge
  import opened ShrinkSlots
  import opened AccountsDatabase
  import opened DeleteDependencies
  import Restore = RestoreSafety

  // `rest` has the roots and the snapshots of the restart machine.
  datatype Db = Db(index: Index, storage: Storage, roots: set<Slot>, rest: Restore.State) {
    ghost function Seen(): Restore.State {
      Abs(index, storage, rest)
    }
  }

  predicate CachedAt(index: Index, k: Pubkey, s: Slot) {
    k in index && s in index[k].slots && index[k].slots[s].cached
  }

  // Cached entries of roots belong to roots that wait to be flushed.
  ghost predicate CachedAreRooted(index: Index, roots: set<Slot>, cached: set<Slot>) {
    forall k, s | CachedAt(index, k, s) && s in roots :: s in cached
  }

  ghost predicate Inv(db: Db) {
    && Accurate(db.index, db.storage)
    && Restore.Inv(db.Seen())
    && db.storage.Keys <= db.roots && db.rest.cached <= db.roots
    && (forall s | s in db.roots :: s < db.rest.nextRoot)
    && CachedAreRooted(db.index, db.roots, db.rest.cached)
  }

  // ---------- the steps ----------

  // A write to a slot that is not a root yet.
  ghost predicate Write(db: Db, db': Db, k: Pubkey, s: Slot, zeroLamport: bool) {
    && s !in db.roots
    && var entry := if k in db.index then db.index[k] else IndexEntry(map[], 0);
    && db' == db.(index := db.index[k := entry.(slots := entry.slots[s := AccountInfo(0, 0, zeroLamport, true)])])
  }

  // A cached slot that is not a root is removed.
  ghost predicate RemoveCached(db: Db, db': Db, s: Slot, keys: set<Pubkey>) {
    && s !in db.roots && (forall k | k in keys :: CachedAt(db.index, k, s))
    && (forall k :: EntryDropped(db.index, s, keys, db'.index, k))
    && db' == db.(index := db'.index)
  }

  ghost predicate MakeRoot(db: Db, db': Db, s: Slot) {
    && Restore.Root(db.rest, db'.rest, s)
    && db' == db.(roots := db.roots + {s}, rest := db'.rest)
  }

  // Stored accounts gain a reference, the others lose their entry.
  ghost predicate EntryFlushed(index: Index, s: Slot, store: Store, dropped: set<Pubkey>, index': Index, k: Pubkey) {
    if k in store.accounts then
      && CachedAt(index, k, s) && k in index'
      && index'[k] == IndexEntry(index[k].slots[s := InfoIn(store, k)], index[k].refCount + 1)
    else EntryDropped(index, s, dropped, index', k)
  }

  // The cached accounts of a root are stored or dropped.
  ghost predicate Flush(db: Db, db': Db, s: Slot, store: Store, dropped: set<Pubkey>) {
    && s in db.rest.cached && store.count == |store.accounts| && OffsetsDistinct(store)
    && (forall k :: CachedAt(db.index, k, s) <==> k in store.accounts || k in dropped)
    && (forall k :: EntryFlushed(db.index, s, store, dropped, db'.index, k))
    && db'.storage == (if store.accounts == map[] then db.storage else db.storage[s := store])
    && db' == db.(index := db'.index, storage := db'.storage, rest := db.rest.(cached := db.rest.cached - {s}))
  }

  // Clean stays below the roots still cached.
  ghost predicate Clean(db: Db, db': Db, keys: set<Pubkey>, maxCleanRoot: Option<Slot>, limit: Slot,
                        older: Purge, left: Candidates, purge: Purge)
  {
    && IsLimit(maxCleanRoot, db.roots, limit) && (forall s | s in db.rest.cached :: limit < s)
    && Cleaned(db.index, db.storage, keys, db.roots, limit, Filtering(maxCleanRoot, db.rest.guard), db.rest.guard,
               older, left, purge, db'.index, db'.storage)
    && db' == db.(index := db'.index, storage := db'.storage)
  }

  ghost predicate Shrink(db: Db, db': Db, slot: Slot, c: Collected, store: Store) {
    && Shrunk(db.index, db.storage, slot, db.rest.guard, c, store, db'.index, db'.storage)
    && db' == db.(index := db'.index, storage := db'.storage)
  }

  // A full snapshot is announced or archived.
  ghost predicate TakeSnapshot(db: Db, db': Db) {
    && db' == db.(rest := db'.rest)
    && ((exists slot :: Restore.Announce(db.Seen(), db'.Seen(), slot)) || Restore.Capture(db.Seen(), db'.Seen()))
  }

  ghost predicate Next(db: Db, db': Db) {
    || (exists k, s, zeroLamport :: Write(db, db', k, s, zeroLamport))
    || (exists s, keys :: RemoveCached(db, db', s, keys))
    || (exists s :: MakeRoot(db, db', s))
    || (exists s, store, dropped :: Flush(db, db', s, store, dropped))
    || (exists keys, maxCleanRoot, limit, older, left, purge ::
        Clean(db, db', keys, maxCleanRoot, limit, older, left, purge))
    || (exists slot, c, store :: Shrink(db, db', slot, c, store))
    || TakeSnapshot(db, db')
  }

  // ---------- what the restart machine knows of a key ----------

  lemma HeldIsAlive(db: Db, k: Pubkey)
    requires Inv(db) && Holders(db.storage, k) != {}
    ensures k in db.index
  {
    AbsSlots(db.index, db.storage, db.rest, k);
    assert Restore.KeyInv(db.Seen(), k);
    var s :| s in LiveSlots(db.index, db.storage, k);
  }

  lemma NotAliveOutside(index: Index, storage: Storage, k: Pubkey, s: Slot)
    requires AllResolve(index, storage) && s !in storage
    ensures !AliveAt(index, k, s)
  {
  }

  // ---------- steps in the cache only ----------

  // The stored entries are the same, and new keys are held nowhere.
  ghost predicate SameAlive(index: Index, storage: Storage, index': Index) {
    && (forall k, s :: AliveAt(index', k, s) <==> AliveAt(index, k, s))
    && (forall k, s | AliveAt(index', k, s) :: index'[k].slots[s] == index[k].slots[s])
    && (forall k | k in index' :: if k in index then index'[k].refCount == index[k].refCount
                                  else index'[k].refCount == 0 && Holders(storage, k) == {})
  }

  lemma SameAliveKeeps(index: Index, storage: Storage, rest: Restore.State, index': Index)
    requires Accurate(index, storage) && SameAlive(index, storage, index')
    ensures Accurate(index', storage) && Abs(index', storage, rest) == Abs(index, storage, rest)
  {
    forall s | s in storage ensures AliveKeys(index', storage, s) == AliveKeys(index, storage, s) {
    }
    forall k, s | AliveAt(index', k, s) ensures ResolvesTo(storage, k, s, index'[k].slots[s]) {
      assert ResolvesTo(storage, k, s, index[k].slots[s]);
    }
    SameStates(Abs(index', storage, rest), Abs(index, storage, rest));
  }

  lemma WriteIsCached(db: Db, db': Db, k: Pubkey, s: Slot, zeroLamport: bool)
    requires AllResolve(db.index, db.storage) && s !in db.storage && Write(db, db', k, s, zeroLamport)
    requires k !in db.index ==> Holders(db.storage, k) == {}
    ensures SameAlive(db.index, db.storage, db'.index)
    ensures forall l, t | CachedAt(db'.index, l, t) :: CachedAt(db.index, l, t) || t == s
  {
    NotAliveOutside(db.index, db.storage, k, s);
  }

  lemma WriteKeeps(db: Db, db': Db, k: Pubkey, s: Slot, zeroLamport: bool)
    requires Inv(db) && Write(db, db', k, s, zeroLamport)
    ensures Inv(db')
  {
    if k !in db.index && Holders(db.storage, k) != {} { HeldIsAlive(db, k); }
    WriteIsCached(db, db', k, s, zeroLamport);
    SameAliveKeeps(db.index, db.storage, db.rest, db'.index);
  }

  // Dropping entries that are cached touches no other.
  lemma DroppedEntry(index: Index, s: Slot, keys: set<Pubkey>, index': Index, k: Pubkey, t: Slot)
    requires EntryDropped(index, s, keys, index', k) && !AliveAt(index, k, s)
    ensures AliveAt(index', k, t) <==> AliveAt(index, k, t)
    ensures AliveAt(index', k, t) ==> index'[k].slots[t] == index[k].slots[t]
    ensures CachedAt(index', k, t) ==> CachedAt(index, k, t)
    ensures k in index' ==> k in index && index'[k].refCount == index[k].refCount
  {
  }

  lemma DropIsCached(index: Index, storage: Storage, s: Slot, keys: set<Pubkey>, index': Index)
    requires AllResolve(index, storage) && s !in storage && forall k :: EntryDropped(index, s, keys, index', k)
    ensures SameAlive(index, storage, index')
    ensures forall k, t | CachedAt(index', k, t) :: CachedAt(index, k, t)
  {
    forall k, t
      ensures AliveAt(index', k, t) <==> AliveAt(index, k, t)
      ensures AliveAt(index', k, t) ==> index'[k].slots[t] == index[k].slots[t]
      ensures CachedAt(index', k, t) ==> CachedAt(index, k, t)
    {
      NotAliveOutside(index, storage, k, s);
      DroppedEntry(index, s, keys, index', k, t);
    }
    forall k | k in index' ensures k in index && index'[k].refCount == index[k].refCount {
      NotAliveOutside(index, storage, k, s);
      DroppedEntry(index, s, keys, index', k, s);
    }
  }

  lemma RemoveCachedKeeps(db: Db, db': Db, s: Slot, keys: set<Pubkey>)
    requires Inv(db) && RemoveCached(db, db', s, keys)
    ensures Inv(db')
  {
    DropIsCached(db.index, db.storage, s, keys, db'.index);
    SameAliveKeeps(db.index, db.storage, db.rest, db'.index);
  }

  lemma MakeRootKeeps(db: Db, db': Db, s: Slot)
    requires Inv(db) && MakeRoot(db, db', s)
    ensures Inv(db')
  {
    assert Restore.Root(db.Seen(), db'.Seen(), s);
    Restore.NextKeepsInv(db.Seen(), db'.Seen());
  }

  // ---------- flush ----------

  // A flushed slot gains its stored accounts and nothing else.
  lemma FlushedEntry(index: Index, s: Slot, store: Store, dropped: set<Pubkey>, index': Index, k: Pubkey, t: Slot)
    requires EntryFlushed(index, s, store, dropped, index', k) && !AliveAt(index, k, s)
    requires CachedAt(index, k, s) ==> k in store.accounts || k in dropped
    ensures AliveAt(index', k, t) <==> AliveAt(index, k, t) || (t == s && k in store.accounts)
    ensures AliveAt(index', k, t) ==>
              index'[k].slots[t] == if t == s && k in store.accounts then InfoIn(store, k) else index[k].slots[t]
    ensures CachedAt(index', k, t) ==> CachedAt(index, k, t) && t != s
    ensures k in index' ==> k in index && index'[k].refCount == index[k].refCount + if k in store.accounts then 1 else 0
  {
  }

  lemma FlushedAt(db: Db, db': Db, s: Slot, store: Store, dropped: set<Pubkey>, k: Pubkey, t: Slot)
    requires AllResolve(db.index, db.storage) && s !in db.storage && Flush(db, db', s, store, dropped)
    ensures AliveAt(db'.index, k, t) <==> AliveAt(db.index, k, t) || (t == s && k in store.accounts)
    ensures AliveAt(db'.index, k, t) ==>
              db'.index[k].slots[t] == if t == s && k in store.accounts then InfoIn(store, k) else db.index[k].slots[t]
    ensures CachedAt(db'.index, k, t) ==> CachedAt(db.index, k, t) && t != s
    ensures k in db'.index ==>
              k in db.index && db'.index[k].refCount == db.index[k].refCount + if k in store.accounts then 1 else 0
  {
    NotAliveOutside(db.index, db.storage, k, s);
    assert EntryFlushed(db.index, s, store, dropped, db'.index, k);
    FlushedEntry(db.index, s, store, dropped, db'.index, k, t);
  }

  lemma AliveKeysAfterFlush(db: Db, db': Db, s: Slot, store: Store, dropped: set<Pubkey>, t: Slot)
    requires AllResolve(db.index, db.storage) && s !in db.storage && Flush(db, db', s, store, dropped)
    requires t in db'.storage
    ensures AliveKeys(db'.index, db'.storage, t)
         == if t == s then store.accounts.Keys else AliveKeys(db.index, db.storage, t)
  {
    forall k
      ensures k in AliveKeys(db'.index, db'.storage, t)
         <==> k in if t == s then store.accounts.Keys else AliveKeys(db.index, db.storage, t)
    {
      FlushedAt(db, db', s, store, dropped, k, t);
    }
  }

  lemma HoldersAfterFlush(storage: Storage, s: Slot, store: Store, storage': Storage, k: Pubkey)
    requires s !in storage && storage' == if store.accounts == map[] then storage else storage[s := store]
    ensures |Holders(storage', k)| == |Holders(storage, k)| + if k in store.accounts then 1 else 0
  {
    assert Holders(storage', k) == Holders(storage, k) + if k in store.accounts then {s} else {};
  }

  lemma FlushKeepsAccurate(db: Db, db': Db, s: Slot, store: Store, dropped: set<Pubkey>)
    requires Accurate(db.index, db.storage) && s !in db.storage && Flush(db, db', s, store, dropped)
    ensures Accurate(db'.index, db'.storage)
  {
    forall k, t | AliveAt(db'.index, k, t) ensures ResolvesTo(db'.storage, k, t, db'.index[k].slots[t]) {
      FlushedAt(db, db', s, store, dropped, k, t);
      if t != s { assert ResolvesTo(db.storage, k, t, db.index[k].slots[t]); }
    }
    forall t | t in db'.storage ensures db'.storage[t].count == |AliveKeys(db'.index, db'.storage, t)| {
      AliveKeysAfterFlush(db, db', s, store, dropped, t);
    }
    forall k | k in db'.index ensures db'.index[k].refCount == |Holders(db'.storage, k)| {
      FlushedAt(db, db', s, store, dropped, k, s);
      HoldersAfterFlush(db.storage, s, store, db'.storage, k);
    }
  }

  lemma SeenStoreSame(index: Index, storage: Storage, rest: Restore.State, index': Index, storage': Storage,
                      rest': Restore.State, t: Slot)
    requires t in storage && t in storage' && storage'[t].accounts == storage[t].accounts
    requires AliveKeys(index', storage', t) == AliveKeys(index, storage, t)
    ensures Abs(index', storage', rest').stores[t] == Abs(index, storage, rest).stores[t]
  {
  }

  lemma SeenStore(index: Index, storage: Storage, rest: Restore.State, t: Slot)
    requires t in storage
    ensures var store := Abs(index, storage, rest).stores[t];
            && store.accounts.Keys == storage[t].accounts.Keys && store.live == AliveKeys(index, storage, t)
            && forall k | k in store.accounts :: store.accounts[k] == storage[t].accounts[k].account
  {
  }

  lemma FlushSeen(db: Db, db': Db, s: Slot, store: Store, dropped: set<Pubkey>, t: Slot)
    requires AllResolve(db.index, db.storage) && s !in db.storage && Flush(db, db', s, store, dropped) && t != s
    ensures t in db'.Seen().stores <==> t in db.Seen().stores
    ensures t in db.Seen().stores ==> db'.Seen().stores[t] == db.Seen().stores[t]
  {
    if t in db.storage {
      AliveKeysAfterFlush(db, db', s, store, dropped, t);
      SeenStoreSame(db.index, db.storage, db.rest, db'.index, db'.storage, db'.rest, t);
    }
  }

  ghost predicate SameStoreAt(a: Restore.State, b: Restore.State, t: Slot) {
    (t in b.stores <==> t in a.stores) && (t in a.stores ==> b.stores[t] == a.stores[t])
  }

  lemma AllStoresSame(a: Restore.State, b: Restore.State)
    requires forall t :: SameStoreAt(a, b, t)
    ensures b.stores == a.stores
  {
    forall t ensures (t in b.stores <==> t in a.stores) && (t in a.stores ==> b.stores[t] == a.stores[t]) {
      assert SameStoreAt(a, b, t);
    }
  }

  lemma OtherStoresSame(a: Restore.State, b: Restore.State, s: Slot)
    requires s in b.stores && forall t | t != s :: SameStoreAt(a, b, t)
    ensures b.stores == a.stores[s := b.stores[s]]
  {
    var a' := a.(stores := a.stores[s := b.stores[s]]);
    forall t ensures SameStoreAt(a', b, t) {
      assert t != s ==> SameStoreAt(a, b, t);
    }
    AllStoresSame(a', b);
  }

  lemma OneMoreStore(a: Restore.State, b: Restore.State, s: Slot)
    requires s in a.cached && s !in a.stores && b == a.(cached := a.cached - {s}, stores := b.stores)
    requires forall t | t != s :: SameStoreAt(a, b, t)
    requires s in b.stores ==> b.stores[s].accounts != map[] && b.stores[s].live == b.stores[s].accounts.Keys
    ensures Restore.Next(a, b)
  {
    if s in b.stores {
      OtherStoresSame(a, b, s);
      assert Restore.Flush(a, b, s, b.stores[s].accounts);
    } else {
      forall t ensures SameStoreAt(a, b, t) {
      }
      AllStoresSame(a, b);
      assert Restore.Flush(a, b, s, map[]);
    }
  }

  lemma FlushIsStep(db: Db, db': Db, s: Slot, store: Store, dropped: set<Pubkey>)
    requires AllResolve(db.index, db.storage) && s !in db.storage && Flush(db, db', s, store, dropped)
    ensures Restore.Next(db.Seen(), db'.Seen())
  {
    forall t | t != s ensures SameStoreAt(db.Seen(), db'.Seen(), t) {
      FlushSeen(db, db', s, store, dropped, t);
    }
    if store.accounts != map[] {
      var k :| k in store.accounts;
      AliveKeysAfterFlush(db, db', s, store, dropped, s);
      SeenStore(db'.index, db'.storage, db'.rest, s);
      assert k in db'.Seen().stores[s].accounts;
    }
    OneMoreStore(db.Seen(), db'.Seen(), s);
  }

  lemma FlushKeeps(db: Db, db': Db, s: Slot, store: Store, dropped: set<Pubkey>)
    requires Inv(db) && Flush(db, db', s, store, dropped)
    ensures Inv(db')
  {
    FlushKeepsAccurate(db, db', s, store, dropped);
    FlushIsStep(db, db', s, store, dropped);
    Restore.NextKeepsInv(db.Seen(), db'.Seen());
    forall k, t | CachedAt(db'.index, k, t) ensures CachedAt(db.index, k, t) && t != s {
      FlushedAt(db, db', s, store, dropped, k, t);
    }
  }

  // ---------- clean ----------

  lemma PurgeCaches(index: Index, storage: Storage, purge: Purge, k: Pubkey, s: Slot)
    requires CachedAt(IndexAfter(index, storage, purge), k, s)
    ensures CachedAt(index, k, s)
  {
  }

  lemma CleanReaches(db: Db, limit: Slot)
    requires Inv(db) && forall s | s in db.rest.cached :: limit < s
    ensures Flushed(db.index, db.roots, limit) && StoresAreRooted(db.storage, db.roots, limit)
  {
    forall k, s | k in db.index && s in Rooted(db.index[k].slots, db.roots, limit)
      ensures !db.index[k].slots[s].cached
    {
      assert CachedAt(db.index, k, s) ==> s in db.rest.cached;
    }
  }

  lemma CleanKeeps(db: Db, db': Db, keys: set<Pubkey>, maxCleanRoot: Option<Slot>, limit: Slot,
                   older: Purge, left: Candidates, purge: Purge)
    requires Inv(db) && Clean(db, db', keys, maxCleanRoot, limit, older, left, purge)
    ensures Inv(db')
  {
    var filtering := Filtering(maxCleanRoot, db.rest.guard);
    var index1, storage1 := IndexAfter(db.index, db.storage, older), PurgedStorage(db.storage, older);
    CleanReaches(db, limit);
    CleanedKeepsAccurate(db.index, db.storage, keys, db.roots, limit, filtering, db.rest.guard, older, left, purge,
                         db'.index, db'.storage);
    CleanKeepsRestartSafe(db.index, db.storage, keys, db.roots, maxCleanRoot, limit, db.rest, older, left, purge,
                          db'.index, db'.storage);
    forall k, s | CachedAt(db'.index, k, s) ensures CachedAt(db.index, k, s) {
      PurgeCaches(index1, storage1, purge, k, s);
      PurgeCaches(db.index, db.storage, older, k, s);
    }
    forall s | s in db'.storage ensures s in db.storage {
      PurgedStorageAt(storage1, purge, s);
      PurgedStorageAt(db.storage, older, s);
    }
  }

  // ---------- shrink ----------

  lemma ShrinkReaches(db: Db, slot: Slot)
    requires Inv(db) && slot in db.storage
    ensures Shrinkable(db.index, db.storage, slot)
  {
    forall k | k in db.index && slot in db.index[k].slots ensures !db.index[k].slots[slot].cached {
      assert CachedAt(db.index, k, slot) ==> slot in db.rest.cached;
      assert slot in db.Seen().stores;
    }
    forall k | k in db.storage[slot].accounts ensures k in db.index {
      assert slot in Holders(db.storage, k);
      HeldIsAlive(db, k);
    }
  }

  // A dropped account is the only copy of its key.
  lemma DroppedMayGo(db: Db, slot: Slot, c: Collected, k: Pubkey)
    requires Accurate(db.index, db.storage) && Shrinkable(db.index, db.storage, slot)
    requires Sorts(db.index, db.storage[slot], slot, db.rest.guard, c) && k in c.dropped
    ensures Restore.MayShrinkAway(db.Seen(), slot, k)
  {
    SortedAs(db.index, db.storage, slot, db.rest.guard, c, k);
    AbsSlots(db.index, db.storage, db.rest, k);
    assert {slot} <= Holders(db.storage, k) && |Holders(db.storage, k)| == 1;
    SubsetCard({slot}, Holders(db.storage, k));
    AbsAccount(db.index, db.storage, db.rest, k, slot);
  }

  // And every account the restart machine would let go is dropped.
  lemma MayGoIsDropped(db: Db, slot: Slot, c: Collected, k: Pubkey)
    requires Accurate(db.index, db.storage) && Shrinkable(db.index, db.storage, slot)
    requires Sorts(db.index, db.storage[slot], slot, db.rest.guard, c) && Restore.MayShrinkAway(db.Seen(), slot, k)
    ensures k in c.dropped
  {
    AbsSlots(db.index, db.storage, db.rest, k);
    AbsAccount(db.index, db.storage, db.rest, k, slot);
    assert Holders(db.storage, k) == {slot} && |Holders(db.storage, k)| == 1;
  }

  lemma ShrinkSeen(db: Db, db': Db, slot: Slot, c: Collected, store: Store, t: Slot)
    requires Accurate(db.index, db.storage) && Shrinkable(db.index, db.storage, slot) && Shrink(db, db', slot, c, store)
    requires t != slot
    ensures SameStoreAt(db.Seen(), db'.Seen(), t)
  {
    if t in db.storage {
      AliveKeysAfterShrink(db.index, db.storage, slot, db.rest.guard, c, store, db'.index, db'.storage, t);
      SeenStoreSame(db.index, db.storage, db.rest, db'.index, db'.storage, db'.rest, t);
    }
  }

  lemma AliveAreSorted(db: Db, slot: Slot, c: Collected)
    requires Accurate(db.index, db.storage) && Shrinkable(db.index, db.storage, slot)
    requires Sorts(db.index, db.storage[slot], slot, db.rest.guard, c)
    ensures AliveKeys(db.index, db.storage, slot) - c.dropped == c.kept
  {
    forall k
      ensures k in AliveKeys(db.index, db.storage, slot) <==> k in c.kept || k in c.dropped
      ensures k in c.kept ==> k !in c.dropped
    {
      AliveInSlot(db.index, db.storage, slot, db.rest.guard, c, k);
      SortedAs(db.index, db.storage, slot, db.rest.guard, c, k);
    }
  }

  lemma RewrittenFrom(store: Store, seen: Restore.Store, c: Collected, store': Store, seen': Restore.Store)
    requires Written(store, c.kept, store') && seen.live - c.dropped == c.kept && seen'.live == c.kept
    requires seen.accounts.Keys == store.accounts.Keys && seen'.accounts.Keys == store'.accounts.Keys
    requires forall k | k in store.accounts :: seen.accounts[k] == store.accounts[k].account
    requires forall k | k in store'.accounts :: seen'.accounts[k] == store'.accounts[k].account
    ensures Restore.Rewritten(seen, c.dropped, seen')
  {
  }

  lemma ShrinkRewrites(db: Db, db': Db, slot: Slot, c: Collected, store: Store)
    requires Accurate(db.index, db.storage) && Shrinkable(db.index, db.storage, slot) && Shrink(db, db', slot, c, store)
    ensures Restore.Rewritten(db.Seen().stores[slot], c.dropped, db'.Seen().stores[slot])
  {
    AliveAreSorted(db, slot, c);
    AliveKeysAfterShrink(db.index, db.storage, slot, db.rest.guard, c, store, db'.index, db'.storage, slot);
    SeenStore(db.index, db.storage, db.rest, slot);
    SeenStore(db'.index, db'.storage, db'.rest, slot);
    RewrittenFrom(db.storage[slot], db.Seen().stores[slot], c, store, db'.Seen().stores[slot]);
  }

  lemma ShrinkIsStep(db: Db, db': Db, slot: Slot, c: Collected, store: Store)
    requires Accurate(db.index, db.storage) && Shrinkable(db.index, db.storage, slot) && Shrink(db, db', slot, c, store)
    ensures Restore.Shrink(db.Seen(), db'.Seen(), slot, c.dropped)
  {
    forall k | k in c.dropped ensures Restore.MayShrinkAway(db.Seen(), slot, k) {
      DroppedMayGo(db, slot, c, k);
    }
    forall t | t != slot ensures SameStoreAt(db.Seen(), db'.Seen(), t) {
      ShrinkSeen(db, db', slot, c, store, t);
    }
    OtherStoresSame(db.Seen(), db'.Seen(), slot);
    ShrinkRewrites(db, db', slot, c, store);
  }

  lemma ShrinkCaches(index: Index, slot: Slot, c: Collected, store: Store, index': Index, k: Pubkey, s: Slot)
    requires c.kept <= store.accounts.Keys && EntryShrunk(index, slot, c, store, index', k) && CachedAt(index', k, s)
    ensures CachedAt(index, k, s)
  {
  }

  lemma ShrinkKeeps(db: Db, db': Db, slot: Slot, c: Collected, store: Store)
    requires Inv(db) && Shrink(db, db', slot, c, store)
    ensures Inv(db')
  {
    ShrinkReaches(db, slot);
    ShrinkKeepsAccurate(db.index, db.storage, slot, db.rest.guard, c, store, db'.index, db'.storage);
    ShrinkIsStep(db, db', slot, c, store);
    Restore.NextKeepsInv(db.Seen(), db'.Seen());
    forall k, s | CachedAt(db'.index, k, s) ensures CachedAt(db.index, k, s) {
      ShrinkCaches(db.index, slot, c, store, db'.index, k, s);
    }
  }

  lemma TakeSnapshotKeeps(db: Db, db': Db)
    requires Inv(db) && TakeSnapshot(db, db')
    ensures Inv(db')
  {
    Restore.NextKeepsInv(db.Seen(), db'.Seen());
  }

  // ---------- whole runs ----------

  lemma NextKeepsInv(db: Db, db': Db)
    requires Inv(db) && Next(db, db')
    ensures Inv(db')
  {
    if k, s, zeroLamport :| Write(db, db', k, s, zeroLamport) {
      WriteKeeps(db, db', k, s, zeroLamport);
    } else if s, keys :| RemoveCached(db, db', s, keys) {
      RemoveCachedKeeps(db, db', s, keys);
    } else if s :| MakeRoot(db, db', s) {
      MakeRootKeeps(db, db', s);
    } else if s, store, dropped :| Flush(db, db', s, store, dropped) {
      FlushKeeps(db, db', s, store, dropped);
    } else if keys, root, limit, older, left, purge :| Clean(db, db', keys, root, limit, older, left, purge) {
      CleanKeeps(db, db', keys, root, limit, older, left, purge);
    } else if slot, c, store :| Shrink(db, db', slot, c, store) {
      ShrinkKeeps(db, db', slot, c, store);
    } else {
      TakeSnapshotKeeps(db, db');
    }
  }

  const START := Db(map[], map[], {}, Restore.START)

  ghost predicate IsRun(run: seq<Db>) {
    && run != [] && run[0] == START
    && forall i | 0 <= i < |run| - 1 :: Next(run[i], run[i + 1])
  }

  lemma StartsWell()
    ensures Inv(START)
  {
    assert START.Seen().stores == map[];
    forall k ensures Restore.KeyInv(START.Seen(), k) {
      assert START.Seen().Held(k) == {} && START.Seen().Live(k) == {};
    }
  }

  lemma {:induction false} RunKeepsInv(run: seq<Db>, n: nat)
    requires IsRun(run) && n < |run|
    ensures Inv(run[n])
  {
    if n == 0 {
      StartsWell();
    } else {
      RunKeepsInv(run, n - 1);
      assert Next(run[n - 1], run[n - 1 + 1]);
      NextKeepsInv(run[n - 1], run[n]);
    }
  }

  /**
   In every reachable state index entries, alive counts and reference counts are accurate, every storage can
   be shrunk, a rebuild shows what the database shows, and so does a restore unless a full snapshot is
   announced and not yet archived.
   */
  lemma DatabaseIsSafe(run: seq<Db>, n: nat, k: Pubkey)
    requires IsRun(run) && n < |run|
    ensures Accurate(run[n].index, run[n].storage)
    ensures forall s | s in run[n].storage :: Shrinkable(run[n].index, run[n].storage, s)
    ensures var st := run[n].Seen();
            && st.Live(k) <= st.Held(k) && st.RebuiltView(k) == st.LiveView(k)
            && (st.full.Some? && st.guard == st.full ==> st.RestoredView(k) == st.LiveView(k))
  {
    RunKeepsInv(run, n);
    var st := run[n].Seen();
    forall s | s in run[n].storage ensures Shrinkable(run[n].index, run[n].storage, s) {
      ShrinkReaches(run[n], s);
    }
    assert Restore.KeyInv(st, k);
    Restore.RebuildShowsLive(st, k);
    if st.full.Some? {
      Restore.RestoreShowsLiveIff(st, k);
    }
  }

  // ---------- the code takes these steps ----------

  // The state of the run as the database object has it.
  ghost predicate Mirrors(st: Db, index: Index, storage: Storage, full: Option<Slot>) {
    st.index == index && st.storage == storage && st.rest.guard == full
  }

  /** In any state of a run clean does not panic, and what it does is a clean of the run. */
  method StepClean(db: AccountsDb, keys: set<Pubkey>, roots: set<Slot>, maxCleanRoot: Option<Slot>, limit: Slot,
                   ghost st: Db)
    returns (purge: Option<Purge>, ghost st': Db)
    requires Inv(st) && Mirrors(st, db.index, db.storage, db.latestFullSnapshotSlot) && st.roots == roots
    requires IsLimit(maxCleanRoot, roots, limit) && forall s | s in st.rest.cached :: limit < s
    modifies db`index, db`storage, db`zeroLamportsToPurgeAfterSnapshot
    ensures purge.Some? && Next(st, st') && Mirrors(st', db.index, db.storage, db.latestFullSnapshotSlot)
  {
    CleanReaches(st, limit);
    ghost var older, left;
    purge, older, left := CleanRooted(db, keys, roots, maxCleanRoot, limit);
    st' := st.(index := db.index, storage := db.storage);
    assert Clean(st, st', keys, maxCleanRoot, limit, older, left, purge.value);
  }

  /** In any state of a run every storage can be shrunk, and what that does is a shrink of the run or nothing. */
  method StepShrink(db: AccountsDb, slot: Slot, id: StoreId, productive: bool, ghost st: Db)
    returns (done: bool, ghost st': Db)
    requires Inv(st) && Mirrors(st, db.index, db.storage, db.latestFullSnapshotSlot) && slot in db.storage
    modifies db`index, db`storage
    ensures Mirrors(st', db.index, db.storage, db.latestFullSnapshotSlot)
    ensures if done then Next(st, st') else st' == st
  {
    ShrinkReaches(st, slot);
    var c;
    ghost var store';
    c, done, store' := ShrinkStorage(db, slot, id, productive);
    st' := st.(index := db.index, storage := db.storage);
    if done {
      assert Shrink(st, st', slot, c, store');
    }
  }
}
