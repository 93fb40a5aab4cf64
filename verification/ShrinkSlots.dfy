/**
 Shrinking one storage: its accounts are sorted into dead ones, zero-lamport only copies to drop, and the
 rest, which is written to a new storage that replaces the old one. Index, alive counts and reference counts
 stay accurate.
 */
module ShrinkSlots {
  import opened Types
  import opened AccountsState
  import opened AccountsDatabase
  import opened PurgeAccounts

  datatype Collected = Collected(dead: set<Pubkey>, dropped: set<Pubkey>, kept: set<Pubkey>)

  // The index has no entry of the key at the slot any more.
  predicate IsDead(index: Index, slot: Slot, k: Pubkey) {
    k in index && slot !in index[k].slots
  }

  // A zero-lamport account that is the only copy of its key, not newer than the full snapshot slot.
  predicate IsDropped(index: Index, store: Store, slot: Slot, full: Option<Slot>, k: Pubkey) {
    && k in index && slot in index[k].slots && index[k].refCount == 1
    && k in store.accounts && store.accounts[k].account.ZeroLamport()
    && (full.Some? ==> slot <= full.value)
  }

  // All accounts of the storage are sorted.
  ghost predicate Sorts(index: Index, store: Store, slot: Slot, full: Option<Slot>, c: Collected) {
    && c.dead + c.dropped + c.kept == store.accounts.Keys
    && (forall k | k in store.accounts :: k in c.dead <==> IsDead(index, slot, k))
    && (forall k | k in store.accounts :: k in c.dropped <==> IsDropped(index, store, slot, full, k))
    && c.kept == store.accounts.Keys - c.dead - c.dropped
  }

  // The accounts kept, in a storage of their own.
  ghost predicate Written(store: Store, kept: set<Pubkey>, store': Store) {
    && store'.accounts.Keys == kept && store'.count == |kept| && OffsetsDistinct(store')
    && forall k | k in kept :: k in store.accounts && store'.accounts[k].account == store.accounts[k].account
  }

  function InfoIn(store: Store, k: Pubkey): AccountInfo
    requires k in store.accounts
  {
    AccountInfo(store.id, store.accounts[k].offset, store.accounts[k].account.ZeroLamport(), false)
  }

  function Unref(entry: IndexEntry): IndexEntry {
    entry.(refCount := Minus(entry.refCount, 1))
  }

  // What a shrink makes of the index entry of one key.
  ghost predicate EntryShrunk(index: Index, slot: Slot, c: Collected, store': Store, index': Index, k: Pubkey)
    requires c.kept <= store'.accounts.Keys
  {
    if k !in index then k !in index'
    else if k in c.dropped then
      if index[k].slots.Keys <= {slot} then k !in index'
      else k in index' && index'[k] == Unref(index[k]).(slots := index[k].slots - {slot})
    else
      && k in index'
      && index'[k] == if k in c.dead then Unref(index[k])
                      else if k in c.kept then index[k].(slots := index[k].slots[slot := InfoIn(store', k)])
                      else index[k]
  }

  ghost predicate Shrunk(index: Index, storage: Storage, slot: Slot, full: Option<Slot>, c: Collected, store': Store,
                         index': Index, storage': Storage)
  {
    && slot in storage && Sorts(index, storage[slot], slot, full, c) && Written(storage[slot], c.kept, store')
    && (forall k :: EntryShrunk(index, slot, c, store', index', k))
    && storage' == storage[slot := store']
  }

  // The slot has left the write cache, and every account of its storage has an index entry somewhere.
  ghost predicate Shrinkable(index: Index, storage: Storage, slot: Slot) {
    && slot in storage
    && (forall k | k in index && slot in index[k].slots :: !index[k].slots[slot].cached)
    && (forall k | k in storage[slot].accounts :: k in index)
  }

  // ---------- counters stay accurate ----------

  // What is known of one key of the storage.
  lemma SortedAs(index: Index, storage: Storage, slot: Slot, full: Option<Slot>, c: Collected, k: Pubkey)
    requires Shrinkable(index, storage, slot) && Sorts(index, storage[slot], slot, full, c)
    ensures k in c.dead || k in c.dropped || k in c.kept <==> k in storage[slot].accounts
    ensures k in c.kept ==> k !in c.dropped && AliveAt(index, k, slot)
    ensures k in c.dropped ==> AliveAt(index, k, slot) && index[k].refCount == 1
    ensures k in c.dead ==> k !in c.dropped && k !in c.kept && k in index && !AliveAt(index, k, slot)
  {
  }

  lemma EntryAlive(index: Index, slot: Slot, c: Collected, store': Store, index': Index, k: Pubkey, s: Slot)
    requires c.kept <= store'.accounts.Keys && EntryShrunk(index, slot, c, store', index', k)
    requires k in c.kept ==> k !in c.dropped && k !in c.dead && AliveAt(index, k, slot)
    ensures AliveAt(index', k, s) <==> AliveAt(index, k, s) && !(s == slot && k in c.dropped)
    ensures AliveAt(index', k, s) ==>
              index'[k].slots[s] == if s == slot && k in c.kept then InfoIn(store', k) else index[k].slots[s]
  {
  }

  lemma AliveAfterShrink(index: Index, storage: Storage, slot: Slot, full: Option<Slot>, c: Collected, store': Store,
                         index': Index, storage': Storage, k: Pubkey, s: Slot)
    requires Shrinkable(index, storage, slot) && Shrunk(index, storage, slot, full, c, store', index', storage')
    ensures AliveAt(index', k, s) <==> AliveAt(index, k, s) && !(s == slot && k in c.dropped)
    ensures AliveAt(index', k, s) ==>
              index'[k].slots[s] == if s == slot && k in c.kept then InfoIn(store', k) else index[k].slots[s]
  {
    SortedAs(index, storage, slot, full, c, k);
    EntryAlive(index, slot, c, store', index', k, s);
  }

  // Of the accounts in the storage, the kept and the dropped ones are alive.
  lemma AliveInSlot(index: Index, storage: Storage, slot: Slot, full: Option<Slot>, c: Collected, k: Pubkey)
    requires AllResolve(index, storage) && Shrinkable(index, storage, slot)
             && Sorts(index, storage[slot], slot, full, c)
    ensures AliveAt(index, k, slot) <==> k in c.kept || k in c.dropped
  {
    if AliveAt(index, k, slot) {
      assert ResolvesTo(storage, k, slot, index[k].slots[slot]);
    }
  }

  lemma ResolvesAfterShrink(index: Index, storage: Storage, slot: Slot, full: Option<Slot>, c: Collected, store': Store,
                            index': Index, storage': Storage, k: Pubkey, s: Slot)
    requires AllResolve(index, storage) && Shrinkable(index, storage, slot)
    requires Shrunk(index, storage, slot, full, c, store', index', storage') && AliveAt(index', k, s)
    ensures ResolvesTo(storage', k, s, index'[k].slots[s])
  {
    AliveAfterShrink(index, storage, slot, full, c, store', index', storage', k, s);
    AliveInSlot(index, storage, slot, full, c, k);
    assert ResolvesTo(storage, k, s, index[k].slots[s]);
  }

  lemma AliveKeysAfterShrink(index: Index, storage: Storage, slot: Slot, full: Option<Slot>, c: Collected,
                             store': Store,
                             index': Index, storage': Storage, s: Slot)
    requires AllResolve(index, storage) && Shrinkable(index, storage, slot) && s in storage
    requires Shrunk(index, storage, slot, full, c, store', index', storage')
    ensures AliveKeys(index', storage', s) == if s == slot then c.kept else AliveKeys(index, storage, s)
  {
    forall k
      ensures k in AliveKeys(index', storage', s) <==> k in if s == slot then c.kept else AliveKeys(index, storage, s)
    {
      AliveAfterShrink(index, storage, slot, full, c, store', index', storage', k, s);
      AliveInSlot(index, storage, slot, full, c, k);
    }
  }

  lemma HoldersAfterShrink(storage: Storage, slot: Slot, store': Store, storage': Storage, k: Pubkey)
    requires slot in storage && storage' == storage[slot := store']
             && store'.accounts.Keys <= storage[slot].accounts.Keys
    ensures Holders(storage', k)
         == if k in storage[slot].accounts && k !in store'.accounts then Holders(storage, k) - {slot}
             else Holders(storage, k)
  {
  }

  lemma EntryReferences(index: Index, slot: Slot, c: Collected, store': Store, index': Index, k: Pubkey,
                        held: set<Slot>, held': set<Slot>)
    requires c.kept <= store'.accounts.Keys && EntryShrunk(index, slot, c, store', index', k)
    requires k in index && k in index' && index[k].refCount == |held|
    requires if k in c.dead || k in c.dropped then slot in held && held' == held - {slot} else held' == held
    ensures index'[k].refCount == |held'|
  {
    if slot in held { SubsetCard({slot}, held); }
  }

  lemma RefCountAfterShrink(index: Index, storage: Storage, slot: Slot, full: Option<Slot>, c: Collected, store': Store,
                            index': Index, storage': Storage, k: Pubkey)
    requires RefCountsAccurate(index, storage) && Shrinkable(index, storage, slot)
    requires Shrunk(index, storage, slot, full, c, store', index', storage') && k in index'
    ensures index'[k].refCount == |Holders(storage', k)|
  {
    assert EntryShrunk(index, slot, c, store', index', k);
    SortedAs(index, storage, slot, full, c, k);
    HoldersAfterShrink(storage, slot, store', storage', k);
    EntryReferences(index, slot, c, store', index', k, Holders(storage, k), Holders(storage', k));
  }

  /** A shrink keeps index entries, alive counts and reference counts accurate. */
  lemma ShrinkKeepsAccurate(index: Index, storage: Storage, slot: Slot, full: Option<Slot>, c: Collected, store': Store,
                            index': Index, storage': Storage)
    requires Accurate(index, storage) && Shrinkable(index, storage, slot)
    requires Shrunk(index, storage, slot, full, c, store', index', storage')
    ensures Accurate(index', storage')
  {
    forall k, s | AliveAt(index', k, s) ensures ResolvesTo(storage', k, s, index'[k].slots[s]) {
      ResolvesAfterShrink(index, storage, slot, full, c, store', index', storage', k, s);
    }
    forall s | s in storage' ensures storage'[s].count == |AliveKeys(index', storage', s)| {
      AliveKeysAfterShrink(index, storage, slot, full, c, store', index', storage', s);
    }
    forall k | k in index' ensures index'[k].refCount == |Holders(storage', k)| {
      RefCountAfterShrink(index, storage, slot, full, c, store', index', storage', k);
    }
    forall s | s in storage' ensures OffsetsDistinct(storage'[s]) {
      assert s != slot ==> OffsetsDistinct(storage[s]);
    }
  }

  // ---------- the loops ----------

  method Collect(index: Index, store: Store, slot: Slot, full: Option<Slot>) returns (c: Collected)
    ensures Sorts(index, store, slot, full, c)
  {
    c := Collected({}, {}, {});
    var todo := store.accounts.Keys;
    ghost var done: set<Pubkey> := {};
    while todo != {}
      invariant todo <= store.accounts.Keys && done == store.accounts.Keys - todo
      invariant forall k :: k in c.dead <==> k in done && IsDead(index, slot, k)
      invariant forall k :: k in c.dropped <==> k in done && IsDropped(index, store, slot, full, k)
      invariant c.kept == done - c.dead - c.dropped
    {
      var k :| k in todo;
      if IsDead(index, slot, k) {
        c := c.(dead := c.dead + {k});
      } else if IsDropped(index, store, slot, full, k) {
        c := c.(dropped := c.dropped + {k});
      } else {
        c := c.(kept := c.kept + {k});
      }
      todo, done := todo - {k}, done + {k};
    }
    assert done == store.accounts.Keys;
  }

  ghost predicate EntryUnreffed(index: Index, keys: set<Pubkey>, index': Index, k: Pubkey) {
    && (k in index' <==> k in index)
    && (k in index ==> index'[k] == if k in keys then Unref(index[k]) else index[k])
  }

  method UnrefAll(index: Index, keys: set<Pubkey>) returns (index': Index)
    ensures forall k :: EntryUnreffed(index, keys, index', k)
  {
    index' := index;
    var todo := keys;
    ghost var done: set<Pubkey> := {};
    while todo != {}
      invariant todo <= keys && done == keys - todo
      invariant forall k :: EntryUnreffed(index, done, index', k)
    {
      var k :| k in todo;
      ghost var now := index';
      assert EntryUnreffed(index, done, now, k);
      if k in index' {
        index' := index'[k := Unref(index'[k])];
      }
      forall l ensures EntryUnreffed(index, done + {k}, index', l) {
        assert EntryUnreffed(index, done, now, l);
      }
      todo, done := todo - {k}, done + {k};
    }
    assert done == keys;
  }

  const STORE_META_OVERHEAD: nat := 136

  ghost predicate Fits(store: Store, next: Offset) {
    forall k | k in store.accounts :: store.accounts[k].offset < next
  }

  lemma WriteOne(store: Store, done: set<Pubkey>, now: Store, k: Pubkey, next: Offset, store': Store)
    requires Written(store, done, now) && k in store.accounts && k !in done && Fits(now, next)
    requires store'.count == now.count + 1
    requires store'.accounts == now.accounts[k := StoredAccount(next, store.accounts[k].account)]
    ensures Written(store, done + {k}, store')
  {
    forall a, b | a in store'.accounts && b in store'.accounts && a != b
      ensures store'.accounts[a].offset != store'.accounts[b].offset
    {
    }
  }

  // One more account behind all that are there.
  method WriteNext(store: Store, now: Store, k: Pubkey, next: Offset, ghost done: set<Pubkey>)
    returns (store': Store, next': Offset)
    requires Written(store, done, now) && k in store.accounts && k !in done && Fits(now, next)
    ensures store'.id == now.id && Written(store, done + {k}, store') && Fits(store', next')
  {
    var account := store.accounts[k].account;
    store' := Store(now.id, now.count + 1, now.accounts[k := StoredAccount(next, account)]);
    WriteOne(store, done, now, k, next, store');
    var size: nat :| STORE_META_OVERHEAD + |account.data| <= size;
    next' := next + size;
  }

  lemma OneLess(kept: set<Pubkey>, todo: set<Pubkey>, k: Pubkey)
    requires k in todo && todo <= kept
    ensures (kept - todo) + {k} == kept - (todo - {k}) && k !in kept - todo
  {
  }

  method WriteAll(store: Store, kept: set<Pubkey>, id: StoreId) returns (store': Store)
    requires kept <= store.accounts.Keys
    ensures store'.id == id && Written(store, kept, store')
  {
    store' := Store(id, 0, map[]);
    var todo, next: Offset := kept, 0;
    assert kept - todo == {};
    while todo != {}
      invariant todo <= kept
      invariant store'.id == id && Written(store, kept - todo, store') && Fits(store', next)
    {
      var k :| k in todo;
      OneLess(kept, todo, k);
      store', next := WriteNext(store, store', k, next, kept - todo);
      todo := todo - {k};
    }
    assert kept - todo == kept;
  }

  ghost predicate EntryUpdated(index: Index, slot: Slot, store: Store, done: set<Pubkey>, index': Index, k: Pubkey)
    requires done <= store.accounts.Keys
  {
    && (k in index' <==> k in index)
    && (k in index ==>
          index'[k] == if k in done then index[k].(slots := index[k].slots[slot := InfoIn(store, k)]) else index[k])
  }

  method UpdateAll(index: Index, slot: Slot, store: Store) returns (index': Index)
    requires forall k | k in store.accounts :: k in index
    ensures forall k :: EntryUpdated(index, slot, store, store.accounts.Keys, index', k)
  {
    index' := index;
    var todo := store.accounts.Keys;
    ghost var done: set<Pubkey> := {};
    while todo != {}
      invariant todo <= store.accounts.Keys && done == store.accounts.Keys - todo
      invariant forall k :: EntryUpdated(index, slot, store, done, index', k)
    {
      var k :| k in todo;
      ghost var now := index';
      assert EntryUpdated(index, slot, store, done, now, k);
      index' := index'[k := index'[k].(slots := index'[k].slots[slot := InfoIn(store, k)])];
      forall l ensures EntryUpdated(index, slot, store, done + {k}, index', l) {
        assert EntryUpdated(index, slot, store, done, now, l);
      }
      todo, done := todo - {k}, done + {k};
    }
    assert done == store.accounts.Keys;
  }

  ghost predicate EntryDropped(index: Index, slot: Slot, keys: set<Pubkey>, index': Index, k: Pubkey) {
    if k !in index || (k in keys && index[k].slots.Keys <= {slot}) then k !in index'
    else k in index' && index'[k] == if k in keys then index[k].(slots := index[k].slots - {slot}) else index[k]
  }

  method DropAll(index: Index, slot: Slot, keys: set<Pubkey>) returns (index': Index)
    ensures forall k :: EntryDropped(index, slot, keys, index', k)
  {
    index' := index;
    var todo := keys;
    ghost var done: set<Pubkey> := {};
    while todo != {}
      invariant todo <= keys && done == keys - todo
      invariant forall k :: EntryDropped(index, slot, done, index', k)
    {
      var k :| k in todo;
      ghost var now := index';
      assert EntryDropped(index, slot, done, now, k);
      index' := PurgeExact(index', k, {slot});
      forall l ensures EntryDropped(index, slot, done + {k}, index', l) {
        assert EntryDropped(index, slot, done, now, l);
        if l == k && k in index { NothingLeft(index[k].slots, {slot}); }
      }
      todo, done := todo - {k}, done + {k};
    }
    assert done == keys;
  }

  lemma SortsApart(index: Index, store: Store, slot: Slot, full: Option<Slot>, c: Collected)
    requires Sorts(index, store, slot, full, c)
    ensures c.dead !! c.kept && c.dead !! c.dropped && c.kept !! c.dropped
  {
    forall k | k in c.dead ensures k !in c.dropped {
    }
  }

  // The four passes over the index together, for one key.
  lemma PassesShrink(index: Index, a: Index, b: Index, d: Index, index': Index, slot: Slot, c: Collected, store': Store,
                     k: Pubkey)
    requires store'.accounts.Keys == c.kept && c.dead !! c.kept && c.dead !! c.dropped && c.kept !! c.dropped
    requires EntryUnreffed(index, c.dead, a, k) && EntryUpdated(a, slot, store', c.kept, b, k)
    requires EntryUnreffed(b, c.dropped, d, k) && EntryDropped(d, slot, c.dropped, index', k)
    ensures EntryShrunk(index, slot, c, store', index', k)
  {
  }

  method Rewrite(index: Index, store: Store, slot: Slot, c: Collected, id: StoreId)
    returns (index': Index, store': Store)
    requires c.kept <= store.accounts.Keys && (forall k | k in c.kept :: k in index)
    requires c.dead !! c.kept && c.dead !! c.dropped && c.kept !! c.dropped
    ensures Written(store, c.kept, store') && forall k :: EntryShrunk(index, slot, c, store', index', k)
  {
    var unreffed := UnrefAll(index, c.dead);
    store' := WriteAll(store, c.kept, id);
    forall k | k in c.kept ensures k in unreffed { assert EntryUnreffed(index, c.dead, unreffed, k); }
    var updated := UpdateAll(unreffed, slot, store');
    var released := UnrefAll(updated, c.dropped);
    index' := DropAll(released, slot, c.dropped);
    forall k ensures EntryShrunk(index, slot, c, store', index', k) {
      PassesShrink(index, unreffed, updated, released, index', slot, c, store', k);
    }
  }

  // The storage is sorted, and rewritten if that is worth it and something is kept.
  ghost predicate ShrinkResult(index: Index, storage: Storage, slot: Slot, full: Option<Slot>, productive: bool,
                               c: Collected, done: bool, store': Store, index': Index, storage': Storage)
  {
    && slot in storage && Sorts(index, storage[slot], slot, full, c) && (done <==> productive && c.kept != {})
    && if done then Shrunk(index, storage, slot, full, c, store', index', storage')
       else index' == index && storage' == storage
  }

  method ShrinkSlot(index: Index, storage: Storage, slot: Slot, full: Option<Slot>, id: StoreId, productive: bool)
    returns (index': Index, storage': Storage, c: Collected, done: bool, ghost store': Store)
    requires Shrinkable(index, storage, slot)
    ensures ShrinkResult(index, storage, slot, full, productive, c, done, store', index', storage')
  {
    index', storage', store' := index, storage, storage[slot];
    c := Collect(index, storage[slot], slot, full);
    done := productive && c.kept != {};
    if done {
      SortsApart(index, storage[slot], slot, full, c);
      var written;
      index', written := Rewrite(index, storage[slot], slot, c, id);
      storage', store' := storage[slot := written], written;
    }
  }

  lemma ResultIsAccurate(index: Index, storage: Storage, slot: Slot, full: Option<Slot>, productive: bool,
                         c: Collected, done: bool, store': Store, index': Index, storage': Storage)
    requires Accurate(index, storage) && Shrinkable(index, storage, slot)
    requires ShrinkResult(index, storage, slot, full, productive, c, done, store', index', storage')
    ensures Accurate(index', storage')
  {
    if done {
      ShrinkKeepsAccurate(index, storage, slot, full, c, store', index', storage');
    }
  }

  /** A storage worth shrinking that has something to keep is replaced; counters stay accurate. */
  method ShrinkStorage(db: AccountsDb, slot: Slot, id: StoreId, productive: bool)
    returns (c: Collected, done: bool, ghost store': Store)
    requires Accurate(db.index, db.storage) && Shrinkable(db.index, db.storage, slot)
    modifies db`index, db`storage
    ensures Accurate(db.index, db.storage)
    ensures ShrinkResult(old(db.index), old(db.storage), slot, db.latestFullSnapshotSlot, productive, c, done, store',
                         db.index, db.storage)
  {
    var index', storage';
    var full := db.latestFullSnapshotSlot;
    index', storage', c, done, store' := ShrinkSlot(db.index, db.storage, slot, full, id, productive);
    ResultIsAccurate(db.index, db.storage, slot, full, productive, c, done, store', index', storage');
    db.index, db.storage := index', storage';
  }
}
