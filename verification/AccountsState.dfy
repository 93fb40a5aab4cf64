/**
 The accounts index and the storages it points into, and what it means for the counters kept
 beside them to be accurate.
 */
module AccountsState {
  import opened Types

  datatype StoredAccount = StoredAccount(offset: Offset, account: Account)

  // One storage per slot. `accounts` is what the file physically holds, at most one copy of a
  // key; `count` is the number of copies believed alive.
  datatype Store = Store(id: StoreId, count: nat, accounts: map<Pubkey, StoredAccount>)

  datatype IndexEntry = IndexEntry(slots: map<Slot, AccountInfo>, refCount: nat)

  type Index = map<Pubkey, IndexEntry>

  type Storage = map<Slot, Store>

  predicate AliveAt(index: Index, k: Pubkey, s: Slot) {
    k in index && s in index[k].slots && !index[k].slots[s].cached
  }

  function AliveKeys(index: Index, storage: Storage, s: Slot): set<Pubkey>
    requires s in storage
  {
    set k | k in storage[s].accounts && AliveAt(index, k, s)
  }

  function Holders(storage: Storage, k: Pubkey): set<Slot> {
    set s | s in storage && k in storage[s].accounts
  }

  predicate ResolvesTo(storage: Storage, k: Pubkey, s: Slot, info: AccountInfo) {
    && s in storage
    && storage[s].id == info.storeId
    && k in storage[s].accounts
    && storage[s].accounts[k].offset == info.offset
    && storage[s].accounts[k].account.ZeroLamport() == info.zeroLamport
  }

  ghost predicate AllResolve(index: Index, storage: Storage) {
    forall k, s | AliveAt(index, k, s) :: ResolvesTo(storage, k, s, index[k].slots[s])
  }

  ghost predicate CountsAccurate(index: Index, storage: Storage) {
    forall s | s in storage :: storage[s].count == |AliveKeys(index, storage, s)|
  }

  ghost predicate RefCountsAccurate(index: Index, storage: Storage) {
    forall k | k in index :: index[k].refCount == |Holders(storage, k)|
  }

  ghost predicate OffsetsDistinct(store: Store) {
    forall k, l | k in store.accounts && l in store.accounts && k != l ::
      store.accounts[k].offset != store.accounts[l].offset
  }

  // Every stored index entry resolves; each store counts its alive accounts; each reference
  // count is the number of stores that hold the key; offsets identify accounts within a store.
  ghost predicate Accurate(index: Index, storage: Storage) {
    && AllResolve(index, storage)
    && CountsAccurate(index, storage)
    && RefCountsAccurate(index, storage)
    && forall s | s in storage :: OffsetsDistinct(storage[s])
  }

  // ---------- purging index entries and handling what they reclaim ----------

  // The slots to purge from each key's slot list.
  type Purge = map<Pubkey, set<Slot>>

  ghost predicate Purgeable(index: Index, purge: Purge) {
    forall k, s | k in purge && s in purge[k] :: AliveAt(index, k, s)
  }

  function PurgedAt(purge: Purge, s: Slot): set<Pubkey> {
    set k | k in purge && s in purge[k]
  }

  function PurgedIndex(index: Index, purge: Purge): Index {
    map k | k in index && !(k in purge && index[k].slots.Keys <= purge[k]) ::
      if k in purge then index[k].(slots := index[k].slots - purge[k]) else index[k]
  }

  function DeadSlots(storage: Storage, purge: Purge): set<Slot> {
    set s | s in storage && PurgedAt(purge, s) != {} && storage[s].count == |PurgedAt(purge, s)|
  }

  function Minus(a: nat, b: nat): nat {
    if b <= a then a - b else 0
  }

  function CountedStorage(storage: Storage, purge: Purge): Storage {
    map s | s in storage :: storage[s].(count := Minus(storage[s].count, |PurgedAt(purge, s)|))
  }

  function PurgedStorage(storage: Storage, purge: Purge): Storage {
    CountedStorage(storage, purge) - DeadSlots(storage, purge)
  }

  function HeldIn(storage: Storage, slots: set<Slot>, k: Pubkey): set<Slot> {
    set s | s in slots && s in storage && k in storage[s].accounts
  }

  function Unreffed(index: Index, storage: Storage, dead: set<Slot>): Index {
    map k | k in index :: index[k].(refCount := Minus(index[k].refCount, |HeldIn(storage, dead, k)|))
  }

  function IndexAfter(index: Index, storage: Storage, purge: Purge): Index {
    Unreffed(PurgedIndex(index, purge), storage, DeadSlots(storage, purge))
  }

  // Slots in which a whole store holding the key died, and offsets reclaimed per slot.
  datatype Reclaimed = Reclaimed(purgedSlots: map<Pubkey, set<Slot>>, removed: map<Slot, set<Offset>>) {
    predicate Gone(k: Pubkey, s: Slot, info: AccountInfo) {
      || (k in purgedSlots && s in purgedSlots[k])
      || (s in removed && info.offset in removed[s])
    }
  }

  lemma PurgedAreAlive(index: Index, storage: Storage, purge: Purge, s: Slot)
    requires Accurate(index, storage) && Purgeable(index, purge)
    requires s in storage
    ensures PurgedAt(purge, s) <= AliveKeys(index, storage, s)
    ensures |PurgedAt(purge, s)| <= storage[s].count
    ensures s in DeadSlots(storage, purge) <==>
            PurgedAt(purge, s) != {} && AliveKeys(index, storage, s) <= PurgedAt(purge, s)
  {
    forall k | k in PurgedAt(purge, s) ensures k in AliveKeys(index, storage, s) {
      assert AliveAt(index, k, s);
    }
    SubsetCard(PurgedAt(purge, s), AliveKeys(index, storage, s));
  }

  lemma AliveAfter(index: Index, storage: Storage, purge: Purge, k: Pubkey, s: Slot)
    ensures AliveAt(IndexAfter(index, storage, purge), k, s) <==>
            AliveAt(index, k, s) && k !in PurgedAt(purge, s)
    ensures AliveAt(IndexAfter(index, storage, purge), k, s) ==>
            IndexAfter(index, storage, purge)[k].slots[s] == index[k].slots[s]
  {
  }

  // An entry that survives a purge keeps its store.
  lemma SurvivorKeepsStore(index: Index, storage: Storage, purge: Purge, k: Pubkey, s: Slot)
    requires Accurate(index, storage) && Purgeable(index, purge)
    requires AliveAt(IndexAfter(index, storage, purge), k, s)
    ensures s in PurgedStorage(storage, purge)
    ensures ResolvesTo(PurgedStorage(storage, purge), k, s, IndexAfter(index, storage, purge)[k].slots[s])
  {
    AliveAfter(index, storage, purge, k, s);
    assert ResolvesTo(storage, k, s, index[k].slots[s]);
    PurgedAreAlive(index, storage, purge, s);
    assert k in AliveKeys(index, storage, s);
  }

  lemma PurgedStorageAt(storage: Storage, purge: Purge, s: Slot)
    ensures s in PurgedStorage(storage, purge) <==> s in storage && s !in DeadSlots(storage, purge)
    ensures s in PurgedStorage(storage, purge) ==>
            PurgedStorage(storage, purge)[s] == storage[s].(count := Minus(storage[s].count, |PurgedAt(purge, s)|))
  {
  }

  lemma AliveKeysMinus(index: Index, index': Index, storage: Storage, storage': Storage, s: Slot,
                       gone: set<Pubkey>)
    requires s in storage && s in storage' && storage'[s].accounts == storage[s].accounts
    requires forall k :: AliveAt(index', k, s) <==> AliveAt(index, k, s) && k !in gone
    requires gone <= AliveKeys(index, storage, s)
    ensures |AliveKeys(index', storage', s)| == |AliveKeys(index, storage, s)| - |gone|
  {
    SubsetCard(gone, AliveKeys(index, storage, s));
    assert AliveKeys(index', storage', s) == AliveKeys(index, storage, s) - gone;
  }

  lemma CountAfter(index: Index, storage: Storage, purge: Purge, s: Slot)
    requires Accurate(index, storage) && Purgeable(index, purge)
    requires s in PurgedStorage(storage, purge)
    ensures PurgedStorage(storage, purge)[s].count
         == |AliveKeys(IndexAfter(index, storage, purge), PurgedStorage(storage, purge), s)|
  {
    PurgedStorageAt(storage, purge, s);
    PurgedAreAlive(index, storage, purge, s);
    var index' := IndexAfter(index, storage, purge);
    forall k ensures AliveAt(index', k, s) <==> AliveAt(index, k, s) && k !in PurgedAt(purge, s) {
      AliveAfter(index, storage, purge, k, s);
    }
    AliveKeysMinus(index, index', storage, PurgedStorage(storage, purge), s, PurgedAt(purge, s));
  }

  lemma HoldersMinus(storage: Storage, storage': Storage, dead: set<Slot>, k: Pubkey)
    requires storage'.Keys == storage.Keys - dead
    requires forall s | s in storage' :: storage'[s].accounts == storage[s].accounts
    ensures |Holders(storage', k)| == |Holders(storage, k)| - |HeldIn(storage, dead, k)|
  {
    SubsetCard(HeldIn(storage, dead, k), Holders(storage, k));
    assert Holders(storage', k) == Holders(storage, k) - HeldIn(storage, dead, k);
  }

  lemma RefCountAfter(index: Index, storage: Storage, purge: Purge, k: Pubkey)
    requires RefCountsAccurate(index, storage)
    requires k in IndexAfter(index, storage, purge)
    ensures IndexAfter(index, storage, purge)[k].refCount == |Holders(PurgedStorage(storage, purge), k)|
  {
    var dead := DeadSlots(storage, purge);
    HoldersMinus(storage, PurgedStorage(storage, purge), dead, k);
    assert PurgedIndex(index, purge)[k].refCount == index[k].refCount;
  }

  // Purging any alive entries, dropping emptied stores and unreferencing what they held leaves
  // index, counts and reference counts accurate.
  lemma PurgeKeepsAccurate(index: Index, storage: Storage, purge: Purge)
    requires Accurate(index, storage) && Purgeable(index, purge)
    ensures Accurate(IndexAfter(index, storage, purge), PurgedStorage(storage, purge))
  {
    var index', storage' := IndexAfter(index, storage, purge), PurgedStorage(storage, purge);
    assert AllResolve(index', storage') by {
      forall k, s | AliveAt(index', k, s) ensures ResolvesTo(storage', k, s, index'[k].slots[s]) {
        SurvivorKeepsStore(index, storage, purge, k, s);
      }
    }
    assert CountsAccurate(index', storage') by {
      forall s | s in storage' ensures storage'[s].count == |AliveKeys(index', storage', s)| {
        CountAfter(index, storage, purge, s);
      }
    }
    assert RefCountsAccurate(index', storage') by {
      forall k | k in index' ensures index'[k].refCount == |Holders(storage', k)| {
        RefCountAfter(index, storage, purge, k);
      }
    }
    forall s | s in storage' ensures OffsetsDistinct(storage'[s]) {
      assert OffsetsDistinct(storage[s]);
    }
  }

  // The purge lists this entry.
  predicate Listed(purge: Purge, k: Pubkey, s: Slot) {
    k in purge && s in purge[k]
  }

  // A purge takes exactly the listed entries, and the keys it leaves none.
  lemma PurgeTakesListed(index: Index, storage: Storage, purge: Purge, k: Pubkey)
    ensures var index' := IndexAfter(index, storage, purge);
            && (k in index' <==> k in index && (k in purge ==> exists s :: s in index[k].slots && s !in purge[k]))
            && (k in index' ==> forall s ::
                  && (s in index'[k].slots <==> s in index[k].slots && !Listed(purge, k, s))
                  && (s in index'[k].slots ==> index'[k].slots[s] == index[k].slots[s]))
  {
  }

  // A store goes exactly if something of it is purged and nothing stays alive in it; the others keep their file.
  lemma PurgeDropsEmptied(index: Index, storage: Storage, purge: Purge, s: Slot)
    requires Accurate(index, storage) && Purgeable(index, purge)
    ensures var storage' := PurgedStorage(storage, purge);
            && (s in storage' <==>
                s in storage && ((exists k :: k in AliveKeys(index, storage, s) && !Listed(purge, k, s))
                                 || forall k :: !Listed(purge, k, s)))
            && (s in storage' ==> storage'[s].id == storage[s].id && storage'[s].accounts == storage[s].accounts)
  {
    PurgedStorageAt(storage, purge, s);
    if s in storage {
      PurgedAreAlive(index, storage, purge, s);
      assert forall k :: k in PurgedAt(purge, s) <==> Listed(purge, k, s);
    }
  }
}
