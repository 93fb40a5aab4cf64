/**
 Flushing rooted slots from the write cache, newest root first. With cleaning, an account already
 written for a newer root is dropped from the index instead of being stored again, and older stored
 versions may be reclaimed; no root that a reader may still use sees a difference.
 */
module FlushRoots {
  import opened Types

  // An index entry points into the write cache or to a stored account.
  datatype Version = Cached | Stored(account: Account)

  type Cache = map<Slot, map<Pubkey, Account>>
  type Index = map<(Pubkey, Slot), Version>

  ghost predicate CacheIndexed(cache: Cache, index: Index) {
    forall k, s :: (k, s) in index && index[(k, s)].Cached? <==> s in cache && k in cache[s]
  }

  // What a reader gets for a key in a slot.
  function ReadAt(cache: Cache, index: Index, k: Pubkey, s: Slot): Option<Account> {
    if (k, s) !in index then None
    else if index[(k, s)].Stored? then Some(index[(k, s)].account)
    else if s in cache && k in cache[s] then Some(cache[s][k])
    else None
  }

  // The version a reader at root r uses.
  ghost predicate IsNewest(index: Index, roots: set<Slot>, k: Pubkey, r: Slot, s: Slot) {
    && (k, s) in index && s in roots && s <= r
    && forall t | t in roots && s < t <= r :: (k, t) !in index
  }

  // Cleaning is on for a slot: asked for, and not above the root it is limited to.
  predicate Cleans(clean: bool, maxCleanRoot: Option<Slot>, s: Slot) {
    clean && (maxCleanRoot.Some? ==> s <= maxCleanRoot.value)
  }

  function MaxCleanRoot(minScanRoot: Option<Slot>, proposed: Option<Slot>): (r: Option<Slot>)
    ensures minScanRoot.Some? ==> r.Some? && r.value <= minScanRoot.value
    ensures proposed.Some? ==> r.Some? && r.value <= proposed.value
    ensures r.Some? ==> r == minScanRoot || r == proposed
  {
    match (minScanRoot, proposed)
    case (None, None) => None
    case (Some(scan), None) => Some(scan)
    case (None, Some(root)) => Some(root)
    case (Some(scan), Some(root)) => Some(if scan < root then scan else root)
  }

  // ---------- one slot ----------

  // What handling the keys in `done` does to one index entry when slot s is flushed: a key in `drop`
  // leaves, another is stored, and with `reclaim` its older stored versions leave too.
  predicate EntryFlushed(items: map<Pubkey, Account>, index: Index, s: Slot, done: set<Pubkey>, drop: set<Pubkey>,
                         reclaim: bool, index': Index, k: Pubkey, t: Slot)
    requires done <= items.Keys
  {
    if (k, t) !in index then (k, t) !in index'
    else if k !in done then (k, t) in index' && index'[(k, t)] == index[(k, t)]
    else if t == s then
      if k in drop then (k, t) !in index' else (k, t) in index' && index'[(k, t)] == Stored(items[k])
    else if reclaim && k !in drop && t < s && index[(k, t)].Stored? then (k, t) !in index'
    else (k, t) in index' && index'[(k, t)] == index[(k, t)]
  }

  ghost predicate SlotFlushed(items: map<Pubkey, Account>, index: Index, s: Slot, done: set<Pubkey>, drop: set<Pubkey>,
                              reclaim: bool, index': Index)
    requires done <= items.Keys
  {
    forall k, t :: EntryFlushed(items, index, s, done, drop, reclaim, index', k, t)
  }

  // The index after one account is stored at slot s, reclaiming older stored versions if asked to.
  function Upserted(index: Index, k: Pubkey, s: Slot, account: Account, reclaim: bool): Index {
    (map p | p in index && !(reclaim && p.0 == k && p.1 < s && index[p].Stored?) :: index[p])[(k, s) := Stored(account)]
  }

  lemma UpsertOne(items: map<Pubkey, Account>, index: Index, s: Slot, done: set<Pubkey>, drop: set<Pubkey>,
                  reclaim: bool, now: Index, key: Pubkey)
    requires done <= items.Keys && SlotFlushed(items, index, s, done, drop, reclaim, now)
    requires key in items && key !in done && key !in drop && (key, s) in index
    ensures SlotFlushed(items, index, s, done + {key}, drop, reclaim, Upserted(now, key, s, items[key], reclaim))
  {
    forall k, t
      ensures EntryFlushed(items, index, s, done + {key}, drop, reclaim,
                           Upserted(now, key, s, items[key], reclaim), k, t)
    {
      assert EntryFlushed(items, index, s, done, drop, reclaim, now, k, t);
    }
  }

  lemma DropOne(items: map<Pubkey, Account>, index: Index, s: Slot, done: set<Pubkey>, drop: set<Pubkey>,
                reclaim: bool, now: Index, key: Pubkey)
    requires done <= items.Keys && SlotFlushed(items, index, s, done, drop, reclaim, now)
    requires key in items && key !in done && key in drop
    ensures SlotFlushed(items, index, s, done + {key}, drop, reclaim, now - {(key, s)})
  {
    forall k, t
      ensures EntryFlushed(items, index, s, done + {key}, drop, reclaim, now - {(key, s)}, k, t)
    {
      assert EntryFlushed(items, index, s, done, drop, reclaim, now, k, t);
    }
  }

  lemma FlushKeepsIndexed(cache: Cache, index: Index, s: Slot, drop: set<Pubkey>, reclaim: bool, index': Index)
    requires CacheIndexed(cache, index) && s in cache
    requires SlotFlushed(cache[s], index, s, cache[s].Keys, drop, reclaim, index')
    ensures CacheIndexed(cache - {s}, index')
  {
    forall k: Pubkey, t: Slot
      ensures (k, t) in index' && index'[(k, t)].Cached? <==> t in cache - {s} && k in (cache - {s})[t]
    {
      assert EntryFlushed(cache[s], index, s, cache[s].Keys, drop, reclaim, index', k, t);
      assert (k, t) in index && index[(k, t)].Cached? <==> t in cache && k in cache[t];
    }
  }

  // ---------- all roots ----------

  // A flushed root above t, with cleaning on, holds the key.
  ghost predicate Superseded(cache: Cache, flushed: set<Slot>, clean: bool, maxCleanRoot: Option<Slot>, k: Pubkey,
                             t: Slot)
  {
    exists s :: s in flushed && s in cache && t < s && Cleans(clean, maxCleanRoot, s) && k in cache[s]
  }

  // Exactly the entries a flush removes: superseded ones that were flushed along, or stored before
  // if old versions are reclaimed.
  ghost predicate Removed(cache: Cache, index: Index, flushed: set<Slot>, clean: bool, maxCleanRoot: Option<Slot>,
                          reclaim: bool, k: Pubkey, t: Slot)
    requires (k, t) in index
  {
    && Superseded(cache, flushed, clean, maxCleanRoot, k, t)
    && if index[(k, t)].Cached? then t in flushed else reclaim
  }

  ghost predicate EntryAfter(cache: Cache, index: Index, flushed: set<Slot>, clean: bool, maxCleanRoot: Option<Slot>,
                             reclaim: bool, index': Index, k: Pubkey, t: Slot)
  {
    if (k, t) !in index || Removed(cache, index, flushed, clean, maxCleanRoot, reclaim, k, t) then (k, t) !in index'
    else
      && (k, t) in index'
      && index'[(k, t)] == if t in flushed && t in cache && k in cache[t] then Stored(cache[t][k]) else index[(k, t)]
  }

  ghost predicate RootsFlushed(cache: Cache, index: Index, flushed: set<Slot>, clean: bool, maxCleanRoot: Option<Slot>,
                               reclaim: bool, index': Index)
  {
    forall k, t :: EntryAfter(cache, index, flushed, clean, maxCleanRoot, reclaim, index', k, t)
  }

  // The accounts written so far for roots that clean.
  ghost predicate WrittenFor(cache: Cache, flushed: set<Slot>, clean: bool, maxCleanRoot: Option<Slot>,
                             written: set<Pubkey>)
  {
    forall k :: k in written <==>
      exists s :: s in flushed && s in cache && Cleans(clean, maxCleanRoot, s) && k in cache[s]
  }

  // One more slot, below all flushed ones.
  lemma OneMoreRoot(cache: Cache, index: Index, flushed: set<Slot>, clean: bool, maxCleanRoot: Option<Slot>,
                    reclaim: bool,
                    now: Index, written: set<Pubkey>, s: Slot, index': Index, k: Pubkey, t: Slot)
    requires CacheIndexed(cache, index)
    requires EntryAfter(cache, index, flushed, clean, maxCleanRoot, reclaim, now, k, t)
    requires WrittenFor(cache, flushed, clean, maxCleanRoot, written)
    requires s in cache && s !in flushed && forall f | f in flushed :: s < f
    requires var cleans := Cleans(clean, maxCleanRoot, s);
             EntryFlushed(cache[s], now, s, cache[s].Keys, if cleans then cache[s].Keys * written else {},
                          reclaim && cleans, index', k, t)
    ensures EntryAfter(cache, index, flushed + {s}, clean, maxCleanRoot, reclaim, index', k, t)
  {
  }

  lemma SkippedRoot(cache: Cache, index: Index, flushed: set<Slot>, clean: bool, maxCleanRoot: Option<Slot>,
                    reclaim: bool,
                    now: Index, s: Slot, k: Pubkey, t: Slot)
    requires CacheIndexed(cache, index) && s !in cache
    requires EntryAfter(cache, index, flushed, clean, maxCleanRoot, reclaim, now, k, t)
    ensures EntryAfter(cache, index, flushed + {s}, clean, maxCleanRoot, reclaim, now, k, t)
  {
    assert (k, t) in index && index[(k, t)].Cached? ==> t in cache;
  }

  // Readers at roots the flush does not clean below see what they saw before.
  ghost predicate SafeRoot(flushed: set<Slot>, clean: bool, maxCleanRoot: Option<Slot>, r: Slot) {
    forall s | s in flushed && Cleans(clean, maxCleanRoot, s) :: s <= r
  }

  // A newest version at a safe root is not removed.
  lemma NewestStays(cache: Cache, index: Index, roots: set<Slot>, flushed: set<Slot>, clean: bool,
                    maxCleanRoot: Option<Slot>,
                    reclaim: bool, index': Index, k: Pubkey, r: Slot, s: Slot)
    requires CacheIndexed(cache, index) && flushed <= roots && SafeRoot(flushed, clean, maxCleanRoot, r)
    requires RootsFlushed(cache, index, flushed, clean, maxCleanRoot, reclaim, index')
    requires IsNewest(index, roots, k, r, s)
    ensures IsNewest(index', roots, k, r, s)
  {
    assert EntryAfter(cache, index, flushed, clean, maxCleanRoot, reclaim, index', k, s);
    forall t | t in roots && s < t <= r ensures (k, t) !in index' {
      assert EntryAfter(cache, index, flushed, clean, maxCleanRoot, reclaim, index', k, t);
    }
    forall t | t in flushed && t in cache && Cleans(clean, maxCleanRoot, t) && k in cache[t] ensures t <= s {
      assert (k, t) in index;
    }
  }

  // A version superseded by a cleaning root is superseded by one that stays.
  lemma SuperseederStays(cache: Cache, index: Index, flushed: set<Slot>, clean: bool, maxCleanRoot: Option<Slot>,
                         reclaim: bool, index': Index, k: Pubkey, t: Slot) returns (s: Slot)
    requires CacheIndexed(cache, index)
    requires RootsFlushed(cache, index, flushed, clean, maxCleanRoot, reclaim, index')
    requires Superseded(cache, flushed, clean, maxCleanRoot, k, t)
    ensures s in flushed && t < s && Cleans(clean, maxCleanRoot, s) && (k, s) in index'
  {
    var above := set u | u in flushed && u in cache && t < u && Cleans(clean, maxCleanRoot, u) && k in cache[u];
    var u :| u in flushed && u in cache && t < u && Cleans(clean, maxCleanRoot, u) && k in cache[u];
    assert u in above;
    s := TopOf(above);
    forall v | v in flushed && v in cache && Cleans(clean, maxCleanRoot, v) && k in cache[v] ensures v <= s {
      assert t < v ==> v in above;
    }
    assert (k, s) in index;
    assert EntryAfter(cache, index, flushed, clean, maxCleanRoot, reclaim, index', k, s);
  }

  // For every key and every safe root, the newest rooted version is the same before and after.
  lemma NewestUnchanged(cache: Cache, index: Index, roots: set<Slot>, flushed: set<Slot>, clean: bool,
                        maxCleanRoot: Option<Slot>,
                        reclaim: bool, cache': Cache, index': Index, k: Pubkey, r: Slot, s: Slot)
    requires CacheIndexed(cache, index) && flushed <= roots && SafeRoot(flushed, clean, maxCleanRoot, r)
    requires RootsFlushed(cache, index, flushed, clean, maxCleanRoot, reclaim, index') && cache' == cache - flushed
    ensures IsNewest(index, roots, k, r, s) <==> IsNewest(index', roots, k, r, s)
    ensures IsNewest(index, roots, k, r, s) ==> ReadAt(cache', index', k, s) == ReadAt(cache, index, k, s)
  {
    assert EntryAfter(cache, index, flushed, clean, maxCleanRoot, reclaim, index', k, s);
    if IsNewest(index, roots, k, r, s) {
      NewestStays(cache, index, roots, flushed, clean, maxCleanRoot, reclaim, index', k, r, s);
    }
    if IsNewest(index', roots, k, r, s) {
      forall t | t in roots && s < t <= r ensures (k, t) !in index {
        assert EntryAfter(cache, index, flushed, clean, maxCleanRoot, reclaim, index', k, t);
        if (k, t) in index {
          var u := SuperseederStays(cache, index, flushed, clean, maxCleanRoot, reclaim, index', k, t);
        }
      }
    }
  }

  // An ordered set, smallest slot first.
  predicate Ascending(slots: seq<Slot>) {
    forall i, j | 0 <= i < j < |slots| :: slots[i] < slots[j]
  }

  function SlotsOf(slots: seq<Slot>): set<Slot> {
    set s | s in slots
  }

  // The taken roots are those up to the requested one; without a request, all of them.
  predicate UpTo(requested: Option<Slot>, taken: seq<Slot>, left: seq<Slot>) {
    match requested
    case None => left == []
    case Some(root) => (forall s | s in taken :: s <= root) && forall s | s in left :: root < s
  }

  // The roots readers use: scans at or above the oldest one, and everything at or above the
  // requested root or, without a request, above all unflushed roots.
  ghost predicate ReaderRoot(unflushed: seq<Slot>, requested: Option<Slot>, minScanRoot: Option<Slot>, r: Slot) {
    || (minScanRoot.Some? && r >= minScanRoot.value)
    || (requested.Some? && r >= requested.value)
    || (forall s | s in unflushed :: s <= r)
  }

  ghost predicate SameNewest(cache: Cache, index: Index, cache': Cache, index': Index, roots: set<Slot>,
                             k: Pubkey, r: Slot, s: Slot)
  {
    && (IsNewest(index, roots, k, r, s) <==> IsNewest(index', roots, k, r, s))
    && (IsNewest(index, roots, k, r, s) ==> ReadAt(cache', index', k, s) == ReadAt(cache, index, k, s))
  }

  // Of a cleaning flush: a newer root that leaves the cache along, not above the bound, has the key too.
  ghost predicate Outdated(cache: Cache, flushed: seq<Slot>, clean: bool, bound: Option<Slot>, k: Pubkey, t: Slot) {
    clean && exists s :: s in flushed && s in cache && t < s && k in cache[s] && (bound.Some? ==> s <= bound.value)
  }

  // What a flush does to an entry, in terms of the roots and the bound alone.
  ghost predicate EntryCleaned(cache: Cache, index: Index, flushed: seq<Slot>, clean: bool, bound: Option<Slot>,
                               reclaim: bool, index': Index, k: Pubkey, t: Slot)
    requires (k, t) in index
  {
    && ((k, t) !in index' <==>
          Outdated(cache, flushed, clean, bound, k, t) && if index[(k, t)].Cached? then t in flushed else reclaim)
    && ((k, t) in index' ==>
          index'[(k, t)] == if t in flushed && t in cache && k in cache[t] then Stored(cache[t][k]) else index[(k, t)])
  }

  lemma FlushCleans(cache: Cache, index: Index, flushed: seq<Slot>, clean: bool, maxCleanRoot: Option<Slot>,
                    reclaim: bool, index': Index, k: Pubkey, t: Slot)
    requires RootsFlushed(cache, index, SlotsOf(flushed), clean, maxCleanRoot, reclaim, index') && (k, t) in index
    ensures EntryCleaned(cache, index, flushed, clean, maxCleanRoot, reclaim, index', k, t)
  {
    assert EntryAfter(cache, index, SlotsOf(flushed), clean, maxCleanRoot, reclaim, index', k, t);
  }

  // No flushed root is above the requested one, so only the oldest ongoing scan limits the cleaning.
  lemma ScanIsBound(cache: Cache, index: Index, flushed: seq<Slot>, requested: Option<Slot>, minScanRoot: Option<Slot>,
                    reclaim: bool, index': Index, k: Pubkey, t: Slot)
    requires requested.Some? ==> forall s | s in flushed :: s <= requested.value
    requires (k, t) in index
    requires EntryCleaned(cache, index, flushed, true, MaxCleanRoot(minScanRoot, requested), reclaim, index', k, t)
    ensures EntryCleaned(cache, index, flushed, true, minScanRoot, reclaim, index', k, t)
  {
  }

  class Flusher {
    var cache: Cache
    var index: Index
    var unflushed: seq<Slot>
    var maxFlushRoot: Slot
    const markObsolete: bool

    // Splits the unflushed roots behind the requested one, or behind the last.
    method ClearRoots(requested: Option<Slot>) returns (roots: seq<Slot>)
      requires Ascending(unflushed)
      modifies `unflushed
      ensures old(unflushed) == roots + unflushed && Ascending(unflushed)
      ensures UpTo(requested, roots, unflushed)
    {
      var split := |unflushed|;
      if requested.Some? {
        split := 0;
        while split < |unflushed| && unflushed[split] < requested.value + 1
          invariant split <= |unflushed|
          invariant forall i | 0 <= i < split :: unflushed[i] <= requested.value
        {
          split := split + 1;
        }
      }
      roots, unflushed := unflushed[..split], unflushed[split..];
    }

    // Splits the accounts of a slot into those to store and those already written for a newer root.
    static method Select(items: map<Pubkey, Account>, cleans: bool, written: set<Pubkey>)
      returns (store: set<Pubkey>, drop: set<Pubkey>, written': set<Pubkey>)
      ensures drop == if cleans then items.Keys * written else {}
      ensures store == items.Keys - drop
      ensures written' == if cleans then written + items.Keys else written
    {
      var todo := items.Keys;
      store, drop, written' := {}, {}, written;
      while todo != {}
        invariant todo <= items.Keys
        invariant written' == if cleans then written + (items.Keys - todo) else written
        invariant drop == if cleans then (items.Keys - todo) * written else {}
        invariant store == items.Keys - todo - drop
      {
        var k :| k in todo;
        todo := todo - {k};
        if cleans && k in written' {
          drop := drop + {k};
        } else {
          store := store + {k};
          if cleans { written' := written' + {k}; }
        }
      }
    }

    // Takes the dropped accounts out of the index, then stores the others.
    static method UpdateIndex(items: map<Pubkey, Account>, index: Index, s: Slot, store: set<Pubkey>, drop: set<Pubkey>,
                              reclaim: bool)
      returns (index': Index)
      requires drop <= items.Keys && store == items.Keys - drop
      requires forall k | k in items :: (k, s) in index
      ensures SlotFlushed(items, index, s, items.Keys, drop, reclaim, index')
    {
      index' := index;
      var todo := drop;
      ghost var done: set<Pubkey> := {};
      while todo != {}
        invariant todo <= drop && done == drop - todo
        invariant SlotFlushed(items, index, s, done, drop, reclaim, index')
      {
        var k :| k in todo;
        DropOne(items, index, s, done, drop, reclaim, index', k);
        index' := index' - {(k, s)};
        todo, done := todo - {k}, done + {k};
      }
      todo := store;
      while todo != {}
        invariant todo <= store && done == items.Keys - todo
        invariant SlotFlushed(items, index, s, done, drop, reclaim, index')
      {
        var k :| k in todo;
        UpsertOne(items, index, s, done, drop, reclaim, index', k);
        index' := Upserted(index', k, s, items[k], reclaim);
        todo, done := todo - {k}, done + {k};
      }
      assert done == items.Keys;
    }

    method FlushSlotCache(s: Slot, cleans: bool, written: set<Pubkey>) returns (written': set<Pubkey>)
      requires CacheIndexed(cache, index)
      modifies `cache, `index
      ensures CacheIndexed(cache, index)
      ensures cache == old(cache) - {s}
      ensures s !in old(cache) ==> index == old(index) && written' == written
      ensures s in old(cache) ==>
                var items := old(cache)[s];
                && written' == (if cleans then written + items.Keys else written)
                && SlotFlushed(items, old(index), s, items.Keys, if cleans then items.Keys * written else {},
                               markObsolete && cleans, index)
    {
      written' := written;
      if s in cache {
        var items := cache[s];
        var store, drop;
        store, drop, written' := Select(items, cleans, written);
        var index' := UpdateIndex(items, index, s, store, drop, markObsolete && cleans);
        FlushKeepsIndexed(cache, index, s, drop, markObsolete && cleans, index');
        index := index';
        cache := cache - {s};
      }
    }

    // One root in the loop below, relative to the state it started from.
    method FlushRoot(s: Slot, clean: bool, maxCleanRoot: Option<Slot>, written: set<Pubkey>,
                     ghost cache0: Cache, ghost index0: Index, ghost flushed: set<Slot>)
      returns (written': set<Pubkey>)
      requires CacheIndexed(cache0, index0) && CacheIndexed(cache, index) && cache == cache0 - flushed
      requires RootsFlushed(cache0, index0, flushed, clean, maxCleanRoot, markObsolete, index)
      requires WrittenFor(cache0, flushed, clean, maxCleanRoot, written)
      requires s !in flushed && forall f | f in flushed :: s < f
      modifies `cache, `index
      ensures CacheIndexed(cache, index) && cache == cache0 - (flushed + {s})
      ensures RootsFlushed(cache0, index0, flushed + {s}, clean, maxCleanRoot, markObsolete, index)
      ensures WrittenFor(cache0, flushed + {s}, clean, maxCleanRoot, written')
    {
      ghost var now := index;
      written' := FlushSlotCache(s, Cleans(clean, maxCleanRoot, s), written);
      forall k: Pubkey, t: Slot
        ensures EntryAfter(cache0, index0, flushed + {s}, clean, maxCleanRoot, markObsolete, index, k, t)
      {
        assert EntryAfter(cache0, index0, flushed, clean, maxCleanRoot, markObsolete, now, k, t);
        if s in cache0 {
          OneMoreRoot(cache0, index0, flushed, clean, maxCleanRoot, markObsolete, now, written, s, index, k, t);
        } else {
          SkippedRoot(cache0, index0, flushed, clean, maxCleanRoot, markObsolete, now, s, k, t);
        }
      }
    }

    // Newest root first, so that an older root need not store what a newer one overwrites.
    method FlushRootedAccountsCache(requested: Option<Slot>, maxCleanRoot: Option<Slot>, clean: bool)
      returns (flushed: seq<Slot>)
      requires CacheIndexed(cache, index) && Ascending(unflushed)
      modifies this
      ensures CacheIndexed(cache, index) && Ascending(unflushed)
      ensures old(unflushed) == flushed + unflushed && UpTo(requested, flushed, unflushed)
      ensures cache == old(cache) - SlotsOf(flushed)
      ensures RootsFlushed(old(cache), old(index), SlotsOf(flushed), clean, maxCleanRoot, markObsolete, index)
      ensures forall k, t | (k, t) in old(index) ::
                EntryCleaned(old(cache), old(index), flushed, clean, maxCleanRoot, markObsolete, index, k, t)
      ensures forall s :: s in flushed <==> s in old(unflushed) && (requested.Some? ==> s <= requested.value)
      ensures maxFlushRoot >= old(maxFlushRoot) && forall s | s in flushed :: s <= maxFlushRoot
      ensures maxFlushRoot == old(maxFlushRoot) || maxFlushRoot in flushed
    {
      flushed := ClearRoots(requested);
      var written: set<Pubkey> := {};
      ghost var done: set<Slot> := {};
      for i := |flushed| downto 0
        invariant unflushed == old(unflushed)[|flushed|..] && maxFlushRoot == old(maxFlushRoot)
        invariant forall s :: s in done <==> s in flushed[i..]
        invariant CacheIndexed(cache, index) && cache == old(cache) - done
        invariant RootsFlushed(old(cache), old(index), done, clean, maxCleanRoot, markObsolete, index)
        invariant WrittenFor(old(cache), done, clean, maxCleanRoot, written)
      {
        written := FlushRoot(flushed[i], clean, maxCleanRoot, written, old(cache), old(index), done);
        done := done + {flushed[i]};
      }
      assert done == SlotsOf(flushed);
      forall k: Pubkey, t: Slot | (k, t) in old(index)
        ensures EntryCleaned(old(cache), old(index), flushed, clean, maxCleanRoot, markObsolete, index, k, t)
      {
        FlushCleans(old(cache), old(index), flushed, clean, maxCleanRoot, markObsolete, index, k, t);
      }
      if flushed != [] && maxFlushRoot < flushed[|flushed| - 1] {
        maxFlushRoot := flushed[|flushed| - 1];
      }
    }

    // With cleaning limited by the oldest ongoing scan, no scan and no reader at or above the flushed
    // roots sees a newest version change.
    method FlushWithClean(requested: Option<Slot>, minScanRoot: Option<Slot>, ghost roots: set<Slot>)
      returns (flushed: seq<Slot>)
      requires CacheIndexed(cache, index) && Ascending(unflushed) && SlotsOf(unflushed) <= roots
      modifies this
      ensures CacheIndexed(cache, index) && Ascending(unflushed)
      ensures old(unflushed) == flushed + unflushed && UpTo(requested, flushed, unflushed)
      ensures cache == old(cache) - SlotsOf(flushed)
      ensures RootsFlushed(old(cache), old(index), SlotsOf(flushed), true, MaxCleanRoot(minScanRoot, requested),
                           markObsolete, index)
      ensures forall k, t | (k, t) in old(index) ::
                EntryCleaned(old(cache), old(index), flushed, true, minScanRoot, markObsolete, index, k, t)
      ensures forall s :: s in flushed <==> s in old(unflushed) && (requested.Some? ==> s <= requested.value)
      ensures forall k, r, s | ReaderRoot(old(unflushed), requested, minScanRoot, r) ::
                SameNewest(old(cache), old(index), cache, index, roots, k, r, s)
    {
      var maxCleanRoot := MaxCleanRoot(minScanRoot, requested);
      flushed := FlushRootedAccountsCache(requested, maxCleanRoot, true);
      assert forall s | s in flushed :: s in old(unflushed);
      forall k: Pubkey, t: Slot | (k, t) in old(index)
        ensures EntryCleaned(old(cache), old(index), flushed, true, minScanRoot, markObsolete, index, k, t)
      {
        ScanIsBound(old(cache), old(index), flushed, requested, minScanRoot, markObsolete, index, k, t);
      }
      forall k, r: Slot, s | ReaderRoot(old(unflushed), requested, minScanRoot, r)
        ensures SameNewest(old(cache), old(index), cache, index, roots, k, r, s)
      {
        NewestUnchanged(old(cache), old(index), roots, SlotsOf(flushed), true, maxCleanRoot, markObsolete, cache, index,
                        k, r, s);
      }
    }
  }
}
