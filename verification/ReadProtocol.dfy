/**
 Readers against the flusher, the shrinker, the cleaner and the slot purger, as atomic steps.

 A reader takes a location from the index and then looks it up in the write cache or, in three
 separate lookups, in the storage map, the shrink-in-progress map and the storage map again.
 When nothing is found it reads the index once more; finding the same slot and store there is
 the "Bad index entry" panic. The state groups the entries of the cache, of both storage maps and
 of the index by slot.
 */
module ReadProtocol {
  import opened Types

  datatype Location = Cached | Stored(id: StoreId, offset: Offset) {
    // As the panic check compares locations: two cached locations count as the same store.
    predicate SameStore(other: Location) {
      (Cached? && other.Cached?) || (Stored? && other.Stored? && id == other.id)
    }
  }

  // `alive` are the accounts the alive counter of the store still counts.
  datatype Store = Store(id: StoreId, accounts: map<Offset, Account>, alive: set<Pubkey>)

  // Background work on one slot. `place` says where accounts not yet re-indexed were written; a
  // `purge` of a cached slot drops all its accounts.
  datatype Job =
    | NoJob
    | FlushOpen(keep: set<Pubkey>, purge: bool)
    | Flushing(place: map<Pubkey, Offset>)
    | Shrinking(oldId: StoreId, place: map<Pubkey, Offset>, drop: set<Pubkey>)
    | Swapped
    | Cleaning(reclaims: set<Pubkey>)
  {
    predicate Shrinks() {
      Shrinking? || Swapped?
    }

    // The job is one of the background service; the purge of a cached slot need not be.
    predicate Busy() {
      !NoJob? && !(FlushOpen? && purge)
    }
  }

  // A `closed` slot gets no more writes; `writes` are in the cache but not yet in the index;
  // `written` records the account last written for each key.
  datatype SlotState = SlotState(
    cache: Option<map<Pubkey, Account>>,
    closed: bool,
    writes: set<Pubkey>,
    index: map<Pubkey, Location>,
    store: Option<Store>,
    shrink: Option<Store>,
    job: Job,
    written: map<Pubkey, Account>)
  {
    predicate InMap(id: StoreId) {
      store.Some? && store.value.id == id
    }

    predicate InShrinkMap(id: StoreId) {
      shrink.Some? && shrink.value.id == id
    }

    predicate Live(id: StoreId) {
      InMap(id) || InShrinkMap(id)
    }

    predicate CachedAt(k: Pubkey) {
      cache.Some? && k in cache.value
    }

    // The slot left the cache for good.
    predicate Retired() {
      closed && cache.None?
    }
  }

  const UNUSED := SlotState(None, false, {}, map[], None, None, NoJob, map[])

  datatype Stage = AtMap | AtShrinkMap | AtMapAgain

  // A load with a fixed maximum root sees the same slots, its ancestors and the roots up to that
  // root, until it ends. `failed` is the slot it once missed in the cache.
  datatype Hint = Unspecified | Fixed(visible: set<Slot>, failed: Option<Slot>)

  // A `locked` reader holds the index entry of its key while it looks, as scans do.
  datatype Reader =
    | Idle
    | Looking(k: Pubkey, s: Slot, loc: Location, stage: Stage, locked: bool, hint: Hint)
    | Missed(k: Pubkey, s: Slot, loc: Location, locked: bool, hint: Hint)
    | Done(k: Pubkey, s: Slot, account: Account)
    | Panicked
  {
    predicate Sees(t: Slot) {
      (Looking? || Missed?) && hint.Fixed? && t in hint.visible
    }
  }

  datatype State = State(slots: map<Slot, SlotState>, nextId: StoreId, readers: map<nat, Reader>) {
    function At(s: Slot): SlotState {
      if s in slots then slots[s] else UNUSED
    }

    predicate Holds(r: nat, k: Pubkey) {
      r in readers && readers[r].Looking? && readers[r].locked && readers[r].k == k
    }

    ghost predicate Locked(k: Pubkey) {
      exists r :: Holds(r, k)
    }
  }

  // The version that a reader of these slots takes.
  predicate NewestIn(st: State, k: Pubkey, visible: set<Slot>, s: Slot) {
    && s in visible && k in st.At(s).index
    && forall t | t in visible && s < t :: k !in st.At(t).index
  }

  // ---------- background steps ----------

  datatype Step =
    // writer: cache first, then index
    | WriteCache(k: Pubkey, account: Account)
    | WriteIndex(k: Pubkey)
    | Close
    // flusher, and the purge of an unrooted cached slot, which drops everything
    | FlushBegin(purge: bool)
    | FlushDrop(k: Pubkey)
    | FlushStore(store: Store, place: map<Pubkey, Offset>)
    | FlushIndex(k: Pubkey)
    | FlushEnd
    // shrinker
    | ShrinkStore(store: Store, place: map<Pubkey, Offset>, drop: set<Pubkey>)
    | ShrinkIndex(k: Pubkey)
    | ShrinkDrop(k: Pubkey)
    | ShrinkSwap
    | ShrinkEnd
    // cleaner, and the purge of an unrooted stored slot
    | CleanIndex(k: Pubkey)
    | CleanCount(k: Pubkey)
    | CleanEnd
  {
    predicate Creates() {
      FlushStore? || ShrinkStore?
    }

    predicate Removes(key: Pubkey) {
      (FlushDrop? || ShrinkDrop? || CleanIndex?) && k == key
    }

    predicate WritesIndex(key: Pubkey) {
      match this
      case WriteIndex(k) => k == key
      case FlushDrop(k) => k == key
      case FlushIndex(k) => k == key
      case ShrinkIndex(k) => k == key
      case ShrinkDrop(k) => k == key
      case CleanIndex(k) => k == key
      case _ => false
    }
  }

  // A fresh store holding, for each placed key, the account last written in the slot.
  predicate FreshCopy(x: SlotState, id: StoreId, store: Store, place: map<Pubkey, Offset>) {
    && store.id == id
    && store.alive == place.Keys
    && forall k | k in place ::
         k in x.written && place[k] in store.accounts && store.accounts[place[k]] == x.written[k]
  }

  predicate Writer(x: SlotState, step: Step, x': SlotState) {
    match step
    case WriteCache(k, account) =>
      && !x.closed
      && x' == x.(cache := Some((if x.cache.Some? then x.cache.value else map[])[k := account]),
                  writes := x.writes + {k}, written := x.written[k := account])
    case WriteIndex(k) =>
      && k in x.writes
      && x' == x.(index := x.index[k := Cached], writes := x.writes - {k})
    case Close =>
      && x.writes == {}
      && x' == x.(closed := true)
    case _ => false
  }

  predicate Flusher(x: SlotState, id: StoreId, step: Step, x': SlotState) {
    match step
    case FlushBegin(purge) =>
      && x.job.NoJob? && x.cache.Some? && x.closed
      && x' == x.(job := FlushOpen(x.cache.value.Keys, purge))
    case FlushDrop(k) =>
      && x.job.FlushOpen? && k in x.job.keep
      && x' == x.(index := x.index - {k}, job := x.job.(keep := x.job.keep - {k}))
    case FlushStore(store, place) =>
      && x.job.FlushOpen? && !x.job.purge && place.Keys == x.job.keep && place.Keys != {}
      && FreshCopy(x, id, store, place)
      && x' == x.(store := Some(store), job := Flushing(place))
    case FlushIndex(k) =>
      && x.job.Flushing? && k in x.job.place && x.store.Some?
      && x' == x.(index := x.index[k := Stored(x.store.value.id, x.job.place[k])],
                  job := Flushing(x.job.place - {k}))
    case FlushEnd =>
      && ((x.job.FlushOpen? && x.job.keep == {}) || x.job == Flushing(map[]))
      && x' == x.(cache := None, job := NoJob)
    case _ => false
  }

  predicate Shrinker(x: SlotState, id: StoreId, step: Step, x': SlotState) {
    match step
    case ShrinkStore(store, place, drop) =>
      && x.job.NoJob? && x.store.Some? && x.cache.None?
      && place.Keys == x.index.Keys - drop
      && FreshCopy(x, id, store, place)
      && x' == x.(shrink := Some(store), job := Shrinking(x.store.value.id, place, drop))
    case ShrinkIndex(k) =>
      && x.job.Shrinking? && k in x.job.place && x.shrink.Some?
      && x' == x.(index := x.index[k := Stored(x.shrink.value.id, x.job.place[k])],
                  job := x.job.(place := x.job.place - {k}))
    case ShrinkDrop(k) =>
      && x.job.Shrinking? && k in x.job.drop
      && x' == x.(index := x.index - {k}, job := x.job.(drop := x.job.drop - {k}))
    case ShrinkSwap =>
      && x.job.Shrinking? && x.job.place == map[] && x.job.drop == {}
      && x' == x.(store := x.shrink, job := Swapped)
    case ShrinkEnd =>
      && x.job.Swapped?
      && x' == x.(shrink := None, job := NoJob)
    case _ => false
  }

  // A store whose alive counter reached zero is deleted.
  predicate Cleaner(x: SlotState, step: Step, x': SlotState) {
    match step
    case CleanIndex(k) =>
      && (x.job.NoJob? || x.job.Cleaning?) && x.store.Some? && x.cache.None? && k in x.index
      && x' == x.(index := x.index - {k}, job := Cleaning((if x.job.Cleaning? then x.job.reclaims else {}) + {k}))
    case CleanCount(k) =>
      && x.job.Cleaning? && k in x.job.reclaims && x.store.Some?
      && x' == x.(store := Some(x.store.value.(alive := x.store.value.alive - {k})),
                  job := Cleaning(x.job.reclaims - {k}))
    case CleanEnd =>
      && x.job == Cleaning({}) && x.store.Some?
      && x' == x.(store := if |x.store.value.alive| == 0 then None else x.store, job := NoJob)
    case _ => false
  }

  predicate SlotStep(x: SlotState, id: StoreId, step: Step, x': SlotState) {
    Writer(x, step, x') || Flusher(x, id, step, x') || Shrinker(x, id, step, x') || Cleaner(x, step, x')
  }

  // While a load with a fixed root runs, the open slot it sees is not closed, and the version it
  // would take leaves the index only if it sees no other.
  predicate Respects(st: State, reader: Reader, s: Slot, step: Step) {
    reader.Sees(s) ==>
      && !step.Close?
      && (step.Removes(reader.k) && NewestIn(st, reader.k, reader.hint.visible, s) ==>
            forall t | t in reader.hint.visible && t != s :: reader.k !in st.At(t).index)
  }

  ghost predicate Background(st: State, s: Slot, step: Step, x': SlotState, st': State) {
    && SlotStep(st.At(s), st.nextId, step, x')
    && (forall k | step.WritesIndex(k) :: !st.Locked(k))
    && (forall r | r in st.readers :: Respects(st, st.readers[r], s, step))
    && st' == st.(slots := st.slots[s := x'], nextId := if step.Creates() then st.nextId + 1 else st.nextId)
  }

  // ---------- what holds of one slot ----------

  predicate StoreHas(x: SlotState, k: Pubkey, store: Store, offset: Offset) {
    k in x.written && offset in store.accounts && store.accounts[offset] == x.written[k]
  }

  // Where a lookup of a location would end.
  predicate Resolves(x: SlotState, k: Pubkey, loc: Location) {
    match loc
    case Cached => x.CachedAt(k)
    case Stored(id, offset) =>
      || (x.InMap(id) && StoreHas(x, k, x.store.value, offset))
      || (x.InShrinkMap(id) && StoreHas(x, k, x.shrink.value, offset))
  }

  // The alive counter of the store still counts the entry.
  predicate Counted(x: SlotState, k: Pubkey, loc: Location) {
    loc.Stored? ==>
      || (x.InMap(loc.id) && k in x.store.value.alive)
      || (x.InShrinkMap(loc.id) && k in x.shrink.value.alive)
  }

  predicate Placed(x: SlotState, store: Store, place: map<Pubkey, Offset>) {
    forall k | k in place :: StoreHas(x, k, store, place[k]) && k in store.alive
  }

  predicate IndexInv(x: SlotState) {
    forall k | k in x.index :: Resolves(x, k, x.index[k]) && Counted(x, k, x.index[k])
  }

  predicate CacheInv(x: SlotState) {
    && (x.cache.Some? ==> forall k | k in x.cache.value :: k in x.written && x.written[k] == x.cache.value[k])
    && (forall k | k in x.writes :: x.CachedAt(k))
    && (x.closed ==> x.writes == {})
  }

  predicate JobInv(x: SlotState) {
    && (x.store.Some? ==> x.closed)
    && (x.cache.Some? && x.store.Some? ==> x.job.Flushing?)
    && (x.shrink.Some? <==> x.job.Shrinks())
    && match x.job
       case NoJob =>
         && (x.cache.Some? ==> x.cache.value.Keys <= x.index.Keys + x.writes)
         && (x.store.Some? ==> x.store.value.alive <= x.index.Keys)
       case FlushOpen(keep, _) =>
         x.cache.Some? && x.closed && x.store.None? && keep <= x.cache.value.Keys && x.index.Keys == keep
       case Flushing(place) =>
         && x.cache.Some? && x.store.Some? && place.Keys <= x.index.Keys
         && Placed(x, x.store.value, place) && x.store.value.alive <= x.index.Keys
         && forall k | k in x.index && x.index[k].Cached? :: k in place
       case Shrinking(oldId, place, drop) =>
         && x.cache.None? && x.store.Some? && x.shrink.Some? && x.store.value.id == oldId && x.shrink.value.id != oldId
         && place.Keys <= x.index.Keys && place.Keys !! drop
         && Placed(x, x.shrink.value, place)
         && x.shrink.value.alive <= x.index.Keys && x.shrink.value.alive !! drop
         && forall k | k in x.index && x.index[k].Stored? && x.index[k].id != x.shrink.value.id ::
              k in place || k in drop
       case Swapped => x.cache.None? && x.store == x.shrink && x.store.value.alive <= x.index.Keys
       case Cleaning(reclaims) =>
         && x.cache.None? && x.store.Some? && reclaims !! x.index.Keys
         && reclaims <= x.store.value.alive <= x.index.Keys + reclaims
  }

  predicate SlotInv(x: SlotState) {
    IndexInv(x) && CacheInv(x) && JobInv(x)
  }

  predicate Below(x: SlotState, id: StoreId) {
    (x.store.Some? ==> x.store.value.id < id) && (x.shrink.Some? ==> x.shrink.value.id < id)
  }

  lemma WriterKeeps(x: SlotState, step: Step, x': SlotState)
    requires SlotInv(x) && Writer(x, step, x')
    ensures SlotInv(x')
  {
  }

  lemma FlusherKeeps(x: SlotState, id: StoreId, step: Step, x': SlotState)
    requires SlotInv(x) && Below(x, id) && Flusher(x, id, step, x')
    ensures SlotInv(x')
  {
  }

  lemma ShrinkerKeeps(x: SlotState, id: StoreId, step: Step, x': SlotState)
    requires SlotInv(x) && Below(x, id) && Shrinker(x, id, step, x')
    ensures SlotInv(x')
  {
  }

  lemma CleanIndexKeeps(x: SlotState, k: Pubkey, x': SlotState)
    requires SlotInv(x) && Cleaner(x, CleanIndex(k), x')
    ensures SlotInv(x')
  {
  }

  lemma CleanCountKeeps(x: SlotState, k: Pubkey, x': SlotState)
    requires SlotInv(x) && Cleaner(x, CleanCount(k), x')
    ensures SlotInv(x')
  {
  }

  lemma CleanerKeeps(x: SlotState, step: Step, x': SlotState)
    requires SlotInv(x) && Cleaner(x, step, x')
    ensures SlotInv(x')
  {
    match step
    case CleanIndex(k) => CleanIndexKeeps(x, k, x');
    case CleanCount(k) => CleanCountKeeps(x, k, x');
    case _ =>
  }

  // ---------- what a reader that took a location from a slot can rely on ----------

  // The lookup can no longer find the location.
  predicate Gone(x: SlotState, loc: Location) {
    match loc
    case Cached => x.Retired()
    case Stored(id, _) => !x.Live(id)
  }

  // One of the lookups still to come finds the location, if nothing happens in between.
  predicate InReach(x: SlotState, k: Pubkey, loc: Location, stage: Stage) {
    && Resolves(x, k, loc)
    && (loc.Stored? && stage.AtMapAgain? ==> !x.InShrinkMap(loc.id))
  }

  predicate Known(loc: Location, id: StoreId) {
    loc.Stored? ==> loc.id < id
  }

  lemma ShrinkKeepsGone(x: SlotState, id: StoreId, step: Step, x': SlotState, loc: Location)
    requires SlotInv(x) && Shrinker(x, id, step, x') && Known(loc, id)
    requires Gone(x, loc)
    ensures Gone(x', loc)
  {
  }

  lemma GoneStaysGone(x: SlotState, id: StoreId, step: Step, x': SlotState, loc: Location)
    requires SlotInv(x) && SlotStep(x, id, step, x') && Known(loc, id)
    requires Gone(x, loc)
    ensures Gone(x', loc)
  {
    if Shrinker(x, id, step, x') {
      ShrinkKeepsGone(x, id, step, x', loc);
    }
  }

  lemma ShrinkKeepsReach(x: SlotState, id: StoreId, step: Step, x': SlotState, k: Pubkey, loc: Location, stage: Stage)
    requires SlotInv(x) && Shrinker(x, id, step, x') && Known(loc, id)
    requires InReach(x, k, loc, stage)
    ensures InReach(x', k, loc, stage) || Gone(x', loc)
  {
  }

  lemma InReachOrGone(x: SlotState, id: StoreId, step: Step, x': SlotState, k: Pubkey, loc: Location, stage: Stage)
    requires SlotInv(x) && SlotStep(x, id, step, x') && Known(loc, id)
    requires InReach(x, k, loc, stage)
    ensures InReach(x', k, loc, stage) || Gone(x', loc)
  {
    if Shrinker(x, id, step, x') {
      ShrinkKeepsReach(x, id, step, x', k, loc, stage);
    }
  }

  lemma EntryKept(x: SlotState, id: StoreId, step: Step, x': SlotState, k: Pubkey)
    requires SlotStep(x, id, step, x') && !step.WritesIndex(k) && k in x.index
    ensures k in x'.index && x'.index[k] == x.index[k]
  {
  }

  // Only a write brings a new key into the index of a slot, and only of an open one.
  lemma EntryComesAndGoes(x: SlotState, id: StoreId, step: Step, x': SlotState, k: Pubkey)
    requires SlotInv(x) && SlotStep(x, id, step, x')
    ensures k in x'.index <==> (k in x.index && !step.Removes(k)) || step == WriteIndex(k)
    ensures step == WriteIndex(k) ==> !x'.closed
    ensures x'.closed == (x.closed || step.Close?)
  {
  }

  lemma IdsBelow(x: SlotState, id: StoreId, step: Step, x': SlotState)
    requires SlotStep(x, id, step, x') && Below(x, id)
    ensures Below(x', if step.Creates() then id + 1 else id)
  {
  }

  // ---------- reader steps ----------

  datatype ReadStep =
    | Read(k: Pubkey, s: Slot, locked: bool, visible: Option<set<Slot>>)
    | LoadCached
    | LookInMap
    | LookInShrinkMap
    | LookInMapAgain
    | Reread(s: Slot)
    | GiveUp

  function Load(reader: Reader, store: Store): Reader
    requires reader.Looking? && reader.loc.Stored?
  {
    if reader.loc.offset in store.accounts then Done(reader.k, reader.s, store.accounts[reader.loc.offset])
    else Panicked
  }

  // A load with a fixed root may miss the cache once.
  function MissCached(reader: Reader): Reader
    requires reader.Looking?
  {
    match reader.hint
    case Unspecified => Missed(reader.k, reader.s, reader.loc, reader.locked, Unspecified)
    case Fixed(visible, None) => Missed(reader.k, reader.s, reader.loc, reader.locked, Fixed(visible, Some(reader.s)))
    case Fixed(_, Some(_)) => Panicked
  }

  function Miss(reader: Reader): Reader
    requires reader.Looking?
  {
    Missed(reader.k, reader.s, reader.loc, reader.locked, reader.hint)
  }

  // `third` says whether the storage map is tried again after the shrink map, as the code does.
  predicate Reads(st: State, third: bool, step: ReadStep, reader: Reader, reader': Reader) {
    match step
    case Read(k, s, locked, visible) =>
      && !reader.Looking? && !reader.Missed? && k in st.At(s).index
      && (visible.Some? ==> NewestIn(st, k, visible.value, s))
      && reader' == Looking(k, s, st.At(s).index[k], AtMap, locked,
                            if visible.Some? then Fixed(visible.value, None) else Unspecified)
    case LoadCached =>
      && reader.Looking? && reader.loc.Cached?
      && reader' == if st.At(reader.s).CachedAt(reader.k)
                    then Done(reader.k, reader.s, st.At(reader.s).cache.value[reader.k])
                    else MissCached(reader)
    case LookInMap =>
      && reader.Looking? && reader.loc.Stored? && reader.stage.AtMap?
      && reader' == if st.At(reader.s).InMap(reader.loc.id) then Load(reader, st.At(reader.s).store.value)
                    else reader.(stage := AtShrinkMap)
    case LookInShrinkMap =>
      && reader.Looking? && reader.loc.Stored? && reader.stage.AtShrinkMap?
      && reader' == if st.At(reader.s).InShrinkMap(reader.loc.id) then Load(reader, st.At(reader.s).shrink.value)
                    else if third then reader.(stage := AtMapAgain)
                    else Miss(reader)
    case LookInMapAgain =>
      && reader.Looking? && reader.loc.Stored? && reader.stage.AtMapAgain?
      && reader' == if st.At(reader.s).InMap(reader.loc.id) then Load(reader, st.At(reader.s).store.value)
                    else Miss(reader)
    case Reread(s) =>
      && reader.Missed? && reader.k in st.At(s).index
      && (reader.hint.Fixed? ==> NewestIn(st, reader.k, reader.hint.visible, s))
      && var loc := st.At(s).index[reader.k];
      && reader' == if s == reader.s && loc.SameStore(reader.loc) then Panicked
                    else Looking(reader.k, s, loc, AtMap, false, reader.hint)
    case GiveUp =>
      reader.Missed? && reader' == Idle
  }

  ghost predicate ReaderMoves(st: State, third: bool, r: nat, step: ReadStep, reader': Reader, st': State) {
    && Reads(st, third, step, if r in st.readers then st.readers[r] else Idle, reader')
    && st' == st.(readers := st.readers[r := reader'])
  }

  ghost predicate Next(third: bool, st: State, st': State) {
    || (exists s, step, x' :: Background(st, s, step, x', st'))
    || (exists r, step, reader' :: ReaderMoves(st, third, r, step, reader', st'))
  }

  const START := State(map[], 0, map[])

  // ---------- the invariant over runs ----------

  // Of the slots in sight, the newest version lies in an open slot or in the anchor.
  predicate Anchored(st: State, k: Pubkey, visible: set<Slot>, anchor: Slot) {
    forall u | u in visible && NewestIn(st, k, visible, u) :: !st.At(u).closed || u == anchor
  }

  // What is newer than the version taken came later, into a slot still open.
  predicate NewerAreOpen(st: State, k: Pubkey, visible: set<Slot>, s: Slot) {
    forall t | t in visible && s < t && k in st.At(t).index :: !st.At(t).closed
  }

  // After its one miss, a load with a fixed root takes a cached location from an open slot only.
  predicate HintInv(st: State, k: Pubkey, s: Slot, hint: Hint, cached: bool) {
    match hint
    case Unspecified => true
    case Fixed(visible, None) => s in visible && NewerAreOpen(st, k, visible, s) && Anchored(st, k, visible, s)
    case Fixed(visible, Some(failed)) =>
      && s in visible && NewerAreOpen(st, k, visible, s) && Anchored(st, k, visible, failed)
      && st.At(failed).Retired()
      && (cached ==> !st.At(s).closed)
  }

  predicate ReaderInv(st: State, reader: Reader) {
    match reader
    case Idle => true
    case Looking(k, s, loc, stage, locked, hint) =>
      && HintInv(st, k, s, hint, loc.Cached?)
      && Known(loc, st.nextId)
      && (locked ==> k in st.At(s).index && st.At(s).index[k] == loc)
      && (InReach(st.At(s), k, loc, stage) || Gone(st.At(s), loc))
    case Missed(k, s, loc, locked, hint) =>
      !locked && Known(loc, st.nextId) && Gone(st.At(s), loc) && HintInv(st, k, s, hint, false)
    case Done(_, _, _) => true
    case Panicked => false
  }

  ghost predicate Inv(st: State) {
    && (forall s :: SlotInv(st.At(s)) && Below(st.At(s), st.nextId))
    && (forall r | r in st.readers :: ReaderInv(st, st.readers[r]))
  }

  lemma SlotKept(st: State, s: Slot, step: Step, x': SlotState, st': State, t: Slot)
    requires Inv(st) && Background(st, s, step, x', st')
    ensures SlotInv(st'.At(t)) && Below(st'.At(t), st'.nextId)
  {
    if t == s {
      var x := st.At(s);
      IdsBelow(x, st.nextId, step, x');
      if Writer(x, step, x') {
        WriterKeeps(x, step, x');
      } else if Flusher(x, st.nextId, step, x') {
        FlusherKeeps(x, st.nextId, step, x');
      } else if Shrinker(x, st.nextId, step, x') {
        ShrinkerKeeps(x, st.nextId, step, x');
      } else {
        CleanerKeeps(x, step, x');
      }
    } else {
      assert st'.At(t) == st.At(t);
    }
  }

  lemma {:induction false} AnchoredKept(st: State, s: Slot, step: Step, x': SlotState, st': State, reader: Reader,
                                        anchor: Slot, u: Slot)
    requires SlotInv(st.At(s)) && SlotStep(st.At(s), st.nextId, step, x') && st'.slots == st.slots[s := x']
    requires (reader.Looking? || reader.Missed?) && reader.hint.Fixed? && Respects(st, reader, s, step)
    requires Anchored(st, reader.k, reader.hint.visible, anchor)
    requires NewestIn(st', reader.k, reader.hint.visible, u)
    ensures !st'.At(u).closed || u == anchor
  {
    var k, visible := reader.k, reader.hint.visible;
    EntryComesAndGoes(st.At(s), st.nextId, step, x', k);
    if u == s && step == WriteIndex(k) {
    } else {
      assert k in st.At(u).index;
      forall t | t in visible && u < t ensures k !in st.At(t).index {
        assert k !in st'.At(t).index;
      }
      assert NewestIn(st, k, visible, u);
    }
  }

  lemma NewerStayOpen(st: State, s: Slot, step: Step, x': SlotState, st': State, reader: Reader)
    requires SlotInv(st.At(s)) && SlotStep(st.At(s), st.nextId, step, x') && st'.slots == st.slots[s := x']
    requires (reader.Looking? || reader.Missed?) && reader.hint.Fixed? && Respects(st, reader, s, step)
    requires NewerAreOpen(st, reader.k, reader.hint.visible, reader.s)
    ensures NewerAreOpen(st', reader.k, reader.hint.visible, reader.s)
  {
    EntryComesAndGoes(st.At(s), st.nextId, step, x', reader.k);
    forall t | t in reader.hint.visible && reader.s < t && reader.k in st'.At(t).index ensures !st'.At(t).closed {
      assert t != s ==> st'.At(t) == st.At(t);
    }
  }

  lemma HintKept(st: State, s: Slot, step: Step, x': SlotState, st': State, reader: Reader, cached: bool)
    requires SlotInv(st.At(s)) && SlotStep(st.At(s), st.nextId, step, x') && st'.slots == st.slots[s := x']
    requires (reader.Looking? || reader.Missed?) && Respects(st, reader, s, step)
    requires HintInv(st, reader.k, reader.s, reader.hint, cached)
    ensures HintInv(st', reader.k, reader.s, reader.hint, cached)
  {
    if reader.hint.Fixed? {
      var visible := reader.hint.visible;
      var anchor := if reader.hint.failed.Some? then reader.hint.failed.value else reader.s;
      forall u | u in visible && NewestIn(st', reader.k, visible, u) ensures !st'.At(u).closed || u == anchor {
        AnchoredKept(st, s, step, x', st', reader, anchor, u);
      }
      EntryComesAndGoes(st.At(s), st.nextId, step, x', reader.k);
      NewerStayOpen(st, s, step, x', st', reader);
      if reader.hint.failed == Some(s) {
        GoneStaysGone(st.At(s), st.nextId, step, x', Cached);
      }
    }
  }

  lemma ReaderKept(st: State, s: Slot, step: Step, x': SlotState, st': State, r: nat)
    requires Inv(st) && Background(st, s, step, x', st') && r in st.readers
    ensures ReaderInv(st', st.readers[r])
  {
    var reader := st.readers[r];
    if reader.Looking? || reader.Missed? {
      assert ReaderInv(st, reader) && SlotInv(st.At(s));
      HintKept(st, s, step, x', st', reader, reader.Looking? && reader.loc.Cached?);
    }
    if reader.Looking? && reader.s == s {
      if Gone(st.At(s), reader.loc) {
        GoneStaysGone(st.At(s), st.nextId, step, x', reader.loc);
      } else {
        InReachOrGone(st.At(s), st.nextId, step, x', reader.k, reader.loc, reader.stage);
      }
      if reader.locked {
        assert st.Holds(r, reader.k);
        EntryKept(st.At(s), st.nextId, step, x', reader.k);
      }
    } else if reader.Missed? && reader.s == s {
      GoneStaysGone(st.At(s), st.nextId, step, x', reader.loc);
    }
  }

  // A reader depends on the slots, not on the other readers.
  lemma ReaderFrame(st: State, st': State, reader: Reader)
    requires st'.slots == st.slots && st'.nextId == st.nextId && ReaderInv(st, reader)
    ensures ReaderInv(st', reader)
  {
    assert forall t :: st'.At(t) == st.At(t);
    if (reader.Looking? || reader.Missed?) && reader.hint.Fixed? {
      forall u | u in reader.hint.visible && NewestIn(st', reader.k, reader.hint.visible, u)
        ensures NewestIn(st, reader.k, reader.hint.visible, u)
      {
      }
    }
  }

  lemma NewestIsOnly(st: State, k: Pubkey, visible: set<Slot>, s: Slot)
    requires NewestIn(st, k, visible, s)
    ensures Anchored(st, k, visible, s)
  {
  }

  lemma ReadKeeps(st: State, step: ReadStep, reader: Reader, reader': Reader)
    requires step.Read? && SlotInv(st.At(step.s)) && Below(st.At(step.s), st.nextId)
    requires Reads(st, true, step, reader, reader')
    ensures ReaderInv(st, reader')
  {
    if step.visible.Some? {
      NewestIsOnly(st, step.k, step.visible.value, step.s);
    }
  }

  lemma RereadHint(st: State, reader: Reader, s: Slot)
    requires reader.Missed? && HintInv(st, reader.k, reader.s, reader.hint, false)
    requires reader.k in st.At(s).index && IndexInv(st.At(s))
    requires reader.hint.Fixed? ==> NewestIn(st, reader.k, reader.hint.visible, s)
    ensures HintInv(st, reader.k, s, reader.hint, st.At(s).index[reader.k].Cached?)
  {
    if reader.hint.Fixed? {
      NewestIsOnly(st, reader.k, reader.hint.visible, s);
    }
  }

  lemma RereadKeeps(st: State, step: ReadStep, reader: Reader, reader': Reader)
    requires step.Reread? && SlotInv(st.At(step.s)) && Below(st.At(step.s), st.nextId)
    requires Reads(st, true, step, reader, reader') && ReaderInv(st, reader)
    ensures ReaderInv(st, reader')
  {
    RereadHint(st, reader, step.s);
  }

  lemma LookKeeps(st: State, step: ReadStep, reader: Reader, reader': Reader)
    requires !step.Read? && !step.Reread? && Reads(st, true, step, reader, reader') && ReaderInv(st, reader)
    requires reader.Looking? ==> SlotInv(st.At(reader.s))
    ensures ReaderInv(st, reader')
  {
  }

  lemma ReaderStepKeeps(st: State, r: nat, step: ReadStep, reader': Reader, st': State)
    requires Inv(st) && ReaderMoves(st, true, r, step, reader', st')
    ensures ReaderInv(st', reader')
  {
    var reader := if r in st.readers then st.readers[r] else Idle;
    assert ReaderInv(st, reader);
    if step.Read? {
      ReadKeeps(st, step, reader, reader');
    } else if step.Reread? {
      RereadKeeps(st, step, reader, reader');
    } else {
      LookKeeps(st, step, reader, reader');
    }
    ReaderFrame(st, st', reader');
  }

  lemma BackgroundKeeps(st: State, s: Slot, step: Step, x': SlotState, st': State)
    requires Inv(st) && Background(st, s, step, x', st')
    ensures Inv(st')
  {
    forall t ensures SlotInv(st'.At(t)) && Below(st'.At(t), st'.nextId) {
      SlotKept(st, s, step, x', st', t);
    }
    forall r | r in st'.readers ensures ReaderInv(st', st'.readers[r]) {
      ReaderKept(st, s, step, x', st', r);
    }
  }

  lemma ReaderMovesKeep(st: State, r: nat, step: ReadStep, reader': Reader, st': State)
    requires Inv(st) && ReaderMoves(st, true, r, step, reader', st')
    ensures Inv(st')
  {
    forall t ensures SlotInv(st'.At(t)) && Below(st'.At(t), st'.nextId) {
      assert st'.At(t) == st.At(t);
    }
    forall q | q in st'.readers ensures ReaderInv(st', st'.readers[q]) {
      if q == r {
        ReaderStepKeeps(st, r, step, reader', st');
      } else {
        ReaderFrame(st, st', st.readers[q]);
      }
    }
  }

  lemma NextKeepsInv(st: State, st': State)
    requires Inv(st) && Next(true, st, st')
    ensures Inv(st')
  {
    if s, step, x' :| Background(st, s, step, x', st') {
      BackgroundKeeps(st, s, step, x', st');
    } else {
      var r, step, reader' :| ReaderMoves(st, true, r, step, reader', st');
      ReaderMovesKeep(st, r, step, reader', st');
    }
  }

  ghost predicate IsRun(third: bool, run: seq<State>) {
    && |run| > 0 && run[0] == START
    && forall i | 0 <= i < |run| - 1 :: Next(third, run[i], run[i + 1])
  }

  lemma {:induction false} RunKeepsInv(run: seq<State>)
    requires IsRun(true, run)
    ensures Inv(run[|run| - 1])
  {
    if |run| > 1 {
      var shorter := run[..|run| - 1];
      assert forall i | 0 <= i < |shorter| - 1 :: Next(true, shorter[i], shorter[i + 1]);
      RunKeepsInv(shorter);
      NextKeepsInv(shorter[|shorter| - 1], run[|run| - 1]);
    }
  }

  // ---------- what the readers get ----------

  // Over every run: no reader hits the "Bad index entry" panic, and every index entry leads to the
  // account last written for its key and slot.
  lemma ReadersNeverPanic(run: seq<State>, r: nat)
    requires IsRun(true, run) && r in run[|run| - 1].readers
    ensures !run[|run| - 1].readers[r].Panicked?
  {
    RunKeepsInv(run);
  }

  lemma EveryEntryResolves(run: seq<State>, k: Pubkey, s: Slot)
    requires IsRun(true, run) && k in run[|run| - 1].At(s).index
    ensures Resolves(run[|run| - 1].At(s), k, run[|run| - 1].At(s).index[k])
    ensures var x := run[|run| - 1].At(s); x.index[k].Cached? ==> k in x.written && x.cache.value[k] == x.written[k]
  {
    RunKeepsInv(run);
    assert SlotInv(run[|run| - 1].At(s));
  }

  // A load that succeeds gives the account last written for the key in the slot it chose.
  lemma LoadsAreWritten(run: seq<State>, st': State, r: nat, step: ReadStep, reader': Reader)
    requires IsRun(true, run) && ReaderMoves(run[|run| - 1], true, r, step, reader', st')
    requires reader'.Done?
    ensures reader'.k in st'.At(reader'.s).written
    ensures reader'.account == st'.At(reader'.s).written[reader'.k]
  {
    RunKeepsInv(run);
    var st := run[|run| - 1];
    assert ReaderInv(st, st.readers[r]);
    assert SlotInv(st.At(reader'.s));
  }

  // A load with a fixed root takes the newest version it sees; when it is done, newer ones can only have come
  // into the slot still open.
  lemma FixedLoadsTakeNewest(run: seq<State>, st': State, r: nat, step: ReadStep, reader': Reader, visible: set<Slot>)
    requires IsRun(true, run) && ReaderMoves(run[|run| - 1], true, r, step, reader', st')
    ensures step.Read? && step.visible == Some(visible) ==>
              && reader'.Looking? && reader'.s in visible
              && forall t | t in visible && reader'.k in st'.At(t).index :: t <= reader'.s
    ensures step.Reread? && reader'.Looking? && reader'.hint.Fixed? && reader'.hint.visible == visible ==>
              && reader'.s in visible
              && forall t | t in visible && reader'.k in st'.At(t).index :: t <= reader'.s
    ensures reader'.Done? && r in run[|run| - 1].readers && run[|run| - 1].readers[r].Sees(reader'.s)
            && run[|run| - 1].readers[r].hint.visible == visible ==>
              forall t | t in visible && reader'.k in st'.At(t).index :: t <= reader'.s || !st'.At(t).closed
  {
    RunKeepsInv(run);
    var st := run[|run| - 1];
    if r in st.readers { assert ReaderInv(st, st.readers[r]); }
  }

  // A reader that holds the index entry finds its account in the first round of lookups.
  lemma LockedReadersNeverMiss(run: seq<State>, r: nat)
    requires IsRun(true, run) && r in run[|run| - 1].readers
    ensures var reader := run[|run| - 1].readers[r]; reader.Missed? ==> !reader.locked
  {
    RunKeepsInv(run);
  }

  // A reader that missed finds a newer location, or none, in the index.
  lemma MissMeansMoved(run: seq<State>, r: nat)
    requires IsRun(true, run) && r in run[|run| - 1].readers && run[|run| - 1].readers[r].Missed?
    ensures var st := run[|run| - 1]; var reader := st.readers[r];
            var index := st.At(reader.s).index;
            reader.k in index ==> !index[reader.k].SameStore(reader.loc)
  {
    RunKeepsInv(run);
    var st := run[|run| - 1];
    assert SlotInv(st.At(st.readers[r].s));
  }

  lemma EntriesAreCounted(x: SlotState)
    requires SlotInv(x) && x.job.Cleaning?
    ensures x.index.Keys <= x.store.value.alive
  {
    forall k | k in x.index ensures k in x.store.value.alive {
      assert Resolves(x, k, x.index[k]) && Counted(x, k, x.index[k]);
    }
  }

  // The assertions about the slot at hand: a flush and a shrink insert where nothing is, a finished
  // shrink replaces the store it started from and removes an entry that is there, an account dropped
  // from a cached slot has its index entry and no store, the cache entry of a slot is removed once and
  // after a flush has left a store, and the alive counter is decremented only for an account it counts.
  lemma AssertionsHold(run: seq<State>, s: Slot, step: Step, x': SlotState)
    requires IsRun(true, run)
    requires SlotStep(run[|run| - 1].At(s), run[|run| - 1].nextId, step, x')
    ensures var x := run[|run| - 1].At(s);
            && (step.FlushStore? ==> x.store.None?)
            && (step.FlushDrop? ==> step.k in x.index && x.store.None? && x.shrink.None?)
            && (step.FlushEnd? ==> x.cache.Some? && (x.job.Flushing? ==> x.store.Some?))
            && (step.ShrinkStore? ==> x.shrink.None?)
            && (step.ShrinkSwap? ==> x.store.Some? && x.store.value.id == x.job.oldId && x.shrink.Some?)
            && (step.ShrinkEnd? ==> x.shrink.Some? && x.store == x.shrink)
            && (step.CleanCount? ==> x.store.Some? && step.k in x.store.value.alive)
            && (step.CleanEnd? ==> (x'.store.None? <==> x.index == map[]))
  {
    RunKeepsInv(run);
    var x := run[|run| - 1].At(s);
    assert SlotInv(x);
    if step.CleanEnd? {
      EntriesAreCounted(x);
    }
  }

  // ---------- one background service ----------

  // The service runs its jobs one after another: a shrink starts when nothing else is under way, and
  // nothing else starts during a shrink. A flush may reclaim, and a clean may work on many slots.
  ghost predicate Scheduled(st: State, s: Slot, x': SlotState) {
    forall u | u != s ::
      && (!st.At(s).job.Shrinks() && x'.job.Shrinks() ==> !st.At(u).job.Busy())
      && (!st.At(s).job.Busy() && x'.job.Busy() ==> !st.At(u).job.Shrinks())
  }

  ghost predicate SerialNext(st: State, st': State) {
    || (exists s, step, x' :: Background(st, s, step, x', st') && Scheduled(st, s, x'))
    || (exists r, step, reader' :: ReaderMoves(st, true, r, step, reader', st'))
  }

  ghost predicate IsSerialRun(run: seq<State>) {
    && |run| > 0 && run[0] == START
    && forall i | 0 <= i < |run| - 1 :: SerialNext(run[i], run[i + 1])
  }

  ghost predicate Serial(st: State) {
    forall s, u | s != u && st.At(s).job.Shrinks() :: !st.At(u).job.Busy()
  }

  lemma SerialNextKeeps(st: State, st': State)
    requires Serial(st) && SerialNext(st, st')
    ensures Serial(st') && Next(true, st, st')
  {
    if s, step, x' :| Background(st, s, step, x', st') && Scheduled(st, s, x') {
      forall t, u | t != u && st'.At(t).job.Shrinks() ensures !st'.At(u).job.Busy() {
        assert st'.At(t) == if t == s then x' else st.At(t);
        assert st'.At(u) == if u == s then x' else st.At(u);
        assert st.At(t).job.Shrinks() ==> !st.At(u).job.Busy();
      }
    } else {
      var r, step, reader' :| ReaderMoves(st, true, r, step, reader', st');
      assert forall t :: st'.At(t) == st.At(t);
    }
  }

  lemma {:induction false} SerialRunIsRun(run: seq<State>)
    requires IsSerialRun(run)
    ensures IsRun(true, run) && Serial(run[|run| - 1])
  {
    if |run| > 1 {
      var shorter := run[..|run| - 1];
      assert forall i | 0 <= i < |shorter| - 1 :: SerialNext(shorter[i], shorter[i + 1]);
      SerialRunIsRun(shorter);
      SerialNextKeeps(shorter[|shorter| - 1], run[|run| - 1]);
      forall i | 0 <= i < |run| - 1 ensures Next(true, run[i], run[i + 1]) {
        if i < |run| - 2 { assert Next(true, shorter[i], shorter[i + 1]); }
      }
    }
  }

  // No store of any slot is being shrunk when a flush inserts its store or looks for it, or when
  // accounts are counted down or a dead store is removed.
  lemma NoShrinkInProgress(run: seq<State>, s: Slot, step: Step, x': SlotState, u: Slot)
    requires IsSerialRun(run)
    requires SlotStep(run[|run| - 1].At(s), run[|run| - 1].nextId, step, x')
    requires step.FlushStore? || (step.FlushEnd? && run[|run| - 1].At(s).job.Flushing?) || step.CleanCount?
             || step.CleanEnd?
    ensures run[|run| - 1].At(u).shrink.None?
  {
    SerialRunIsRun(run);
    RunKeepsInv(run);
    assert SlotInv(run[|run| - 1].At(s)) && SlotInv(run[|run| - 1].At(u));
  }
}
