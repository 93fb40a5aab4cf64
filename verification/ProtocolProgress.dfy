/**
 The protocol does not get stuck: every flush, removal of a cached slot, shrink and clean of a slot can run
 to its end, where it leaves what it is for, and a load nobody disturbs succeeds.
 */
module ProtocolProgress {
  import opened Types
  import opened ReadProtocol

  // Steps on one slot, each with the state it leads to.
  datatype Trace = End | Then(step: Step, x: SlotState, rest: Trace)

  function IdAfter(id: StoreId, step: Step): StoreId {
    if step.Creates() then id + 1 else id
  }

  ghost predicate Leads(x: SlotState, id: StoreId, trace: Trace, x': SlotState, id': StoreId)
    decreases trace
  {
    match trace
    case End => x' == x && id' == id
    case Then(step, y, rest) => SlotStep(x, id, step, y) && Leads(y, IdAfter(id, step), rest, x', id')
  }

  ghost predicate Sound(x: SlotState, id: StoreId) {
    SlotInv(x) && Below(x, id)
  }

  lemma StepIsSound(x: SlotState, id: StoreId, step: Step, x': SlotState)
    requires Sound(x, id) && SlotStep(x, id, step, x')
    ensures Sound(x', IdAfter(id, step))
  {
    IdsBelow(x, id, step, x');
    if Writer(x, step, x') {
      WriterKeeps(x, step, x');
    } else if Flusher(x, id, step, x') {
      FlusherKeeps(x, id, step, x');
    } else if Shrinker(x, id, step, x') {
      ShrinkerKeeps(x, id, step, x');
    } else {
      CleanerKeeps(x, step, x');
    }
  }

  lemma LeadsFirst(x: SlotState, id: StoreId, step: Step, y: SlotState, rest: Trace, x': SlotState, id': StoreId)
    requires SlotStep(x, id, step, y) && Leads(y, IdAfter(id, step), rest, x', id')
    ensures Leads(x, id, Then(step, y, rest), x', id')
  {
  }

  lemma {:induction false} LeadsOn(x: SlotState, id: StoreId, a: Trace, y: SlotState, id1: StoreId, b: Trace,
                                   z: SlotState, id2: StoreId)
    returns (trace: Trace)
    requires Leads(x, id, a, y, id1) && Leads(y, id1, b, z, id2)
    ensures Leads(x, id, trace, z, id2)
    decreases a
  {
    match a
    case End => trace := b;
    case Then(step, w, rest) =>
      var joined := LeadsOn(w, IdAfter(id, step), rest, y, id1, b, z, id2);
      trace := Then(step, w, joined);
  }

  // The accounts last written for the keys, each at its own offset.
  ghost function PlaceOf(keys: set<Pubkey>): map<Pubkey, Offset> {
    map k | k in keys :: k
  }

  ghost function StoreOf(x: SlotState, id: StoreId, keys: set<Pubkey>): Store
    requires keys <= x.written.Keys
  {
    Store(id, map k | k in keys :: x.written[k], keys)
  }

  // The index entry leads to the account last written.
  ghost predicate Leading(x: SlotState, k: Pubkey) {
    && k in x.index && x.index[k].Stored? && x.InMap(x.index[k].id) && x.index[k].offset in x.store.value.accounts
    && k in x.written && x.store.value.accounts[x.index[k].offset] == x.written[k]
  }

  // ---------- steps among readers ----------

  ghost predicate InUse(st: State, k: Pubkey) {
    exists r :: r in st.readers && st.readers[r].Looking? && st.readers[r].locked && st.readers[r].k == k
  }

  ghost predicate Writes(step: Step, k: Pubkey) {
    && (step.WriteIndex? || step.FlushDrop? || step.FlushIndex? || step.ShrinkIndex? || step.ShrinkDrop?
        || step.CleanIndex?)
    && step.k == k
  }

  // The step closes a slot that a load with a fixed root sees, or takes the version it would take from it while
  // it sees another.
  ghost predicate Disturbs(st: State, reader: Reader, s: Slot, step: Step) {
    && (reader.Looking? || reader.Missed?) && reader.hint.Fixed? && s in reader.hint.visible
    && (|| step.Close?
        || (&& (step.FlushDrop? || step.ShrinkDrop? || step.CleanIndex?) && step.k == reader.k
            && reader.k in st.At(s).index
            && (forall t | t in reader.hint.visible && reader.k in st.At(t).index :: t <= s)
            && exists t :: t in reader.hint.visible && t != s && reader.k in st.At(t).index))
  }

  // A step of a slot can be taken whatever the readers are doing, unless it writes an index entry in use or
  // disturbs a load with a fixed root.
  lemma StepCanHappen(st: State, s: Slot, step: Step, x': SlotState) returns (st': State)
    requires SlotStep(st.At(s), st.nextId, step, x')
    requires forall k | InUse(st, k) :: !Writes(step, k)
    requires forall r | r in st.readers :: !Disturbs(st, st.readers[r], s, step)
    ensures Background(st, s, step, x', st') && st'.At(s) == x' && st'.readers == st.readers
    ensures forall t | t != s :: st'.At(t) == st.At(t)
  {
    st' := st.(slots := st.slots[s := x'], nextId := IdAfter(st.nextId, step));
    forall k | step.WritesIndex(k) ensures !st.Locked(k) {
      forall r ensures !st.Holds(r, k) {
        assert !InUse(st, k);
      }
    }
  }

  // With one background service, a step that starts no job is free; a shrink starts if only cached slots are being
  // removed, and another job if nothing is being shrunk.
  lemma ServiceCanGoOn(st: State, s: Slot, step: Step, x': SlotState, st': State)
    requires Background(st, s, step, x', st')
    requires step.ShrinkStore? ==>
               forall u | u != s :: st.At(u).job.NoJob? || (st.At(u).job.FlushOpen? && st.At(u).job.purge)
    requires step == FlushBegin(false) || step.CleanIndex? ==>
               forall u | u != s :: !st.At(u).job.Shrinking? && !st.At(u).job.Swapped?
    ensures SerialNext(st, st')
  {
    assert Scheduled(st, s, x');
  }

  // ---------- writes ----------

  // Any account can be written to a slot still open, and then found through the index.
  lemma WriteCanFinish(x: SlotState, id: StoreId, k: Pubkey, account: Account) returns (trace: Trace, x': SlotState)
    requires Sound(x, id) && !x.closed
    ensures Leads(x, id, trace, x', id)
    ensures k in x'.index && x'.index[k].Cached? && x'.CachedAt(k) && x'.cache.value[k] == account
    ensures x'.writes == x.writes - {k}
  {
    var cache := (if x.cache.Some? then x.cache.value else map[])[k := account];
    var y := x.(cache := Some(cache), writes := x.writes + {k}, written := x.written[k := account]);
    assert Writer(x, WriteCache(k, account), y);
    x' := y.(index := y.index[k := Cached], writes := y.writes - {k});
    assert Writer(y, WriteIndex(k), x');
    LeadsFirst(y, id, WriteIndex(k), x', End, x', id);
    trace := Then(WriteCache(k, account), y, Then(WriteIndex(k), x', End));
  }

  // Once every write is in the index the slot can be closed.
  lemma CloseCanHappen(x: SlotState, id: StoreId) returns (x': SlotState)
    requires x.writes == {}
    ensures SlotStep(x, id, Close, x') && x' == x.(closed := true)
  {
    x' := x.(closed := true);
  }

  // ---------- flush ----------

  lemma {:induction false} IndexesAll(x: SlotState, id: StoreId) returns (trace: Trace, x': SlotState)
    requires Sound(x, id) && x.job.Flushing?
    ensures Leads(x, id, trace, x', id) && Sound(x', id)
    ensures x' == x.(index := x'.index, job := Flushing(map[])) && x'.index.Keys == x.index.Keys
    decreases x.job.place.Keys
  {
    if x.job.place == map[] {
      trace, x' := End, x;
    } else {
      var k :| k in x.job.place;
      var y := x.(index := x.index[k := Stored(x.store.value.id, x.job.place[k])], job := Flushing(x.job.place - {k}));
      assert Flusher(x, id, FlushIndex(k), y);
      StepIsSound(x, id, FlushIndex(k), y);
      var rest;
      rest, x' := IndexesAll(y, id);
      trace := Then(FlushIndex(k), y, rest);
    }
  }

  lemma WritesStore(x: SlotState, id: StoreId) returns (x': SlotState)
    requires Sound(x, id) && x.job.FlushOpen? && !x.job.purge && x.job.keep != {}
    ensures SlotStep(x, id, FlushStore(StoreOf(x, id, x.job.keep), PlaceOf(x.job.keep)), x')
    ensures x' == x.(store := Some(StoreOf(x, id, x.job.keep)), job := Flushing(PlaceOf(x.job.keep)))
    ensures Sound(x', id + 1)
  {
    var keep := x.job.keep;
    assert keep <= x.written.Keys;
    x' := x.(store := Some(StoreOf(x, id, keep)), job := Flushing(PlaceOf(keep)));
    assert PlaceOf(keep).Keys == keep;
    assert FreshCopy(x, id, StoreOf(x, id, keep), PlaceOf(keep));
    StepIsSound(x, id, FlushStore(StoreOf(x, id, keep), PlaceOf(keep)), x');
  }

  lemma FlushedLeads(x: SlotState, id: StoreId, k: Pubkey)
    requires Sound(x, id) && x.job == Flushing(map[]) && k in x.index
    ensures Leading(x, k)
  {
    assert Resolves(x, k, x.index[k]);
  }

  lemma FlushEnds(x: SlotState, id: StoreId) returns (trace: Trace, x': SlotState)
    requires Sound(x, id) && x.job.Flushing?
    ensures Leads(x, id, trace, x', id)
    ensures x'.cache.None? && x'.job.NoJob? && x'.written == x.written && x'.index.Keys == x.index.Keys
    ensures forall k | k in x'.index :: Leading(x', k)
  {
    var indexing, indexed := IndexesAll(x, id);
    x' := indexed.(cache := None, job := NoJob);
    assert Flusher(indexed, id, FlushEnd, x');
    forall k | k in x'.index ensures Leading(x', k) {
      FlushedLeads(indexed, id, k);
    }
    LeadsFirst(indexed, id, FlushEnd, x', End, x', id);
    trace := LeadsOn(x, id, indexing, indexed, id, Then(FlushEnd, x', End), x', id);
  }

  lemma {:induction false} DropsThese(x: SlotState, id: StoreId, drop: set<Pubkey>)
    returns (trace: Trace, x': SlotState)
    requires Sound(x, id) && x.job.FlushOpen? && drop <= x.job.keep
    ensures Leads(x, id, trace, x', id) && Sound(x', id)
    ensures x' == x.(index := x.index - drop, job := x.job.(keep := x.job.keep - drop))
    decreases drop
  {
    if drop == {} {
      assert x.index - drop == x.index && x.job.keep - drop == x.job.keep;
      trace, x' := End, x;
    } else {
      var k :| k in drop;
      var y := x.(index := x.index - {k}, job := x.job.(keep := x.job.keep - {k}));
      assert Flusher(x, id, FlushDrop(k), y);
      StepIsSound(x, id, FlushDrop(k), y);
      var rest;
      rest, x' := DropsThese(y, id, drop - {k});
      assert (x.index - {k}) - (drop - {k}) == x.index - drop;
      assert (x.job.keep - {k}) - (drop - {k}) == x.job.keep - drop;
      trace := Then(FlushDrop(k), y, rest);
    }
  }

  lemma OpenLeads(x: SlotState, id: StoreId, purge: bool, drop: set<Pubkey>) returns (trace: Trace, x': SlotState)
    requires Sound(x, id) && x.job.NoJob? && x.cache.Some? && x.closed && drop <= x.cache.value.Keys
    ensures Leads(x, id, trace, x', id) && Sound(x', id)
    ensures x' == x.(index := x.index - drop, job := FlushOpen(x.cache.value.Keys - drop, purge))
  {
    var open := x.(job := FlushOpen(x.cache.value.Keys, purge));
    assert Flusher(x, id, FlushBegin(purge), open);
    StepIsSound(x, id, FlushBegin(purge), open);
    var dropping;
    dropping, x' := DropsThese(open, id, drop);
    trace := Then(FlushBegin(purge), open, dropping);
  }

  lemma StoreLeads(x: SlotState, id: StoreId) returns (trace: Trace, x': SlotState)
    requires Sound(x, id) && x.job.FlushOpen? && !x.job.purge && x.job.keep != {}
    ensures Leads(x, id, trace, x', id + 1)
    ensures x'.cache.None? && x'.job.NoJob? && x'.written == x.written && x'.index.Keys == x.index.Keys
    ensures forall k | k in x'.index :: Leading(x', k)
  {
    var stored := WritesStore(x, id);
    var rest;
    rest, x' := FlushEnds(stored, id + 1);
    var store := FlushStore(StoreOf(x, id, x.job.keep), PlaceOf(x.job.keep));
    LeadsFirst(x, id, store, stored, rest, x', id + 1);
    trace := Then(store, stored, rest);
  }

  lemma CacheIsWritten(x: SlotState, id: StoreId)
    requires Sound(x, id) && x.job.NoJob? && x.cache.Some? && x.closed
    ensures x.index.Keys == x.cache.value.Keys
    ensures forall k | k in x.cache.value :: k in x.written && x.written[k] == x.cache.value[k]
  {
  }

  // A flush of a closed cached slot that drops some of its accounts can end, with the others in a store that the
  // index points to.
  lemma FlushCanFinish(x: SlotState, id: StoreId, drop: set<Pubkey>) returns (trace: Trace, x': SlotState)
    requires Sound(x, id) && x.job.NoJob? && x.cache.Some? && x.closed && drop < x.cache.value.Keys
    ensures Leads(x, id, trace, x', id + 1)
    ensures x'.cache.None? && x'.job.NoJob? && x'.written == x.written
    ensures x'.index.Keys == x.cache.value.Keys - drop
    ensures forall k | k in x'.index :: Leading(x', k) && x'.written[k] == x.cache.value[k]
  {
    CacheIsWritten(x, id);
    var opening, open := OpenLeads(x, id, false, drop);
    assert open.job.keep != {};
    var storing;
    storing, x' := StoreLeads(open, id);
    trace := LeadsOn(x, id, opening, open, id, storing, x', id + 1);
  }

  // The removal of a closed cached slot, or a flush that drops everything, can end, with nothing of it left.
  lemma RemovalCanFinish(x: SlotState, id: StoreId, purge: bool) returns (trace: Trace, x': SlotState)
    requires Sound(x, id) && x.job.NoJob? && x.cache.Some? && x.closed
    ensures Leads(x, id, trace, x', id)
    ensures x'.cache.None? && x'.job.NoJob? && x'.index == map[] && x'.store.None?
  {
    CacheIsWritten(x, id);
    var opening, open := OpenLeads(x, id, purge, x.cache.value.Keys);
    assert open.job.keep == {} && open.index == map[];
    x' := open.(cache := None, job := NoJob);
    assert Flusher(open, id, FlushEnd, x');
    LeadsFirst(open, id, FlushEnd, x', End, x', id);
    trace := LeadsOn(x, id, opening, open, id, Then(FlushEnd, x', End), x', id);
  }

  // ---------- shrink ----------

  lemma {:induction false} ReindexesAll(x: SlotState, id: StoreId) returns (trace: Trace, x': SlotState)
    requires Sound(x, id) && x.job.Shrinking?
    ensures Leads(x, id, trace, x', id) && Sound(x', id)
    ensures x' == x.(index := x'.index, job := x.job.(place := map[])) && x'.index.Keys == x.index.Keys
    decreases x.job.place.Keys
  {
    if x.job.place == map[] {
      trace, x' := End, x;
    } else {
      var k :| k in x.job.place;
      var y := x.(index := x.index[k := Stored(x.shrink.value.id, x.job.place[k])],
                  job := x.job.(place := x.job.place - {k}));
      assert Shrinker(x, id, ShrinkIndex(k), y);
      StepIsSound(x, id, ShrinkIndex(k), y);
      var rest;
      rest, x' := ReindexesAll(y, id);
      trace := Then(ShrinkIndex(k), y, rest);
    }
  }

  lemma {:induction false} ShrinkDropsAll(x: SlotState, id: StoreId) returns (trace: Trace, x': SlotState)
    requires Sound(x, id) && x.job.Shrinking?
    ensures Leads(x, id, trace, x', id) && Sound(x', id)
    ensures x' == x.(index := x.index - x.job.drop, job := x.job.(drop := {}))
    decreases x.job.drop
  {
    if x.job.drop == {} {
      assert x.index - x.job.drop == x.index;
      trace, x' := End, x;
    } else {
      var k :| k in x.job.drop;
      var y := x.(index := x.index - {k}, job := x.job.(drop := x.job.drop - {k}));
      assert Shrinker(x, id, ShrinkDrop(k), y);
      StepIsSound(x, id, ShrinkDrop(k), y);
      var rest;
      rest, x' := ShrinkDropsAll(y, id);
      assert (x.index - {k}) - (x.job.drop - {k}) == x.index - x.job.drop;
      trace := Then(ShrinkDrop(k), y, rest);
    }
  }

  lemma RewritesStore(x: SlotState, id: StoreId, drop: set<Pubkey>) returns (x': SlotState)
    requires Sound(x, id) && x.job.NoJob? && x.store.Some? && x.cache.None? && x.index.Keys <= x.written.Keys
    ensures var keep := x.index.Keys - drop;
            SlotStep(x, id, ShrinkStore(StoreOf(x, id, keep), PlaceOf(keep), drop), x')
    ensures Sound(x', id + 1) && x'.job.Shrinking? && x'.job.drop == drop && x'.index == x.index
    ensures x'.written == x.written
  {
    var keep := x.index.Keys - drop;
    x' := x.(shrink := Some(StoreOf(x, id, keep)), job := Shrinking(x.store.value.id, PlaceOf(keep), drop));
    assert PlaceOf(keep).Keys == keep;
    assert FreshCopy(x, id, StoreOf(x, id, keep), PlaceOf(keep));
    StepIsSound(x, id, ShrinkStore(StoreOf(x, id, keep), PlaceOf(keep), drop), x');
  }

  lemma IndexIsWritten(x: SlotState, id: StoreId)
    requires Sound(x, id) && x.job.NoJob? && x.cache.None?
    ensures x.index.Keys <= x.written.Keys
  {
    forall k | k in x.index ensures k in x.written {
      assert Resolves(x, k, x.index[k]);
    }
  }

  lemma ShrinkEnds(x: SlotState, id: StoreId) returns (trace: Trace, x': SlotState)
    requires Sound(x, id) && x.job.Shrinking? && x.job.place == map[] && x.job.drop == {}
    ensures Leads(x, id, trace, x', id) && Sound(x', id)
    ensures x'.job.NoJob? && x'.shrink.None? && x'.cache.None? && x'.written == x.written && x'.index == x.index
  {
    var swapped := x.(store := x.shrink, job := Swapped);
    assert Shrinker(x, id, ShrinkSwap, swapped);
    StepIsSound(x, id, ShrinkSwap, swapped);
    x' := swapped.(shrink := None, job := NoJob);
    assert Shrinker(swapped, id, ShrinkEnd, x');
    StepIsSound(swapped, id, ShrinkEnd, x');
    LeadsFirst(swapped, id, ShrinkEnd, x', End, x', id);
    LeadsFirst(x, id, ShrinkSwap, swapped, Then(ShrinkEnd, x', End), x', id);
    trace := Then(ShrinkSwap, swapped, Then(ShrinkEnd, x', End));
  }

  lemma ShrinkRuns(x: SlotState, id: StoreId) returns (trace: Trace, x': SlotState)
    requires Sound(x, id) && x.job.Shrinking?
    ensures Leads(x, id, trace, x', id) && Sound(x', id)
    ensures x'.job.NoJob? && x'.shrink.None? && x'.cache.None? && x'.written == x.written
    ensures x'.index.Keys == x.index.Keys - x.job.drop
  {
    var indexing, indexed := ReindexesAll(x, id);
    var dropping, dropped := ShrinkDropsAll(indexed, id);
    var ending;
    ending, x' := ShrinkEnds(dropped, id);
    trace := LeadsOn(indexed, id, dropping, dropped, id, ending, x', id);
    trace := LeadsOn(x, id, indexing, indexed, id, trace, x', id);
  }

  lemma StoredLeads(x: SlotState, id: StoreId, k: Pubkey)
    requires Sound(x, id) && x.cache.None? && x.shrink.None? && k in x.index
    ensures Leading(x, k)
  {
    assert Resolves(x, k, x.index[k]);
  }

  // A shrink can end, with all entries but the dropped ones pointing into the new store.
  lemma ShrinkCanFinish(x: SlotState, id: StoreId, drop: set<Pubkey>) returns (trace: Trace, x': SlotState)
    requires Sound(x, id) && x.job.NoJob? && x.store.Some? && x.cache.None?
    ensures Leads(x, id, trace, x', id + 1)
    ensures x'.job.NoJob? && x'.shrink.None? && x'.written == x.written
    ensures x'.index.Keys == x.index.Keys - drop && forall k | k in x'.index :: Leading(x', k)
  {
    IndexIsWritten(x, id);
    var begun := RewritesStore(x, id, drop);
    var rest;
    rest, x' := ShrinkRuns(begun, id + 1);
    forall k | k in x'.index ensures Leading(x', k) {
      StoredLeads(x', id + 1, k);
    }
    var keep := x.index.Keys - drop;
    var store := ShrinkStore(StoreOf(x, id, keep), PlaceOf(keep), drop);
    LeadsFirst(x, id, store, begun, rest, x', id + 1);
    trace := Then(store, begun, rest);
  }

  // ---------- clean ----------

  lemma CountsDown(x: SlotState, id: StoreId, k: Pubkey) returns (x': SlotState)
    requires Sound(x, id) && x.job == Cleaning({k})
    ensures SlotStep(x, id, CleanCount(k), x') && Sound(x', id)
    ensures x'.job == Cleaning({}) && x'.index == x.index && x'.store.Some? && x'.store.value.alive == x.index.Keys
  {
    x' := x.(store := Some(x.store.value.(alive := x.store.value.alive - {k})), job := Cleaning({}));
    assert {k} - {k} == {};
    assert Cleaner(x, CleanCount(k), x');
    StepIsSound(x, id, CleanCount(k), x');
    EntriesAreCounted(x');
  }

  // An entry can be cleaned; the store goes with the last one.
  lemma CleanCanFinish(x: SlotState, id: StoreId, k: Pubkey) returns (trace: Trace, x': SlotState)
    requires Sound(x, id) && x.job.NoJob? && x.store.Some? && x.cache.None? && k in x.index
    ensures Leads(x, id, trace, x', id)
    ensures x'.job.NoJob? && x'.index == x.index - {k} && (x'.store.None? <==> x'.index == map[])
  {
    var taken := x.(index := x.index - {k}, job := Cleaning({k}));
    assert {} + {k} == {k};
    assert Cleaner(x, CleanIndex(k), taken);
    StepIsSound(x, id, CleanIndex(k), taken);
    var counted := CountsDown(taken, id, k);
    x' := counted.(store := if |counted.store.value.alive| == 0 then None else counted.store, job := NoJob);
    assert Cleaner(counted, CleanEnd, x');
    assert x'.index.Keys == {} <==> x'.index == map[];
    LeadsFirst(counted, id, CleanEnd, x', End, x', id);
    LeadsFirst(taken, id, CleanCount(k), counted, Then(CleanEnd, x', End), x', id);
    trace := Then(CleanIndex(k), taken, Then(CleanCount(k), counted, Then(CleanEnd, x', End)));
    LeadsFirst(x, id, CleanIndex(k), taken, trace.rest, x', id);
  }

  // ---------- readers ----------

  ghost predicate ReadsOn(st: State, a: Reader, b: Reader) {
    exists step :: Reads(st, true, step, a, b)
  }

  // A reader goes through these states while nobody else moves.
  ghost predicate Walk(st: State, steps: seq<Reader>) {
    steps != [] && forall i | 0 < i < |steps| :: ReadsOn(st, steps[i - 1], steps[i])
  }

  lemma WalkOn(st: State, a: seq<Reader>, b: seq<Reader>) returns (steps: seq<Reader>)
    requires Walk(st, a) && Walk(st, b) && ReadsOn(st, a[|a| - 1], b[0])
    ensures Walk(st, steps) && steps[0] == a[0] && steps[|steps| - 1] == b[|b| - 1]
  {
    steps := a + b;
    forall i | 0 < i < |steps| ensures ReadsOn(st, steps[i - 1], steps[i]) {
      if i > |a| {
        assert ReadsOn(st, b[i - |a| - 1], b[i - |a|]);
      }
    }
  }

  lemma WalkThrough(st: State, a: seq<Reader>, b: seq<Reader>) returns (steps: seq<Reader>)
    requires Walk(st, a) && Walk(st, b) && a[|a| - 1] == b[0]
    ensures Walk(st, steps) && steps[0] == a[0] && steps[|steps| - 1] == b[|b| - 1]
  {
    steps := a + b[1..];
    forall i | 0 < i < |steps| ensures ReadsOn(st, steps[i - 1], steps[i]) {
      if i >= |a| {
        assert ReadsOn(st, b[i - |a|], b[i - |a| + 1]);
      }
    }
  }

  // A reader whose location is the index entry finds the account last written, whatever the slot is going through.
  lemma FreshLookFinds(st: State, looking: Reader) returns (steps: seq<Reader>)
    requires looking.Looking? && looking.stage.AtMap? && SlotInv(st.At(looking.s))
    requires looking.k in st.At(looking.s).index && looking.loc == st.At(looking.s).index[looking.k]
    ensures Walk(st, steps) && steps[0] == looking && looking.k in st.At(looking.s).written
    ensures steps[|steps| - 1] == Done(looking.k, looking.s, st.At(looking.s).written[looking.k])
  {
    var x := st.At(looking.s);
    assert Resolves(x, looking.k, looking.loc);
    var done := Done(looking.k, looking.s, x.written[looking.k]);
    if looking.loc.Cached? {
      assert Reads(st, true, LoadCached, looking, done);
      steps := [looking, done];
    } else if x.InMap(looking.loc.id) {
      assert Reads(st, true, LookInMap, looking, done);
      steps := [looking, done];
    } else {
      var next := looking.(stage := AtShrinkMap);
      assert Reads(st, true, LookInMap, looking, next);
      assert Reads(st, true, LookInShrinkMap, next, done);
      steps := [looking, next, done];
    }
  }

  // A load that nobody disturbs succeeds.
  lemma UndisturbedLoadSucceeds(st: State, k: Pubkey, s: Slot, locked: bool) returns (steps: seq<Reader>)
    requires SlotInv(st.At(s)) && k in st.At(s).index
    ensures Walk(st, steps) && steps[0] == Idle
    ensures k in st.At(s).written && steps[|steps| - 1] == Done(k, s, st.At(s).written[k])
  {
    var looking := Looking(k, s, st.At(s).index[k], AtMap, locked, Unspecified);
    assert Reads(st, true, Read(k, s, locked, None), Idle, looking);
    var rest := FreshLookFinds(st, looking);
    steps := WalkOn(st, [Idle], rest);
  }

  // The same load, of the same slots.
  ghost predicate SameLoad(a: Reader, b: Reader)
    requires a.Looking? || a.Missed?
  {
    && (b.Looking? || b.Missed?) && b.k == a.k && (b.hint.Fixed? <==> a.hint.Fixed?)
    && (a.hint.Fixed? ==> b.hint.visible == a.hint.visible)
  }

  function LooksLeft(reader: Reader): nat {
    match reader
    case Looking(_, _, _, AtMap, _, _) => 3
    case Looking(_, _, _, AtShrinkMap, _, _) => 2
    case Looking(_, _, _, AtMapAgain, _, _) => 1
    case _ => 0
  }

  lemma LookGoesOn(st: State, looking: Reader) returns (step: ReadStep, next: Reader)
    requires looking.Looking? && SlotInv(st.At(looking.s)) && ReaderInv(st, looking)
    ensures Reads(st, true, step, looking, next) && ReaderInv(st, next) && LooksLeft(next) < LooksLeft(looking)
    ensures next.Done? || (SameLoad(looking, next) && (next.Looking? ==> next.s == looking.s))
  {
    var x := st.At(looking.s);
    if looking.loc.Cached? {
      step := LoadCached;
      next := if x.CachedAt(looking.k) then Done(looking.k, looking.s, x.cache.value[looking.k])
              else MissCached(looking);
    } else {
      match looking.stage {
        case AtMap =>
          step := LookInMap;
          next := if x.InMap(looking.loc.id) then Load(looking, x.store.value) else looking.(stage := AtShrinkMap);
        case AtShrinkMap =>
          step := LookInShrinkMap;
          next := if x.InShrinkMap(looking.loc.id) then Load(looking, x.shrink.value)
                  else looking.(stage := AtMapAgain);
        case AtMapAgain =>
          step := LookInMapAgain;
          next := if x.InMap(looking.loc.id) then Load(looking, x.store.value) else Miss(looking);
      }
    }
    LookKeeps(st, step, looking, next);
  }

  // A lookup in any stage ends with the account or a miss.
  lemma {:induction false} LookEnds(st: State, looking: Reader) returns (steps: seq<Reader>)
    requires looking.Looking? && SlotInv(st.At(looking.s)) && ReaderInv(st, looking)
    ensures Walk(st, steps) && steps[0] == looking && ReaderInv(st, steps[|steps| - 1])
    ensures steps[|steps| - 1].Done? || (steps[|steps| - 1].Missed? && SameLoad(looking, steps[|steps| - 1]))
    decreases LooksLeft(looking)
  {
    var step, next := LookGoesOn(st, looking);
    assert ReadsOn(st, looking, next);
    if next.Looking? {
      var rest := LookEnds(st, next);
      steps := WalkOn(st, [looking], rest);
    } else {
      steps := [looking, next];
    }
  }

  // The slot that a load takes: one with the key, with a fixed root the newest it sees.
  ghost predicate MayTake(st: State, reader: Reader, s: Slot)
    requires reader.Looking? || reader.Missed?
  {
    && reader.k in st.At(s).index
    && (reader.hint.Fixed? ==>
          s in reader.hint.visible && forall t | t in reader.hint.visible && reader.k in st.At(t).index :: t <= s)
  }

  lemma MissRetries(st: State, missed: Reader, s: Slot) returns (steps: seq<Reader>)
    requires missed.Missed? && ReaderInv(st, missed) && MayTake(st, missed, s)
    requires SlotInv(st.At(s)) && Below(st.At(s), st.nextId)
    ensures Walk(st, steps) && steps[0] == missed && missed.k in st.At(s).written
    ensures steps[|steps| - 1] == Done(missed.k, s, st.At(s).written[missed.k])
  {
    var loc := st.At(s).index[missed.k];
    var again := if s == missed.s && loc.SameStore(missed.loc) then Panicked
                 else Looking(missed.k, s, loc, AtMap, false, missed.hint);
    assert Reads(st, true, Reread(s), missed, again);
    RereadKeeps(st, Reread(s), missed, again);
    var rest := FreshLookFinds(st, again);
    steps := WalkOn(st, [missed], rest);
  }

  /** In whatever stage a load is, and whatever it missed so far: if it is left alone it ends with an account. */
  lemma LoadCanFinish(st: State, reader: Reader, s: Slot) returns (steps: seq<Reader>)
    requires Inv(st) && (reader.Looking? || reader.Missed?) && ReaderInv(st, reader) && MayTake(st, reader, s)
    ensures Walk(st, steps) && steps[0] == reader && steps[|steps| - 1].Done?
  {
    if reader.Missed? {
      steps := MissRetries(st, reader, s);
    } else {
      steps := LookEnds(st, reader);
      var last := steps[|steps| - 1];
      if last.Missed? {
        var rest := MissRetries(st, last, s);
        steps := WalkThrough(st, steps, rest);
      }
    }
  }

  // The second cache miss of a load with a fixed root is the panic.
  lemma SecondMissPanics(st: State, reader: Reader, reader': Reader)
    requires reader.Looking? && reader.loc.Cached? && reader.hint.Fixed? && reader.hint.failed.Some?
    requires !st.At(reader.s).CachedAt(reader.k) && Reads(st, true, LoadCached, reader, reader')
    ensures reader'.Panicked?
  {
  }
}
