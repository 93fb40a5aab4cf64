/**
 Why a reader looks at the storage map twice: with one lookup in each map, a shrink that finishes
 between the two makes the reader miss a store that the index still points to.
 */
module LookupRace {
  import opened Types
  import opened ReadProtocol

  // One account, flushed to store 0 of slot 0 and being shrunk into store 1.
  ghost function Account0(): Account { Account(1, 0, []) }
  ghost function Old(): Store { Store(0, map[0 := Account0()], {0}) }
  ghost function New(): Store { Store(1, map[0 := Account0()], {0}) }

  ghost function Unflushed(closed: bool, writes: set<Pubkey>, index: map<Pubkey, Location>, store: Option<Store>,
                           job: Job)
    : SlotState
  {
    SlotState(Some(map[0 := Account0()]), closed, writes, index, store, None, job, map[0 := Account0()])
  }

  ghost function Flushed(index: map<Pubkey, Location>, store: Option<Store>, shrink: Option<Store>, job: Job)
    : SlotState
  {
    SlotState(None, true, {}, index, store, shrink, job, map[0 := Account0()])
  }

  ghost function Shrunk(store: Option<Store>, shrink: Option<Store>, job: Job): SlotState {
    Flushed(map[0 := Stored(1, 0)], store, shrink, job)
  }

  ghost function At1(stage: Stage): Reader {
    Looking(0, 0, Stored(1, 0), stage, false, Unspecified)
  }

  ghost function Only(x: SlotState, nextId: StoreId, reader: Reader): State {
    State(map[0 := x], nextId, if reader.Idle? then map[] else map[0 := reader])
  }

  ghost predicate RunTo(run: seq<State>, st: State) {
    IsRun(false, run) && run[|run| - 1] == st
  }

  lemma Extend(run: seq<State>, st: State, st': State) returns (run': seq<State>)
    requires RunTo(run, st) && Next(false, st, st')
    ensures RunTo(run', st')
  {
    run' := run + [st'];
    forall i | 0 <= i < |run'| - 1 ensures Next(false, run'[i], run'[i + 1]) {
      if i < |run| - 1 { assert Next(false, run[i], run[i + 1]); }
    }
  }

  // Nobody holds an entry, and no load has a fixed root.
  lemma Unhindered(x: SlotState, id: StoreId, reader: Reader, step: Step)
    requires reader.Looking? ==> !reader.locked && reader.hint.Unspecified?
    requires !reader.Missed?
    ensures var st := Only(x, id, reader);
            && (forall k :: !st.Locked(k))
            && (forall r | r in st.readers :: Respects(st, st.readers[r], 0, step))
  {
  }

  lemma SlotNext(x: SlotState, id: StoreId, reader: Reader, step: Step, x': SlotState, id': StoreId)
    requires SlotStep(x, id, step, x') && id' == if step.Creates() then id + 1 else id
    requires reader.Looking? ==> !reader.locked && reader.hint.Unspecified?
    requires !reader.Missed?
    ensures Next(false, Only(x, id, reader), Only(x', id', reader))
  {
    var st, st' := Only(x, id, reader), Only(x', id', reader);
    Unhindered(x, id, reader, step);
    assert st.slots[0 := x'] == st'.slots;
    assert Background(st, 0, step, x', st');
  }

  lemma SlotMoves(run: seq<State>, x: SlotState, id: StoreId, reader: Reader, step: Step, x': SlotState, id': StoreId)
    returns (run': seq<State>)
    requires RunTo(run, Only(x, id, reader)) && SlotStep(x, id, step, x')
    requires id' == if step.Creates() then id + 1 else id
    requires reader.Looking? ==> !reader.locked && reader.hint.Unspecified?
    requires !reader.Missed?
    ensures RunTo(run', Only(x', id', reader))
  {
    SlotNext(x, id, reader, step, x', id');
    run' := Extend(run, Only(x, id, reader), Only(x', id', reader));
  }

  lemma ReadMoves(run: seq<State>, x: SlotState, id: StoreId, reader: Reader, step: ReadStep, reader': Reader)
    returns (run': seq<State>)
    requires RunTo(run, Only(x, id, reader)) && Reads(Only(x, id, reader), false, step, reader, reader')
             && !reader'.Idle?
    ensures RunTo(run', Only(x, id, reader'))
  {
    var st, st' := Only(x, id, reader), Only(x, id, reader');
    assert st.readers[0 := reader'] == st'.readers;
    assert ReaderMoves(st, false, 0, step, reader', st');
    run' := Extend(run, st, st');
  }

  lemma CacheRun() returns (run: seq<State>)
    ensures RunTo(run, Only(Unflushed(true, {}, map[0 := Cached], None, NoJob), 0, Idle))
  {
    var x0 := Unflushed(false, {0}, map[], None, NoJob);
    var x1 := Unflushed(false, {}, map[0 := Cached], None, NoJob);
    assert START.slots[0 := x0] == map[0 := x0];
    assert Background(START, 0, WriteCache(0, Account0()), x0, Only(x0, 0, Idle));
    run := Extend([START], START, Only(x0, 0, Idle));
    run := SlotMoves(run, x0, 0, Idle, WriteIndex(0), x1, 0);
    run := SlotMoves(run, x1, 0, Idle, Close, Unflushed(true, {}, map[0 := Cached], None, NoJob), 0);
  }

  lemma FlushBeginStep()
    ensures Flusher(Unflushed(true, {}, map[0 := Cached], None, NoJob), 0, FlushBegin(false),
                    Unflushed(true, {}, map[0 := Cached], None, FlushOpen({0}, false)))
  {
    var cached: map<Pubkey, Account> := map[0 := Account0()];
    assert cached.Keys == {0};
  }

  lemma FlushStoreStep()
    ensures Flusher(Unflushed(true, {}, map[0 := Cached], None, FlushOpen({0}, false)), 0,
                    FlushStore(Old(), map[0 := 0]),
                    Unflushed(true, {}, map[0 := Cached], Some(Old()), Flushing(map[0 := 0])))
  {
    var place: map<Pubkey, Offset> := map[0 := 0];
    assert place.Keys == {0};
  }

  lemma StoreRun() returns (run: seq<State>)
    ensures RunTo(run, Only(Unflushed(true, {}, map[0 := Cached], Some(Old()), Flushing(map[0 := 0])), 1, Idle))
  {
    run := CacheRun();
    var x0 := Unflushed(true, {}, map[0 := Cached], None, NoJob);
    var x1 := Unflushed(true, {}, map[0 := Cached], None, FlushOpen({0}, false));
    var x2 := Unflushed(true, {}, map[0 := Cached], Some(Old()), Flushing(map[0 := 0]));
    FlushBeginStep();
    run := SlotMoves(run, x0, 0, Idle, FlushBegin(false), x1, 0);
    FlushStoreStep();
    run := SlotMoves(run, x1, 0, Idle, FlushStore(Old(), map[0 := 0]), x2, 1);
  }

  lemma FlushRun() returns (run: seq<State>)
    ensures RunTo(run, Only(Flushed(map[0 := Stored(0, 0)], Some(Old()), None, NoJob), 1, Idle))
  {
    run := StoreRun();
    var place: map<Pubkey, Offset> := map[0 := 0];
    var index: map<Pubkey, Location> := map[0 := Cached];
    assert place - {0} == map[] && index[0 := Stored(0, 0)] == map[0 := Stored(0, 0)];
    var x := Unflushed(true, {}, map[0 := Stored(0, 0)], Some(Old()), Flushing(map[]));
    run := SlotMoves(run, Unflushed(true, {}, index, Some(Old()), Flushing(place)), 1, Idle, FlushIndex(0), x, 1);
    run := SlotMoves(run, x, 1, Idle, FlushEnd, Flushed(map[0 := Stored(0, 0)], Some(Old()), None, NoJob), 1);
  }

  lemma ShrinkRun() returns (run: seq<State>)
    ensures RunTo(run, Only(Shrunk(Some(Old()), Some(New()), Shrinking(0, map[], {})), 2, Idle))
  {
    run := FlushRun();
    var place: map<Pubkey, Offset> := map[0 := 0];
    var index: map<Pubkey, Location> := map[0 := Stored(0, 0)];
    assert index.Keys - {} == {0};
    assert place - {0} == map[] && index[0 := Stored(1, 0)] == map[0 := Stored(1, 0)];
    var x := Flushed(index, Some(Old()), Some(New()), Shrinking(0, place, {}));
    run := SlotMoves(run, Flushed(index, Some(Old()), None, NoJob), 1, Idle, ShrinkStore(New(), place, {}), x, 2);
    run := SlotMoves(run, x, 2, Idle, ShrinkIndex(0), Shrunk(Some(Old()), Some(New()), Shrinking(0, map[], {})), 2);
  }

  lemma RaceRun() returns (run: seq<State>)
    ensures RunTo(run, Only(Shrunk(Some(New()), None, NoJob), 2, At1(AtShrinkMap)))
  {
    run := ShrinkRun();
    var x0 := Shrunk(Some(Old()), Some(New()), Shrinking(0, map[], {}));
    var x1 := Shrunk(Some(New()), Some(New()), Swapped);
    run := ReadMoves(run, x0, 2, Idle, Read(0, 0, false, None), At1(AtMap));
    run := ReadMoves(run, x0, 2, At1(AtMap), LookInMap, At1(AtShrinkMap));
    run := SlotMoves(run, x0, 2, At1(AtShrinkMap), ShrinkSwap, x1, 2);
    run := SlotMoves(run, x1, 2, At1(AtShrinkMap), ShrinkEnd, Shrunk(Some(New()), None, NoJob), 2);
  }

  // With the first two lookups alone, the panic is reachable.
  lemma TwoLookupsCanPanic() returns (run: seq<State>)
    ensures IsRun(false, run)
    ensures 0 in run[|run| - 1].readers && run[|run| - 1].readers[0].Panicked?
  {
    run := RaceRun();
    var x := Shrunk(Some(New()), None, NoJob);
    var missed := Missed(0, 0, Stored(1, 0), false, Unspecified);
    run := ReadMoves(run, x, 2, At1(AtShrinkMap), LookInShrinkMap, missed);
    run := ReadMoves(run, x, 2, missed, Reread(0), Panicked);
  }
}
