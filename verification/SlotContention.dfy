/**
 Who may work on a slot: cache flushes against the removal of unrooted slots, which share the set
 of slots under contention and a condition variable.
 */
module SlotContention {
  import opened Types

  type Thread = nat

  // A flusher that released its slot still has to signal the condition variable.
  datatype Flusher = Resting | Flushing(s: Slot) | Notifying

  ghost function Named(list: seq<Slot>): set<Slot> {
    set s | s in list
  }

  // A remover reserves the slots of its list nobody has and waits for the `remaining` ones, which
  // include a slot the list names again.
  datatype Remover =
    | Away
    | Asleep(list: seq<Slot>, remaining: multiset<Slot>)
    | Woken(list: seq<Slot>, remaining: multiset<Slot>)
    | Purging(list: seq<Slot>)
  {
    ghost function Slots(): set<Slot> {
      if Away? then {} else Named(list)
    }

    ghost function Waiting(): multiset<Slot> {
      if Asleep? || Woken? then remaining else multiset{}
    }

    // How many of its claims to a slot went through.
    ghost function Claims(s: Slot): int {
      if Away? then 0 else multiset(list)[s] as int - Waiting()[s] as int
    }
  }

  ghost predicate NoRepeats(list: seq<Slot>) {
    forall s :: multiset(list)[s] <= 1
  }

  datatype Owner = ByFlusher(t: Thread) | ByRemover(t: Thread)

  // The keys of `contended` are the set the code keeps; who inserted a slot is only recorded, no
  // step consults it.
  datatype State = State(contended: map<Slot, Owner>, flushers: map<Thread, Flusher>, removers: map<Thread, Remover>) {
    function F(t: Thread): Flusher {
      if t in flushers then flushers[t] else Resting
    }

    function R(t: Thread): Remover {
      if t in removers then removers[t] else Away
    }
  }

  const START := State(map[], map[], map[])

  // Free slots are recorded for whoever inserts them.
  ghost predicate Claimed(contended: map<Slot, Owner>, slots: set<Slot>, owner: Owner, contended': map<Slot, Owner>) {
    && contended'.Keys == contended.Keys + slots
    && forall s | s in contended' :: contended'[s] == if s in contended then contended[s] else owner
  }

  datatype Step =
    | FlushStart(t: Thread, s: Slot)
    | FlushDone(t: Thread)
    | Notify(t: Thread)
    | RemoveStart(t: Thread, list: seq<Slot>)
    | Wake(t: Thread)
    | Recheck(t: Thread)
    | RemoveDone(t: Thread)

  // A remover holding the lock tries to insert every slot it wants; one claim to each free slot goes
  // through and the others remain.
  function FreeIn(wanted: multiset<Slot>, contended: set<Slot>): set<Slot> {
    set s | s in wanted && s !in contended
  }

  function Remaining(wanted: multiset<Slot>, contended: set<Slot>): multiset<Slot> {
    wanted - multiset(FreeIn(wanted, contended))
  }

  lemma OneMoreWanted(wanted: multiset<Slot>, s: Slot, contended: set<Slot>)
    ensures Remaining(wanted + multiset{s}, contended)
         == Remaining(wanted, contended) + if s in contended || s in wanted then multiset{s} else multiset{}
  {
    var more := wanted + multiset{s};
    assert FreeIn(more, contended) == FreeIn(wanted, contended) + if s in contended then {} else {s};
    if s in contended || s in wanted {
      assert FreeIn(more, contended) == FreeIn(wanted, contended);
    }
  }

  lemma InsertNext(list: seq<Slot>, i: nat, contended: set<Slot>)
    requires i < |list|
    ensures Named(list[..i + 1]) == Named(list[..i]) + {list[i]}
    ensures Remaining(multiset(list[..i + 1]), contended)
         == Remaining(multiset(list[..i]), contended)
            + if list[i] in contended + Named(list[..i]) then multiset{list[i]} else multiset{}
  {
    assert list[..i + 1] == list[..i] + [list[i]];
    OneMoreWanted(multiset(list[..i]), list[i], contended);
  }

  // The loop that does it, slot by slot.
  method InsertAll(list: seq<Slot>, contended: set<Slot>) returns (remaining: seq<Slot>, contended': set<Slot>)
    ensures multiset(remaining) == Remaining(multiset(list), contended)
    ensures contended' == contended + Named(list)
  {
    remaining, contended' := [], contended;
    for i := 0 to |list|
      invariant contended' == contended + Named(list[..i])
      invariant multiset(remaining) == Remaining(multiset(list[..i]), contended)
    {
      InsertNext(list, i, contended);
      if list[i] in contended' {
        remaining := remaining + [list[i]];
      } else {
        contended' := contended' + {list[i]};
      }
    }
    assert list[..|list|] == list;
  }

  function Reserved(list: seq<Slot>, remaining: multiset<Slot>): Remover {
    if remaining == multiset{} then Purging(list) else Asleep(list, remaining)
  }

  function WakeAll(removers: map<Thread, Remover>): map<Thread, Remover> {
    map t | t in removers :: if removers[t].Asleep? then Woken(removers[t].list, removers[t].remaining) else removers[t]
  }

  // No two removals under way share a slot: the caller replays a slot again only once it is removed.
  ghost predicate Unshared(st: State, t: Thread, list: seq<Slot>) {
    forall u | u != t :: st.R(u).Slots() !! Named(list)
  }

  ghost predicate Takes(st: State, step: Step, st': State) {
    match step
    case FlushStart(t, s) =>
      && st.F(t).Resting?
      && st' == if s in st.contended then st
                else st.(contended := st.contended[s := ByFlusher(t)], flushers := st.flushers[t := Flushing(s)])
    case FlushDone(t) =>
      && st.F(t).Flushing?
      && st' == st.(contended := st.contended - {st.F(t).s}, flushers := st.flushers[t := Notifying])
    case Notify(t) =>
      && st.F(t).Notifying?
      && st' == st.(flushers := st.flushers[t := Resting], removers := WakeAll(st.removers))
    case RemoveStart(t, list) =>
      && st.R(t).Away?
      && Claimed(st.contended, FreeIn(multiset(list), st.contended.Keys), ByRemover(t), st'.contended)
      && st' == st.(contended := st'.contended,
                    removers := st.removers[t := Reserved(list, Remaining(multiset(list), st.contended.Keys))])
    case Wake(t) =>
      && st.R(t).Asleep?
      && st' == st.(removers := st.removers[t := Woken(st.R(t).list, st.R(t).remaining)])
    case Recheck(t) =>
      && st.R(t).Woken?
      && Claimed(st.contended, FreeIn(st.R(t).remaining, st.contended.Keys), ByRemover(t), st'.contended)
      && st' == st.(contended := st'.contended,
                    removers := st.removers[t :=
                                            Reserved(st.R(t).list, Remaining(st.R(t).remaining, st.contended.Keys))])
    case RemoveDone(t) =>
      && st.R(t).Purging?
      && st' == st.(contended := st.contended - Named(st.R(t).list), removers := st.removers[t := Away])
  }

  ghost predicate Next(st: State, st': State) {
    exists step :: Takes(st, step, st') && (step.RemoveStart? ==> Unshared(st, step.t, step.list))
  }

  // ---------- the invariant ----------

  // Every contended slot has the one owner that works on it.
  ghost predicate SlotInv(st: State, s: Slot) {
    s in st.contended ==>
      match st.contended[s]
      case ByFlusher(t) => st.F(t) == Flushing(s)
      case ByRemover(t) => st.R(t).Claims(s) > 0
  }

  ghost predicate FlusherInv(st: State, t: Thread) {
    st.F(t).Flushing? ==> st.F(t).s in st.contended && st.contended[st.F(t).s] == ByFlusher(t)
  }

  // A remover has one claim at most to a slot, and owns the slot if it has one.
  ghost predicate RemoverInv(st: State, t: Thread) {
    && (forall s :: 0 <= st.R(t).Claims(s) <= 1)
    && (forall s | st.R(t).Claims(s) == 1 :: s in st.contended && st.contended[s] == ByRemover(t))
    && (st.R(t).Asleep? ==> st.R(t).remaining != multiset{})
  }

  // Flushed by somebody, or held by the remover itself.
  ghost predicate Taken(st: State, t: Thread, s: Slot) {
    s in st.contended && (st.contended[s].ByFlusher? || st.R(t).Claims(s) == 1)
  }

  // A sleeping remover waits for slots that are being flushed, or that it holds itself, unless a signal
  // is on its way.
  ghost predicate SleepInv(st: State, t: Thread) {
    st.R(t).Asleep? ==>
      || (exists f :: st.F(f).Notifying?)
      || (forall s | s in st.R(t).remaining :: Taken(st, t, s))
  }

  ghost predicate Apart(st: State, t: Thread, u: Thread) {
    t != u ==> st.R(t).Slots() !! st.R(u).Slots()
  }

  ghost predicate Inv(st: State) {
    && (forall s :: SlotInv(st, s))
    && (forall t :: FlusherInv(st, t))
    && (forall t :: RemoverInv(st, t) && SleepInv(st, t))
    && (forall t, u :: Apart(st, t, u))
  }

  ghost predicate Legal(st: State, step: Step, st': State) {
    Inv(st) && Takes(st, step, st') && (step.RemoveStart? ==> Unshared(st, step.t, step.list))
  }

  lemma RemainingCount(wanted: multiset<Slot>, contended: set<Slot>, s: Slot)
    ensures Remaining(wanted, contended)[s] == wanted[s] - if s in wanted && s !in contended then 1 else 0
  {
    assert multiset(FreeIn(wanted, contended))[s] == if s in FreeIn(wanted, contended) then 1 else 0;
  }

  lemma ReservedClaims(list: seq<Slot>, wanted: multiset<Slot>, contended: set<Slot>, s: Slot)
    ensures Reserved(list, Remaining(wanted, contended)).Claims(s)
         == multiset(list)[s] as int - wanted[s] as int + if s in wanted && s !in contended then 1 else 0
  {
    RemainingCount(wanted, contended, s);
  }

  lemma ReservesFor(st: State, step: Step, st': State)
    requires Takes(st, step, st')
    ensures step.RemoveStart? ==>
              && st.R(step.t).Away?
              && st'.R(step.t) == Reserved(step.list, Remaining(multiset(step.list), st.contended.Keys))
    ensures step.Recheck? ==>
              && st.R(step.t).Woken?
              && st'.R(step.t) == Reserved(st.R(step.t).list, Remaining(st.R(step.t).remaining, st.contended.Keys))
  {
  }

  // The claims of the remover that takes a step.
  lemma ClaimsAfter(st: State, step: Step, st': State, s: Slot)
    requires Takes(st, step, st')
    ensures step.RemoveStart? ==> st'.R(step.t).Claims(s) == if s in step.list && s !in st.contended then 1 else 0
    ensures step.Recheck? ==>
              st'.R(step.t).Claims(s)
                == st.R(step.t).Claims(s) + if s in st.R(step.t).remaining && s !in st.contended then 1 else 0
  {
    ReservesFor(st, step, st');
    if step.RemoveStart? {
      ReservedClaims(step.list, multiset(step.list), st.contended.Keys, s);
    } else if step.Recheck? {
      ReservedClaims(st.R(step.t).list, st.R(step.t).remaining, st.contended.Keys, s);
    }
  }

  // The claims of a remover no step of its own concerns.
  lemma ClaimsKept(st: State, step: Step, st': State, t: Thread, s: Slot)
    requires Takes(st, step, st')
    requires !(step.t == t && (step.RemoveStart? || step.Recheck? || step.RemoveDone?))
    ensures st'.R(t).Claims(s) == st.R(t).Claims(s)
  {
  }

  lemma ClaimIsNamed(r: Remover, s: Slot)
    requires r.Claims(s) > 0
    ensures s in r.Slots()
  {
  }

  // A slot that stays contended keeps its owner.
  lemma OwnerKept(st: State, step: Step, st': State, s: Slot)
    requires Takes(st, step, st') && s in st.contended && s in st'.contended
    ensures st'.contended[s] == st.contended[s]
  {
  }

  lemma RemoverStillOwns(st: State, step: Step, st': State, u: Thread, s: Slot)
    requires Legal(st, step, st') && s in st.contended && s in st'.contended && st.contended[s] == ByRemover(u)
    ensures st'.R(u).Claims(s) > 0
  {
    assert SlotInv(st, s);
    ClaimIsNamed(st.R(u), s);
    if step.t == u && (step.RemoveStart? || step.Recheck? || step.RemoveDone?) {
      ClaimsAfter(st, step, st', s);
    } else {
      ClaimsKept(st, step, st', u, s);
    }
  }

  lemma FlusherStillOwns(st: State, step: Step, st': State, u: Thread, s: Slot)
    requires Legal(st, step, st') && s in st.contended && s in st'.contended && st.contended[s] == ByFlusher(u)
    ensures st'.F(u) == Flushing(s)
  {
    assert SlotInv(st, s);
  }

  lemma NewOwner(st: State, step: Step, st': State, s: Slot)
    requires Legal(st, step, st') && s !in st.contended && s in st'.contended
    ensures SlotInv(st', s)
  {
    assert RemoverInv(st, step.t);
    ClaimsAfter(st, step, st', s);
  }

  lemma SlotKept(st: State, step: Step, st': State, s: Slot)
    requires Legal(st, step, st')
    ensures SlotInv(st', s)
  {
    if s in st'.contended {
      if s !in st.contended {
        NewOwner(st, step, st', s);
      } else {
        OwnerKept(st, step, st', s);
        match st.contended[s] {
          case ByFlusher(u) => FlusherStillOwns(st, step, st', u, s);
          case ByRemover(u) => RemoverStillOwns(st, step, st', u, s);
        }
      }
    }
  }

  // What a remover purges it owns.
  lemma PurgedIsClaimed(st: State, t: Thread, s: Slot)
    requires RemoverInv(st, t) && st.R(t).Purging?
    ensures s in Named(st.R(t).list) ==> s in st.contended && st.contended[s] == ByRemover(t)
  {
    if s in st.R(t).list {
      assert multiset(st.R(t).list)[s] > 0;
      assert st.R(t).Claims(s) == 1;
    }
  }

  lemma FlusherMoves(st: State, step: Step, st': State, t: Thread)
    requires Takes(st, step, st') && FlusherInv(st, t) && FlusherInv(st, step.t)
    requires step.RemoveDone? && st.F(t).Flushing? ==> st.F(t).s !in Named(st.R(step.t).list)
    ensures FlusherInv(st', t)
  {
  }

  lemma FlusherKept(st: State, step: Step, st': State, t: Thread)
    requires Legal(st, step, st')
    ensures FlusherInv(st', t)
  {
    assert FlusherInv(st, t) && FlusherInv(st, step.t);
    if step.RemoveDone? && st.F(t).Flushing? {
      assert RemoverInv(st, step.t);
      PurgedIsClaimed(st, step.t, st.F(t).s);
    }
    FlusherMoves(st, step, st', t);
  }

  lemma OthersKeep(st: State, step: Step, st': State, t: Thread, s: Slot)
    requires Legal(st, step, st') && step.RemoveDone? && step.t != t && st.R(t).Claims(s) == 1
    ensures s in st'.contended && st'.contended[s] == ByRemover(t)
  {
    assert RemoverInv(st, t);
    ClaimIsNamed(st.R(t), s);
    assert Apart(st, t, step.t);
  }

  lemma ClaimsBounded(st: State, step: Step, st': State, t: Thread, s: Slot)
    requires Legal(st, step, st')
    ensures 0 <= st'.R(t).Claims(s) <= 1
    ensures st'.R(t).Claims(s) == 1 ==> s in st'.contended && st'.contended[s] == ByRemover(t)
  {
    assert RemoverInv(st, t) && RemoverInv(st, step.t) && FlusherInv(st, step.t);
    assert 0 <= st.R(t).Claims(s) <= 1;
    ClaimsAfter(st, step, st', s);
    if step.t == t && (step.RemoveStart? || step.Recheck?) {
      assert s in st'.contended || st'.R(t).Claims(s) == 0;
    } else if !(step.t == t && step.RemoveDone?) {
      ClaimsKept(st, step, st', t, s);
      if step.RemoveDone? && st.R(t).Claims(s) == 1 {
        OthersKeep(st, step, st', t, s);
      }
    }
  }

  lemma SleepsForSome(st: State, step: Step, st': State, t: Thread)
    requires Takes(st, step, st') && (st.R(t).Asleep? ==> st.R(t).remaining != multiset{})
    ensures st'.R(t).Asleep? ==> st'.R(t).remaining != multiset{}
  {
  }

  lemma RemoverKept(st: State, step: Step, st': State, t: Thread)
    requires Legal(st, step, st')
    ensures RemoverInv(st', t)
  {
    assert RemoverInv(st, t);
    SleepsForSome(st, step, st', t);
    forall s ensures 0 <= st'.R(t).Claims(s) <= 1
      && (st'.R(t).Claims(s) == 1 ==> s in st'.contended && st'.contended[s] == ByRemover(t))
    {
      ClaimsBounded(st, step, st', t, s);
    }
  }

  // What is contended among the slots of a remover is being flushed or claimed by it.
  lemma OwnOrFlushed(st: State, t: Thread, s: Slot)
    requires Inv(st) && s in st.contended && forall u | u != t :: s !in st.R(u).Slots()
    ensures st.contended[s].ByFlusher? || (st.contended[s] == ByRemover(t) && st.R(t).Claims(s) == 1)
  {
    assert SlotInv(st, s) && RemoverInv(st, t);
    if st.contended[s].ByRemover? {
      ClaimIsNamed(st.R(st.contended[s].t), s);
      assert st.contended[s].t == t;
    }
  }

  // A slot waited for that was free is claimed now; one that was not has its owner still.
  lemma WaitedForAfter(st: State, step: Step, st': State, s: Slot)
    requires Takes(st, step, st') && (step.RemoveStart? || step.Recheck?) && s in st'.R(step.t).Waiting()
    requires RemoverInv(st, step.t)
    ensures s in st'.contended
    ensures s in st.contended ==> st'.contended[s] == st.contended[s]
    ensures s in st.contended && step.Recheck? ==> st'.R(step.t).Claims(s) == st.R(step.t).Claims(s)
    ensures s !in st.contended ==> st'.R(step.t).Claims(s) == 1
  {
    RemainingCount(if step.RemoveStart? then multiset(step.list) else st.R(step.t).remaining, st.contended.Keys, s);
    ClaimsAfter(st, step, st', s);
  }

  lemma WaitingIsNamed(st: State, t: Thread, s: Slot)
    requires RemoverInv(st, t) && s in st.R(t).Waiting()
    ensures s in st.R(t).Slots()
  {
    assert st.R(t).Claims(s) >= 0;
    assert multiset(st.R(t).list)[s] > 0;
  }

  // The slots a removal waits for are in no other removal.
  lemma NobodyElses(st: State, step: Step, st': State, s: Slot)
    requires Legal(st, step, st') && (step.RemoveStart? || step.Recheck?) && s in st'.R(step.t).Waiting()
    ensures forall u | u != step.t :: s !in st.R(u).Slots()
  {
    var t := step.t;
    assert RemoverInv(st, t);
    RemainingCount(if step.RemoveStart? then multiset(step.list) else st.R(t).remaining, st.contended.Keys, s);
    forall u | u != t ensures s !in st.R(u).Slots() {
      if step.RemoveStart? {
        assert st.R(u).Slots() !! Named(step.list);
      } else {
        assert Apart(st, u, t);
        WaitingIsNamed(st, t, s);
      }
    }
  }

  lemma FallsAsleep(st: State, step: Step, st': State, s: Slot)
    requires Legal(st, step, st') && (step.RemoveStart? || step.Recheck?) && s in st'.R(step.t).Waiting()
    ensures Taken(st', step.t, s)
  {
    assert RemoverInv(st, step.t);
    WaitedForAfter(st, step, st', s);
    if s in st.contended {
      NobodyElses(st, step, st', s);
      OwnOrFlushed(st, step.t, s);
    }
  }

  // A slot a sleeper waits for stays as it is through a step that neither signals nor ends a flush.
  lemma WaitedForStays(st: State, step: Step, st': State, t: Thread, s: Slot)
    requires Legal(st, step, st') && !step.FlushDone? && !step.Notify?
    requires st.R(t).Asleep? && st'.R(t) == st.R(t) && s in st.R(t).remaining && Taken(st, t, s)
    ensures Taken(st', t, s)
  {
    assert RemoverInv(st, t);
    if step.RemoveDone? {
      WaitingIsNamed(st, t, s);
      assert Apart(st, t, step.t);
    }
  }

  lemma SleepStarts(st: State, step: Step, st': State)
    requires Legal(st, step, st') && (step.RemoveStart? || step.Recheck?)
    ensures SleepInv(st', step.t)
  {
    forall s | s in st'.R(step.t).Waiting() ensures Taken(st', step.t, s) {
      FallsAsleep(st, step, st', s);
    }
  }

  lemma SignalStays(st: State, step: Step, st': State, f: Thread)
    requires Takes(st, step, st') && st.F(f).Notifying? && !step.Notify?
    ensures st'.F(f).Notifying?
  {
  }

  // A sleeper that slept before, or a signal that was on its way and still is.
  lemma SleepGoesOn(st: State, step: Step, st': State, t: Thread)
    requires Legal(st, step, st') && !step.FlushDone? && !step.Notify? && st.R(t).Asleep? && st'.R(t) == st.R(t)
    ensures SleepInv(st', t)
  {
    assert SleepInv(st, t);
    if f :| st.F(f).Notifying? {
      SignalStays(st, step, st', f);
    } else {
      forall s | s in st'.R(t).remaining ensures Taken(st', t, s) {
        WaitedForStays(st, step, st', t, s);
      }
    }
  }

  // Who is asleep after a step.
  lemma SleeperIs(st: State, step: Step, st': State, t: Thread)
    requires Takes(st, step, st') && st'.R(t).Asleep?
    ensures !step.Notify?
    ensures (step.t == t && (step.RemoveStart? || step.Recheck?)) || (st.R(t).Asleep? && st'.R(t) == st.R(t))
    ensures step.FlushDone? ==> st'.F(step.t).Notifying?
  {
  }

  lemma SleepKept(st: State, step: Step, st': State, t: Thread)
    requires Legal(st, step, st')
    ensures SleepInv(st', t)
  {
    if st'.R(t).Asleep? {
      SleeperIs(st, step, st', t);
      if step.t == t && (step.RemoveStart? || step.Recheck?) {
        SleepStarts(st, step, st');
      } else if !step.FlushDone? {
        SleepGoesOn(st, step, st', t);
      }
    }
  }

  lemma SlotsKept(st: State, step: Step, st': State, t: Thread)
    requires Takes(st, step, st')
    ensures if step.RemoveStart? && step.t == t then st'.R(t).Slots() == Named(step.list)
              else st'.R(t).Slots() <= st.R(t).Slots()
  {
  }

  lemma UnsharedKept(st: State, step: Step, st': State, t: Thread, u: Thread)
    requires Takes(st, step, st') && Apart(st, t, u) && (step.RemoveStart? ==> Unshared(st, step.t, step.list))
    ensures Apart(st', t, u)
  {
    SlotsKept(st, step, st', t);
    SlotsKept(st, step, st', u);
  }

  lemma NextKeepsInv(st: State, st': State)
    requires Inv(st) && Next(st, st')
    ensures Inv(st')
  {
    var step :| Takes(st, step, st') && (step.RemoveStart? ==> Unshared(st, step.t, step.list));
    forall s ensures SlotInv(st', s) { SlotKept(st, step, st', s); }
    forall t ensures FlusherInv(st', t) { FlusherKept(st, step, st', t); }
    forall t ensures RemoverInv(st', t) && SleepInv(st', t) {
      RemoverKept(st, step, st', t);
      SleepKept(st, step, st', t);
    }
    forall t, u ensures Apart(st', t, u) {
      assert Apart(st, t, u);
      UnsharedKept(st, step, st', t, u);
    }
  }

  ghost predicate IsRun(run: seq<State>) {
    && |run| > 0 && run[0] == START
    && forall i | 0 <= i < |run| - 1 :: Next(run[i], run[i + 1])
  }

  lemma {:induction false} RunKeepsInv(run: seq<State>)
    requires IsRun(run)
    ensures Inv(run[|run| - 1])
  {
    if |run| > 1 {
      var shorter := run[..|run| - 1];
      assert forall i | 0 <= i < |shorter| - 1 :: Next(shorter[i], shorter[i + 1]);
      RunKeepsInv(shorter);
      NextKeepsInv(shorter[|shorter| - 1], run[|run| - 1]);
    }
  }

  // ---------- what holds over every run ----------

  // A slot is flushed by one thread at most, and not while it is purged.
  lemma OneWorkerPerSlot(run: seq<State>, t: Thread, u: Thread, s: Slot)
    requires IsRun(run) && run[|run| - 1].F(t) == Flushing(s)
    ensures run[|run| - 1].F(u) == Flushing(s) ==> u == t
    ensures run[|run| - 1].R(u).Purging? ==> s !in run[|run| - 1].R(u).list
  {
    RunKeepsInv(run);
    var st := run[|run| - 1];
    assert FlusherInv(st, t) && FlusherInv(st, u) && RemoverInv(st, u);
    if st.R(u).Purging? {
      PurgedIsClaimed(st, u, s);
    }
  }

  // Both assertions on releasing slots hold: what is taken out of the set is in it, and a list that is
  // purged names no slot twice.
  lemma ReleasesHold(run: seq<State>, t: Thread)
    requires IsRun(run)
    ensures var st := run[|run| - 1];
            && (st.F(t).Flushing? ==> st.F(t).s in st.contended)
            && (st.R(t).Purging? ==> Named(st.R(t).list) <= st.contended.Keys && NoRepeats(st.R(t).list))
  {
    RunKeepsInv(run);
    var st := run[|run| - 1];
    assert FlusherInv(st, t) && RemoverInv(st, t);
    if st.R(t).Purging? {
      forall s | s in Named(st.R(t).list) ensures s in st.contended {
        PurgedIsClaimed(st, t, s);
      }
      forall s ensures multiset(st.R(t).list)[s] <= 1 {
        assert st.R(t).Claims(s) <= 1;
      }
    }
  }

  // A removal whose list names a slot twice never gets to purge.
  lemma RepeatedNeverPurges(run: seq<State>, t: Thread)
    requires IsRun(run) && !run[|run| - 1].R(t).Away? && !NoRepeats(run[|run| - 1].R(t).list)
    ensures !run[|run| - 1].R(t).Purging? && run[|run| - 1].R(t).remaining != multiset{}
  {
    RunKeepsInv(run);
    var st := run[|run| - 1];
    ReleasesHold(run, t);
    assert RemoverInv(st, t);
    var s :| multiset(st.R(t).list)[s] > 1;
    assert st.R(t).Claims(s) <= 1;
  }

  lemma WaitingUnclaimed(st: State, t: Thread, s: Slot)
    requires !st.R(t).Away? && NoRepeats(st.R(t).list) && s in st.R(t).Waiting()
    ensures st.R(t).Claims(s) <= 0
  {
    assert multiset(st.R(t).list)[s] <= 1;
  }

  // No lost wakeup: while a remover with distinct slots sleeps, a flusher has yet to signal, or flushes a
  // slot it waits for.
  lemma SleepersAreWoken(run: seq<State>, t: Thread) returns (f: Thread)
    requires IsRun(run) && run[|run| - 1].R(t).Asleep? && NoRepeats(run[|run| - 1].R(t).list)
    ensures var st := run[|run| - 1];
            st.F(f).Notifying? || (st.F(f).Flushing? && st.F(f).s in st.R(t).remaining)
  {
    RunKeepsInv(run);
    var st := run[|run| - 1];
    assert SleepInv(st, t) && RemoverInv(st, t);
    if g :| st.F(g).Notifying? {
      f := g;
    } else {
      var s :| s in st.R(t).remaining;
      WaitingUnclaimed(st, t, s);
      f := st.contended[s].t;
      assert SlotInv(st, s);
    }
  }

  lemma ContendedIsFlushed(st: State, t: Thread, s: Slot)
    requires Inv(st) && s in st.R(t).Waiting() && s in st.contended && NoRepeats(st.R(t).list)
    ensures st.contended[s].ByFlusher? && st.F(st.contended[s].t) == Flushing(s)
  {
    assert SlotInv(st, s) && RemoverInv(st, t);
    WaitingUnclaimed(st, t, s);
    WaitingIsNamed(st, t, s);
    forall u | u != t ensures s !in st.R(u).Slots() {
      assert Apart(st, u, t);
    }
    OwnOrFlushed(st, t, s);
  }

  // Once no slot is being flushed, a woken remover with distinct slots gets everything it waits for.
  lemma QuietMeansPurging(run: seq<State>, st: State, t: Thread, st': State)
    requires IsRun(run) && st == run[|run| - 1] && st.R(t).Woken? && NoRepeats(st.R(t).list)
    requires forall f :: !st.F(f).Flushing?
    requires Takes(st, Recheck(t), st')
    ensures st'.R(t) == Purging(st.R(t).list)
  {
    RunKeepsInv(run);
    var remaining := st.R(t).remaining;
    forall s ensures Remaining(remaining, st.contended.Keys)[s] == 0 {
      RemainingCount(remaining, st.contended.Keys, s);
      assert RemoverInv(st, t) && st.R(t).Claims(s) >= 0;
      assert remaining[s] <= multiset(st.R(t).list)[s] <= 1;
      if s in remaining && s in st.contended {
        ContendedIsFlushed(st, t, s);
      }
    }
    assert Remaining(remaining, st.contended.Keys) == multiset{};
  }

  // ---------- nothing is in the way for good ----------

  ghost predicate Untouched(st: State, s: Slot) {
    forall u :: st.F(u) != Flushing(s) && st.R(u).Claims(s) == 0
  }

  ghost predicate AllResting(st: State) {
    forall f :: st.F(f).Resting?
  }

  // A flush gets a slot exactly when nobody flushes it and no removal has claimed it.
  lemma FlushGetsFreeSlot(run: seq<State>, t: Thread, s: Slot, st': State)
    requires IsRun(run) && Takes(run[|run| - 1], FlushStart(t, s), st')
    ensures st'.F(t) == Flushing(s) <==> Untouched(run[|run| - 1], s)
    ensures st'.F(t) == Flushing(s) || st' == run[|run| - 1]
  {
    RunKeepsInv(run);
    var st := run[|run| - 1];
    assert SlotInv(st, s);
    forall u ensures s !in st.contended ==> st.F(u) != Flushing(s) && st.R(u).Claims(s) == 0 {
      assert FlusherInv(st, u) && RemoverInv(st, u);
    }
    if s in st.contended {
      assert st.F(st.contended[s].t) == Flushing(s) || st.R(st.contended[s].t).Claims(s) > 0;
    }
  }

  ghost function Busy(st: State): set<Thread> {
    set t | t in st.flushers && !st.flushers[t].Resting?
  }

  ghost function Flushes(st: State): set<Thread> {
    set t | t in st.flushers && st.flushers[t].Flushing?
  }

  // The removal still waits for the same slots, awake or not.
  ghost predicate Waits(st: State, t: Thread, list: seq<Slot>) {
    (st.R(t).Asleep? || st.R(t).Woken?) && st.R(t).list == list
  }

  // None of the slots is on the list of another removal under way.
  ghost predicate Unnamed(st: State, t: Thread, list: seq<Slot>) {
    forall u, s | u != t && !st.R(u).Away? && s in list :: s !in st.R(u).list
  }

  lemma StepIsNext(st: State, step: Step, st': State)
    requires Takes(st, step, st') && (step.RemoveStart? ==> Unnamed(st, step.t, step.list))
    ensures Next(st, st')
  {
    if step.RemoveStart? {
      assert Unshared(st, step.t, step.list);
    }
  }

  lemma OneLonger(run: seq<State>, step: Step, st': State) returns (run': seq<State>)
    requires IsRun(run) && Takes(run[|run| - 1], step, st')
    requires step.RemoveStart? ==> Unnamed(run[|run| - 1], step.t, step.list)
    ensures IsRun(run') && run < run' && run'[|run'| - 1] == st'
  {
    StepIsNext(run[|run| - 1], step, st');
    run' := run + [st'];
    forall i | 0 <= i < |run'| - 1 ensures Next(run'[i], run'[i + 1]) {
      if i < |run| - 1 { assert Next(run[i], run[i + 1]); }
    }
  }

  lemma DoneFlushes(st: State, f: Thread) returns (st': State)
    requires st.F(f).Flushing?
    ensures Takes(st, FlushDone(f), st') && Busy(st') == Busy(st) && Flushes(st') == Flushes(st) - {f}
    ensures forall t :: st'.R(t) == st.R(t)
  {
    st' := st.(contended := st.contended - {st.F(f).s}, flushers := st.flushers[f := Notifying]);
  }

  lemma NotifiesAll(st: State, f: Thread, t: Thread, list: seq<Slot>) returns (st': State)
    requires st.F(f).Notifying? && Waits(st, t, list)
    ensures Takes(st, Notify(f), st') && Busy(st') == Busy(st) - {f} && Flushes(st') == Flushes(st)
    ensures Waits(st', t, list)
  {
    st' := st.(flushers := st.flushers[f := Resting], removers := WakeAll(st.removers));
  }

  // The flushes under way end and signal.
  lemma {:induction false} FlushersFinish(run: seq<State>, t: Thread, list: seq<Slot>) returns (run': seq<State>)
    requires IsRun(run) && Waits(run[|run| - 1], t, list)
    ensures IsRun(run') && run <= run' && Waits(run'[|run'| - 1], t, list)
    ensures AllResting(run'[|run'| - 1])
    decreases Busy(run[|run| - 1]), Flushes(run[|run| - 1])
  {
    var st := run[|run| - 1];
    if f :| f in Busy(st) {
      var st';
      if st.F(f).Flushing? {
        st' := DoneFlushes(st, f);
        run' := OneLonger(run, FlushDone(f), st');
        assert f in Flushes(st);
      } else {
        st' := NotifiesAll(st, f, t, list);
        run' := OneLonger(run, Notify(f), st');
      }
      run' := FlushersFinish(run', t, list);
    } else {
      run' := run;
      forall f ensures st.F(f).Resting? {
        assert f !in Busy(st);
      }
    }
  }

  lemma CanRecheck(st: State, t: Thread) returns (st': State)
    requires st.R(t).Woken?
    ensures Takes(st, Recheck(t), st')
  {
    var slots := FreeIn(st.R(t).remaining, st.contended.Keys);
    var contended := map s | s in st.contended.Keys + slots ::
      if s in st.contended then st.contended[s] else ByRemover(t);
    st' := st.(contended := contended,
               removers := st.removers[t := Reserved(st.R(t).list, Remaining(st.R(t).remaining, st.contended.Keys))]);
  }

  // From every reachable state a waiting removal with distinct slots can still get to purge all of them.
  lemma RemovalCanFinish(run: seq<State>, t: Thread, list: seq<Slot>) returns (run': seq<State>)
    requires IsRun(run) && Waits(run[|run| - 1], t, list) && NoRepeats(list)
    ensures IsRun(run') && run <= run' && run'[|run'| - 1].R(t) == Purging(list)
  {
    run' := FlushersFinish(run, t, list);
    var st := run'[|run'| - 1];
    if st.R(t).Asleep? {
      var f := SleepersAreWoken(run', t);
      assert false;
    }
    var st' := CanRecheck(st, t);
    QuietMeansPurging(run', st, t, st');
    run' := OneLonger(run', Recheck(t), st');
  }

  lemma CanStart(st: State, t: Thread, list: seq<Slot>) returns (st': State)
    requires st.R(t).Away?
    ensures Takes(st, RemoveStart(t, list), st')
    ensures st'.R(t) == Purging(list) || Waits(st', t, list)
  {
    var slots := FreeIn(multiset(list), st.contended.Keys);
    var contended := map s | s in st.contended.Keys + slots ::
      if s in st.contended then st.contended[s] else ByRemover(t);
    st' := st.(contended := contended,
               removers := st.removers[t := Reserved(list, Remaining(multiset(list), st.contended.Keys))]);
  }

  lemma RemovalStarts(run: seq<State>, t: Thread, list: seq<Slot>) returns (run': seq<State>)
    requires IsRun(run) && run[|run| - 1].R(t).Away? && Unnamed(run[|run| - 1], t, list)
    ensures IsRun(run') && run < run'
    ensures run'[|run'| - 1].R(t) == Purging(list) || Waits(run'[|run'| - 1], t, list)
  {
    var st := CanStart(run[|run| - 1], t, list);
    run' := OneLonger(run, RemoveStart(t, list), st);
  }

  lemma RemovalCanPurge(run: seq<State>, t: Thread, list: seq<Slot>) returns (run': seq<State>)
    requires IsRun(run) && run[|run| - 1].R(t).Away? && NoRepeats(list) && Unnamed(run[|run| - 1], t, list)
    ensures IsRun(run') && run < run' && run'[|run'| - 1].R(t) == Purging(list)
  {
    run' := RemovalStarts(run, t, list);
    if run'[|run'| - 1].R(t) != Purging(list) {
      run' := RemovalCanFinish(run', t, list);
    }
  }

  lemma CanEnd(st: State, t: Thread, list: seq<Slot>) returns (st': State)
    requires st.R(t) == Purging(list)
    ensures Takes(st, RemoveDone(t), st') && st'.R(t).Away? && forall s | s in list :: s !in st'.contended
  {
    st' := st.(contended := st.contended - Named(list), removers := st.removers[t := Away]);
  }

  // From every reachable state a removal of distinct slots that no other removal names can start, purge and end.
  lemma RemovalCanRun(run: seq<State>, t: Thread, list: seq<Slot>) returns (purging: seq<State>, run': seq<State>)
    requires IsRun(run) && run[|run| - 1].R(t).Away? && NoRepeats(list) && Unnamed(run[|run| - 1], t, list)
    ensures IsRun(run') && run <= purging <= run' && |purging| > 0
    ensures purging[|purging| - 1].R(t) == Purging(list) && run'[|run'| - 1].R(t).Away?
    ensures forall s | s in list :: s !in run'[|run'| - 1].contended
  {
    purging := RemovalCanPurge(run, t, list);
    var st := CanEnd(purging[|purging| - 1], t, list);
    run' := OneLonger(purging, RemoveDone(t), st);
  }

  // ---------- what goes wrong without distinct slots or with shared ones ----------

  ghost function WaitsForItself(s: Slot, awake: bool): State {
    State(map[s := ByRemover(0)], map[],
          map[0 := if awake then Woken([s, s], multiset{s}) else Asleep([s, s], multiset{s})])
  }

  lemma WantTwice(s: Slot)
    ensures FreeIn(multiset([s, s]), {}) == {s} && Remaining(multiset([s, s]), {}) == multiset{s}
    ensures FreeIn(multiset{s}, {s}) == {} && Remaining(multiset{s}, {s}) == multiset{s}
  {
    assert multiset([s, s]) == multiset{s, s};
  }

  lemma WantOnce(s: Slot)
    ensures FreeIn(multiset([s]), {}) == {s} && Remaining(multiset([s]), {}) == multiset{}
    ensures FreeIn(multiset([s]), {s}) == {} && Remaining(multiset([s]), {s}) == multiset{s}
  {
    assert multiset([s]) == multiset{s};
  }

  // A list that names a slot twice, with nobody else around: the removal holds the slot, sleeps, and
  // finds it taken again whenever it wakes.
  lemma RepeatedWaitsForItself(s: Slot)
    ensures Takes(START, RemoveStart(0, [s, s]), WaitsForItself(s, false))
    ensures Takes(WaitsForItself(s, false), Wake(0), WaitsForItself(s, true))
    ensures Takes(WaitsForItself(s, true), Recheck(0), WaitsForItself(s, false))
  {
    var a, b := WaitsForItself(s, false), WaitsForItself(s, true);
    WantTwice(s);
    assert START.contended.Keys == {} && b.contended.Keys == {s};
    assert START.removers[0 := Asleep([s, s], multiset{s})] == a.removers;
    assert a.removers[0 := Woken([s, s], multiset{s})] == b.removers;
    assert b.removers[0 := Asleep([s, s], multiset{s})] == a.removers;
  }

  ghost function FirstRemoves(s: Slot): State {
    State(map[s := ByRemover(0)], map[], map[0 := Purging([s])])
  }

  ghost function SecondWaits(s: Slot): State {
    State(map[s := ByRemover(0)], map[], map[0 := Purging([s]), 1 := Asleep([s], multiset{s})])
  }

  ghost function FirstIsDone(s: Slot): State {
    State(map[], map[], map[0 := Away, 1 := Asleep([s], multiset{s})])
  }

  lemma SecondFindsItTaken(s: Slot)
    ensures Takes(START, RemoveStart(0, [s]), FirstRemoves(s))
    ensures Takes(FirstRemoves(s), RemoveStart(1, [s]), SecondWaits(s))
  {
    WantOnce(s);
    var a, b := FirstRemoves(s), SecondWaits(s);
    assert START.contended.Keys == {} && a.contended.Keys == {s};
    assert START.removers[0 := Purging([s])] == a.removers;
    assert a.removers[1 := Asleep([s], multiset{s})] == b.removers;
  }

  lemma FirstLeaves(s: Slot)
    ensures Takes(SecondWaits(s), RemoveDone(0), FirstIsDone(s))
  {
    var b, c := SecondWaits(s), FirstIsDone(s);
    assert Named([s]) == {s} && b.contended - {s} == map[];
    assert b.removers[0 := Away] == c.removers;
  }

  // Two removals that share a slot: the second one sleeps although the set is empty, and no flush under
  // way will signal.
  lemma SharedRemovalIsLost(s: Slot)
    ensures Takes(START, RemoveStart(0, [s]), FirstRemoves(s))
    ensures Takes(FirstRemoves(s), RemoveStart(1, [s]), SecondWaits(s)) && !Unshared(FirstRemoves(s), 1, [s])
    ensures Takes(SecondWaits(s), RemoveDone(0), FirstIsDone(s))
    ensures FirstIsDone(s).R(1).Asleep? && FirstIsDone(s).contended == map[]
    ensures forall f :: FirstIsDone(s).F(f).Resting?
  {
    SecondFindsItTaken(s);
    FirstLeaves(s);
    assert s in FirstRemoves(s).R(0).Slots();
  }
}
