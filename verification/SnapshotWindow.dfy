/**
 Runs that show what the guard against newer full snapshots is for, and that it is not enough between
 the announcement of a full snapshot and its archive: an account is written, archived, set to zero, and
 its old version is reclaimed and deleted, so that the archive alone still has its balance.
 */
module SnapshotWindow {
  import opened Types
  import opened RestoreSafety

  // The storages around an archive of slot 5, with all roots flushed.
  function Archived(stores: map<Slot, Store>, nextRoot: Slot, guard: Slot, k: Pubkey, archived: Account): State {
    State(stores, {}, nextRoot, Some(guard), Some(5), map[k := archived])
  }

  function Rich(k: Pubkey, rich: Account): map<Slot, Store> {
    map[5 := Store(map[k := rich], {k})]
  }

  function Both(k: Pubkey, rich: Account, poor: Account, live: set<Pubkey>): map<Slot, Store> {
    map[5 := Store(map[k := rich], live), 9 := Store(map[k := poor], {k})]
  }

  function Poor(k: Pubkey, poor: Account): map<Slot, Store> {
    map[9 := Store(map[k := poor], {k})]
  }

  ghost predicate RunTo(run: seq<State>, st: State) {
    IsRun(run) && run[|run| - 1] == st
  }

  lemma Extend(run: seq<State>, st: State, st': State) returns (run': seq<State>)
    requires RunTo(run, st) && Next(st, st')
    ensures RunTo(run', st')
  {
    run' := run + [st'];
    forall i | 0 <= i < |run'| - 1 ensures Next(run'[i], run'[i + 1]) {
      if i < |run| - 1 { assert Next(run[i], run[i + 1]); }
    }
  }

  lemma Longer(run: seq<State>, n: nat)
    requires |run| == n + 2 && IsRun(run[..n + 1]) && Next(run[n], run[n + 1])
    ensures IsRun(run)
  {
    forall i | 0 <= i < |run| - 1 ensures Next(run[i], run[i + 1]) {
      if i < n { assert Next(run[..n + 1][i], run[..n + 1][i + 1]); }
    }
  }

  lemma SlotsAre(st: State, k: Pubkey, held: set<Slot>, live: set<Slot>)
    requires forall s :: s in held <==> s in st.stores && k in st.stores[s].accounts
    requires forall s :: s in live <==> s in st.stores && k in st.stores[s].live
    ensures st.Held(k) == held && st.Live(k) == live
  {
  }

  // A root is made and flushed with one account.
  lemma RootAndFlush(run: seq<State>, st: State, slot: Slot, k: Pubkey, account: Account, st': State)
    returns (run': seq<State>)
    requires RunTo(run, st) && st.cached == {} && st.nextRoot <= slot
    requires st' == st.(stores := st.stores[slot := Store(map[k := account], {k})], nextRoot := slot + 1)
    ensures RunTo(run', st')
  {
    var rooted := st.(cached := {slot}, nextRoot := slot + 1);
    assert st.cached + {slot} == {slot};
    assert Root(st, rooted, slot);
    run' := Extend(run, st, rooted);
    var accounts: map<Pubkey, Account> := map[k := account];
    assert accounts.Keys == {k} && k in accounts && accounts != map[];
    assert {slot} - {slot} == st.cached;
    assert Flush(rooted, st', slot, accounts);
    run' := Extend(run', rooted, st');
  }

  lemma CapturesRich(k: Pubkey, rich: Account, st: State)
    requires st == State(Rich(k, rich), {}, 6, Some(5), None, map[])
    ensures Capture(st, Archived(Rich(k, rich), 6, 5, k, rich))
  {
    SlotsAre(st, k, {5}, {5});
    assert st.HeldUpTo(k, 5) == {5};
    forall l | l != k ensures st.HeldUpTo(l, 5) == {} {
      SlotsAre(st, l, {}, {});
    }
  }

  lemma ArchivesRich(k: Pubkey, rich: Account) returns (run: seq<State>)
    ensures RunTo(run, Archived(Rich(k, rich), 6, 5, k, rich))
  {
    var stored := State(Rich(k, rich), {}, 6, None, None, map[]);
    assert START.stores[5 := Store(map[k := rich], {k})] == Rich(k, rich);
    run := RootAndFlush([START], START, 5, k, rich, stored);
    var announced := stored.(guard := Some(5));
    assert Announce(stored, announced, 5);
    run := Extend(run, stored, announced);
    CapturesRich(k, rich, announced);
    run := Extend(run, announced, Archived(Rich(k, rich), 6, 5, k, rich));
  }

  // The balance is gone from the storages and still in the archive.
  lemma OnlyPoorIsLeft(k: Pubkey, rich: Account, poor: Account) returns (run: seq<State>)
    ensures RunTo(run, Archived(Poor(k, poor), 10, 5, k, rich))
  {
    run := ArchivesRich(k, rich);
    var both := Archived(Both(k, rich, poor, {k}), 10, 5, k, rich);
    assert Rich(k, rich)[9 := Store(map[k := poor], {k})] == both.stores;
    run := RootAndFlush(run, Archived(Rich(k, rich), 6, 5, k, rich), 9, k, poor, both);
    var reclaimed := Archived(Both(k, rich, poor, {}), 10, 5, k, rich);
    SlotsAre(both, k, {5, 9}, {5, 9});
    assert Reclaim(both, reclaimed, 5, k) by {
      assert 9 in both.Live(k) && both.stores[5].live - {k} == {};
      assert reclaimed.stores == both.stores[5 := both.stores[5].(live := {})];
    }
    run := Extend(run, both, reclaimed);
    var left := Archived(Poor(k, poor), 10, 5, k, rich);
    assert left.stores == reclaimed.stores - {5};
    assert Drop(reclaimed, left, 5);
    run := Extend(run, reclaimed, left);
  }

  lemma PurgesPoor(st: State, k: Pubkey, poor: Account)
    requires st.stores == Poor(k, poor) && poor.ZeroLamport()
    ensures UnguardedPurge(st, {k}) && AfterPurge(st, {k}) == st.(stores := map[])
    ensures st.UpToGuard(9) ==> Purge(st, st.(stores := map[]), {k})
  {
    SlotsAre(st, k, {9}, {9});
    assert AfterPurge(st, {k}).stores == map[];
  }

  /** Purging that account without the guard brings its balance back at the next restore. */
  lemma WithoutGuardRestoreResurrects(k: Pubkey, rich: Account, poor: Account) returns (run: seq<State>, st: State)
    requires !rich.ZeroLamport() && poor.ZeroLamport()
    ensures RunTo(run, st) && st.full.Some? && st.guard == st.full && UnguardedPurge(st, {k})
    ensures var after := AfterPurge(st, {k}); after.Live(k) == {} && after.RestoredView(k) == Some(rich)
  {
    run := OnlyPoorIsLeft(k, rich, poor);
    st := Archived(Poor(k, poor), 10, 5, k, rich);
    PurgesPoor(st, k, poor);
    SlotsAre(AfterPurge(st, {k}), k, {}, {});
  }

  /**
   A full snapshot at slot 9 is announced and clean purges the account: a restore from the old archive would
   bring its balance back. The archive of slot 9 ends that.
   */
  lemma WindowResurrects(k: Pubkey, rich: Account, poor: Account) returns (run: seq<State>, n: nat)
    requires !rich.ZeroLamport() && poor.ZeroLamport()
    ensures IsRun(run) && n < |run| - 1 && run[n].full.Some? && run[n].guard != run[n].full
    ensures run[n].Live(k) == {} && run[n].RestoredView(k) == Some(rich)
    ensures run[n + 1].full == run[n].guard && run[n + 1].RestoredView(k) == None
  {
    run := OnlyPoorIsLeft(k, rich, poor);
    var before := Archived(Poor(k, poor), 10, 5, k, rich);
    var announced := Archived(Poor(k, poor), 10, 9, k, rich);
    assert Announce(before, announced, 9);
    run := Extend(run, before, announced);
    var purged := announced.(stores := map[]);
    PurgesPoor(announced, k, poor);
    run := Extend(run, announced, purged);
    n := |run| - 1;
    var archived := purged.(full := Some(9), snapshot := map[]);
    forall l ensures purged.HeldUpTo(l, 9) == {} { SlotsAre(purged, l, {}, {}); }
    assert Capture(purged, archived);
    SlotsAre(purged, k, {}, {});
    SlotsAre(archived, k, {}, {});
    run := run + [archived];
    Longer(run, n);
  }
}
