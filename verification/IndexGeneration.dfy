/**
 Index generation at startup: every storage is scanned by some thread, in any order, and the
 contributions of outdated duplicates are taken out afterwards. The lattice hash and the data length
 come out as if only the newest version of every account had been counted.
 */
module IndexGeneration {
  import opened Types

  // ---------- the lattice hash and the running totals ----------

  const NUM_ELEMENTS: nat := 1024

  type Word = x: int | 0 <= x < 0x1_0000

  function WrappingAdd(x: Word, y: Word): Word {
    (x + y) % 0x1_0000
  }

  function WrappingSub(x: Word, y: Word): Word {
    (x - y) % 0x1_0000
  }

  type LtHash = h: seq<Word> | |h| == NUM_ELEMENTS witness seq(NUM_ELEMENTS, _ => 0)

  function Identity(): LtHash {
    seq(NUM_ELEMENTS, _ => 0)
  }

  // Element-wise addition and subtraction, wrapping at sixteen bits.
  function MixIn(a: LtHash, b: LtHash): LtHash {
    seq(NUM_ELEMENTS, i requires 0 <= i < NUM_ELEMENTS => WrappingAdd(a[i], b[i]))
  }

  function MixOut(a: LtHash, b: LtHash): LtHash {
    seq(NUM_ELEMENTS, i requires 0 <= i < NUM_ELEMENTS => WrappingSub(a[i], b[i]))
  }

  datatype Totals = Totals(hash: LtHash, dataLen: nat)

  function Zero(): Totals {
    Totals(Identity(), 0)
  }

  function Add(a: Totals, b: Totals): Totals {
    Totals(MixIn(a.hash, b.hash), a.dataLen + b.dataLen)
  }

  lemma AddCommutes(a: Totals, b: Totals)
    ensures Add(a, b) == Add(b, a)
  {
  }

  lemma WrapAssociates(x: Word, y: Word, z: Word)
    ensures WrappingAdd(WrappingAdd(x, y), z) == WrappingAdd(x, WrappingAdd(y, z))
  {
  }

  lemma WrapUndone(x: Word, y: Word)
    ensures WrappingSub(WrappingAdd(x, y), y) == x
  {
  }

  lemma MixAssociates(a: LtHash, b: LtHash, c: LtHash)
    ensures MixIn(MixIn(a, b), c) == MixIn(a, MixIn(b, c))
  {
    forall i | 0 <= i < NUM_ELEMENTS ensures MixIn(MixIn(a, b), c)[i] == MixIn(a, MixIn(b, c))[i] {
      WrapAssociates(a[i], b[i], c[i]);
    }
  }

  lemma AddAssociates(a: Totals, b: Totals, c: Totals)
    ensures Add(Add(a, b), c) == Add(a, Add(b, c))
  {
    MixAssociates(a.hash, b.hash, c.hash);
  }

  lemma AddZero(a: Totals)
    ensures Add(a, Zero()) == a && Add(Zero(), a) == a
  {
  }

  lemma MixOutUndoesMixIn(a: LtHash, b: LtHash)
    ensures MixOut(MixIn(a, b), b) == a
  {
    forall i | 0 <= i < NUM_ELEMENTS ensures MixOut(MixIn(a, b), b)[i] == a[i] {
      WrapUndone(a[i], b[i]);
    }
  }

  // ---------- sums over sets of stored versions ----------

  // The accounts alive in storages: what the index will point to.
  type Versions = map<(Slot, Pubkey), Account>

  // The account hash itself is a parameter.
  type Hasher = (Pubkey, Account) -> LtHash

  function Contribution(hasher: Hasher, k: Pubkey, account: Account): Totals {
    if account.lamports == 0 then Zero() else Totals(hasher(k, account), |account.data|)
  }

  ghost function Pick(entries: set<(Slot, Pubkey)>): (e: (Slot, Pubkey))
    requires entries != {}
    ensures e in entries
  {
    var e :| e in entries;
    e
  }

  ghost function Sum(hasher: Hasher, versions: Versions, entries: set<(Slot, Pubkey)>): Totals
    requires entries <= versions.Keys
  {
    if entries == {} then Zero()
    else
      var e := Pick(entries);
      Add(Sum(hasher, versions, entries - {e}), Contribution(hasher, e.1, versions[e]))
  }

  // The data bytes of the accounts that have lamports.
  ghost function DataLength(versions: Versions, entries: set<(Slot, Pubkey)>): nat
    requires entries <= versions.Keys
  {
    if entries == {} then 0
    else
      var e := Pick(entries);
      DataLength(versions, entries - {e}) + if versions[e].ZeroLamport() then 0 else |versions[e].data|
  }

  lemma {:induction false} SumHasDataLength(hasher: Hasher, versions: Versions, entries: set<(Slot, Pubkey)>)
    requires entries <= versions.Keys
    ensures Sum(hasher, versions, entries).dataLen == DataLength(versions, entries)
  {
    if entries != {} {
      SumHasDataLength(hasher, versions, entries - {Pick(entries)});
    }
  }

  // One word of the hashes of the accounts that have lamports, added up without wrapping.
  ghost function WordSum(hasher: Hasher, versions: Versions, entries: set<(Slot, Pubkey)>, i: nat): nat
    requires entries <= versions.Keys && i < NUM_ELEMENTS
  {
    if entries == {} then 0
    else
      var e := Pick(entries);
      WordSum(hasher, versions, entries - {e}, i)
        + if versions[e].ZeroLamport() then 0 else hasher(e.1, versions[e])[i]
  }

  lemma WrapsOnce(x: nat, y: Word)
    ensures WrappingAdd(x % 0x1_0000, y) == (x + y) % 0x1_0000
  {
  }

  lemma {:induction false} SumHasWords(hasher: Hasher, versions: Versions, entries: set<(Slot, Pubkey)>, i: nat)
    requires entries <= versions.Keys && i < NUM_ELEMENTS
    ensures Sum(hasher, versions, entries).hash[i] == WordSum(hasher, versions, entries, i) % 0x1_0000
  {
    if entries != {} {
      var e := Pick(entries);
      SumHasWords(hasher, versions, entries - {e}, i);
      WrapsOnce(WordSum(hasher, versions, entries - {e}, i), Contribution(hasher, e.1, versions[e]).hash[i]);
    }
  }

  // The data length, and every word of the hash, of these versions.
  ghost predicate Totalled(hasher: Hasher, versions: Versions, entries: set<(Slot, Pubkey)>, totals: Totals)
    requires entries <= versions.Keys
  {
    && totals.dataLen == DataLength(versions, entries)
    && forall i | 0 <= i < NUM_ELEMENTS :: totals.hash[i] == WordSum(hasher, versions, entries, i) % 0x1_0000
  }

  /** Wrapped sums and running totals are the plain sums over the accounts that have lamports. */
  lemma SumIsTotal(hasher: Hasher, versions: Versions, entries: set<(Slot, Pubkey)>)
    requires entries <= versions.Keys
    ensures Totalled(hasher, versions, entries, Sum(hasher, versions, entries))
  {
    SumHasDataLength(hasher, versions, entries);
    forall i | 0 <= i < NUM_ELEMENTS
      ensures Sum(hasher, versions, entries).hash[i] == WordSum(hasher, versions, entries, i) % 0x1_0000
    {
      SumHasWords(hasher, versions, entries, i);
    }
  }

  lemma SwapLast(a: Totals, b: Totals, c: Totals)
    ensures Add(Add(a, b), c) == Add(Add(a, c), b)
  {
    AddAssociates(a, b, c);
    AddCommutes(b, c);
    AddAssociates(a, c, b);
  }

  lemma {:induction false} SumTakes(hasher: Hasher, versions: Versions, entries: set<(Slot, Pubkey)>, e: (Slot, Pubkey))
    requires entries <= versions.Keys && e in entries
    ensures Sum(hasher, versions, entries)
            == Add(Sum(hasher, versions, entries - {e}), Contribution(hasher, e.1, versions[e]))
  {
    var p := Pick(entries);
    if p != e {
      SumTakes(hasher, versions, entries - {p}, e);
      SumTakes(hasher, versions, entries - {e}, p);
      assert entries - {p} - {e} == entries - {e} - {p};
      SwapLast(Sum(hasher, versions, entries - {p} - {e}),
               Contribution(hasher, e.1, versions[e]), Contribution(hasher, p.1, versions[p]));
    }
  }

  lemma SumAdds(hasher: Hasher, versions: Versions, entries: set<(Slot, Pubkey)>, e: (Slot, Pubkey))
    requires entries <= versions.Keys && e in versions && e !in entries
    ensures Sum(hasher, versions, entries + {e})
            == Add(Sum(hasher, versions, entries), Contribution(hasher, e.1, versions[e]))
  {
    SumTakes(hasher, versions, entries + {e}, e);
    assert entries + {e} - {e} == entries;
  }

  lemma {:induction false} SumSplits(hasher: Hasher, versions: Versions, a: set<(Slot, Pubkey)>, b: set<(Slot, Pubkey)>)
    requires a <= versions.Keys && b <= versions.Keys && a !! b
    ensures Sum(hasher, versions, a + b) == Add(Sum(hasher, versions, a), Sum(hasher, versions, b))
    decreases b
  {
    if b == {} {
      assert a + b == a;
      AddZero(Sum(hasher, versions, a));
    } else {
      var e := Pick(b);
      var c := Contribution(hasher, e.1, versions[e]);
      SumSplits(hasher, versions, a, b - {e});
      assert a + b == (a + (b - {e})) + {e};
      SumAdds(hasher, versions, a + (b - {e}), e);
      AddAssociates(Sum(hasher, versions, a), Sum(hasher, versions, b - {e}), c);
    }
  }

  lemma {:induction false} SumAgrees(hasher: Hasher, a: Versions, b: Versions, entries: set<(Slot, Pubkey)>)
    requires entries <= a.Keys && entries <= b.Keys && forall e | e in entries :: a[e] == b[e]
    ensures Sum(hasher, a, entries) == Sum(hasher, b, entries)
  {
    if entries != {} {
      SumAgrees(hasher, a, b, entries - {Pick(entries)});
    }
  }

  // Versions of different slots put together.
  lemma SumMerges(hasher: Hasher, a: Versions, b: Versions)
    requires a.Keys !! b.Keys
    ensures Sum(hasher, a + b, (a + b).Keys) == Add(Sum(hasher, a, a.Keys), Sum(hasher, b, b.Keys))
  {
    assert (a + b).Keys == a.Keys + b.Keys;
    SumAgrees(hasher, a, a + b, a.Keys);
    SumAgrees(hasher, b, a + b, b.Keys);
    SumSplits(hasher, a + b, a.Keys, b.Keys);
  }

  // ---------- scanning the storages ----------

  datatype StoredAccount = StoredAccount(offset: Offset, key: Pubkey, account: Account)

  datatype Storage = Storage(slot: Slot, accounts: seq<StoredAccount>, obsolete: set<Offset>) {
    predicate Alive(i: nat)
      requires i < |accounts|
    {
      accounts[i].offset !in obsolete
    }

    // A storage holds at most one version of a key that is not obsolete.
    ghost predicate OneVersion() {
      forall i: nat, j: nat | i < j < |accounts| && Alive(i) && Alive(j) :: accounts[i].key != accounts[j].key
    }
  }

  // What the first n accounts of a storage contribute to the index.
  ghost predicate Indexes(storage: Storage, n: nat, index: Versions)
    requires n <= |storage.accounts|
  {
    && (forall e | e in index :: e.0 == storage.slot)
    && (forall k :: (storage.slot, k) in index <==>
          exists i: nat :: i < n && storage.Alive(i) && storage.accounts[i].key == k)
    && (forall i: nat | i < n && storage.Alive(i) ::
          var e := (storage.slot, storage.accounts[i].key); e in index && index[e] == storage.accounts[i].account)
  }

  ghost predicate StoredAt(storages: seq<Storage>, i: int, j: int, e: (Slot, Pubkey), account: Account) {
    && 0 <= i < |storages| && 0 <= j < |storages[i].accounts| && storages[i].slot == e.0
    && storages[i].accounts[j].offset !in storages[i].obsolete
    && storages[i].accounts[j].key == e.1 && storages[i].accounts[j].account == account
  }

  ghost predicate StoredIn(storages: seq<Storage>, e: (Slot, Pubkey), account: Account) {
    exists i, j :: StoredAt(storages, i, j, e, account)
  }

  // An entry for every account of a storage that is not obsolete, and no other.
  ghost predicate ReadFrom(storages: seq<Storage>, index: Versions) {
    forall e, account :: StoredIn(storages, e, account) <==> e in index && index[e] == account
  }

  lemma IndexesAreRead(storage: Storage, index: Versions)
    requires Indexes(storage, |storage.accounts|, index)
    ensures ReadFrom([storage], index)
  {
    forall e, account ensures StoredIn([storage], e, account) <==> e in index && index[e] == account {
      if e in index && index[e] == account {
        assert e == (storage.slot, e.1);
        var j: nat :| j < |storage.accounts| && storage.Alive(j) && storage.accounts[j].key == e.1;
        assert StoredAt([storage], 0, j, e, account);
      }
      if i, j :| StoredAt([storage], i, j, e, account) {
        assert storage.Alive(j);
      }
    }
  }

  lemma NextVersion(hasher: Hasher, index: Versions, e: (Slot, Pubkey), account: Account)
    requires e !in index
    ensures Sum(hasher, index[e := account], index[e := account].Keys)
         == Add(Sum(hasher, index, index.Keys), Contribution(hasher, e.1, account))
  {
    var index' := index[e := account];
    SumAdds(hasher, index', index.Keys, e);
    SumAgrees(hasher, index, index', index.Keys);
    assert index.Keys + {e} == index'.Keys;
  }

  method GenerateIndexForSlot(hasher: Hasher, storage: Storage) returns (index: Versions, totals: Totals)
    requires storage.OneVersion()
    ensures Indexes(storage, |storage.accounts|, index)
    ensures totals == Sum(hasher, index, index.Keys)
    ensures ReadFrom([storage], index) && Totalled(hasher, index, index.Keys, totals)
  {
    index, totals := map[], Zero();
    for i := 0 to |storage.accounts|
      invariant Indexes(storage, i, index)
      invariant totals == Sum(hasher, index, index.Keys)
    {
      if storage.Alive(i) {
        var e := (storage.slot, storage.accounts[i].key);
        var account := storage.accounts[i].account;
        NextVersion(hasher, index, e, account);
        totals := Add(totals, Contribution(hasher, e.1, account));
        index := index[e := account];
      }
    }
    IndexesAreRead(storage, index);
    SumIsTotal(hasher, index, index.Keys);
  }

  ghost predicate Holds(storage: Storage, e: (Slot, Pubkey), account: Account) {
    && storage.slot == e.0
    && exists i: nat :: i < |storage.accounts| && storage.Alive(i) && storage.accounts[i].key == e.1
        && storage.accounts[i].account == account
  }

  // The index holds exactly the versions of the storages done so far.
  ghost predicate Covers(storages: seq<Storage>, done: set<nat>, index: Versions) {
    && (forall i, e, a | i in done && i < |storages| && Holds(storages[i], e, a) :: e in index && index[e] == a)
    && (forall e | e in index :: exists i :: i in done && i < |storages| && Holds(storages[i], e, index[e]))
  }

  ghost predicate Loadable(storages: seq<Storage>) {
    && (forall i | 0 <= i < |storages| :: storages[i].OneVersion())
    && (forall i, j | 0 <= i < j < |storages| :: storages[i].slot != storages[j].slot)
  }

  lemma IndexesHolds(storage: Storage, index: Versions, e: (Slot, Pubkey), a: Account)
    requires Indexes(storage, |storage.accounts|, index)
    ensures Holds(storage, e, a) <==> e in index && index[e] == a
  {
    if e in index {
      assert e == (storage.slot, e.1);
    }
  }

  lemma FoundIsNew(storages: seq<Storage>, done: set<nat>, index: Versions, i: nat, found: Versions)
    requires Loadable(storages) && i < |storages| && i !in done && Covers(storages, done, index)
    requires Indexes(storages[i], |storages[i].accounts|, found)
    ensures index.Keys !! found.Keys
  {
    forall e | e in index ensures e !in found {
      var j :| j in done && j < |storages| && Holds(storages[j], e, index[e]);
    }
  }

  lemma CoverOneMore(storages: seq<Storage>, done: set<nat>, index: Versions, i: nat, found: Versions)
    requires i < |storages| && Covers(storages, done, index) && index.Keys !! found.Keys
    requires forall e, a :: Holds(storages[i], e, a) <==> e in found && found[e] == a
    ensures Covers(storages, done + {i}, index + found)
  {
    var all := index + found;
    forall e | e in all ensures exists j :: j in done + {i} && j < |storages| && Holds(storages[j], e, all[e]) {
      if e in found {
        assert Holds(storages[i], e, all[e]);
      } else {
        var j :| j in done && j < |storages| && Holds(storages[j], e, index[e]);
      }
    }
  }

  // A thread scans one storage: its accounts enter the shared index, its totals the thread's own.
  method TakeStorage(hasher: Hasher, storages: seq<Storage>, i: nat, index: Versions, accum: Totals,
                     ghost done: set<nat>, ghost others: Totals)
    returns (index': Versions, accum': Totals)
    requires Loadable(storages) && i < |storages| && i !in done && Covers(storages, done, index)
    requires Sum(hasher, index, index.Keys) == Add(others, accum)
    ensures Covers(storages, done + {i}, index')
    ensures Sum(hasher, index', index'.Keys) == Add(others, accum')
  {
    var found, totals := GenerateIndexForSlot(hasher, storages[i]);
    FoundIsNew(storages, done, index, i, found);
    forall e, a ensures Holds(storages[i], e, a) <==> e in found && found[e] == a {
      IndexesHolds(storages[i], found, e, a);
    }
    CoverOneMore(storages, done, index, i, found);
    SumMerges(hasher, index, found);
    AddAssociates(others, accum, totals);
    index', accum' := index + found, Add(accum, totals);
  }

  // Storages taken, each once and none taken before.
  ghost predicate TakenOnce(taken: seq<nat>, done: set<nat>, n: nat) {
    && (forall i | 0 <= i < |taken| :: taken[i] < n && taken[i] !in done)
    && (forall i, j | 0 <= i < j < |taken| :: taken[i] != taken[j])
  }

  ghost function Members(taken: seq<nat>): set<nat> {
    set x | x in taken
  }

  // The storages done before each one is taken.
  ghost predicate Progress(taken: seq<nat>, done: set<nat>, n: nat, before: seq<set<nat>>) {
    && |before| == |taken| + 1 && before[0] == done && before[|taken|] == done + Members(taken)
    && forall i: nat {:trigger taken[i]} | i < |taken| ::
         taken[i] < n && taken[i] !in before[i] && before[i + 1] == before[i] + {taken[i]}
  }

  lemma MembersNext(taken: seq<nat>, i: nat)
    requires i < |taken|
    ensures Members(taken[..i + 1]) == Members(taken[..i]) + {taken[i]}
  {
    assert taken[..i + 1] == taken[..i] + [taken[i]];
  }

  lemma Progresses(taken: seq<nat>, done: set<nat>, n: nat) returns (before: seq<set<nat>>)
    requires TakenOnce(taken, done, n)
    ensures Progress(taken, done, n, before)
  {
    before := seq(|taken| + 1, i requires 0 <= i <= |taken| => done + Members(taken[..i]));
    assert taken[..|taken|] == taken;
    forall i: nat | i < |taken|
      ensures taken[i] < n && taken[i] !in before[i] && before[i + 1] == before[i] + {taken[i]}
    {
      MembersNext(taken, i);
    }
  }

  // One thread adds up the storages it takes on its own.
  method RunThread(hasher: Hasher, storages: seq<Storage>, taken: seq<nat>, index: Versions, ghost done: set<nat>)
    returns (index': Versions, accum: Totals)
    requires Loadable(storages) && TakenOnce(taken, done, |storages|) && Covers(storages, done, index)
    ensures Covers(storages, done + Members(taken), index')
    ensures Sum(hasher, index', index'.Keys) == Add(Sum(hasher, index, index.Keys), accum)
  {
    ghost var before := Progresses(taken, done, |storages|);
    ghost var others := Sum(hasher, index, index.Keys);
    index', accum := index, Zero();
    AddZero(others);
    for i := 0 to |taken|
      invariant Covers(storages, before[i], index')
      invariant Sum(hasher, index', index'.Keys) == Add(others, accum)
    {
      index', accum := TakeStorage(hasher, storages, taken[i], index', accum, before[i], others);
    }
  }

  // The threads take every storage exactly once between them.
  ghost predicate Schedule(threads: seq<seq<nat>>, done: set<nat>, n: nat)
    decreases |threads|
  {
    if threads == [] then forall i: nat :: i in done <==> i < n
    else TakenOnce(threads[0], done, n) && Schedule(threads[1..], done + Members(threads[0]), n)
  }

  // All threads, joined one after the other.
  method ScanStorages(hasher: Hasher, storages: seq<Storage>, threads: seq<seq<nat>>)
    returns (index: Versions, total: Totals, ghost all: set<nat>)
    requires Loadable(storages) && Schedule(threads, {}, |storages|)
    ensures forall i: nat :: i in all <==> i < |storages|
    ensures Covers(storages, all, index)
    ensures total == Sum(hasher, index, index.Keys)
  {
    index, total, all := map[], Zero(), {};
    for t := 0 to |threads|
      invariant Schedule(threads[t..], all, |storages|)
      invariant Covers(storages, all, index)
      invariant total == Sum(hasher, index, index.Keys)
    {
      assert threads[t..][1..] == threads[t + 1..];
      var accum;
      index, accum := RunThread(hasher, storages, threads[t], index, all);
      total := Add(total, accum);
      all := all + Members(threads[t]);
    }
  }

  // ---------- taking out the duplicates ----------

  predicate IsNewest(index: Versions, e: (Slot, Pubkey)) {
    forall f | f in index && f.1 == e.1 :: f.0 <= e.0
  }

  ghost function Newest(index: Versions): set<(Slot, Pubkey)> {
    set e | e in index && IsNewest(index, e)
  }

  ghost function Outdated(index: Versions, keys: set<Pubkey>): set<(Slot, Pubkey)> {
    set e | e in index && e.1 in keys && !IsNewest(index, e)
  }

  function SlotList(index: Versions, k: Pubkey): set<Slot> {
    set e | e in index && e.1 == k :: e.0
  }

  lemma SlotListed(index: Versions, k: Pubkey, s: Slot)
    ensures s in SlotList(index, k) <==> (s, k) in index
  {
    if (s, k) in index {
      assert (s, k).0 in SlotList(index, k);
    }
  }

  lemma DuplicatesOfKey(index: Versions, k: Pubkey, slots: set<Slot>, done: set<(Slot, Pubkey)>)
    requires forall s :: s in slots <==> (s, k) in index
    requires if |slots| > 1 then exists max | max in slots && (forall s | s in slots :: s <= max) ::
               forall e :: e in done <==> e.1 == k && e.0 in slots - {max}
             else done == {}
    ensures done == Outdated(index, {k})
  {
    if |slots| <= 1 {
      forall e | e in index && e.1 == k ensures IsNewest(index, e) {
        forall f | f in index && f.1 == k ensures f.0 <= e.0 {
          assert f == (f.0, k) && e == (e.0, k);
          SubsetCard({e.0, f.0}, slots);
        }
      }
    } else {
      var max :| max in slots && (forall s | s in slots :: s <= max)
        && forall e :: e in done <==> e.1 == k && e.0 in slots - {max};
      forall e ensures e in done <==> e in Outdated(index, {k}) {
        if e.1 == k {
          assert e == (e.0, k);
          if e in index && e.0 != max {
            assert (max, k) in index;
          }
          if e in index && e.0 == max {
            forall f | f in index && f.1 == k ensures f.0 <= e.0 { assert f == (f.0, k); }
          }
        }
      }
    }
  }

  // All versions of a key but the one in the highest slot.
  method VisitDuplicatesOf(hasher: Hasher, index: Versions, k: Pubkey) returns (totals: Totals)
    ensures totals == Sum(hasher, index, Outdated(index, {k}))
  {
    totals := Zero();
    var slots := SlotList(index, k);
    forall s: Slot ensures s in slots <==> (s, k) in index { SlotListed(index, k, s); }
    ghost var done: set<(Slot, Pubkey)> := {};
    if |slots| > 1 {
      ghost var top := TopOf(slots);
      var max :| max in slots && forall s | s in slots :: s <= max;
      var todo := slots - {max};
      while todo != {}
        invariant todo <= slots - {max}
        invariant done <= index.Keys && forall e :: e in done <==> e.1 == k && e.0 in slots - {max} - todo
        invariant totals == Sum(hasher, index, done)
      {
        var s :| s in todo;
        SumAdds(hasher, index, done, (s, k));
        totals := Add(totals, Contribution(hasher, k, index[(s, k)]));
        todo, done := todo - {s}, done + {(s, k)};
      }
    }
    DuplicatesOfKey(index, k, slots, done);
  }

  lemma OutdatedAdds(index: Versions, keys: set<Pubkey>, k: Pubkey)
    requires k !in keys
    ensures Outdated(index, keys + {k}) == Outdated(index, keys) + Outdated(index, {k})
    ensures Outdated(index, keys) !! Outdated(index, {k})
  {
  }

  method VisitDuplicates(hasher: Hasher, index: Versions, keys: set<Pubkey>) returns (totals: Totals)
    ensures totals == Sum(hasher, index, Outdated(index, keys))
  {
    totals := Zero();
    var todo := keys;
    ghost var done: set<Pubkey> := {};
    assert Outdated(index, done) == {};
    while todo != {}
      invariant todo <= keys && done == keys - todo
      invariant totals == Sum(hasher, index, Outdated(index, done))
    {
      var k :| k in todo;
      var more := VisitDuplicatesOf(hasher, index, k);
      OutdatedAdds(index, done, k);
      SumSplits(hasher, index, Outdated(index, done), Outdated(index, {k}));
      totals := Add(totals, more);
      todo, done := todo - {k}, done + {k};
    }
    assert done == keys;
  }

  // The keys found in more than one slot.
  function DuplicateKeys(index: Versions): set<Pubkey> {
    set e | e in index && |SlotList(index, e.1)| > 1 :: e.1
  }

  lemma DuplicatesAreOutdated(index: Versions)
    ensures Outdated(index, DuplicateKeys(index)) + Newest(index) == index.Keys
    ensures Outdated(index, DuplicateKeys(index)) !! Newest(index)
  {
    forall e | e in index && !IsNewest(index, e) ensures e.1 in DuplicateKeys(index) {
      var f :| f in index && f.1 == e.1 && f.0 > e.0;
      SlotListed(index, e.1, e.0);
      SlotListed(index, e.1, f.0);
      SubsetCard({e.0, f.0}, SlotList(index, e.1));
    }
  }

  method TakeOut(hasher: Hasher, index: Versions, total: Totals, duplicates: Totals) returns (totals: Totals)
    requires total == Sum(hasher, index, index.Keys)
    requires duplicates == Sum(hasher, index, Outdated(index, DuplicateKeys(index)))
    ensures totals == Sum(hasher, index, Newest(index))
  {
    DuplicatesAreOutdated(index);
    var outdated := Outdated(index, DuplicateKeys(index));
    SumSplits(hasher, index, outdated, Newest(index));
    AddCommutes(duplicates, Sum(hasher, index, Newest(index)));
    MixOutUndoesMixIn(Sum(hasher, index, Newest(index)).hash, duplicates.hash);
    totals := Totals(MixOut(total.hash, duplicates.hash), total.dataLen - duplicates.dataLen);
  }

  ghost predicate AreNewest(index: Versions, entries: set<(Slot, Pubkey)>) {
    forall e :: e in entries <==> e in index && forall f | f in index && f.1 == e.1 :: f.0 <= e.0
  }

  lemma IndexIsRead(storages: seq<Storage>, all: set<nat>, index: Versions)
    requires Covers(storages, all, index) && forall i: nat :: i in all <==> i < |storages|
    ensures ReadFrom(storages, index)
  {
    forall e, account ensures StoredIn(storages, e, account) <==> e in index && index[e] == account {
      if e in index && index[e] == account {
        var i :| i in all && i < |storages| && Holds(storages[i], e, account);
        var j: nat :| j < |storages[i].accounts| && storages[i].Alive(j) && storages[i].accounts[j].key == e.1
          && storages[i].accounts[j].account == account;
        assert StoredAt(storages, i, j, e, account);
      }
      if i, j :| StoredAt(storages, i, j, e, account) {
        assert storages[i].Alive(j);
        assert Holds(storages[i], e, account);
      }
    }
  }

  lemma NewestAre(index: Versions)
    ensures Newest(index) <= index.Keys && AreNewest(index, Newest(index))
  {
  }

  method RemoveDuplicates(hasher: Hasher, index: Versions, total: Totals) returns (totals: Totals)
    requires total == Sum(hasher, index, index.Keys)
    ensures totals == Sum(hasher, index, Newest(index))
  {
    var duplicates := VisitDuplicates(hasher, index, DuplicateKeys(index));
    totals := TakeOut(hasher, index, total, duplicates);
  }

  // The index read from the storages, with the totals of its newest versions.
  ghost predicate Generated(hasher: Hasher, storages: seq<Storage>, index: Versions, newest: set<(Slot, Pubkey)>,
                            totals: Totals)
  {
    && ReadFrom(storages, index) && AreNewest(index, newest)
    && newest <= index.Keys && Totalled(hasher, index, newest, totals)
  }

  lemma GeneratedFrom(hasher: Hasher, storages: seq<Storage>, all: set<nat>, index: Versions, totals: Totals)
    requires Covers(storages, all, index) && forall i: nat :: i in all <==> i < |storages|
    requires totals == Sum(hasher, index, Newest(index))
    ensures Generated(hasher, storages, index, Newest(index), totals)
  {
    IndexIsRead(storages, all, index);
    NewestAre(index);
    SumIsTotal(hasher, index, Newest(index));
  }

  // Whatever threads take which storages in whatever order, the totals are those of the newest
  // versions, and taking the duplicates out does not underflow.
  method GenerateIndex(hasher: Hasher, storages: seq<Storage>, threads: seq<seq<nat>>)
    returns (index: Versions, totals: Totals, ghost all: set<nat>)
    requires Loadable(storages) && Schedule(threads, {}, |storages|)
    ensures forall i: nat :: i in all <==> i < |storages|
    ensures Covers(storages, all, index)
    ensures totals == Sum(hasher, index, Newest(index))
    ensures Generated(hasher, storages, index, Newest(index), totals)
  {
    var total;
    index, total, all := ScanStorages(hasher, storages, threads);
    totals := RemoveDuplicates(hasher, index, total);
    GeneratedFrom(hasher, storages, all, index, totals);
  }

  method NewestSlot(index: Versions, k: Pubkey) returns (s: Slot)
    requires exists e :: e in index && e.1 == k
    ensures (s, k) in index && IsNewest(index, (s, k))
    ensures forall e | e in Newest(index) && e.1 == k :: e == (s, k)
  {
    var slots := SlotList(index, k);
    forall s: Slot ensures s in slots <==> (s, k) in index { SlotListed(index, k, s); }
    ghost var e :| e in index && e.1 == k;
    assert e == (e.0, k);
    ghost var top := TopOf(slots);
    s :| s in slots && forall t | t in slots :: t <= s;
    forall f | f in index && f.1 == k ensures f.0 <= s { assert f == (f.0, k); }
    forall f | f in Newest(index) && f.1 == k ensures f == (s, k) { assert f == (f.0, k); }
  }

  // The walk over the finished index, key by key, skipping accounts without lamports.
  method HashFromIndex(hasher: Hasher, index: Versions) returns (hash: LtHash)
    ensures hash == Sum(hasher, index, Newest(index)).hash
  {
    hash := Identity();
    var todo := set e | e in index :: e.1;
    ghost var done: set<(Slot, Pubkey)> := {};
    while todo != {}
      invariant forall k | k in todo :: exists e :: e in index && e.1 == k
      invariant forall e :: e in done <==> e in Newest(index) && e.1 !in todo
      invariant hash == Sum(hasher, index, done).hash
    {
      var k :| k in todo;
      var s := NewestSlot(index, k);
      var account := index[(s, k)];
      SumAdds(hasher, index, done, (s, k));
      AddZero(Sum(hasher, index, done));
      if account.lamports != 0 {
        hash := MixIn(hash, hasher(k, account));
      }
      todo, done := todo - {k}, done + {(s, k)};
    }
    assert done == Newest(index);
  }
}
