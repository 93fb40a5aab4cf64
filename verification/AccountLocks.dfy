/**
 The account lock table: counted read and write locks taken by transactions, one at a time (strict
 mode) or by batches whose transactions may overlap each other (relaxed mode, SIMD-0083).
 */
module AccountLocking {
  import opened Types

  datatype Lock = Lock(key: Pubkey, writable: bool)

  datatype Error = AccountInUse | TooManyAccountLocks | AccountLoadedTwice | Other(code: nat)

  datatype Result<+T> = Ok(value: T) | Err(error: Error)

  // A transaction that holds its locks, and the batch it was locked in.
  datatype Grant = Grant(batch: nat, locks: seq<Lock>)

  // ---------- what is held ----------

  ghost function Held(grants: seq<Grant>): multiset<Lock> {
    if grants == [] then multiset{}
    else Held(grants[..|grants| - 1]) + multiset(grants[|grants| - 1].locks)
  }

  predicate Clash(a: Lock, b: Lock) {
    a.key == b.key && (a.writable || b.writable)
  }

  ghost predicate Conflict(a: seq<Lock>, b: seq<Lock>) {
    exists x, y :: x in a && y in b && Clash(x, y)
  }

  ghost predicate Free(held: multiset<Lock>, locks: seq<Lock>) {
    forall x, y | x in held && y in locks :: !Clash(x, y)
  }

  // Conflicting transactions hold locks together only within a batch.
  ghost predicate BatchesApart(grants: seq<Grant>) {
    forall i, j | 0 <= i < j < |grants| && grants[i].batch != grants[j].batch ::
      !Conflict(grants[i].locks, grants[j].locks)
  }

  ghost predicate NoConflicts(grants: seq<Grant>) {
    forall i, j | 0 <= i < j < |grants| :: !Conflict(grants[i].locks, grants[j].locks)
  }

  lemma {:induction false} HeldByGrant(grants: seq<Grant>, i: nat)
    requires i < |grants|
    ensures multiset(grants[i].locks) <= Held(grants)
  {
    if i < |grants| - 1 {
      HeldByGrant(grants[..|grants| - 1], i);
    }
  }

  lemma {:induction false} HeldIsGranted(grants: seq<Grant>, x: Lock) returns (i: nat)
    requires x in Held(grants)
    ensures i < |grants| && x in grants[i].locks
  {
    var last := |grants| - 1;
    if x in grants[last].locks {
      i := last;
    } else {
      i := HeldIsGranted(grants[..last], x);
    }
  }

  lemma HeldAppend(grants: seq<Grant>, g: Grant)
    ensures Held(grants + [g]) == Held(grants) + multiset(g.locks)
  {
    assert (grants + [g])[..|grants|] == grants;
  }

  function Remove(grants: seq<Grant>, i: nat): seq<Grant>
    requires i < |grants|
  {
    grants[..i] + grants[i + 1..]
  }

  lemma MinusPlus(a: multiset<Lock>, b: multiset<Lock>, c: multiset<Lock>)
    requires b <= a
    ensures a - b + c == a + c - b
  {
  }

  lemma RemoveEarlier(grants: seq<Grant>, i: nat)
    requires i < |grants| - 1
    ensures Remove(grants, i) == Remove(grants[..|grants| - 1], i) + [grants[|grants| - 1]]
  {
  }

  lemma {:induction false} HeldRemove(grants: seq<Grant>, i: nat)
    requires i < |grants|
    ensures Held(Remove(grants, i)) == Held(grants) - multiset(grants[i].locks)
  {
    var most, last := grants[..|grants| - 1], grants[|grants| - 1];
    var mine, rest := multiset(grants[i].locks), multiset(last.locks);
    assert Held(grants) == Held(most) + rest;
    if i == |grants| - 1 {
      assert Remove(grants, i) == most;
    } else {
      HeldRemove(most, i);
      RemoveEarlier(grants, i);
      HeldAppend(Remove(most, i), last);
      HeldByGrant(most, i);
      MinusPlus(Held(most), mine, rest);
    }
  }

  // Locks free of everything held conflict with no grant.
  lemma FreeMeansNoConflict(grants: seq<Grant>, locks: seq<Lock>, i: nat)
    requires Free(Held(grants), locks) && i < |grants|
    ensures !Conflict(grants[i].locks, locks)
  {
    HeldByGrant(grants, i);
    forall x, y | x in grants[i].locks && y in locks ensures !Clash(x, y) {
      assert x in multiset(grants[i].locks);
      assert x in Held(grants);
    }
  }

  lemma FreeGrantKeeps(grants: seq<Grant>, g: Grant)
    requires Free(Held(grants), g.locks)
    ensures BatchesApart(grants) ==> BatchesApart(grants + [g])
    ensures NoConflicts(grants) ==> NoConflicts(grants + [g])
  {
    forall i | 0 <= i < |grants| ensures !Conflict(grants[i].locks, g.locks) {
      FreeMeansNoConflict(grants, g.locks, i);
    }
  }

  lemma RemoveKeeps(grants: seq<Grant>, i: nat)
    requires i < |grants|
    ensures BatchesApart(grants) ==> BatchesApart(Remove(grants, i))
    ensures NoConflicts(grants) ==> NoConflicts(Remove(grants, i))
  {
    var rest := Remove(grants, i);
    assert forall j | 0 <= j < |rest| :: rest[j] == grants[if j < i then j else j + 1];
  }

  // ---------- the table ----------

  // One table of counters mirrors the held locks of one kind: no zero counts.
  ghost predicate Mirrors(table: map<Pubkey, nat>, held: multiset<Lock>, writable: bool) {
    forall k :: (k in table <==> Lock(k, writable) in held) && (k in table ==> table[k] == held[Lock(k, writable)])
  }

  lemma Blocked(held: multiset<Lock>, locks: seq<Lock>, i: nat, x: Lock)
    requires i < |locks| && x in held && Clash(x, locks[i])
    ensures !Free(held, locks)
  {
    assert locks[i] in locks;
  }

  lemma Unblocked(held: multiset<Lock>, y: Lock)
    requires Lock(y.key, true) !in held && (y.writable ==> Lock(y.key, false) !in held)
    ensures forall x | x in held :: !Clash(x, y)
  {
    forall x | x in held ensures !Clash(x, y) {
      assert x == Lock(x.key, x.writable);
    }
  }

  lemma CountUp(table: map<Pubkey, nat>, held: multiset<Lock>, x: Lock, writable: bool)
    requires Mirrors(table, held, writable) && x.writable == writable
    ensures Mirrors(table[x.key := (if x.key in table then table[x.key] else 0) + 1], held + multiset{x}, writable)
  {
    assert x == Lock(x.key, writable);
  }

  lemma CountOther(table: map<Pubkey, nat>, held: multiset<Lock>, x: Lock, writable: bool)
    requires Mirrors(table, held, writable) && x.writable != writable
    ensures Mirrors(table, held + multiset{x}, writable)
  {
  }

  // An entry is removed when its count reaches zero.
  function Decrement(table: map<Pubkey, nat>, k: Pubkey): map<Pubkey, nat>
    requires k in table && table[k] > 0
  {
    if table[k] == 1 then table - {k} else table[k := table[k] - 1]
  }

  lemma CountDown(table: map<Pubkey, nat>, held: multiset<Lock>, x: Lock, writable: bool)
    requires Mirrors(table, held, writable) && x.writable == writable && x in held
    ensures x.key in table && table[x.key] > 0
    ensures Mirrors(Decrement(table, x.key), held - multiset{x}, writable)
  {
    assert x == Lock(x.key, writable);
  }

  lemma CountOtherDown(table: map<Pubkey, nat>, held: multiset<Lock>, x: Lock, writable: bool)
    requires Mirrors(table, held, writable) && x.writable != writable
    ensures Mirrors(table, held - multiset{x}, writable)
  {
  }

  // The first n locks of a transaction.
  ghost function FirstLocks(locks: seq<Lock>, n: nat): multiset<Lock>
    requires n <= |locks|
  {
    if n == 0 then multiset{} else FirstLocks(locks, n - 1) + multiset{locks[n - 1]}
  }

  lemma {:induction false} FirstLocksAre(locks: seq<Lock>, n: nat)
    requires n <= |locks|
    ensures FirstLocks(locks, n) == multiset(locks[..n])
  {
    if n > 0 {
      FirstLocksAre(locks, n - 1);
      assert locks[..n] == locks[..n - 1] + [locks[n - 1]];
    }
  }

  lemma AllLocks(locks: seq<Lock>)
    ensures FirstLocks(locks, |locks|) == multiset(locks)
  {
    FirstLocksAre(locks, |locks|);
    assert locks[..|locks|] == locks;
  }

  // The locks from position n on.
  ghost function RestLocks(locks: seq<Lock>, n: nat): multiset<Lock>
    requires n <= |locks|
    decreases |locks| - n
  {
    if n == |locks| then multiset{} else multiset{locks[n]} + RestLocks(locks, n + 1)
  }

  lemma {:induction false} RestLocksAre(locks: seq<Lock>, n: nat)
    requires n <= |locks|
    ensures RestLocks(locks, n) == multiset(locks[n..])
    decreases |locks| - n
  {
    if n < |locks| {
      RestLocksAre(locks, n + 1);
      assert locks[n..] == [locks[n]] + locks[n + 1..];
    }
  }

  lemma AllAreLeft(locks: seq<Lock>, held: multiset<Lock>)
    requires multiset(locks) <= held
    ensures held == (held - multiset(locks)) + RestLocks(locks, 0)
  {
    RestLocksAre(locks, 0);
    assert locks[0..] == locks;
  }

  lemma DropOne<T>(base: multiset<T>, x: T, rest: multiset<T>)
    ensures x in base + (multiset{x} + rest) && base + (multiset{x} + rest) - multiset{x} == base + rest
  {
  }

  // What a validated request gets while `held` is held.
  ghost function Outcome(held: multiset<Lock>, request: Result<seq<Lock>>): Result<()> {
    match request
    case Err(e) => Err(e)
    case Ok(locks) => if Free(held, locks) then Ok(()) else Err(AccountInUse)
  }

  ghost predicate Checked(held: multiset<Lock>, requests: seq<Result<seq<Lock>>>, checked: seq<Result<seq<Lock>>>) {
    && |checked| == |requests|
    && forall i | 0 <= i < |requests| ::
         checked[i] == match Outcome(held, requests[i]) case Ok(_) => requests[i] case Err(e) => Err(e)
  }

  // The grants of the first n requests, as far as they passed.
  ghost function Granted(checked: seq<Result<seq<Lock>>>, batch: nat, n: nat): seq<Grant>
    requires n <= |checked|
  {
    if n == 0 then []
    else Granted(checked, batch, n - 1) + if checked[n - 1].Ok? then [Grant(batch, checked[n - 1].value)] else []
  }

  lemma Reassociate(a: seq<Grant>, b: seq<Grant>, c: seq<Grant>)
    ensures (a + b) + c == a + (b + c)
  {
  }

  lemma {:induction false} GrantedAre(checked: seq<Result<seq<Lock>>>, batch: nat, n: nat, i: nat) returns (j: nat)
    requires n <= |checked| && i < |Granted(checked, batch, n)|
    ensures j < n && checked[j].Ok? && Granted(checked, batch, n)[i] == Grant(batch, checked[j].value)
  {
    if i < |Granted(checked, batch, n - 1)| {
      j := GrantedAre(checked, batch, n - 1, i);
    } else {
      j := n - 1;
    }
  }

  lemma BatchKeepsApart(grants: seq<Grant>, requests: seq<Result<seq<Lock>>>, checked: seq<Result<seq<Lock>>>,
                        batch: nat)
    requires Checked(Held(grants), requests, checked)
    ensures BatchesApart(grants) ==> BatchesApart(grants + Granted(checked, batch, |checked|))
  {
    var more := Granted(checked, batch, |checked|);
    forall i, j | 0 <= i < |grants| && 0 <= j < |more| ensures !Conflict(grants[i].locks, more[j].locks) {
      var q := GrantedAre(checked, batch, |checked|, j);
      FreeMeansNoConflict(grants, checked[q].value, i);
    }
    forall j | 0 <= j < |more| ensures more[j].batch == batch {
      var q := GrantedAre(checked, batch, |checked|, j);
    }
  }

  function Verdict(request: Result<seq<Lock>>): Result<()> {
    match request
    case Ok(_) => Ok(())
    case Err(e) => Err(e)
  }

  class AccountLocks {
    var writeLocks: map<Pubkey, nat>
    var readonlyLocks: map<Pubkey, nat>
    ghost var grants: seq<Grant>

    ghost predicate Valid()
      reads this
    {
      Counts(Held(grants))
    }

    ghost predicate Counts(held: multiset<Lock>)
      reads this
    {
      Mirrors(writeLocks, held, true) && Mirrors(readonlyLocks, held, false)
    }

    constructor ()
      ensures Valid() && grants == []
    {
      writeLocks, readonlyLocks := map[], map[];
      grants := [];
    }

    predicate IsLockedReadonly(k: Pubkey)
      reads this
    {
      k in readonlyLocks && readonlyLocks[k] > 0
    }

    predicate IsLockedWrite(k: Pubkey)
      reads this
    {
      k in writeLocks && writeLocks[k] > 0
    }

    method CanLockAccounts(locks: seq<Lock>, ghost held: multiset<Lock>) returns (ok: bool)
      requires Counts(held)
      ensures ok <==> Free(held, locks)
    {
      for i := 0 to |locks|
        invariant forall j, x | 0 <= j < i && x in held :: !Clash(x, locks[j])
      {
        var k := locks[i].key;
        if locks[i].writable {
          if IsLockedReadonly(k) || IsLockedWrite(k) {
            Blocked(held, locks, i, Lock(k, IsLockedWrite(k)));
            return false;
          }
        } else if IsLockedWrite(k) {
          Blocked(held, locks, i, Lock(k, true));
          return false;
        }
        Unblocked(held, locks[i]);
      }
      return true;
    }

    // One lock more, or one less, in the table of its kind.
    method LockKey(x: Lock, ghost held: multiset<Lock>)
      requires Counts(held)
      modifies `writeLocks, `readonlyLocks
      ensures Counts(held + multiset{x})
    {
      var k := x.key;
      if x.writable {
        CountUp(writeLocks, held, x, true);
        CountOther(readonlyLocks, held, x, false);
        writeLocks := writeLocks[k := (if k in writeLocks then writeLocks[k] else 0) + 1];
      } else {
        CountUp(readonlyLocks, held, x, false);
        CountOther(writeLocks, held, x, true);
        readonlyLocks := readonlyLocks[k := (if k in readonlyLocks then readonlyLocks[k] else 0) + 1];
      }
    }

    method UnlockKey(x: Lock, ghost held: multiset<Lock>)
      requires Counts(held) && x in held
      modifies `writeLocks, `readonlyLocks
      ensures Counts(held - multiset{x})
    {
      if x.writable {
        CountDown(writeLocks, held, x, true);
        CountOtherDown(readonlyLocks, held, x, false);
        writeLocks := Decrement(writeLocks, x.key);
      } else {
        CountDown(readonlyLocks, held, x, false);
        CountOtherDown(writeLocks, held, x, true);
        readonlyLocks := Decrement(readonlyLocks, x.key);
      }
    }

    method LockAccounts(locks: seq<Lock>, ghost held: multiset<Lock>)
      requires Counts(held)
      modifies `writeLocks, `readonlyLocks
      ensures Counts(held + multiset(locks))
    {
      ghost var now := held;
      AllLocks(locks);
      for i := 0 to |locks|
        invariant now == held + FirstLocks(locks, i)
        invariant Counts(now)
      {
        LockKey(locks[i], now);
        now := now + multiset{locks[i]};
      }
    }

    method UnlockAccounts(locks: seq<Lock>, ghost held: multiset<Lock>)
      requires Counts(held) && multiset(locks) <= held
      modifies `writeLocks, `readonlyLocks
      ensures Counts(held - multiset(locks))
    {
      ghost var base, now := held - multiset(locks), held;
      AllAreLeft(locks, held);
      for i := 0 to |locks|
        invariant now == base + RestLocks(locks, i)
        invariant Counts(now)
      {
        DropOne(base, locks[i], RestLocks(locks, i + 1));
        UnlockKey(locks[i], now);
        now := base + RestLocks(locks, i + 1);
      }
    }

    // Strict mode: one transaction, granted exactly when nothing held conflicts with it.
    method TryLockAccounts(locks: seq<Lock>, ghost batch: nat) returns (r: Result<()>)
      requires Valid()
      modifies this
      ensures Valid()
      ensures r == Outcome(old(Held(grants)), Ok(locks))
      ensures grants == if r.Ok? then old(grants) + [Grant(batch, locks)] else old(grants)
      ensures old(BatchesApart(grants)) ==> BatchesApart(grants)
      ensures old(NoConflicts(grants)) ==> NoConflicts(grants)
    {
      var ok := CanLockAccounts(locks, Held(grants));
      if !ok {
        return Err(AccountInUse);
      }
      FreeGrantKeeps(grants, Grant(batch, locks));
      HeldAppend(grants, Grant(batch, locks));
      LockAccounts(locks, Held(grants));
      grants := grants + [Grant(batch, locks)];
      return Ok(());
    }

    // First pass of a batch: every request against the locks held before the batch.
    method CheckBatch(requests: seq<Result<seq<Lock>>>) returns (checked: seq<Result<seq<Lock>>>)
      requires Valid()
      ensures Checked(Held(grants), requests, checked)
    {
      checked := [];
      for i := 0 to |requests|
        invariant Checked(Held(grants), requests[..i], checked)
      {
        var request := requests[i];
        if request.Ok? {
          var ok := CanLockAccounts(request.value, Held(grants));
          if !ok {
            request := Err(AccountInUse);
          }
        }
        checked := checked + [request];
      }
      assert requests[..|requests|] == requests;
    }

    method LockOne(locks: seq<Lock>, ghost batch: nat)
      requires Valid()
      modifies this
      ensures Valid() && grants == old(grants) + [Grant(batch, locks)]
    {
      HeldAppend(grants, Grant(batch, locks));
      LockAccounts(locks, Held(grants));
      grants := grants + [Grant(batch, locks)];
    }

    // Second pass of a batch: every request that passed is locked.
    method LockChecked(checked: seq<Result<seq<Lock>>>, ghost batch: nat)
      requires Valid()
      modifies this
      ensures Valid() && grants == old(grants) + Granted(checked, batch, |checked|)
    {
      for i := 0 to |checked|
        invariant Valid() && grants == old(grants) + Granted(checked, batch, i)
      {
        if checked[i].Ok? {
          Reassociate(old(grants), Granted(checked, batch, i), [Grant(batch, checked[i].value)]);
          LockOne(checked[i].value, batch);
        }
      }
    }

    // Relaxed mode: the requests of a batch do not exclude each other.
    method TryLockTransactionBatch(requests: seq<Result<seq<Lock>>>, ghost batch: nat)
      returns (results: seq<Result<()>>, ghost checked: seq<Result<seq<Lock>>>)
      requires Valid()
      modifies this
      ensures Valid()
      ensures |results| == |requests|
              && forall i | 0 <= i < |results| :: results[i] == Outcome(old(Held(grants)), requests[i])
      ensures Checked(old(Held(grants)), requests, checked)
              && grants == old(grants) + Granted(checked, batch, |checked|)
      ensures old(BatchesApart(grants)) ==> BatchesApart(grants)
    {
      var todo := CheckBatch(requests);
      checked := todo;
      BatchKeepsApart(grants, requests, todo, batch);
      LockChecked(todo, batch);
      results := seq(|todo|, i requires 0 <= i < |todo| => Verdict(todo[i]));
    }

    method UnlockGrant(locks: seq<Lock>, ghost i: nat)
      requires Valid() && i < |grants| && grants[i].locks == locks
      modifies this
      ensures Valid() && grants == Remove(old(grants), i)
      ensures old(BatchesApart(grants)) ==> BatchesApart(grants)
      ensures old(NoConflicts(grants)) ==> NoConflicts(grants)
    {
      HeldByGrant(grants, i);
      HeldRemove(grants, i);
      RemoveKeeps(grants, i);
      UnlockAccounts(locks, Held(grants));
      grants := Remove(grants, i);
    }
  }

  // ---------- what the grants mean for the table ----------

  // With nothing granted both tables are empty.
  lemma NothingHeld(writeLocks: map<Pubkey, nat>, readonlyLocks: map<Pubkey, nat>)
    requires Mirrors(writeLocks, Held([]), true) && Mirrors(readonlyLocks, Held([]), false)
    ensures writeLocks == map[] && readonlyLocks == map[]
  {
  }

  // Two tables for the same held locks are equal, so locking and unlocking restores the table.
  lemma SameHeldSameTable(a: map<Pubkey, nat>, b: map<Pubkey, nat>, held: multiset<Lock>, writable: bool)
    requires Mirrors(a, held, writable) && Mirrors(b, held, writable)
    ensures a == b
  {
    assert forall k :: k in a <==> k in b;
  }

  ghost predicate DistinctKeys(locks: seq<Lock>) {
    forall i, j | 0 <= i < j < |locks| :: locks[i].key != locks[j].key
  }

  // A transaction with distinct keys holds one lock of each.
  lemma {:induction false} OneLockEach(locks: seq<Lock>, x: Lock)
    requires DistinctKeys(locks) && x in locks
    ensures multiset(locks)[x] == 1 && Lock(x.key, !x.writable) !in locks
  {
    var i :| 0 <= i < |locks| && locks[i] == x;
    assert locks == locks[..i] + [x] + locks[i + 1..];
    assert x !in locks[..i] && x !in locks[i + 1..];
    assert multiset(locks) == multiset(locks[..i]) + multiset{x} + multiset(locks[i + 1..]);
  }

  lemma {:induction false} NotHeld(grants: seq<Grant>, x: Lock)
    requires forall i | 0 <= i < |grants| :: x !in grants[i].locks
    ensures x !in Held(grants)
  {
    if grants != [] {
      NotHeld(grants[..|grants| - 1], x);
    }
  }

  // A write lock of the last grant keeps the key out of the other grants, and the reverse.
  lemma NotHeldBefore(grants: seq<Grant>, last: nat, x: Lock, y: Lock)
    requires NoConflicts(grants) && last == |grants| - 1
    requires x in grants[last].locks && Clash(x, y)
    ensures y !in Held(grants[..last])
  {
    forall i | 0 <= i < last ensures y !in grants[i].locks {
      assert !Conflict(grants[i].locks, grants[last].locks);
      assert Clash(y, x);
    }
    NotHeld(grants[..last], y);
  }

  // Without conflicts between grants a write lock is held once, and alone.
  lemma {:induction false} WriterIsAlone(grants: seq<Grant>, k: Pubkey)
    requires NoConflicts(grants) && forall i | 0 <= i < |grants| :: DistinctKeys(grants[i].locks)
    requires Lock(k, true) in Held(grants)
    ensures Held(grants)[Lock(k, true)] == 1 && Lock(k, false) !in Held(grants)
  {
    var last := |grants| - 1;
    var w, r := Lock(k, true), Lock(k, false);
    if w in grants[last].locks {
      OneLockEach(grants[last].locks, w);
      NotHeldBefore(grants, last, w, w);
      NotHeldBefore(grants, last, w, r);
    } else {
      WriterIsAlone(grants[..last], k);
      if r in grants[last].locks {
        NotHeldBefore(grants, last, r, w);
      }
    }
  }

  // ---------- validation and the entry points ----------

  ghost predicate HasTwice(locks: seq<Lock>) {
    exists i, j :: 0 <= i < j < |locks| && locks[i].key == locks[j].key
  }

  // A set from 32 keys on, a comparison of all pairs below.
  method HasDuplicates(locks: seq<Lock>) returns (r: bool)
    ensures r <==> HasTwice(locks)
  {
    if |locks| >= 32 {
      var seen: set<Pubkey> := {};
      for i := 0 to |locks|
        invariant forall k :: k in seen <==> exists j :: 0 <= j < i && locks[j].key == k
        invariant forall a, b | 0 <= a < b < i :: locks[a].key != locks[b].key
      {
        if locks[i].key in seen {
          return true;
        }
        seen := seen + {locks[i].key};
      }
    } else {
      for i := 0 to |locks|
        invariant forall a, b | 0 <= a < i && a < b < |locks| :: locks[a].key != locks[b].key
      {
        for j := i + 1 to |locks|
          invariant forall b | i < b < j :: locks[i].key != locks[b].key
        {
          if locks[i].key == locks[j].key {
            return true;
          }
        }
      }
    }
    return false;
  }

  // The errors in the order they are tested.
  ghost function Valid(locks: seq<Lock>, limit: nat): Result<()> {
    if |locks| > limit then Err(TooManyAccountLocks)
    else if HasTwice(locks) then Err(AccountLoadedTwice)
    else Ok(())
  }

  method ValidateAccountLocks(locks: seq<Lock>, limit: nat) returns (r: Result<()>)
    ensures r == Valid(locks, limit)
    ensures r == Err(TooManyAccountLocks) <==> |locks| > limit
    ensures r == Err(AccountLoadedTwice) <==> |locks| <= limit && !DistinctKeys(locks)
    ensures r.Ok? <==> |locks| <= limit && DistinctKeys(locks)
  {
    if |locks| > limit {
      return Err(TooManyAccountLocks);
    }
    var twice := HasDuplicates(locks);
    if twice {
      return Err(AccountLoadedTwice);
    }
    return Ok(());
  }

  // A transaction rejected earlier keeps its error.
  ghost function Request(locks: seq<Lock>, result: Result<()>, limit: nat): Result<seq<Lock>> {
    if result.Err? then Err(result.error)
    else match Valid(locks, limit) case Ok(_) => Ok(locks) case Err(e) => Err(e)
  }

  // Requests of these transactions, each with distinct keys.
  ghost predicate RequestsFor(requests: seq<Result<seq<Lock>>>, txs: seq<seq<Lock>>) {
    && |requests| == |txs|
    && forall i | 0 <= i < |txs| && requests[i].Ok? :: requests[i].value == txs[i] && DistinctKeys(txs[i])
  }

  method Requests(txs: seq<seq<Lock>>, results: seq<Result<()>>, limit: nat) returns (requests: seq<Result<seq<Lock>>>)
    requires |txs| == |results|
    ensures |requests| == |txs|
    ensures forall i | 0 <= i < |txs| :: requests[i] == Request(txs[i], results[i], limit)
    ensures RequestsFor(requests, txs)
  {
    requests := [];
    for i := 0 to |txs|
      invariant |requests| == i
      invariant forall j | 0 <= j < i :: requests[j] == Request(txs[j], results[j], limit)
      invariant forall j | 0 <= j < i && requests[j].Ok? :: requests[j].value == txs[j] && DistinctKeys(txs[j])
    {
      match results[i] {
        case Err(e) => requests := requests + [Err(e)];
        case Ok(_) =>
          var valid := ValidateAccountLocks(txs[i], limit);
          requests := requests + [if valid.Ok? then Ok(txs[i]) else Err(valid.error)];
      }
    }
  }

  ghost predicate AllDistinct(grants: seq<Grant>) {
    forall i | 0 <= i < |grants| :: DistinctKeys(grants[i].locks)
  }

  // What is held after the first n requests, each locked against everything granted before it.
  ghost function HeldAfter(held: multiset<Lock>, requests: seq<Result<seq<Lock>>>, n: nat): multiset<Lock>
    requires n <= |requests|
  {
    if n == 0 then held
    else
      var before := HeldAfter(held, requests, n - 1);
      if Outcome(before, requests[n - 1]).Ok? then before + multiset(requests[n - 1].value) else before
  }

  // The grants of the first n transactions whose locking succeeded, in order.
  ghost function Outstanding(txs: seq<seq<Lock>>, results: seq<Result<()>>, batch: nat, n: nat): seq<Grant>
    requires n <= |txs| && n <= |results|
  {
    if n == 0 then []
    else Outstanding(txs, results, batch, n - 1) + if results[n - 1].Ok? then [Grant(batch, txs[n - 1])] else []
  }

  lemma {:induction false} OutstandingSame(txs: seq<seq<Lock>>, a: seq<Result<()>>, b: seq<Result<()>>, batch: nat,
                                           n: nat)
    requires n <= |txs| && n <= |a| && n <= |b| && forall i | 0 <= i < n :: a[i] == b[i]
    ensures Outstanding(txs, a, batch, n) == Outstanding(txs, b, batch, n)
  {
    if n > 0 { OutstandingSame(txs, a, b, batch, n - 1); }
  }

  ghost function GrantAt(txs: seq<seq<Lock>>, results: seq<Result<()>>, batch: nat, n: nat): multiset<Grant>
    requires n < |txs| == |results|
  {
    if results[n].Ok? then multiset{Grant(batch, txs[n])} else multiset{}
  }

  // The grants of the transactions from position n on.
  ghost function StillOut(txs: seq<seq<Lock>>, results: seq<Result<()>>, batch: nat, n: nat): multiset<Grant>
    requires n <= |txs| == |results|
    decreases |txs| - n
  {
    if n == |txs| then multiset{} else GrantAt(txs, results, batch, n) + StillOut(txs, results, batch, n + 1)
  }

  ghost function FirstOut(txs: seq<seq<Lock>>, results: seq<Result<()>>, batch: nat, n: nat): multiset<Grant>
    requires n <= |txs| == |results|
  {
    if n == 0 then multiset{} else FirstOut(txs, results, batch, n - 1) + GrantAt(txs, results, batch, n - 1)
  }

  lemma MoveOne<T>(a: multiset<T>, x: multiset<T>, b: multiset<T>)
    ensures (a + x) + b == a + (x + b)
  {
  }

  lemma {:induction false} FirstAndStillOut(txs: seq<seq<Lock>>, results: seq<Result<()>>, batch: nat, n: nat)
    requires n <= |txs| == |results|
    ensures FirstOut(txs, results, batch, n) + StillOut(txs, results, batch, n) == FirstOut(txs, results, batch, |txs|)
    decreases |txs| - n
  {
    if n < |txs| {
      FirstAndStillOut(txs, results, batch, n + 1);
      MoveOne(FirstOut(txs, results, batch, n), GrantAt(txs, results, batch, n), StillOut(txs, results, batch, n + 1));
    }
  }

  lemma AppendBag<T>(s: seq<T>, t: seq<T>, a: multiset<T>, b: multiset<T>)
    requires multiset(s) == a && multiset(t) == b
    ensures multiset(s + t) == a + b
  {
  }

  lemma {:induction false} OutstandingIsFirst(txs: seq<seq<Lock>>, results: seq<Result<()>>, batch: nat, n: nat)
    requires n <= |txs| == |results|
    ensures multiset(Outstanding(txs, results, batch, n)) == FirstOut(txs, results, batch, n)
  {
    if n > 0 {
      OutstandingIsFirst(txs, results, batch, n - 1);
      AppendBag(Outstanding(txs, results, batch, n - 1), if results[n - 1].Ok? then [Grant(batch, txs[n - 1])] else [],
                FirstOut(txs, results, batch, n - 1), GrantAt(txs, results, batch, n - 1));
    }
  }

  lemma OutstandingSplits(txs: seq<seq<Lock>>, results: seq<Result<()>>, batch: nat, n: nat)
    requires n <= |txs| == |results|
    ensures multiset(Outstanding(txs, results, batch, n)) + StillOut(txs, results, batch, n)
         == multiset(Outstanding(txs, results, batch, |txs|))
  {
    FirstAndStillOut(txs, results, batch, n);
    OutstandingIsFirst(txs, results, batch, n);
    OutstandingIsFirst(txs, results, batch, |txs|);
  }

  // Requests for the transactions that are judged the same have the same grants.
  lemma {:induction false} GrantedIsOutstanding(checked: seq<Result<seq<Lock>>>, txs: seq<seq<Lock>>,
                                                results: seq<Result<()>>, batch: nat, n: nat)
    requires |checked| == |txs| == |results| && n <= |txs|
    requires forall i | 0 <= i < |txs| ::
               checked[i].Ok? == results[i].Ok? && (checked[i].Ok? ==> checked[i].value == txs[i])
    ensures Granted(checked, batch, n) == Outstanding(txs, results, batch, n)
  {
    if n > 0 { GrantedIsOutstanding(checked, txs, results, batch, n - 1); }
  }

  lemma GrantedHolds(was: seq<Grant>, g: Grant, ok: bool, now: seq<Grant>)
    requires now == if ok then was + [g] else was
    ensures now == was + if ok then [g] else []
    ensures Held(now) == if ok then Held(was) + multiset(g.locks) else Held(was)
  {
    if ok { HeldAppend(was, g); }
  }

  // What every call keeps, in either mode.
  ghost predicate Kept(before: seq<Grant>, after: seq<Grant>) {
    && (AllDistinct(before) ==> AllDistinct(after))
    && (BatchesApart(before) ==> BatchesApart(after))
  }

  method LockRequest(locks: AccountLocks, request: Result<seq<Lock>>, ghost tx: seq<Lock>, ghost batch: nat)
    returns (r: Result<()>)
    requires locks.Valid() && (request.Ok? ==> request.value == tx && DistinctKeys(tx))
    modifies locks
    ensures locks.Valid() && Kept(old(locks.grants), locks.grants)
    ensures old(NoConflicts(locks.grants)) ==> NoConflicts(locks.grants)
    ensures r == Outcome(old(Held(locks.grants)), request)
    ensures Held(locks.grants)
         == if r.Ok? then old(Held(locks.grants)) + multiset(request.value) else old(Held(locks.grants))
    ensures locks.grants == old(locks.grants) + if r.Ok? then [Grant(batch, tx)] else []
  {
    match request {
      case Ok(keys) =>
        ghost var was := locks.grants;
        r := locks.TryLockAccounts(keys, batch);
        GrantedHolds(was, Grant(batch, keys), r.Ok?, locks.grants);
      case Err(e) => r := Err(e);
    }
  }

  ghost predicate StrictResults(held: multiset<Lock>, requests: seq<Result<seq<Lock>>>, granted: seq<Result<()>>)
    requires |granted| <= |requests|
  {
    forall i {:trigger granted[i]} | 0 <= i < |granted| ::
        granted[i] == Outcome(HeldAfter(held, requests, i), requests[i])
  }

  lemma StrictNext(held: multiset<Lock>, requests: seq<Result<seq<Lock>>>, granted: seq<Result<()>>, r: Result<()>)
    requires |granted| < |requests| && StrictResults(held, requests, granted)
    requires r == Outcome(HeldAfter(held, requests, |granted|), requests[|granted|])
    ensures StrictResults(held, requests, granted + [r])
  {
  }

  lemma OutstandingNext(txs: seq<seq<Lock>>, granted: seq<Result<()>>, r: Result<()>, batch: nat)
    requires |granted| < |txs|
    ensures Outstanding(txs, granted + [r], batch, |granted| + 1)
         == Outstanding(txs, granted, batch, |granted|) + if r.Ok? then [Grant(batch, txs[|granted|])] else []
  {
    OutstandingSame(txs, granted + [r], granted, batch, |granted|);
  }

  // Strict locking in progress: what is held, and what was granted to whom.
  ghost predicate StrictSoFar(held: multiset<Lock>, requests: seq<Result<seq<Lock>>>, granted: seq<Result<()>>,
                              now: multiset<Lock>)
  {
    |granted| <= |requests| && StrictResults(held, requests, granted) && now == HeldAfter(held, requests, |granted|)
  }

  lemma HeldNext(held: multiset<Lock>, requests: seq<Result<seq<Lock>>>, n: nat)
    requires n < |requests|
    ensures var now := HeldAfter(held, requests, n);
            HeldAfter(held, requests, n + 1)
              == if Outcome(now, requests[n]).Ok? then now + multiset(requests[n].value) else now
  {
  }

  lemma StrictStep(held: multiset<Lock>, requests: seq<Result<seq<Lock>>>, granted: seq<Result<()>>,
                   now: multiset<Lock>, r: Result<()>, now': multiset<Lock>)
    requires StrictSoFar(held, requests, granted, now) && |granted| < |requests|
    requires r == Outcome(now, requests[|granted|])
    requires now' == if r.Ok? then now + multiset(requests[|granted|].value) else now
    ensures StrictSoFar(held, requests, granted + [r], now')
  {
    StrictNext(held, requests, granted, r);
    HeldNext(held, requests, |granted|);
  }

  ghost predicate StrictProgress(before: seq<Grant>, held: multiset<Lock>, requests: seq<Result<seq<Lock>>>,
                                 txs: seq<seq<Lock>>,
                                 batch: nat, granted: seq<Result<()>>, grants: seq<Grant>, now: multiset<Lock>)
  {
    && StrictSoFar(held, requests, granted, now) && |requests| == |txs|
    && grants == before + Outstanding(txs, granted, batch, |granted|)
  }

  lemma GrantsStep(before: seq<Grant>, txs: seq<seq<Lock>>, granted: seq<Result<()>>, batch: nat,
                   grants: seq<Grant>, r: Result<()>, grants': seq<Grant>)
    requires |granted| < |txs| && grants == before + Outstanding(txs, granted, batch, |granted|)
    requires grants' == grants + if r.Ok? then [Grant(batch, txs[|granted|])] else []
    ensures grants' == before + Outstanding(txs, granted + [r], batch, |granted| + 1)
  {
    OutstandingNext(txs, granted, r, batch);
    Reassociate(before, Outstanding(txs, granted, batch, |granted|),
                if r.Ok? then [Grant(batch, txs[|granted|])] else []);
  }

  lemma ProgressStep(before: seq<Grant>, held: multiset<Lock>, requests: seq<Result<seq<Lock>>>, txs: seq<seq<Lock>>,
                     batch: nat, granted: seq<Result<()>>, grants: seq<Grant>, now: multiset<Lock>,
                     r: Result<()>, grants': seq<Grant>, now': multiset<Lock>)
    requires StrictProgress(before, held, requests, txs, batch, granted, grants, now) && |granted| < |requests|
    requires r == Outcome(now, requests[|granted|])
    requires now' == if r.Ok? then now + multiset(requests[|granted|].value) else now
    requires grants' == grants + if r.Ok? then [Grant(batch, txs[|granted|])] else []
    ensures StrictProgress(before, held, requests, txs, batch, granted + [r], grants', now')
  {
    StrictStep(held, requests, granted, now, r, now');
    GrantsStep(before, txs, granted, batch, grants, r, grants');
  }

  method LockStrictly(locks: AccountLocks, requests: seq<Result<seq<Lock>>>, ghost txs: seq<seq<Lock>>,
                      ghost batch: nat)
    returns (granted: seq<Result<()>>)
    requires locks.Valid() && RequestsFor(requests, txs)
    modifies locks
    ensures locks.Valid() && Kept(old(locks.grants), locks.grants)
    ensures old(NoConflicts(locks.grants)) ==> NoConflicts(locks.grants)
    ensures |granted| == |requests| && StrictResults(old(Held(locks.grants)), requests, granted)
    ensures Held(locks.grants) == HeldAfter(old(Held(locks.grants)), requests, |requests|)
    ensures locks.grants == old(locks.grants) + Outstanding(txs, granted, batch, |txs|)
  {
    granted := [];
    ghost var before, held := locks.grants, Held(locks.grants);
    for i := 0 to |requests|
      invariant locks.Valid() && Kept(before, locks.grants)
      invariant NoConflicts(before) ==> NoConflicts(locks.grants)
      invariant |granted| == i
      invariant StrictProgress(before, held, requests, txs, batch, granted, locks.grants, Held(locks.grants))
    {
      ghost var grants := locks.grants;
      var r := LockRequest(locks, requests[i], txs[i], batch);
      ProgressStep(before, held, requests, txs, batch, granted, grants, Held(grants), r, locks.grants,
                   Held(locks.grants));
      granted := granted + [r];
    }
  }

  lemma GrantedDistinct(requests: seq<Result<seq<Lock>>>, checked: seq<Result<seq<Lock>>>, held: multiset<Lock>,
                        batch: nat)
    requires Checked(held, requests, checked)
    requires forall i | 0 <= i < |requests| && requests[i].Ok? :: DistinctKeys(requests[i].value)
    ensures AllDistinct(Granted(checked, batch, |checked|))
  {
    var more := Granted(checked, batch, |checked|);
    forall i | 0 <= i < |more| ensures DistinctKeys(more[i].locks) {
      var j := GrantedAre(checked, batch, |checked|, i);
    }
  }

  method LockRelaxed(locks: AccountLocks, requests: seq<Result<seq<Lock>>>, ghost txs: seq<seq<Lock>>, ghost batch: nat)
    returns (granted: seq<Result<()>>)
    requires locks.Valid() && RequestsFor(requests, txs)
    modifies locks
    ensures locks.Valid() && Kept(old(locks.grants), locks.grants)
    ensures |granted| == |requests|
            && forall i | 0 <= i < |requests| :: granted[i] == Outcome(old(Held(locks.grants)), requests[i])
    ensures locks.grants == old(locks.grants) + Outstanding(txs, granted, batch, |txs|)
  {
    ghost var checked;
    granted, checked := locks.TryLockTransactionBatch(requests, batch);
    GrantedDistinct(requests, checked, old(Held(locks.grants)), batch);
    GrantedIsOutstanding(checked, txs, granted, batch, |txs|);
  }

  // ---------- which transactions are refused, and why ----------

  // A lock of these is on the same key as one of those, and one of the two writes.
  ghost predicate Blocks(those: seq<Lock>, these: seq<Lock>) {
    exists x, y :: x in those && y in these && x.key == y.key && (x.writable || y.writable)
  }

  // Held before the batch, or granted to one of its first n transactions.
  ghost predicate InUse(before: seq<Grant>, txs: seq<seq<Lock>>, granted: seq<Result<()>>, n: nat, tx: seq<Lock>)
    requires n <= |txs| && n <= |granted|
  {
    || (exists g :: g in before && Blocks(g.locks, tx))
    || (exists j :: 0 <= j < n && granted[j].Ok? && Blocks(txs[j], tx))
  }

  // An earlier error stays, then too many locks, then a key twice, then a lock in use.
  ghost function Decision(tx: seq<Lock>, result: Result<()>, limit: nat, blocked: bool): Result<()> {
    if result.Err? then Err(result.error)
    else if |tx| > limit then Err(TooManyAccountLocks)
    else if !DistinctKeys(tx) then Err(AccountLoadedTwice)
    else if blocked then Err(AccountInUse)
    else Ok(())
  }

  lemma HeldIffGranted(grants: seq<Grant>, x: Lock)
    ensures x in Held(grants) <==> exists g :: g in grants && x in g.locks
  {
    if x in Held(grants) {
      var i := HeldIsGranted(grants, x);
    }
    forall i | 0 <= i < |grants| && x in grants[i].locks ensures x in Held(grants) {
      HeldByGrant(grants, i);
      assert x in multiset(grants[i].locks);
    }
  }

  // The lock is held since before the batch, or by one of its first n transactions.
  ghost predicate HeldBy(before: seq<Grant>, txs: seq<seq<Lock>>, granted: seq<Result<()>>, n: nat, x: Lock)
    requires n <= |txs| && n <= |granted|
  {
    (exists g :: g in before && x in g.locks) || exists j :: 0 <= j < n && granted[j].Ok? && x in txs[j]
  }

  lemma HeldByNext(before: seq<Grant>, txs: seq<seq<Lock>>, granted: seq<Result<()>>, n: nat, x: Lock)
    requires n < |txs| && n < |granted|
    ensures HeldBy(before, txs, granted, n + 1, x)
            <==> HeldBy(before, txs, granted, n, x) || (granted[n].Ok? && x in txs[n])
  {
  }

  lemma {:induction false} HeldAfterIs(before: seq<Grant>, requests: seq<Result<seq<Lock>>>, txs: seq<seq<Lock>>,
                                       granted: seq<Result<()>>, n: nat, x: Lock)
    requires RequestsFor(requests, txs) && |granted| == |requests| && StrictResults(Held(before), requests, granted)
    requires n <= |requests|
    ensures x in HeldAfter(Held(before), requests, n) <==> HeldBy(before, txs, granted, n, x)
  {
    if n == 0 {
      HeldIffGranted(before, x);
    } else {
      HeldByNext(before, txs, granted, n - 1, x);
      HeldAfterIs(before, requests, txs, granted, n - 1, x);
      HeldNext(Held(before), requests, n - 1);
      assert granted[n - 1] == Outcome(HeldAfter(Held(before), requests, n - 1), requests[n - 1]);
    }
  }

  lemma FreeIsUnused(now: multiset<Lock>, before: seq<Grant>, txs: seq<seq<Lock>>, granted: seq<Result<()>>, n: nat,
                     tx: seq<Lock>)
    requires n <= |txs| && n <= |granted|
    requires forall x :: x in now <==> HeldBy(before, txs, granted, n, x)
    ensures Free(now, tx) <==> !InUse(before, txs, granted, n, tx)
  {
    if !Free(now, tx) {
      var x, y :| x in now && y in tx && Clash(x, y);
      assert HeldBy(before, txs, granted, n, x);
      if g :| g in before && x in g.locks {
        assert Blocks(g.locks, tx);
      } else {
        var j :| 0 <= j < n && granted[j].Ok? && x in txs[j];
        assert Blocks(txs[j], tx);
      }
    } else {
      forall g | g in before ensures !Blocks(g.locks, tx) {
        forall x, y | x in g.locks && y in tx ensures !Clash(x, y) {
          assert HeldBy(before, txs, granted, n, x);
        }
      }
      forall j | 0 <= j < n && granted[j].Ok? ensures !Blocks(txs[j], tx) {
        forall x, y | x in txs[j] && y in tx ensures !Clash(x, y) {
          assert HeldBy(before, txs, granted, n, x);
        }
      }
    }
  }

  lemma StrictDecision(before: seq<Grant>, requests: seq<Result<seq<Lock>>>, txs: seq<seq<Lock>>,
                       result: Result<()>, limit: nat, granted: seq<Result<()>>, i: nat)
    requires RequestsFor(requests, txs) && |granted| == |requests|
    requires StrictResults(Held(before), requests, granted)
    requires i < |txs| && requests[i] == Request(txs[i], result, limit)
    ensures granted[i] == Decision(txs[i], result, limit, InUse(before, txs, granted, i, txs[i]))
  {
    var now := HeldAfter(Held(before), requests, i);
    forall x ensures x in now <==> HeldBy(before, txs, granted, i, x) {
      HeldAfterIs(before, requests, txs, granted, i, x);
    }
    FreeIsUnused(now, before, txs, granted, i, txs[i]);
    assert granted[i] == Outcome(now, requests[i]);
  }

  lemma RelaxedDecision(before: seq<Grant>, txs: seq<seq<Lock>>, result: Result<()>, limit: nat,
                        granted: seq<Result<()>>, i: nat)
    requires i < |txs| && |granted| == |txs|
    requires granted[i] == Outcome(Held(before), Request(txs[i], result, limit))
    ensures granted[i] == Decision(txs[i], result, limit, InUse(before, txs, granted, 0, txs[i]))
  {
    forall x ensures x in Held(before) <==> HeldBy(before, txs, granted, 0, x) {
      HeldIffGranted(before, x);
    }
    FreeIsUnused(Held(before), before, txs, granted, 0, txs[i]);
  }

  // Which transactions were refused, and why.
  ghost predicate Decided(before: seq<Grant>, txs: seq<seq<Lock>>, results: seq<Result<()>>, limit: nat, relax: bool,
                          granted: seq<Result<()>>)
  {
    && |granted| == |txs| == |results|
    && forall i | 0 <= i < |txs| ::
         granted[i] == Decision(txs[i], results[i], limit,
                                InUse(before, txs, granted, if relax then 0 else i, txs[i]))
  }

  lemma AllDecided(before: seq<Grant>, txs: seq<seq<Lock>>, results: seq<Result<()>>, limit: nat, relax: bool,
                   requests: seq<Result<seq<Lock>>>, granted: seq<Result<()>>)
    requires RequestsFor(requests, txs) && |granted| == |requests| == |results|
    requires forall i | 0 <= i < |txs| :: requests[i] == Request(txs[i], results[i], limit)
    requires if relax then forall i | 0 <= i < |txs| :: granted[i] == Outcome(Held(before), requests[i])
             else StrictResults(Held(before), requests, granted)
    ensures Decided(before, txs, results, limit, relax, granted)
  {
    forall i | 0 <= i < |txs|
      ensures granted[i] == Decision(txs[i], results[i], limit,
                                     InUse(before, txs, granted, if relax then 0 else i, txs[i]))
    {
      if relax {
        RelaxedDecision(before, txs, results[i], limit, granted, i);
      } else {
        StrictDecision(before, requests, txs, results[i], limit, granted, i);
      }
    }
  }

  method LockAccounts(locks: AccountLocks, txs: seq<seq<Lock>>, results: seq<Result<()>>, limit: nat, relax: bool,
                      ghost batch: nat)
    returns (granted: seq<Result<()>>, ghost requests: seq<Result<seq<Lock>>>)
    requires locks.Valid() && |txs| == |results|
    modifies locks
    ensures locks.Valid() && Kept(old(locks.grants), locks.grants)
    ensures !relax && old(NoConflicts(locks.grants)) ==> NoConflicts(locks.grants)
    ensures |granted| == |txs| == |requests|
    ensures forall i | 0 <= i < |txs| :: requests[i] == Request(txs[i], results[i], limit)
    ensures if relax then forall i | 0 <= i < |txs| :: granted[i] == Outcome(old(Held(locks.grants)), requests[i])
            else StrictResults(old(Held(locks.grants)), requests, granted)
    ensures Decided(old(locks.grants), txs, results, limit, relax, granted)
    ensures locks.grants == old(locks.grants) + Outstanding(txs, granted, batch, |txs|)
  {
    var validated := Requests(txs, results, limit);
    requests := validated;
    if relax {
      granted := LockRelaxed(locks, validated, txs, batch);
    } else {
      granted := LockStrictly(locks, validated, txs, batch);
    }
    AllDecided(old(locks.grants), txs, results, limit, relax, validated, granted);
  }

  lemma RemoveMember(grants: seq<Grant>, i: nat)
    requires i < |grants|
    ensures multiset(Remove(grants, i)) == multiset(grants) - multiset{grants[i]}
  {
    assert grants == grants[..i] + [grants[i]] + grants[i + 1..];
  }

  method UnlockTransaction(locks: AccountLocks, tx: seq<Lock>, ghost batch: nat)
    requires locks.Valid() && Grant(batch, tx) in multiset(locks.grants)
    modifies locks
    ensures locks.Valid()
    ensures multiset(locks.grants) == old(multiset(locks.grants)) - multiset{Grant(batch, tx)}
    ensures old(BatchesApart(locks.grants)) ==> BatchesApart(locks.grants)
    ensures old(NoConflicts(locks.grants)) ==> NoConflicts(locks.grants)
  {
    ghost var at: nat :| at < |locks.grants| && locks.grants[at] == Grant(batch, tx);
    RemoveMember(locks.grants, at);
    locks.UnlockGrant(tx, at);
  }

  lemma AllStillOut(txs: seq<seq<Lock>>, results: seq<Result<()>>, batch: nat, all: multiset<Grant>)
    requires |txs| == |results| && multiset(Outstanding(txs, results, batch, |txs|)) <= all
    ensures all == (all - multiset(Outstanding(txs, results, batch, |txs|))) + StillOut(txs, results, batch, 0)
  {
    OutstandingSplits(txs, results, batch, 0);
  }

  ghost predicate StillApart(before: seq<Grant>, after: seq<Grant>) {
    (BatchesApart(before) ==> BatchesApart(after)) && (NoConflicts(before) ==> NoConflicts(after))
  }

  method UnlockAt(locks: AccountLocks, txs: seq<seq<Lock>>, results: seq<Result<()>>, ghost batch: nat, i: nat,
                  ghost base: multiset<Grant>)
    requires locks.Valid() && i < |txs| == |results|
    requires multiset(locks.grants) == base + StillOut(txs, results, batch, i)
    modifies locks
    ensures locks.Valid() && StillApart(old(locks.grants), locks.grants)
    ensures multiset(locks.grants) == base + StillOut(txs, results, batch, i + 1)
  {
    if results[i].Ok? {
      DropOne(base, Grant(batch, txs[i]), StillOut(txs, results, batch, i + 1));
      UnlockTransaction(locks, txs[i], batch);
    }
  }

  // Unlocking the transactions of a batch takes exactly their grants back; with the last grant gone
  // both tables are empty.
  method UnlockAccounts(locks: AccountLocks, txs: seq<seq<Lock>>, results: seq<Result<()>>, ghost batch: nat)
    requires locks.Valid() && |txs| == |results|
    requires multiset(Outstanding(txs, results, batch, |txs|)) <= multiset(locks.grants)
    modifies locks
    ensures locks.Valid()
    ensures multiset(locks.grants) == old(multiset(locks.grants)) - multiset(Outstanding(txs, results, batch, |txs|))
    ensures StillApart(old(locks.grants), locks.grants)
    ensures locks.grants == [] ==> locks.writeLocks == map[] && locks.readonlyLocks == map[]
  {
    ghost var base := multiset(locks.grants) - multiset(Outstanding(txs, results, batch, |txs|));
    AllStillOut(txs, results, batch, multiset(locks.grants));
    for i := 0 to |txs|
      invariant locks.Valid() && multiset(locks.grants) == base + StillOut(txs, results, batch, i)
      invariant StillApart(old(locks.grants), locks.grants)
    {
      UnlockAt(locks, txs, results, batch, i, base);
    }
    if locks.grants == [] {
      NothingHeld(locks.writeLocks, locks.readonlyLocks);
    }
  }

  // What is held depends on which grants there are, not on their order.
  lemma {:induction false} SameGrantsSameHeld(a: seq<Grant>, b: seq<Grant>)
    requires multiset(a) == multiset(b)
    ensures Held(a) == Held(b)
  {
    if a == [] {
      assert |multiset(b)| == 0;
    } else {
      var most, g := a[..|a| - 1], a[|a| - 1];
      assert a == most + [g];
      assert g in multiset(b);
      var i :| 0 <= i < |b| && b[i] == g;
      RemoveMember(b, i);
      assert multiset(most) == multiset(a) - multiset{g};
      SameGrantsSameHeld(most, Remove(b, i));
      HeldRemove(b, i);
      HeldByGrant(b, i);
    }
  }

  // In either mode, unlocking what a call locked restores the grants and both tables.
  method LockAndUnlock(locks: AccountLocks, txs: seq<seq<Lock>>, results: seq<Result<()>>, limit: nat, relax: bool,
                       ghost batch: nat)
    requires locks.Valid() && |txs| == |results|
    modifies locks
    ensures locks.Valid() && multiset(locks.grants) == old(multiset(locks.grants))
    ensures locks.writeLocks == old(locks.writeLocks) && locks.readonlyLocks == old(locks.readonlyLocks)
  {
    ghost var before, writes, reads_ := locks.grants, locks.writeLocks, locks.readonlyLocks;
    ghost var requests;
    var granted;
    granted, requests := LockAccounts(locks, txs, results, limit, relax, batch);
    UnlockAccounts(locks, txs, granted, batch);
    SameGrantsSameHeld(locks.grants, before);
    SameHeldSameTable(locks.writeLocks, writes, Held(before), true);
    SameHeldSameTable(locks.readonlyLocks, reads_, Held(before), false);
  }
}
