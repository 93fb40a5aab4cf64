/**
 Sorting the accounts found in a storage by key and keeping, of each key, only the last one found.
 */
module SortDedup {
  import opened Types

  datatype Found = Found(key: Pubkey, offset: Offset)

  // The accounts of one key, in order.
  ghost function Of(s: seq<Found>, k: Pubkey): seq<Found> {
    if s == [] then []
    else
      var last := |s| - 1;
      Of(s[..last], k) + if s[last].key == k then [s[last]] else []
  }

  ghost function LastOnly(s: seq<Found>): seq<Found> {
    if s == [] then [] else [s[|s| - 1]]
  }

  lemma OfSnoc(s: seq<Found>, x: Found, k: Pubkey)
    ensures Of(s + [x], k) == Of(s, k) + if x.key == k then [x] else []
  {
    assert (s + [x])[..|s|] == s;
  }

  lemma OfPrefix(s: seq<Found>, n: nat, k: Pubkey)
    requires 0 < n <= |s|
    ensures Of(s[..n], k) == Of(s[..n - 1], k) + if s[n - 1].key == k then [s[n - 1]] else []
  {
    assert s[..n] == s[..n - 1] + [s[n - 1]];
    OfSnoc(s[..n - 1], s[n - 1], k);
  }

  lemma {:induction false} OfConcat(a: seq<Found>, b: seq<Found>, k: Pubkey)
    ensures Of(a + b, k) == Of(a, k) + Of(b, k)
  {
    if b == [] {
      assert a + b == a;
    } else {
      var last := |b| - 1;
      assert a + b == (a + b[..last]) + [b[last]];
      OfSnoc(a + b[..last], b[last], k);
      OfConcat(a, b[..last], k);
    }
  }

  ghost predicate Sorted(s: seq<Found>) {
    forall i, j | 0 <= i < j < |s| :: s[i].key <= s[j].key
  }

  ghost predicate StrictlySorted(s: seq<Found>) {
    forall i, j | 0 <= i < j < |s| :: s[i].key < s[j].key
  }

  // ---------- the stable sort ----------

  function Insert(x: Found, s: seq<Found>): (r: seq<Found>)
    ensures |r| == |s| + 1
  {
    if s == [] || x.key <= s[0].key then [x] + s else [s[0]] + Insert(x, s[1..])
  }

  function StableSort(s: seq<Found>): (r: seq<Found>)
    ensures |r| == |s|
  {
    if s == [] then [] else Insert(s[0], StableSort(s[1..]))
  }

  lemma {:induction false} InsertSorts(x: Found, s: seq<Found>)
    requires Sorted(s)
    ensures Sorted(Insert(x, s))
    ensures forall y | y in Insert(x, s) :: y == x || y in s
  {
    if s != [] && x.key > s[0].key {
      InsertSorts(x, s[1..]);
      assert forall y | y in s[1..] :: s[0].key <= y.key;
    }
  }

  lemma OfSingle(x: Found, k: Pubkey)
    ensures Of([x], k) == if x.key == k then [x] else []
  {
    assert [x] == [] + [x];
    OfSnoc([], x, k);
  }

  lemma OfCons(x: Found, s: seq<Found>, k: Pubkey)
    ensures Of([x] + s, k) == (if x.key == k then [x] else []) + Of(s, k)
  {
    OfConcat([x], s, k);
    OfSingle(x, k);
  }

  lemma OtherKeysSwap(x: Found, y: Found, k: Pubkey, rest: seq<Found>)
    requires x.key != y.key
    ensures (if y.key == k then [y] else []) + ((if x.key == k then [x] else []) + rest)
         == (if x.key == k then [x] else []) + ((if y.key == k then [y] else []) + rest)
  {
  }

  lemma {:induction false} InsertKeepsOrder(x: Found, s: seq<Found>, k: Pubkey)
    ensures Of(Insert(x, s), k) == (if x.key == k then [x] else []) + Of(s, k)
  {
    if s == [] || x.key <= s[0].key {
      OfCons(x, s, k);
    } else {
      InsertKeepsOrder(x, s[1..], k);
      OfCons(s[0], Insert(x, s[1..]), k);
      OfCons(s[0], s[1..], k);
      assert s == [s[0]] + s[1..];
      OtherKeysSwap(x, s[0], k, Of(s[1..], k));
    }
  }

  // Sorted, and every key keeps its accounts in their original order.
  lemma {:induction false} SortIsStable(s: seq<Found>, k: Pubkey)
    ensures Sorted(StableSort(s)) && Of(StableSort(s), k) == Of(s, k)
  {
    if s != [] {
      var rest := StableSort(s[1..]);
      SortIsStable(s[1..], k);
      InsertSorts(s[0], rest);
      InsertKeepsOrder(s[0], rest, k);
      OfCons(s[0], s[1..], k);
      assert s == [s[0]] + s[1..];
    }
  }

  // ---------- dropping all but the last of equal neighbours ----------

  // The accounts in front of the last one, which x follows or replaces.
  ghost function Front(most: seq<Found>, x: Found): seq<Found> {
    if most == [] || most[|most| - 1].key != x.key then most else most[..|most| - 1]
  }

  // The first n accounts, compacted.
  ghost function Compact(s: seq<Found>, n: nat): (r: seq<Found>)
    requires n <= |s|
    ensures |r| <= n && (n > 0 ==> r != [] && r[|r| - 1] == s[n - 1])
  {
    if n == 0 then [] else Front(Compact(s, n - 1), s[n - 1]) + [s[n - 1]]
  }

  lemma FrontSorts(most: seq<Found>, x: Found)
    requires StrictlySorted(most) && (most != [] ==> most[|most| - 1].key <= x.key)
    ensures StrictlySorted(Front(most, x) + [x])
  {
    var front := Front(most, x);
    forall i | 0 <= i < |front| ensures front[i].key < x.key {
      assert front[i] == most[i];
      if i < |most| - 1 { assert most[i].key < most[|most| - 1].key; }
    }
  }

  lemma {:induction false} CompactSorts(s: seq<Found>, n: nat)
    requires Sorted(s) && n <= |s|
    ensures StrictlySorted(Compact(s, n))
  {
    if n > 0 {
      CompactSorts(s, n - 1);
      assert n > 1 ==> s[n - 2].key <= s[n - 1].key;
      FrontSorts(Compact(s, n - 1), s[n - 1]);
    }
  }

  lemma {:induction false} NoneOf(s: seq<Found>, k: Pubkey)
    requires forall i | 0 <= i < |s| :: s[i].key != k
    ensures Of(s, k) == []
  {
    if s != [] { NoneOf(s[..|s| - 1], k); }
  }

  // The accounts before the one that takes in x have smaller keys.
  lemma FrontIsSmaller(s: seq<Found>, n: nat)
    requires 0 < n <= |s| && Sorted(s)
    ensures Of(Front(Compact(s, n - 1), s[n - 1]), s[n - 1].key) == []
  {
    CompactSorts(s, n);
    var front := Front(Compact(s, n - 1), s[n - 1]);
    assert forall i | 0 <= i < |front| :: front[i] == Compact(s, n)[i] && front[i].key < Compact(s, n)[|front|].key;
    NoneOf(front, s[n - 1].key);
  }

  lemma FrontOf(most: seq<Found>, x: Found, k: Pubkey)
    requires k != x.key
    ensures Of(Front(most, x), k) == Of(most, k)
  {
    if most != [] && most[|most| - 1].key == x.key {
      OfSnoc(most[..|most| - 1], most[|most| - 1], k);
      assert most == most[..|most| - 1] + [most[|most| - 1]];
    }
  }

  lemma CompactSameKey(s: seq<Found>, n: nat)
    requires 0 < n <= |s| && Sorted(s)
    ensures Of(Compact(s, n), s[n - 1].key) == [s[n - 1]]
  {
    FrontIsSmaller(s, n);
    OfSnoc(Front(Compact(s, n - 1), s[n - 1]), s[n - 1], s[n - 1].key);
  }

  lemma CompactOtherKey(s: seq<Found>, n: nat, k: Pubkey)
    requires 0 < n <= |s| && k != s[n - 1].key
    ensures Of(Compact(s, n), k) == Of(Compact(s, n - 1), k)
  {
    OfSnoc(Front(Compact(s, n - 1), s[n - 1]), s[n - 1], k);
    FrontOf(Compact(s, n - 1), s[n - 1], k);
  }

  lemma KeepsLastSame(s: seq<Found>, n: nat)
    requires 0 < n <= |s| && Sorted(s)
    ensures Of(Compact(s, n), s[n - 1].key) == LastOnly(Of(s[..n], s[n - 1].key))
  {
    OfPrefix(s, n, s[n - 1].key);
    CompactSameKey(s, n);
  }

  lemma KeepsLastOther(s: seq<Found>, n: nat, k: Pubkey)
    requires 0 < n <= |s| && k != s[n - 1].key
    requires Of(Compact(s, n - 1), k) == LastOnly(Of(s[..n - 1], k))
    ensures Of(Compact(s, n), k) == LastOnly(Of(s[..n], k))
  {
    OfPrefix(s, n, k);
    CompactOtherKey(s, n, k);
    assert Of(s[..n - 1], k) + [] == Of(s[..n - 1], k);
  }

  lemma {:induction false} CompactKeepsLast(s: seq<Found>, n: nat, k: Pubkey)
    requires Sorted(s) && n <= |s|
    ensures Of(Compact(s, n), k) == LastOnly(Of(s[..n], k))
  {
    if n > 0 {
      if k == s[n - 1].key {
        KeepsLastSame(s, n);
      } else {
        CompactKeepsLast(s, n - 1, k);
        KeepsLastOther(s, n, k);
      }
    }
  }

  // The array holds the accounts in c, and from n on what it held before.
  ghost predicate Holds(a: seq<Found>, s: seq<Found>, c: seq<Found>, n: nat) {
    && 0 < |c| <= n <= |s| && |a| == |s|
    && (forall i | 0 <= i < |c| :: a[i] == c[i])
    && (forall i | n <= i < |s| :: a[i] == s[i])
  }

  lemma HoldsNext(a: seq<Found>, s: seq<Found>, c: seq<Found>, n: nat, next: nat)
    requires Holds(a, s, c, n) && n < |s|
    requires next == if s[n].key != c[|c| - 1].key then |c| else |c| - 1
    ensures Front(c, s[n]) + [s[n]] == c[..next] + [s[n]]
    ensures Holds(a[next := s[n]], s, c[..next] + [s[n]], n + 1)
  {
  }

  lemma CompactNext(s: seq<Found>, n: nat)
    requires n < |s|
    ensures Compact(s, n + 1) == Front(Compact(s, n), s[n]) + [s[n]]
  {
  }

  // Moves the next account down behind the last one kept, or over it.
  method KeepNext(accounts: array<Found>, last: nat, curr: nat, ghost s: seq<Found>, ghost c: seq<Found>)
    returns (last': nat, ghost c': seq<Found>)
    requires Holds(accounts[..], s, c, curr) && curr < accounts.Length && last == |c| - 1
    modifies accounts
    ensures Holds(accounts[..], s, c', curr + 1) && last' == |c'| - 1
    ensures c' == Front(c, s[curr]) + [s[curr]]
  {
    ghost var now := accounts[..];
    last' := if accounts[curr].key != accounts[last].key then last + 1 else last;
    HoldsNext(now, s, c, curr, last');
    accounts[last'] := accounts[curr];
    c' := c[..last'] + [s[curr]];
    assert accounts[..] == now[last' := s[curr]];
  }

  // In place: the compacted accounts grow at the front of the array while the rest is read.
  method RemoveDups(accounts: array<Found>) returns (len: nat)
    modifies accounts
    ensures len <= accounts.Length && accounts[..len] == Compact(old(accounts[..]), accounts.Length)
  {
    ghost var s := accounts[..];
    if accounts.Length > 0 { CompactNext(s, 0); }
    len := accounts.Length;
    if accounts.Length > 1 {
      var last, curr := 0, 1;
      ghost var c := [s[0]];
      while curr < accounts.Length
        invariant Holds(accounts[..], s, c, curr) && last == |c| - 1
        invariant c == Compact(s, curr)
      {
        CompactNext(s, curr);
        last, c := KeepNext(accounts, last, curr, s, c);
        curr := curr + 1;
      }
      len := last + 1;
      assert accounts[..len] == c;
    }
  }

  method CopyBack(accounts: array<Found>, s: seq<Found>)
    requires |s| == accounts.Length
    modifies accounts
    ensures accounts[..] == s
  {
    for i := 0 to accounts.Length
      invariant forall j | 0 <= j < i :: accounts[j] == s[j]
    {
      accounts[i] := s[i];
    }
  }

  // What is left is strictly sorted and holds, of every key, exactly the account found last.
  method SortAndRemoveDups(accounts: array<Found>) returns (len: nat, dropped: nat)
    modifies accounts
    ensures len <= accounts.Length && dropped == accounts.Length - len
    ensures StrictlySorted(accounts[..len])
    ensures forall k :: Of(accounts[..len], k) == LastOnly(Of(old(accounts[..]), k))
  {
    ghost var s := accounts[..];
    CopyBack(accounts, StableSort(accounts[..]));
    len := RemoveDups(accounts);
    dropped := accounts.Length - len;
    SortIsStable(s, 0);
    CompactSorts(StableSort(s), |s|);
    forall k ensures Of(accounts[..len], k) == LastOnly(Of(s, k)) {
      SortIsStable(s, k);
      CompactKeepsLast(StableSort(s), |s|, k);
      assert StableSort(s)[..|s|] == StableSort(s);
    }
  }
}
