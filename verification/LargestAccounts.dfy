/**
 The largest accounts by balance, found in one scan with a heap that never holds more than the
 number asked for.
 */
module LargestAccounts {
  import opened Types

  datatype Entry = Entry(lamports: nat, key: Pubkey)

  datatype Seen = Seen(key: Pubkey, account: Account)

  // The order of (lamports, pubkey) pairs.
  predicate Below(a: Entry, b: Entry) {
    a.lamports < b.lamports || (a.lamports == b.lamports && a.key < b.key)
  }

  predicate AtMost(a: Entry, b: Entry) {
    a == b || Below(a, b)
  }

  predicate Collects(seen: Option<Seen>, addresses: set<Pubkey>, includes: bool) {
    seen.Some? && seen.value.account.lamports != 0 && (seen.value.key in addresses <==> includes)
  }

  function EntryOf(seen: Seen): Entry {
    Entry(seen.account.lamports, seen.key)
  }

  // What a scan offers.
  ghost function Eligible(scan: seq<Option<Seen>>, addresses: set<Pubkey>, includes: bool): set<Entry> {
    set i | 0 <= i < |scan| && Collects(scan[i], addresses, includes) :: EntryOf(scan[i].value)
  }

  // A scan visits a key once.
  ghost predicate VisitsOnce(scan: seq<Option<Seen>>) {
    forall i, j | 0 <= i < j < |scan| && scan[i].Some? && scan[j].Some? :: scan[i].value.key != scan[j].value.key
  }

  // ---------- the full list, largest first ----------

  ghost predicate IsMax(s: set<Entry>, m: Entry) {
    m in s && forall x | x in s :: AtMost(x, m)
  }

  ghost predicate IsMin(s: set<Entry>, m: Entry) {
    m in s && forall x | x in s :: AtMost(m, x)
  }

  lemma {:induction false} MaxExists(s: set<Entry>) returns (m: Entry)
    requires s != {}
    ensures IsMax(s, m)
  {
    m :| m in s;
    if s != {m} {
      var rest := MaxExists(s - {m});
      assert forall x | x in s :: x == m || x in s - {m};
      if Below(m, rest) { m := rest; }
    }
  }

  lemma {:induction false} MinExists(s: set<Entry>) returns (m: Entry)
    requires s != {}
    ensures IsMin(s, m)
  {
    m :| m in s;
    if s != {m} {
      var rest := MinExists(s - {m});
      assert forall x | x in s :: x == m || x in s - {m};
      if Below(rest, m) { m := rest; }
    }
  }

  lemma HasMax(s: set<Entry>)
    requires s != {}
    ensures exists m :: IsMax(s, m)
  {
    var m := MaxExists(s);
  }

  ghost function Max(s: set<Entry>): (m: Entry)
    requires s != {}
    ensures IsMax(s, m)
  {
    HasMax(s);
    var m :| IsMax(s, m);
    m
  }

  ghost function Descending(s: set<Entry>): (r: seq<Entry>)
    ensures |r| == |s|
  {
    if s == {} then [] else [Max(s)] + Descending(s - {Max(s)})
  }

  // ---------- the scan ----------

  // The heap holds the largest entries seen so far.
  ghost predicate Largest(seen: set<Entry>, num: nat, heap: set<Entry>) {
    && heap <= seen && |heap| <= num && (|heap| < num ==> heap == seen)
    && forall x, y | x in heap && y in seen - heap :: Below(y, x)
  }

  lemma {:induction false} LargestIsPrefix(seen: set<Entry>, heap: set<Entry>)
    requires heap <= seen && forall x, y | x in heap && y in seen - heap :: Below(y, x)
    ensures |heap| <= |seen| && Descending(heap) == Descending(seen)[..|heap|]
  {
    if heap != {} {
      var m := Max(heap);
      assert IsMax(seen, m) && Max(seen) == m;
      LargestIsPrefix(seen - {m}, heap - {m});
    }
  }

  lemma FullStays(seen: set<Entry>, num: nat, heap: set<Entry>, least: Entry, e: Entry)
    requires Largest(seen, num, heap) && |heap| == num && IsMin(heap, least) && AtMost(e, least) && e !in seen
    ensures Largest(seen + {e}, num, heap)
  {
  }

  lemma FullReplaces(seen: set<Entry>, num: nat, heap: set<Entry>, least: Entry, e: Entry)
    requires Largest(seen, num, heap) && |heap| == num && IsMin(heap, least) && Below(least, e) && e !in seen
    ensures Largest(seen + {e}, num, heap - {least} + {e})
  {
    var seen', heap' := seen + {e}, heap - {least} + {e};
    forall x, y | x in heap' && y in seen' - heap' ensures Below(y, x) {
      assert y == least || y in seen - heap;
      assert AtMost(y, least) && (x == e || AtMost(least, x));
    }
  }

  method Offer(heap: set<Entry>, num: nat, e: Entry, ghost seen: set<Entry>) returns (heap': set<Entry>)
    requires num > 0 && Largest(seen, num, heap) && e !in seen
    ensures Largest(seen + {e}, num, heap')
  {
    if |heap| == num {
      ghost var w := MinExists(heap);
      var least :| least in heap && forall x | x in heap :: AtMost(least, x);
      if AtMost(e, least) {
        FullStays(seen, num, heap, least, e);
        return heap;
      }
      FullReplaces(seen, num, heap, least, e);
      return heap - {least} + {e};
    }
    return heap + {e};
  }

  lemma EligibleNext(scan: seq<Option<Seen>>, addresses: set<Pubkey>, includes: bool, i: nat)
    requires VisitsOnce(scan) && i < |scan|
    ensures var before, after := Eligible(scan[..i], addresses, includes), Eligible(scan[..i + 1], addresses, includes);
            if Collects(scan[i], addresses, includes)
            then after == before + {EntryOf(scan[i].value)} && EntryOf(scan[i].value) !in before
            else after == before
  {
    var before, after := Eligible(scan[..i], addresses, includes), Eligible(scan[..i + 1], addresses, includes);
    forall j | 0 <= j < i ensures scan[..i][j] == scan[..i + 1][j] { }
    assert scan[..i + 1][i] == scan[i];
    assert before <= after;
  }

  method Scan(scan: seq<Option<Seen>>, num: nat, addresses: set<Pubkey>, includes: bool) returns (heap: set<Entry>)
    requires num > 0 && VisitsOnce(scan)
    ensures Largest(Eligible(scan, addresses, includes), num, heap)
  {
    heap := {};
    ghost var seen: set<Entry> := {};
    for i := 0 to |scan|
      invariant seen == Eligible(scan[..i], addresses, includes)
      invariant Largest(seen, num, heap)
    {
      EligibleNext(scan, addresses, includes, i);
      if Collects(scan[i], addresses, includes) {
        var e := EntryOf(scan[i].value);
        heap := Offer(heap, num, e, seen);
        seen := seen + {e};
      }
    }
    assert scan[..|scan|] == scan;
  }

  // The heap taken apart, largest first.
  method IntoSortedVec(heap: set<Entry>) returns (r: seq<Entry>)
    ensures r == Descending(heap)
  {
    r := [];
    var rest := heap;
    while rest != {}
      invariant Descending(heap) == r + Descending(rest)
    {
      ghost var w := MaxExists(rest);
      var m :| m in rest && forall x | x in rest :: AtMost(x, m);
      assert AtMost(Max(rest), m) && AtMost(m, Max(rest));
      r, rest := r + [m], rest - {m};
    }
  }

  lemma {:induction false} DescendingIs(s: set<Entry>, i: nat)
    requires i < |s|
    ensures Descending(s)[i] in s
    ensures forall j | i < j < |s| :: Below(Descending(s)[j], Descending(s)[i])
  {
    if i > 0 {
      DescendingIs(s - {Max(s)}, i - 1);
    } else {
      forall j | 0 < j < |s| ensures Below(Descending(s)[j], Max(s)) {
        DescendingIs(s - {Max(s)}, j - 1);
      }
    }
  }

  lemma {:induction false} DescendingHas(s: set<Entry>, e: Entry) returns (i: nat)
    requires e in s
    ensures i < |s| && Descending(s)[i] == e
  {
    if e == Max(s) {
      i := 0;
    } else {
      i := DescendingHas(s - {Max(s)}, e);
      i := i + 1;
    }
  }

  // More lamports, or as many and a higher key.
  predicate Larger(a: Entry, b: Entry) {
    if a.lamports == b.lamports then b.key < a.key else b.lamports < a.lamports
  }

  // An account with lamports that the filter lets through.
  predicate Wanted(scan: seq<Option<Seen>>, addresses: set<Pubkey>, includes: bool, i: int) {
    && 0 <= i < |scan| && scan[i].Some? && scan[i].value.account.lamports > 0
    && if includes then scan[i].value.key in addresses else scan[i].value.key !in addresses
  }

  // Largest first, all of them wanted, and every other wanted account is smaller, or there is room for it.
  ghost predicate AreLargest(scan: seq<Option<Seen>>, num: nat, addresses: set<Pubkey>, includes: bool, r: seq<Entry>) {
    && |r| <= num
    && (forall i, j | 0 <= i < j < |r| :: Larger(r[i], r[j]))
    && (forall i | 0 <= i < |r| ::
          exists n :: Wanted(scan, addresses, includes, n)
                      && r[i] == Entry(scan[n].value.account.lamports, scan[n].value.key))
    && (forall n | Wanted(scan, addresses, includes, n) ::
          var e := Entry(scan[n].value.account.lamports, scan[n].value.key);
          e in r || (|r| == num && forall i | 0 <= i < |r| :: Larger(r[i], e)))
  }

  lemma WantedIsEligible(scan: seq<Option<Seen>>, addresses: set<Pubkey>, includes: bool, n: int)
    requires Wanted(scan, addresses, includes, n)
    ensures Entry(scan[n].value.account.lamports, scan[n].value.key) in Eligible(scan, addresses, includes)
  {
    assert Collects(scan[n], addresses, includes);
  }

  lemma EligibleIsWanted(scan: seq<Option<Seen>>, addresses: set<Pubkey>, includes: bool, e: Entry) returns (n: int)
    requires e in Eligible(scan, addresses, includes)
    ensures Wanted(scan, addresses, includes, n) && e == Entry(scan[n].value.account.lamports, scan[n].value.key)
  {
    n :| 0 <= n < |scan| && Collects(scan[n], addresses, includes) && EntryOf(scan[n].value) == e;
  }

  lemma PrefixIsLargest(scan: seq<Option<Seen>>, num: nat, addresses: set<Pubkey>, includes: bool, r: seq<Entry>)
    requires var all := Descending(Eligible(scan, addresses, includes)); r == all[..if num < |all| then num else |all|]
    ensures AreLargest(scan, num, addresses, includes, r)
  {
    var eligible := Eligible(scan, addresses, includes);
    forall i | 0 <= i < |r|
      ensures forall j | i < j < |r| :: Larger(r[i], r[j])
      ensures exists n :: Wanted(scan, addresses, includes, n)
                          && r[i] == Entry(scan[n].value.account.lamports, scan[n].value.key)
    {
      DescendingIs(eligible, i);
      var n := EligibleIsWanted(scan, addresses, includes, r[i]);
    }
    forall n | Wanted(scan, addresses, includes, n)
      ensures var e := Entry(scan[n].value.account.lamports, scan[n].value.key);
              e in r || (|r| == num && forall i | 0 <= i < |r| :: Larger(r[i], e))
    {
      var e := Entry(scan[n].value.account.lamports, scan[n].value.key);
      WantedIsEligible(scan, addresses, includes, n);
      var p := DescendingHas(eligible, e);
      if p < |r| {
        assert r[p] == e;
      } else {
        forall i | 0 <= i < |r| ensures Larger(r[i], e) { DescendingIs(eligible, i); }
      }
    }
  }

  // The first `num` of all eligible accounts sorted by balance and key, whatever the scan order.
  method LoadLargestAccounts(scan: seq<Option<Seen>>, num: nat, addresses: set<Pubkey>, includes: bool)
    returns (r: seq<Entry>)
    requires VisitsOnce(scan)
    ensures var all := Descending(Eligible(scan, addresses, includes));
            r == all[..if num < |all| then num else |all|]
    ensures AreLargest(scan, num, addresses, includes, r)
  {
    if num == 0 {
      return [];
    }
    var heap := Scan(scan, num, addresses, includes);
    r := IntoSortedVec(heap);
    LargestIsPrefix(Eligible(scan, addresses, includes), heap);
    PrefixIsLargest(scan, num, addresses, includes, r);
  }
}
