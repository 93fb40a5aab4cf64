/**
 The bookkeeping of the write cache: the size and count of every slot cache, and totals shared by all
 of them that follow each write and shrink again when the last reference to a slot cache is dropped.
 */
module WriteCache {
  import opened Types

  // ---------- sums over maps ----------

  ghost function Pick(m: map<nat, nat>): (k: nat)
    requires m != map[]
    ensures k in m
  {
    var k :| k in m;
    k
  }

  ghost function Sum(m: map<nat, nat>): nat
    decreases |m|
  {
    if m == map[] then 0 else m[Pick(m)] + Sum(m - {Pick(m)})
  }

  lemma {:induction false} SumWithout(m: map<nat, nat>, k: nat)
    requires k in m
    ensures Sum(m) == m[k] + Sum(m - {k})
    decreases |m|
  {
    var p := Pick(m);
    if p != k {
      SumWithout(m - {p}, k);
      SumWithout(m - {k}, p);
      assert m - {p} - {k} == m - {k} - {p};
    }
  }

  lemma SumUpdate(m: map<nat, nat>, k: nat, v: nat)
    ensures Sum(m[k := v]) == Sum(m) - (if k in m then m[k] else 0) + v
    ensures k in m ==> m[k] <= Sum(m)
  {
    SumWithout(m[k := v], k);
    if k in m {
      SumWithout(m, k);
      assert m[k := v] - {k} == m - {k};
    } else {
      assert m[k := v] - {k} == m;
    }
  }

  // ---------- the caches ----------

  ghost function Lengths(accounts: map<Pubkey, Account>): map<nat, nat> {
    map k | k in accounts :: |accounts[k].data|
  }

  datatype SlotCache = SlotCache(accounts: map<Pubkey, Account>, size: nat, count: nat) {
    ghost predicate Exact() {
      size == Sum(Lengths(accounts)) && count == |accounts|
    }
  }

  const EMPTY := SlotCache(map[], 0, 0)

  ghost function Sizes(caches: map<nat, SlotCache>): map<nat, nat> {
    map id | id in caches :: caches[id].size
  }

  ghost function Counts(caches: map<nat, SlotCache>): map<nat, nat> {
    map id | id in caches :: caches[id].count
  }

  ghost predicate AllExact(caches: map<nat, SlotCache>) {
    forall id {:trigger caches[id].Exact()} | id in caches :: caches[id].Exact()
  }

  // Every slot cache in memory is exact and the totals are the sums over all of them.
  ghost predicate Accounted(caches: map<nat, SlotCache>, totalSize: nat, totalCount: nat) {
    AllExact(caches) && totalSize == Sum(Sizes(caches)) && totalCount == Sum(Counts(caches))
  }

  ghost predicate Linked(ids: set<nat>, slots: map<Slot, nat>, nextId: nat) {
    (forall id | id in ids :: id < nextId) && (forall s | s in slots :: slots[s] in ids)
  }

  lemma BelowTotal(caches: map<nat, SlotCache>, id: nat)
    requires id in caches
    ensures caches[id].size <= Sum(Sizes(caches)) && caches[id].count <= Sum(Counts(caches))
  {
    SumWithout(Sizes(caches), id);
    SumWithout(Counts(caches), id);
  }

  lemma SameKeysSameSize(a: map<Pubkey, Account>, b: map<Pubkey, Account>)
    requires a.Keys == b.Keys
    ensures |a| == |b|
  {
    assert |a.Keys| == |a| && |b.Keys| == |b|;
  }

  // The exact figures after a write.
  lemma Written(c: SlotCache, k: Pubkey, account: Account)
    requires c.Exact()
    ensures k in c.accounts ==> |c.accounts[k].data| <= c.size
    ensures SlotCache(c.accounts[k := account],
                      c.size - (if k in c.accounts then |c.accounts[k].data| else 0) + |account.data|,
                      c.count + if k in c.accounts then 0 else 1).Exact()
  {
    SumUpdate(Lengths(c.accounts), k, |account.data|);
    assert Lengths(c.accounts[k := account]) == Lengths(c.accounts)[k := |account.data|];
    if k in c.accounts {
      assert c.accounts[k := account].Keys == c.accounts.Keys;
      SameKeysSameSize(c.accounts[k := account], c.accounts);
    }
  }

  // One write, with the totals moved by the same amounts as the figures of the slot cache.
  method Write(c: SlotCache, k: Pubkey, account: Account, totalSize: nat, totalCount: nat)
    returns (c': SlotCache, totalSize': nat, totalCount': nat)
    requires c.Exact() && c.size <= totalSize
    ensures c'.Exact() && c'.accounts == c.accounts[k := account]
    ensures totalSize' == totalSize - c.size + c'.size && totalCount' == totalCount - c.count + c'.count
  {
    var len := |account.data|;
    var size, count := c.size, c.count;
    totalSize', totalCount' := totalSize, totalCount;
    Written(c, k, account);
    if k in c.accounts {
      var oldLen := |c.accounts[k].data|;
      if len > oldLen {
        size, totalSize' := size + (len - oldLen), totalSize + (len - oldLen);
      } else if oldLen > len {
        size, totalSize' := size - (oldLen - len), totalSize - (oldLen - len);
      }
    } else {
      size, totalSize' := size + len, totalSize + len;
      count, totalCount' := count + 1, totalCount + 1;
    }
    c' := SlotCache(c.accounts[k := account], size, count);
  }

  lemma Replaced(caches: map<nat, SlotCache>, id: nat, c: SlotCache)
    ensures Sum(Sizes(caches[id := c])) == Sum(Sizes(caches)) - (if id in caches then caches[id].size else 0) + c.size
    ensures Sum(Counts(caches[id := c]))
            == Sum(Counts(caches)) - (if id in caches then caches[id].count else 0) + c.count
  {
    SumUpdate(Sizes(caches), id, c.size);
    SumUpdate(Counts(caches), id, c.count);
    assert Sizes(caches[id := c]) == Sizes(caches)[id := c.size];
    assert Counts(caches[id := c]) == Counts(caches)[id := c.count];
  }

  lemma AllExactWith(caches: map<nat, SlotCache>, id: nat, c: SlotCache, after: map<nat, SlotCache>)
    requires AllExact(caches) && c.Exact() && after == caches[id := c]
    ensures AllExact(after)
  {
    forall i | i in after ensures after[i].Exact() {
      if i != id { assert caches[i].Exact(); }
    }
  }

  lemma AccountedWith(caches: map<nat, SlotCache>, totalSize: nat, totalCount: nat, id: nat, c: SlotCache, size: nat,
                      count: nat)
    requires Accounted(caches, totalSize, totalCount) && c.Exact()
    requires size == totalSize - (if id in caches then caches[id].size else 0) + c.size
    requires count == totalCount - (if id in caches then caches[id].count else 0) + c.count
    ensures Accounted(caches[id := c], size, count) && caches[id := c].Keys == caches.Keys + {id}
  {
    Replaced(caches, id, c);
    AllExactWith(caches, id, c, caches[id := c]);
  }

  lemma AccountedWithEmpty(caches: map<nat, SlotCache>, totalSize: nat, totalCount: nat, id: nat)
    requires Accounted(caches, totalSize, totalCount) && id !in caches
    ensures Accounted(caches[id := EMPTY], totalSize, totalCount) && caches[id := EMPTY].Keys == caches.Keys + {id}
  {
    assert Lengths(map[]) == map[];
    AccountedWith(caches, totalSize, totalCount, id, EMPTY, totalSize, totalCount);
  }

  lemma Dropped(caches: map<nat, SlotCache>, id: nat)
    requires id in caches
    ensures Sum(Sizes(caches - {id})) == Sum(Sizes(caches)) - caches[id].size
    ensures Sum(Counts(caches - {id})) == Sum(Counts(caches)) - caches[id].count
  {
    SumWithout(Sizes(caches), id);
    SumWithout(Counts(caches), id);
    assert Sizes(caches - {id}) == Sizes(caches) - {id};
    assert Counts(caches - {id}) == Counts(caches) - {id};
  }

  lemma AccountedWithout(caches: map<nat, SlotCache>, totalSize: nat, totalCount: nat, id: nat)
    requires Accounted(caches, totalSize, totalCount) && id in caches
    ensures caches[id].size <= totalSize && caches[id].count <= totalCount
    ensures Accounted(caches - {id}, totalSize - caches[id].size, totalCount - caches[id].count)
    ensures (caches - {id}).Keys == caches.Keys - {id}
  {
    BelowTotal(caches, id);
    Dropped(caches, id);
    forall i | i in caches - {id} ensures (caches - {id})[i].Exact() {
      assert caches[i].Exact();
    }
  }

  class AccountsCache {
    // The slot caches still in memory, and which of them the cache refers to; the others are kept by
    // readers or a flush until they drop their reference.
    var caches: map<nat, SlotCache>
    var slots: map<Slot, nat>
    var nextId: nat
    var totalSize: nat
    var totalCount: nat

    ghost predicate Valid()
      reads this
    {
      Accounted(caches, totalSize, totalCount) && Linked(caches.Keys, slots, nextId)
    }

    constructor ()
      ensures Valid() && caches == map[] && totalSize == 0 && totalCount == 0
    {
      caches, slots, nextId, totalSize, totalCount := map[], map[], 0, 0, 0;
    }

    // A write into a slot cache in memory, even after it left the cache.
    method Insert(id: nat, k: Pubkey, account: Account)
      requires Valid() && id in caches
      modifies `caches, `totalSize, `totalCount
      ensures Valid() && id in caches
      ensures caches == old(caches)[id := caches[id]] && caches[id].accounts == old(caches[id].accounts)[k := account]
    {
      assert caches[id].Exact();
      BelowTotal(caches, id);
      var c, size, count := Write(caches[id], k, account, totalSize, totalCount);
      AccountedWith(caches, totalSize, totalCount, id, c, size, count);
      caches, totalSize, totalCount := caches[id := c], size, count;
    }

    // The slot cache of a slot, made if it is missing.
    method Open(s: Slot) returns (id: nat)
      requires Valid()
      modifies `caches, `slots, `nextId
      ensures Valid() && slots == old(slots)[s := id] && id in caches
      ensures if s in old(slots) then id == old(slots[s]) && caches == old(caches)
              else id !in old(caches) && caches == old(caches)[id := EMPTY]
    {
      if s in slots {
        id := slots[s];
        assert slots == slots[s := id];
      } else {
        id := Create(s);
      }
    }

    method Create(s: Slot) returns (id: nat)
      requires Valid() && s !in slots
      modifies `caches, `slots, `nextId
      ensures Valid() && slots == old(slots)[s := id] && id in caches
      ensures id !in old(caches) && caches == old(caches)[id := EMPTY]
    {
      id := nextId;
      AccountedWithEmpty(caches, totalSize, totalCount, id);
      caches, slots, nextId := caches[id := EMPTY], slots[s := id], nextId + 1;
    }

    method Store(s: Slot, k: Pubkey, account: Account)
      requires Valid()
      modifies this
      ensures Valid() && s in slots && slots[s] in caches
      ensures slots == old(slots)[s := slots[s]] && (s in old(slots) ==> slots[s] == old(slots[s]))
      ensures caches[slots[s]].accounts
              == (if s in old(slots) then old(caches)[old(slots[s])].accounts else map[])[k := account]
      ensures forall id | id in old(caches) && id != slots[s] :: id in caches && caches[id] == old(caches)[id]
    {
      var id := Open(s);
      Insert(id, k, account);
    }

    // The slot leaves the cache; its accounts stay in memory and in the totals.
    method RemoveSlot(s: Slot) returns (id: Option<nat>)
      requires Valid()
      modifies `slots
      ensures Valid() && slots == old(slots) - {s}
      ensures id == if s in old(slots) then Some(old(slots[s])) else None
    {
      id := if s in slots then Some(slots[s]) else None;
      slots := slots - {s};
    }

    // The last reference is gone: the slot cache takes its share out of the totals.
    method Drop(id: nat)
      requires Valid() && id in caches && forall s | s in slots :: slots[s] != id
      modifies `caches, `totalSize, `totalCount
      ensures Valid() && caches == old(caches) - {id}
    {
      BelowTotal(caches, id);
      AccountedWithout(caches, totalSize, totalCount, id);
      totalSize, totalCount := totalSize - caches[id].size, totalCount - caches[id].count;
      caches := caches - {id};
    }
  }
}
