/**
 Which stores a clean may empty.

 Clean wants to purge a set of zero-lamport candidates. A candidate may only go when every store
 that holds it goes too, and a store only goes when every account alive in it goes. The worklist
 below spreads "cannot go" over the bipartite graph of slots and candidates.
 */
module DeleteDependencies {
  import opened Types

  datatype CleaningInfo = CleaningInfo(slotList: seq<(Slot, AccountInfo)>, refCount: nat) {
    function Slots(): set<Slot> {
      set i | 0 <= i < |slotList| :: slotList[i].0
    }
  }

  // `count` is the number of accounts that stay alive in the store once all candidates in it
  // are purged; `keys` are those candidates.
  datatype StoreCount = StoreCount(count: nat, keys: set<Pubkey>)

  type Candidates = map<Pubkey, CleaningInfo>

  type StoreCounts = map<Slot, StoreCount>

  // ---------- the specification ----------

  predicate Deletable(info: CleaningInfo, counts: StoreCounts) {
    && |info.slotList| == info.refCount
    && forall i | 0 <= i < |info.slotList| ::
         info.slotList[i].0 in counts && counts[info.slotList[i].0].count == 0
  }

  // A set of slots is closed when it holds the slots of every undeletable candidate and, with
  // a counted slot, all slots of all candidates in that slot.
  ghost predicate Closed(c: Candidates, counts: StoreCounts, r: set<Slot>) {
    && (forall k | k in c && !Deletable(c[k], counts) :: c[k].Slots() <= r)
    && (forall s, k | s in r && s in counts && k in counts[s].keys && k in c :: c[k].Slots() <= r)
  }

  function AllSlots(c: Candidates): set<Slot> {
    set k, s | k in c && s in c[k].Slots() :: s
  }

  ghost predicate InEveryClosed(c: Candidates, counts: StoreCounts, s: Slot) {
    forall r: set<Slot> | Closed(c, counts, r) :: s in r
  }

  // The least closed set: the slots that must stay.
  ghost function Blocked(c: Candidates, counts: StoreCounts): set<Slot> {
    set s | s in AllSlots(c) && InEveryClosed(c, counts, s)
  }

  // Counted candidates exist, and each candidate is recorded at every counted slot it is in.
  ghost predicate Linked(c: Candidates, counts: StoreCounts) {
    && (forall s, k | s in counts && k in counts[s].keys :: k in c)
    && (forall k, s | k in c && s in c[k].Slots() && s in counts :: k in counts[s].keys)
  }

  lemma BlockedIsLeastClosed(c: Candidates, counts: StoreCounts)
    ensures Closed(c, counts, Blocked(c, counts))
    ensures forall r | Closed(c, counts, r) :: Blocked(c, counts) <= r
  {
    var b := Blocked(c, counts);
    forall k | k in c && !Deletable(c[k], counts) ensures c[k].Slots() <= b {
      forall s | s in c[k].Slots() ensures s in b {
        assert s in AllSlots(c);
      }
    }
    forall s, k | s in b && s in counts && k in counts[s].keys && k in c ensures c[k].Slots() <= b {
      forall t | t in c[k].Slots() ensures t in b {
        assert t in AllSlots(c);
        forall r | Closed(c, counts, r) ensures t in r {
          assert s in r;
        }
      }
    }
  }

  // A slot is blocked exactly when a chain of shared candidates joins it to an undeletable one.
  ghost predicate Chain(c: Candidates, counts: StoreCounts, path: seq<Pubkey>, s: Slot)
    decreases |path|
  {
    && path != []
    && var k := path[|path| - 1];
    && k in c && s in c[k].Slots()
    && if |path| == 1 then !Deletable(c[k], counts)
       else exists t | t in counts :: k in counts[t].keys && Chain(c, counts, path[..|path| - 1], t)
  }

  lemma {:induction false} ChainIsBlocked(c: Candidates, counts: StoreCounts, path: seq<Pubkey>, s: Slot)
    requires Chain(c, counts, path, s)
    ensures s in Blocked(c, counts)
    decreases |path|
  {
    BlockedIsLeastClosed(c, counts);
    var k := path[|path| - 1];
    if |path| > 1 {
      var t :| t in counts && k in counts[t].keys && Chain(c, counts, path[..|path| - 1], t);
      ChainIsBlocked(c, counts, path[..|path| - 1], t);
    }
  }

  lemma BlockedHasChain(c: Candidates, counts: StoreCounts, s: Slot) returns (path: seq<Pubkey>)
    requires s in Blocked(c, counts)
    ensures Chain(c, counts, path, s)
  {
    var reached := set t | t in AllSlots(c) && exists path :: Chain(c, counts, path, t);
    forall k | k in c && !Deletable(c[k], counts) ensures c[k].Slots() <= reached {
      forall t | t in c[k].Slots() ensures t in reached {
        assert Chain(c, counts, [k], t);
      }
    }
    forall t, k | t in reached && t in counts && k in counts[t].keys && k in c
      ensures c[k].Slots() <= reached
    {
      var path :| Chain(c, counts, path, t);
      forall u | u in c[k].Slots() ensures u in reached {
        var longer := path + [k];
        assert longer[..|longer| - 1] == path;
        assert Chain(c, counts, longer, u);
      }
    }
    assert Closed(c, counts, reached);
    path :| Chain(c, counts, path, s);
  }

  // ---------- the worklist ----------

  // One pass over a slot list: queue the slots not handled yet.
  method QueueSlots(slotList: seq<(Slot, AccountInfo)>, already: set<Slot>, pending: set<Slot>)
    returns (queued: set<Slot>)
    ensures queued == pending + ((set i | 0 <= i < |slotList| :: slotList[i].0) - already)
  {
    queued := pending;
    for i := 0 to |slotList|
      invariant queued == pending + ((set j | 0 <= j < i :: slotList[j].0) - already)
    {
      if slotList[i].0 !in already {
        queued := queued + {slotList[i].0};
      }
    }
  }

  // Everything reached so far is forced, and what it forces is reached or queued.
  ghost predicate Spreading(c: Candidates, counts: StoreCounts, already: set<Slot>, pending: set<Slot>) {
    && already + pending <= AllSlots(c)
    && (forall r | Closed(c, counts, r) :: already + pending <= r)
    && (forall s, k | s in already && s in counts && k in counts[s].keys && k in c ::
          c[k].Slots() <= already + pending)
  }

  function SlotsOfAll(c: Candidates, keys: set<Pubkey>): set<Slot>
    requires keys <= c.Keys
  {
    set k, s | k in keys && s in c[k].Slots() :: s
  }

  method QueueNeighbours(c: Candidates, keys: set<Pubkey>, already: set<Slot>, pending: set<Slot>)
    returns (queued: set<Slot>)
    requires keys <= c.Keys
    ensures queued == pending + (SlotsOfAll(c, keys) - already)
  {
    queued := pending;
    var todo := keys;
    while todo != {}
      invariant todo <= keys
      invariant queued == pending + (SlotsOfAll(c, keys - todo) - already)
      decreases todo
    {
      var k :| k in todo;
      queued := QueueSlots(c[k].slotList, already, queued);
      assert SlotsOfAll(c, keys - (todo - {k})) == SlotsOfAll(c, keys - todo) + c[k].Slots();
      todo := todo - {k};
    }
  }

  lemma SpreadStep(c: Candidates, counts: StoreCounts, already: set<Slot>, pending: set<Slot>,
                   slot: Slot, pending': set<Slot>)
    requires Linked(c, counts)
    requires Spreading(c, counts, already, pending)
    requires slot in pending && slot !in already
    requires pending' == (pending - {slot})
                         + if slot in counts
                           then SlotsOfAll(c, counts[slot].keys) - (already + {slot})
                           else {}
    ensures Spreading(c, counts, already + {slot}, pending')
  {
    var already' := already + {slot};
    forall s | s in already' + pending' ensures s in AllSlots(c) {
    }
    forall r | Closed(c, counts, r) ensures already' + pending' <= r {
      assert slot in r;
    }
    forall s, k | s in already' && s in counts && k in counts[s].keys && k in c
      ensures c[k].Slots() <= already' + pending'
    {
    }
  }

  method SpreadFrom(c: Candidates, ghost counts: StoreCounts, kept0: StoreCounts,
                    already0: set<Slot>, pending0: set<Slot>)
    returns (kept: StoreCounts, already: set<Slot>)
    requires Linked(c, counts)
    requires kept0 == counts - already0
    requires Spreading(c, counts, already0, pending0)
    requires already0 !! pending0
    ensures kept == counts - already
    ensures Spreading(c, counts, already, {})
    ensures already0 + pending0 <= already
  {
    kept, already := kept0, already0;
    var pending := pending0;
    while pending != {}
      invariant kept == counts - already
      invariant Spreading(c, counts, already, pending)
      invariant already !! pending
      invariant already0 + pending0 <= already + pending
      decreases AllSlots(c) - already
    {
      var slot :| slot in pending;
      ghost var before, beforeAlready := pending, already;
      pending := pending - {slot};
      if slot in already {
        continue;
      }
      already := already + {slot};
      if slot in kept {
        var keys := kept[slot].keys;
        kept := kept - {slot};
        pending := QueueNeighbours(c, keys, already, pending);
      }
      SpreadStep(c, counts, beforeAlready, before, slot, pending);
      assert slot in AllSlots(c);
    }
  }

  method IsDeletable(info: CleaningInfo, counts: StoreCounts) returns (delete: bool)
    ensures delete == Deletable(info, counts)
  {
    if |info.slotList| != info.refCount {
      return false;
    }
    for i := 0 to |info.slotList|
      invariant forall j | 0 <= j < i ::
                  info.slotList[j].0 in counts && counts[info.slotList[j].0].count == 0
    {
      var slot := info.slotList[i].0;
      if slot in counts && counts[slot].count == 0 {
        continue;
      }
      return false;
    }
    return true;
  }

  // A candidate that fails against the current counts is forced, whenever it is visited.
  lemma FailedIsForced(c: Candidates, counts: StoreCounts, already: set<Slot>, k: Pubkey, r: set<Slot>)
    requires Linked(c, counts)
    requires k in c && !Deletable(c[k], counts - already)
    requires Closed(c, counts, r) && already <= r
    ensures c[k].Slots() <= r
  {
    if Deletable(c[k], counts) {
      var i :| 0 <= i < |c[k].slotList| &&
        !(c[k].slotList[i].0 in counts - already && (counts - already)[c[k].slotList[i].0].count == 0);
      var s := c[k].slotList[i].0;
      assert s in c[k].Slots();
      assert s in already && s in counts && k in counts[s].keys;
    }
  }

  ghost predicate Handled(c: Candidates, counts: StoreCounts, already: set<Slot>, k: Pubkey)
    requires k in c
  {
    Deletable(c[k], counts) || c[k].Slots() <= already
  }

  // Visits one candidate: leaves it be when it can go, otherwise blocks all it reaches.
  method VisitCandidate(c: Candidates, ghost counts: StoreCounts, k: Pubkey,
                        kept0: StoreCounts, already0: set<Slot>)
    returns (kept: StoreCounts, already: set<Slot>)
    requires Linked(c, counts)
    requires k in c
    requires kept0 == counts - already0
    requires Spreading(c, counts, already0, {})
    ensures kept == counts - already
    ensures already0 <= already
    ensures Spreading(c, counts, already, {})
    ensures Handled(c, counts, already, k)
  {
    kept, already := kept0, already0;
    var delete := IsDeletable(c[k], kept);
    if !delete {
      var pending := QueueSlots(c[k].slotList, already, {});
      assert c[k].Slots() - already == pending;
      forall r | Closed(c, counts, r) ensures pending <= r {
        FailedIsForced(c, counts, already, k, r);
      }
      assert pending <= AllSlots(c);
      assert Spreading(c, counts, already, pending);
      kept, already := SpreadFrom(c, counts, kept, already, pending);
    }
  }

  /**
   Removes from `counts` exactly the blocked slots, whatever the order in which candidates and
   pending slots are visited.
   */
  method CalcDeleteDependencies(c: Candidates, counts: StoreCounts) returns (kept: StoreCounts)
    requires Linked(c, counts)
    ensures kept == counts - Blocked(c, counts)
  {
    kept := counts;
    var already: set<Slot> := {};
    var todo := c.Keys;
    while todo != {}
      invariant todo <= c.Keys
      invariant kept == counts - already
      invariant Spreading(c, counts, already, {})
      invariant forall k | k in c && k !in todo :: Handled(c, counts, already, k)
      decreases todo
    {
      var k :| k in todo;
      todo := todo - {k};
      kept, already := VisitCandidate(c, counts, k, kept, already);
    }
    BlockedIsLeastClosed(c, counts);
    assert Closed(c, counts, already) by {
      forall k | k in c && !Deletable(c[k], counts) ensures c[k].Slots() <= already {
        assert Handled(c, counts, already, k);
      }
    }
    assert already == Blocked(c, counts);
  }
}
