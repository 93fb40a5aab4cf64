/**
 The hot-tier cache: a doubly linked list threaded through an arena of nodes, a free list of arena
 positions and a map from keys to positions, refining a plain sequence of entries, most recently
 used first. `next` points to the older neighbour and `prev` to the newer one.
 */
module AccountCaching {
  import opened Types

  const U64_MAX: nat := 0xFFFF_FFFF_FFFF_FFFF
  const NIL: nat := 0xFFFF_FFFF_FFFF_FFFF

  function SaturatingAdd(x: nat, y: nat): (sum: nat)
    ensures sum <= x + y && sum <= U64_MAX && (sum < U64_MAX ==> sum == x + y)
  {
    if x + y <= U64_MAX then x + y else U64_MAX
  }

  datatype Entry = Entry(key: Pubkey, account: Account, accessCount: nat) {
    function Size(): nat {
      160 + |account.data|
    }

    function Touched(): Entry {
      this.(accessCount := SaturatingAdd(accessCount, 1))
    }
  }

  function SaturatingSub(x: nat, y: nat): (rest: nat)
    ensures rest <= x <= rest + y && (rest > 0 ==> rest + y == x)
  {
    if x >= y then x - y else 0
  }

  datatype Policy = LRU | LFU | ARC

  datatype Node = Node(entry: Entry, next: nat, prev: nat)

  // ---------- the sequence the cache refines ----------

  type Contents = seq<Entry>

  ghost predicate DistinctKeys(c: Contents) {
    forall i, j | 0 <= i < j < |c| :: c[i].key != c[j].key
  }

  // The place of a key, or |c| when it is absent.
  function Position(c: Contents, k: Pubkey): (p: nat)
    ensures p <= |c|
    ensures p < |c| ==> c[p].key == k
    ensures forall i | 0 <= i < p :: c[i].key != k
  {
    if c == [] || c[0].key == k then 0 else 1 + Position(c[1..], k)
  }

  function Cut<T>(s: seq<T>, p: nat): seq<T>
    requires p < |s|
  {
    s[..p] + s[p + 1..]
  }

  lemma CutAt<T>(s: seq<T>, p: nat, i: nat)
    requires p < |s| && i < |s| - 1
    ensures Cut(s, p)[i] == s[if i < p then i else i + 1]
  {
  }

  function Put(c: Contents, e: Entry): Contents {
    var p := Position(c, e.key);
    [e] + if p < |c| then Cut(c, p) else c
  }

  function Without(c: Contents, k: Pubkey): Contents {
    var p := Position(c, k);
    if p < |c| then Cut(c, p) else c
  }

  ghost function Lookup(c: Contents, k: Pubkey): Option<Entry> {
    var p := Position(c, k);
    if p < |c| then Some(c[p]) else None
  }

  lemma PositionIs(c: Contents, k: Pubkey, p: nat)
    requires p < |c| && c[p].key == k && forall i | 0 <= i < p :: c[i].key != k
    ensures Position(c, k) == p
  {
    var q := Position(c, k);
    assert q >= p && q <= p;
  }

  lemma PositionAbsent(c: Contents, k: Pubkey)
    requires forall i | 0 <= i < |c| :: c[i].key != k
    ensures Position(c, k) == |c|
  {
  }

  // A place found in what is left is where the key was, or one place further.
  lemma CutLookup(c: Contents, p: nat, k: Pubkey)
    requires p < |c| && c[p].key != k
    ensures Lookup(Cut(c, p), k) == Lookup(c, k)
  {
    var rest, q := Cut(c, p), Position(c, k);
    if q < |c| {
      var q' := if q < p then q else q - 1;
      CutAt(c, p, q');
      forall i | 0 <= i < q' ensures rest[i].key != k { CutAt(c, p, i); }
      PositionIs(rest, k, q');
    } else {
      forall i | 0 <= i < |rest| ensures rest[i].key != k { CutAt(c, p, i); }
      PositionAbsent(rest, k);
    }
  }

  lemma WithoutLacks(c: Contents, gone: Pubkey, i: nat)
    requires DistinctKeys(c) && i < |Without(c, gone)|
    ensures Without(c, gone)[i].key != gone
  {
    var p := Position(c, gone);
    if p < |c| { CutAt(c, p, i); }
  }

  lemma WithoutLookup(c: Contents, gone: Pubkey, k: Pubkey)
    requires DistinctKeys(c)
    ensures Lookup(Without(c, gone), k) == if k == gone then None else Lookup(c, k)
  {
    if k == gone {
      forall i | 0 <= i < |Without(c, gone)| ensures Without(c, gone)[i].key != gone { WithoutLacks(c, gone, i); }
      PositionAbsent(Without(c, gone), gone);
    } else if Position(c, gone) < |c| {
      CutLookup(c, Position(c, gone), k);
    }
  }

  lemma WithoutDistinct(c: Contents, gone: Pubkey)
    requires DistinctKeys(c)
    ensures DistinctKeys(Without(c, gone))
  {
    var p := Position(c, gone);
    if p < |c| {
      forall i, j | 0 <= i < j < |c| - 1 ensures Cut(c, p)[i].key != Cut(c, p)[j].key {
        CutAt(c, p, i);
        CutAt(c, p, j);
      }
    }
  }

  lemma ConsLookup(e: Entry, rest: Contents, k: Pubkey)
    ensures Lookup([e] + rest, k) == if k == e.key then Some(e) else Lookup(rest, k)
  {
    assert ([e] + rest)[1..] == rest;
  }

  // Without two entries of one key, a put is seen by lookups of its key only.
  lemma PutLookup(c: Contents, e: Entry, k: Pubkey)
    requires DistinctKeys(c)
    ensures Lookup(Put(c, e), k) == if k == e.key then Some(e) else Lookup(c, k)
  {
    WithoutLookup(c, e.key, k);
    ConsLookup(e, Without(c, e.key), k);
  }

  lemma PutDistinct(c: Contents, e: Entry)
    requires DistinctKeys(c)
    ensures DistinctKeys(Put(c, e))
  {
    var rest := Without(c, e.key);
    WithoutDistinct(c, e.key);
    forall i | 0 <= i < |rest| ensures rest[i].key != e.key {
      WithoutLacks(c, e.key, i);
    }
  }

  // Keys stay distinct and only lookups of one key see a change.
  ghost predicate ChangedAt(c: Contents, c': Contents, k: Pubkey, entry: Option<Entry>) {
    DistinctKeys(c') && forall j :: Lookup(c', j) == if j == k then entry else Lookup(c, j)
  }

  lemma PutChanges(c: Contents, e: Entry)
    requires DistinctKeys(c)
    ensures ChangedAt(c, Put(c, e), e.key, Some(e))
  {
    PutDistinct(c, e);
    forall j ensures Lookup(Put(c, e), j) == if j == e.key then Some(e) else Lookup(c, j) {
      PutLookup(c, e, j);
    }
  }

  lemma WithoutChanges(c: Contents, k: Pubkey)
    requires DistinctKeys(c)
    ensures ChangedAt(c, Without(c, k), k, None)
  {
    WithoutDistinct(c, k);
    forall j ensures Lookup(Without(c, k), j) == if j == k then None else Lookup(c, j) {
      WithoutLookup(c, k, j);
    }
  }

  function TotalSize(c: Contents): nat {
    if c == [] then 0 else TotalSize(c[..|c| - 1]) + c[|c| - 1].Size()
  }

  ghost function DataBytes(c: Contents): nat {
    if c == [] then 0 else DataBytes(c[..|c| - 1]) + |c[|c| - 1].account.data|
  }

  // 160 bytes for each entry, and its data.
  lemma {:induction false} TotalSizeIs(c: Contents)
    ensures TotalSize(c) == 160 * |c| + DataBytes(c)
  {
    if c != [] { TotalSizeIs(c[..|c| - 1]); }
  }

  lemma {:induction false} TotalSizeDrop(c: Contents, p: nat)
    requires p < |c|
    ensures TotalSize(Cut(c, p)) == TotalSize(c) - c[p].Size()
  {
    var last := |c| - 1;
    if p == last {
      assert Cut(c, p) == c[..last];
    } else {
      assert Cut(c, p)[..last - 1] == Cut(c[..last], p);
      assert Cut(c, p)[last - 1] == c[last];
      TotalSizeDrop(c[..last], p);
    }
  }

  lemma {:induction false} TotalSizeCons(e: Entry, c: Contents)
    ensures TotalSize([e] + c) == e.Size() + TotalSize(c)
  {
    if c == [] {
      assert ([e] + c)[..0] == [];
    } else {
      assert ([e] + c)[..|c|] == [e] + c[..|c| - 1];
      TotalSizeCons(e, c[..|c| - 1]);
    }
  }

  lemma ReplacedSize(c: Contents, p: nat, e: Entry)
    requires p < |c|
    ensures TotalSize([e] + Cut(c, p)) == TotalSize(c) - c[p].Size() + e.Size()
    ensures TotalSize(c) >= c[p].Size()
  {
    TotalSizeDrop(c, p);
    TotalSizeCons(e, Cut(c, p));
  }

  // How many entries leave when the newest `left` are still there: one more while usage is above the
  // watermark and the batch is not full. Under LFU an entry with a saturated access count is never
  // below the initial minimum of the scan, and ends the batch.
  ghost function EvictCount(c: Contents, left: nat, size: nat, watermark: nat, batch: nat, lfu: bool): (n: nat)
    requires left <= |c|
    ensures n <= left && n <= batch
  {
    if size <= watermark || batch == 0 || left == 0 || (lfu && c[left - 1].accessCount >= U64_MAX) then 0
    else 1 + EvictCount(c, left - 1, SaturatingSub(size, c[left - 1].Size()), watermark, batch - 1, lfu)
  }

  // The n oldest entries, oldest first.
  ghost function Oldest(c: Contents, n: nat): (r: seq<(Pubkey, Account)>)
    requires n <= |c|
    ensures |r| == n
    ensures forall i | 0 <= i < n :: r[i] == (c[|c| - 1 - i].key, c[|c| - 1 - i].account)
  {
    if n == 0 then [] else Oldest(c, n - 1) + [(c[|c| - n].key, c[|c| - n].account)]
  }

  // Keeping this many entries is the shortest eviction that reaches the watermark, or the longest that
  // the batch size and, under LFU, a saturated access count allow.
  ghost predicate Shortest(c: Contents, left: nat, watermark: nat, batch: nat, lfu: bool, kept: nat)
    requires left <= |c|
  {
    && kept <= left <= kept + batch
    && (|| TotalSize(c[..kept]) <= watermark || left - kept == batch || kept == 0
        || (lfu && c[kept - 1].accessCount >= U64_MAX))
    && (forall j | kept < j <= left :: TotalSize(c[..j]) > watermark && (lfu ==> c[j - 1].accessCount < U64_MAX))
  }

  lemma PrefixSize(c: Contents, left: nat)
    requires 0 < left <= |c|
    ensures TotalSize(c[..left]) == TotalSize(c[..left - 1]) + c[left - 1].Size()
  {
    assert c[..left][..left - 1] == c[..left - 1];
  }

  // With an exact byte count the eviction takes the shortest suffix that brings usage down to the
  // watermark, cut off by the batch size and, under LFU, by a saturated access count.
  lemma {:induction false} EvictionIsShortest(c: Contents, left: nat, watermark: nat, batch: nat, lfu: bool)
    requires left <= |c|
    ensures Shortest(c, left, watermark, batch, lfu,
                     left - EvictCount(c, left, TotalSize(c[..left]), watermark, batch, lfu))
  {
    if TotalSize(c[..left]) > watermark && batch > 0 && left > 0 && (lfu ==> c[left - 1].accessCount < U64_MAX) {
      PrefixSize(c, left);
      EvictionIsShortest(c, left - 1, watermark, batch - 1, lfu);
    }
  }

  // LFU evicts what LRU evicts exactly when none of that has a saturated access count.
  lemma {:induction false} LfuIsLruIff(c: Contents, left: nat, size: nat, watermark: nat, batch: nat)
    requires left <= |c|
    ensures EvictCount(c, left, size, watermark, batch, true) <= EvictCount(c, left, size, watermark, batch, false)
    ensures EvictCount(c, left, size, watermark, batch, true) == EvictCount(c, left, size, watermark, batch, false)
            <==> forall i | left - EvictCount(c, left, size, watermark, batch, false) <= i < left ::
                c[i].accessCount < U64_MAX
  {
    if size > watermark && batch > 0 && left > 0 {
      LfuIsLruIff(c, left - 1, SaturatingSub(size, c[left - 1].Size()), watermark, batch - 1);
    }
  }

  ghost predicate Evicted(c: Contents, size: nat, watermark: nat, batch: nat, lfu: bool,
                          evicted: seq<(Pubkey, Account)>, kept: Contents)
  {
    var n := EvictCount(c, |c|, size, watermark, batch, lfu);
    kept == c[..|c| - n] && evicted == Oldest(c, n)
  }

  lemma EvictedIsShortest(c: Contents, size: nat, watermark: nat, batch: nat, lfu: bool,
                          evicted: seq<(Pubkey, Account)>, kept: Contents)
    requires Evicted(c, size, watermark, batch, lfu, evicted, kept) && size == TotalSize(c)
    ensures Shortest(c, |c|, watermark, batch, lfu, |kept|)
  {
    EvictionIsShortest(c, |c|, watermark, batch, lfu);
    assert c[..|c|] == c;
  }

  // An eviction in progress.
  ghost predicate EvictedSoFar(c: Contents, size0: nat, watermark: nat, batch: nat, lfu: bool,
                               evicted: seq<(Pubkey, Account)>, kept: Contents, size: nat)
  {
    && |evicted| <= batch && |evicted| <= |c|
    && kept == c[..|c| - |evicted|] && evicted == Oldest(c, |evicted|)
    && EvictCount(c, |c|, size0, watermark, batch, lfu)
       == |evicted| + EvictCount(c, |kept|, size, watermark, batch - |evicted|, lfu)
  }

  lemma EvictStart(c: Contents, size: nat, watermark: nat, batch: nat, lfu: bool)
    ensures EvictedSoFar(c, size, watermark, batch, lfu, [], c, size)
  {
    assert c == c[..|c|];
  }

  lemma EvictStop(c: Contents, size0: nat, watermark: nat, batch: nat, lfu: bool,
                  evicted: seq<(Pubkey, Account)>, kept: Contents, size: nat)
    requires EvictedSoFar(c, size0, watermark, batch, lfu, evicted, kept, size)
    requires size <= watermark || |evicted| == batch || kept == [] || (lfu && kept[|kept| - 1].accessCount >= U64_MAX)
    ensures Evicted(c, size0, watermark, batch, lfu, evicted, kept)
  {
  }

  lemma EvictOneMore(c: Contents, size0: nat, watermark: nat, batch: nat, lfu: bool,
                     evicted: seq<(Pubkey, Account)>, kept: Contents, size: nat)
    requires EvictedSoFar(c, size0, watermark, batch, lfu, evicted, kept, size)
    requires size > watermark && |evicted| < batch && kept != []
    requires lfu ==> kept[|kept| - 1].accessCount < U64_MAX
    ensures var last := kept[|kept| - 1];
            EvictedSoFar(c, size0, watermark, batch, lfu, evicted + [(last.key, last.account)],
                         kept[..|kept| - 1], SaturatingSub(size, last.Size()))
  {
    assert kept[..|kept| - 1] == c[..|c| - |evicted| - 1];
  }

  ghost function Quarter(c: Contents): nat {
    if |c| / 4 > 1 then |c| / 4 else 1
  }

  // The entry the documentation of the LFU policy names: the least used of the oldest quarter, the
  // oldest one on a tie.
  ghost predicate DocumentedVictim(c: Contents, v: nat) {
    && |c| - Quarter(c) <= v < |c|
    && (forall i | |c| - Quarter(c) <= i < v :: c[v].accessCount <= c[i].accessCount)
    && (forall i | v < i < |c| :: c[v].accessCount < c[i].accessCount)
  }

  // The first entry an LFU eviction takes is the oldest one, so it is the documented victim exactly
  // when the oldest entry is a least used one of the oldest quarter and its count is not saturated.
  lemma LfuTakesDocumentedIff(c: Contents, size: nat, watermark: nat, batch: nat, v: nat)
    requires size > watermark && batch > 0 && DocumentedVictim(c, v)
    ensures EvictCount(c, |c|, size, watermark, batch, true) > 0 && v == |c| - 1
            <==> && c[|c| - 1].accessCount < U64_MAX
                 && forall i | |c| - Quarter(c) <= i < |c| :: c[|c| - 1].accessCount <= c[i].accessCount
  {
    if v < |c| - 1 {
      assert c[v].accessCount < c[|c| - 1].accessCount;
    }
  }

  // Eight entries of which the two oldest were used twice and once: the documentation names the
  // second oldest, the code evicts the oldest.
  lemma LfuEvictsMoreUsed(a: Account)
    ensures var c := [Entry(0, a, 1), Entry(1, a, 1), Entry(2, a, 1), Entry(3, a, 1),
                      Entry(4, a, 1), Entry(5, a, 1), Entry(6, a, 1), Entry(7, a, 2)];
            && DocumentedVictim(c, 6) && EvictCount(c, 8, TotalSize(c), 0, 1, true) == 1
            && Oldest(c, 1) == [(7, a)]
  {
    var c := [Entry(0, a, 1), Entry(1, a, 1), Entry(2, a, 1), Entry(3, a, 1),
              Entry(4, a, 1), Entry(5, a, 1), Entry(6, a, 1), Entry(7, a, 2)];
    assert EvictCount(c, 8, TotalSize(c), 0, 1, true)
        == 1 + EvictCount(c, 7, SaturatingSub(TotalSize(c), c[7].Size()), 0, 0, true);
  }

  // ---------- the linked list in the arena ----------

  ghost predicate InArena(nodes: seq<Node>, order: seq<nat>) {
    forall i | 0 <= i < |order| :: order[i] < |nodes|
  }

  ghost function Older(order: seq<nat>, i: int): nat
    requires 0 <= i < |order|
  {
    if i + 1 < |order| then order[i + 1] else NIL
  }

  ghost function Newer(order: seq<nat>, i: int): nat
    requires 0 <= i < |order|
  {
    if i > 0 then order[i - 1] else NIL
  }

  ghost predicate LinkOk(nodes: seq<Node>, order: seq<nat>, i: nat)
    requires i < |order| && order[i] < |nodes|
  {
    nodes[order[i]].next == Older(order, i) && nodes[order[i]].prev == Newer(order, i)
  }

  // The next chain from head is `order` and the prev chain from tail is its reverse.
  ghost predicate Linked(nodes: seq<Node>, order: seq<nat>, head: nat, tail: nat) {
    && |nodes| <= NIL && InArena(nodes, order) && Distinct(order)
    && head == (if order == [] then NIL else order[0])
    && tail == (if order == [] then NIL else order[|order| - 1])
    && forall i: nat {:trigger LinkOk(nodes, order, i)} | i < |order| :: LinkOk(nodes, order, i)
  }

  ghost predicate SamePayload(a: seq<Node>, b: seq<Node>) {
    |a| == |b| && forall i | 0 <= i < |a| :: a[i].entry == b[i].entry
  }

  ghost function Entries(nodes: seq<Node>, order: seq<nat>): (c: Contents)
    requires InArena(nodes, order)
    ensures |c| == |order|
    ensures forall i | 0 <= i < |order| :: c[i] == nodes[order[i]].entry
  {
    seq(|order|, i requires 0 <= i < |order| => nodes[order[i]].entry)
  }

  // The arena after idx is put in front of the list.
  ghost function PushedNodes(nodes: seq<Node>, head: nat, idx: nat): seq<Node>
    requires idx < |nodes| && (head != NIL ==> head < |nodes|)
  {
    var linked := nodes[idx := nodes[idx].(prev := NIL, next := head)];
    if head != NIL then linked[head := linked[head].(prev := idx)] else linked
  }

  lemma PushedLink(nodes: seq<Node>, order: seq<nat>, head: nat, tail: nat, idx: nat, i: nat)
    requires Linked(nodes, order, head, tail) && idx < |nodes| && idx !in order
    requires i <= |order|
    ensures ([idx] + order)[i] < |nodes|
    ensures LinkOk(PushedNodes(nodes, head, idx), [idx] + order, i)
  {
    if i > 0 {
      assert LinkOk(nodes, order, i - 1);
      assert order[i - 1] != idx;
      assert i > 1 ==> order[i - 1] != order[0];
    }
  }

  lemma PushKeepsLinks(nodes: seq<Node>, order: seq<nat>, head: nat, tail: nat, idx: nat)
    requires Linked(nodes, order, head, tail) && idx < |nodes| && idx !in order
    ensures Linked(PushedNodes(nodes, head, idx), [idx] + order, idx, if tail == NIL then idx else tail)
  {
    forall i: nat | i < |order| + 1
      ensures ([idx] + order)[i] < |nodes| && LinkOk(PushedNodes(nodes, head, idx), [idx] + order, i)
    {
      PushedLink(nodes, order, head, tail, idx, i);
    }
  }

  // The arena after idx, with the given neighbours, is taken out of the list.
  ghost function UnlinkedNodes(nodes: seq<Node>, idx: nat, prev: nat, next: nat): seq<Node>
    requires idx < |nodes| && (prev != NIL ==> prev < |nodes|) && (next != NIL ==> next < |nodes|)
  {
    var a := if prev != NIL then nodes[prev := nodes[prev].(next := next)] else nodes;
    var b := if next != NIL then a[next := a[next].(prev := prev)] else a;
    b[idx := b[idx].(prev := NIL, next := NIL)]
  }

  lemma UnlinkedLink(nodes: seq<Node>, order: seq<nat>, head: nat, tail: nat, p: nat, j: nat)
    requires Linked(nodes, order, head, tail) && p < |order| && j < |order| && j != p
    ensures var idx := order[p];
            var nodes' := UnlinkedNodes(nodes, idx, Newer(order, p), Older(order, p));
            && nodes'[order[j]].next == (if j + 1 == p then Older(order, p) else Older(order, j))
            && nodes'[order[j]].prev == (if j == p + 1 then Newer(order, p) else Newer(order, j))
  {
    assert LinkOk(nodes, order, p) && LinkOk(nodes, order, j);
    assert order[j] != order[p];
    assert p > 0 && j != p - 1 ==> order[j] != order[p - 1];
    assert p + 1 < |order| && j != p + 1 ==> order[j] != order[p + 1];
  }

  lemma CutDistinct(order: seq<nat>, p: nat)
    requires Distinct(order) && p < |order|
    ensures Distinct(Cut(order, p))
  {
    forall i, j | 0 <= i < j < |order| - 1 ensures Cut(order, p)[i] != Cut(order, p)[j] {
      CutAt(order, p, i);
      CutAt(order, p, j);
    }
  }

  // The neighbours in the list without place p.
  lemma CutNeighbours(order: seq<nat>, p: nat, i: nat)
    requires p < |order| && i < |order| - 1
    ensures var j := if i < p then i else i + 1;
            && Older(Cut(order, p), i) == (if j + 1 == p then Older(order, p) else Older(order, j))
            && Newer(Cut(order, p), i) == (if j == p + 1 then Newer(order, p) else Newer(order, j))
  {
    if i > 0 { CutAt(order, p, i - 1); }
    if i + 1 < |order| - 1 { CutAt(order, p, i + 1); }
  }

  lemma UnlinkedLinkOk(nodes: seq<Node>, order: seq<nat>, head: nat, tail: nat, p: nat, i: nat)
    requires Linked(nodes, order, head, tail) && p < |order| && i < |order| - 1
    ensures var nodes' := UnlinkedNodes(nodes, order[p], Newer(order, p), Older(order, p));
            Cut(order, p)[i] < |nodes'| && LinkOk(nodes', Cut(order, p), i)
  {
    CutAt(order, p, i);
    CutNeighbours(order, p, i);
    UnlinkedLink(nodes, order, head, tail, p, if i < p then i else i + 1);
  }

  lemma UnlinkKeepsLinks(nodes: seq<Node>, order: seq<nat>, head: nat, tail: nat, p: nat)
    requires Linked(nodes, order, head, tail) && p < |order|
    ensures var prev, next := Newer(order, p), Older(order, p);
            && LinkOk(nodes, order, p)
            && Linked(UnlinkedNodes(nodes, order[p], prev, next), Cut(order, p),
                      if prev == NIL then next else head, if next == NIL then prev else tail)
  {
    var order' := Cut(order, p);
    assert LinkOk(nodes, order, p);
    CutDistinct(order, p);
    forall i: nat | i < |order'|
      ensures order'[i] < |nodes|
      ensures LinkOk(UnlinkedNodes(nodes, order[p], Newer(order, p), Older(order, p)), order', i)
    {
      UnlinkedLinkOk(nodes, order, head, tail, p, i);
    }
    if order' != [] {
      CutAt(order, p, 0);
      CutAt(order, p, |order'| - 1);
    }
  }

  // The nodes outside the list are exactly the free ones, each once.
  ghost predicate Partition(size: nat, order: seq<nat>, free: seq<nat>) {
    && Distinct(free)
    && (forall i | 0 <= i < |free| :: free[i] < size)
    && (forall x: nat | x < size :: x in order <==> x !in free)
  }

  ghost predicate KeyOk(nodes: seq<Node>, order: seq<nat>, index: map<Pubkey, nat>, k: Pubkey)
    requires k in index
  {
    index[k] in order && index[k] < |nodes| && nodes[index[k]].entry.key == k
  }

  ghost predicate EntryOk(nodes: seq<Node>, index: map<Pubkey, nat>, x: nat)
    requires x < |nodes|
  {
    nodes[x].entry.key in index && index[nodes[x].entry.key] == x
  }

  ghost predicate Indexed(nodes: seq<Node>, order: seq<nat>, index: map<Pubkey, nat>)
    requires InArena(nodes, order)
  {
    && (forall k {:trigger KeyOk(nodes, order, index, k)} | k in index :: KeyOk(nodes, order, index, k))
    && (forall i {:trigger EntryOk(nodes, index, order[i])} | 0 <= i < |order| :: EntryOk(nodes, index, order[i]))
  }

  lemma EntriesCut(nodes: seq<Node>, nodes': seq<Node>, order: seq<nat>, p: nat)
    requires InArena(nodes, order) && SamePayload(nodes, nodes') && p < |order|
    ensures InArena(nodes', Cut(order, p))
    ensures Entries(nodes', Cut(order, p)) == Cut(Entries(nodes, order), p)
  {
    forall i | 0 <= i < |order| - 1 ensures Cut(order, p)[i] < |nodes'| { CutAt(order, p, i); }
    forall i | 0 <= i < |order| - 1 ensures Entries(nodes', Cut(order, p))[i] == Cut(Entries(nodes, order), p)[i] {
      CutAt(order, p, i);
      CutAt(Entries(nodes, order), p, i);
    }
  }

  lemma EntriesCons(nodes: seq<Node>, order: seq<nat>, idx: nat)
    requires InArena(nodes, order) && idx < |nodes|
    ensures InArena(nodes, [idx] + order)
    ensures Entries(nodes, [idx] + order) == [nodes[idx].entry] + Entries(nodes, order)
  {
    var longer := [idx] + order;
    forall i | 0 <= i < |longer| ensures longer[i] < |nodes| {
      if i > 0 { assert longer[i] == order[i - 1]; }
    }
    forall i | 0 <= i < |longer| ensures Entries(nodes, longer)[i] == ([nodes[idx].entry] + Entries(nodes, order))[i] {
      if i > 0 { assert longer[i] == order[i - 1]; }
    }
  }

  lemma PositionOf(nodes: seq<Node>, order: seq<nat>, index: map<Pubkey, nat>, p: nat)
    requires InArena(nodes, order) && Distinct(order) && Indexed(nodes, order, index) && p < |order|
    ensures Position(Entries(nodes, order), nodes[order[p]].entry.key) == p
  {
    var q := Position(Entries(nodes, order), nodes[order[p]].entry.key);
    assert q <= p;
    assert EntryOk(nodes, index, order[q]) && EntryOk(nodes, index, order[p]);
  }

  // Where the map says a key is.
  lemma Find(nodes: seq<Node>, order: seq<nat>, index: map<Pubkey, nat>, k: Pubkey) returns (p: nat)
    requires InArena(nodes, order) && Distinct(order) && Indexed(nodes, order, index)
    ensures p == Position(Entries(nodes, order), k)
    ensures k in index ==> p < |order| && order[p] == index[k] && nodes[order[p]].entry.key == k
    ensures k !in index ==> p == |order|
  {
    p := Position(Entries(nodes, order), k);
    assert p < |order| ==> EntryOk(nodes, index, order[p]);
    if k in index {
      assert KeyOk(nodes, order, index, k);
      var q: nat :| q < |order| && order[q] == index[k];
      PositionOf(nodes, order, index, q);
    }
  }

  lemma CutMembers(order: seq<nat>, p: nat)
    requires Distinct(order) && p < |order|
    ensures forall x :: x in Cut(order, p) <==> x in order && x != order[p]
  {
    forall x | x in order && x != order[p] ensures x in Cut(order, p) {
      var j :| 0 <= j < |order| && order[j] == x;
      CutAt(order, p, if j < p then j else j - 1);
    }
    forall x | x in Cut(order, p) ensures x in order && x != order[p] {
      var i :| 0 <= i < |order| - 1 && Cut(order, p)[i] == x;
      CutAt(order, p, i);
    }
  }

  lemma CutIndexed(nodes: seq<Node>, nodes': seq<Node>, order: seq<nat>, index: map<Pubkey, nat>, p: nat)
    requires InArena(nodes, order) && Distinct(order) && Indexed(nodes, order, index) && p < |order|
    requires SamePayload(nodes, nodes')
    ensures InArena(nodes', Cut(order, p))
    ensures Indexed(nodes', Cut(order, p), index - {nodes[order[p]].entry.key})
  {
    CutMembers(order, p);
    var order', index' := Cut(order, p), index - {nodes[order[p]].entry.key};
    assert EntryOk(nodes, index, order[p]);
    forall i | 0 <= i < |order'| ensures EntryOk(nodes', index', order'[i]) {
      var j := if i < p then i else i + 1;
      assert EntryOk(nodes, index, order[j]) && order[j] != order[p];
    }
    forall k | k in index' ensures KeyOk(nodes', order', index', k) {
      assert KeyOk(nodes, order, index, k);
    }
  }

  lemma CutPartition(size: nat, order: seq<nat>, free: seq<nat>, p: nat)
    requires Distinct(order) && Partition(size, order, free) && p < |order| && order[p] < size
    ensures Partition(size, Cut(order, p), free + [order[p]])
  {
    CutMembers(order, p);
    assert order[p] in order;
  }

  // Nodes outside the list may be replaced or added.
  ghost predicate SameOn(nodes: seq<Node>, nodes': seq<Node>, order: seq<nat>)
    requires InArena(nodes, order)
  {
    |nodes| <= |nodes'| && forall x | x in order :: nodes'[x] == nodes[x]
  }

  lemma AllocKeeps(nodes: seq<Node>, nodes': seq<Node>, order: seq<nat>, head: nat, tail: nat)
    requires Linked(nodes, order, head, tail) && SameOn(nodes, nodes', order) && |nodes'| <= NIL
    ensures Linked(nodes', order, head, tail)
    ensures Entries(nodes', order) == Entries(nodes, order)
  {
    forall i: nat | i < |order| ensures LinkOk(nodes', order, i) {
      assert LinkOk(nodes, order, i) && order[i] in order;
    }
  }

  lemma AllocIndexed(nodes: seq<Node>, nodes': seq<Node>, order: seq<nat>, index: map<Pubkey, nat>, k: Pubkey, idx: nat)
    requires InArena(nodes, order) && Indexed(nodes, order, index) && SameOn(nodes, nodes', order)
    requires k !in index && idx !in order && idx < |nodes'| && nodes'[idx].entry.key == k
    ensures InArena(nodes', [idx] + order)
    ensures Indexed(nodes', [idx] + order, index[k := idx])
  {
    var order', index' := [idx] + order, index[k := idx];
    forall i | 0 <= i < |order'| ensures EntryOk(nodes', index', order'[i]) {
      if i > 0 {
        assert order[i - 1] in order && EntryOk(nodes, index, order[i - 1]);
      }
    }
    forall j | j in index' ensures KeyOk(nodes', order', index', j) {
      if j != k { assert KeyOk(nodes, order, index, j); }
    }
  }

  // Payloads and members of the list stay, its order may change.
  lemma SameIndexed(nodes: seq<Node>, nodes': seq<Node>, order: seq<nat>, order': seq<nat>, index: map<Pubkey, nat>)
    requires InArena(nodes, order) && Indexed(nodes, order, index) && SamePayload(nodes, nodes')
    requires forall x :: x in order' <==> x in order
    ensures InArena(nodes', order') && Indexed(nodes', order', index)
  {
    forall i | 0 <= i < |order'| ensures order'[i] < |nodes'| && EntryOk(nodes', index, order'[i]) {
      assert order'[i] in order';
      var j :| 0 <= j < |order| && order[j] == order'[i];
      assert EntryOk(nodes, index, order[j]);
    }
    forall k | k in index ensures KeyOk(nodes', order', index, k) {
      assert KeyOk(nodes, order, index, k);
    }
  }

  lemma NewPayloadLinks(nodes: seq<Node>, order: seq<nat>, head: nat, tail: nat, x: nat, e: Entry)
    requires Linked(nodes, order, head, tail) && x < |nodes|
    ensures Linked(nodes[x := nodes[x].(entry := e)], order, head, tail)
  {
    var nodes' := nodes[x := nodes[x].(entry := e)];
    forall i: nat | i < |order| ensures LinkOk(nodes', order, i) {
      assert LinkOk(nodes, order, i);
    }
  }

  lemma NewPayloadIndexed(nodes: seq<Node>, order: seq<nat>, index: map<Pubkey, nat>, x: nat, e: Entry)
    requires InArena(nodes, order) && Indexed(nodes, order, index) && x < |nodes| && nodes[x].entry.key == e.key
    ensures Indexed(nodes[x := nodes[x].(entry := e)], order, index)
  {
    var nodes' := nodes[x := nodes[x].(entry := e)];
    forall i | 0 <= i < |order| ensures EntryOk(nodes', index, order[i]) {
      assert EntryOk(nodes, index, order[i]);
    }
    forall k | k in index ensures KeyOk(nodes', order, index, k) {
      assert KeyOk(nodes, order, index, k);
    }
  }

  lemma NewPayloadEntries(nodes: seq<Node>, order: seq<nat>, p: nat, e: Entry)
    requires InArena(nodes, order) && Distinct(order) && p < |order|
    ensures var nodes' := nodes[order[p] := nodes[order[p]].(entry := e)];
            Entries(nodes', order) == Entries(nodes, order)[p := e]
  {
    var nodes' := nodes[order[p] := nodes[order[p]].(entry := e)];
    forall i | 0 <= i < |order| ensures Entries(nodes', order)[i] == Entries(nodes, order)[p := e][i] {
    }
  }

  lemma FrontEntries(nodes: seq<Node>, nodes': seq<Node>, order: seq<nat>, p: nat)
    requires InArena(nodes, order) && p < |order| && SamePayload(nodes, nodes')
    ensures InArena(nodes', [order[p]] + Cut(order, p))
    ensures Entries(nodes', [order[p]] + Cut(order, p)) == [Entries(nodes, order)[p]] + Cut(Entries(nodes, order), p)
  {
    EntriesCut(nodes, nodes', order, p);
    EntriesCons(nodes', Cut(order, p), order[p]);
  }

  lemma FrontPartition(size: nat, order: seq<nat>, free: seq<nat>, p: nat)
    requires Distinct(order) && Partition(size, order, free) && p < |order| && order[p] < size
    ensures Partition(size, [order[p]] + Cut(order, p), free)
    ensures forall x :: x in [order[p]] + Cut(order, p) <==> x in order
  {
    CutMembers(order, p);
    assert order[p] in order;
  }

  lemma IndexedKeysDistinct(nodes: seq<Node>, order: seq<nat>, index: map<Pubkey, nat>)
    requires InArena(nodes, order) && Distinct(order) && Indexed(nodes, order, index)
    ensures DistinctKeys(Entries(nodes, order))
  {
    forall i, j | 0 <= i < j < |order| ensures nodes[order[i]].entry.key != nodes[order[j]].entry.key {
      assert EntryOk(nodes, index, order[i]) && EntryOk(nodes, index, order[j]);
    }
  }

  lemma NoTail(nodes: seq<Node>, order: seq<nat>, head: nat, tail: nat)
    requires Linked(nodes, order, head, tail)
    ensures tail == NIL <==> order == []
  {
  }

  lemma NonEmpty(nodes: seq<Node>, order: seq<nat>, index: map<Pubkey, nat>)
    requires InArena(nodes, order) && Indexed(nodes, order, index)
    ensures index == map[] <==> order == []
  {
    if order != [] {
      assert EntryOk(nodes, index, order[0]);
    }
    if index != map[] {
      var k :| k in index;
      assert KeyOk(nodes, order, index, k);
    }
  }

  class AccountCache {
    var index: map<Pubkey, nat>
    var nodes: seq<Node>
    var free: seq<nat>
    var head: nat
    var tail: nat
    var size: nat
    ghost var order: seq<nat>

    ghost predicate Valid()
      reads this
    {
      && Linked(nodes, order, head, tail)
      && Partition(|nodes|, order, free)
      && Indexed(nodes, order, index)
    }

    ghost function Recency(): Contents
      reads this
      requires Valid()
    {
      Entries(nodes, order)
    }

    constructor ()
      ensures Valid() && Recency() == [] && size == 0
    {
      index, nodes, free, head, tail, size := map[], [], [], NIL, NIL, 0;
      order := [];
    }

    method PushHead(idx: nat)
      requires Linked(nodes, order, head, tail) && idx < |nodes| && idx !in order
      modifies `nodes, `head, `tail, `order
      ensures order == [idx] + old(order)
      ensures Linked(nodes, order, head, tail) && SamePayload(old(nodes), nodes)
    {
      PushKeepsLinks(nodes, order, head, tail, idx);
      nodes := nodes[idx := nodes[idx].(prev := NIL, next := head)];
      if head != NIL {
        nodes := nodes[head := nodes[head].(prev := idx)];
      }
      head := idx;
      if tail == NIL {
        tail := idx;
      }
      order := [idx] + order;
    }

    method Unlink(idx: nat, ghost p: nat)
      requires Linked(nodes, order, head, tail) && p < |order| && order[p] == idx
      modifies `nodes, `head, `tail, `order
      ensures order == Cut(old(order), p)
      ensures Linked(nodes, order, head, tail) && SamePayload(old(nodes), nodes)
    {
      UnlinkKeepsLinks(nodes, order, head, tail, p);
      var prev, next := nodes[idx].prev, nodes[idx].next;
      if prev != NIL {
        nodes := nodes[prev := nodes[prev].(next := next)];
      } else {
        head := next;
      }
      if next != NIL {
        nodes := nodes[next := nodes[next].(prev := prev)];
      } else {
        tail := prev;
      }
      nodes := nodes[idx := nodes[idx].(prev := NIL, next := NIL)];
      order := Cut(order, p);
    }

    method MoveToHead(idx: nat, ghost p: nat)
      requires Linked(nodes, order, head, tail) && p < |order| && order[p] == idx
      modifies `nodes, `head, `tail, `order
      ensures order == [idx] + Cut(old(order), p)
      ensures Linked(nodes, order, head, tail) && SamePayload(old(nodes), nodes)
    {
      if idx == head {
        return;
      }
      CutMembers(order, p);
      Unlink(idx, p);
      PushHead(idx);
    }

    // Takes a listed node out of the map and the list and frees it.
    method Detach(idx: nat, ghost p: nat)
      requires Valid() && p < |order| && order[p] == idx
      modifies this
      ensures Valid()
      ensures Recency() == Cut(old(Recency()), p)
      ensures size == SaturatingSub(old(size), old(Recency()[p].Size()))
    {
      CutPartition(|nodes|, order, free, p);
      ghost var before, order0 := nodes, order;
      var entry := nodes[idx].entry;
      index := index - {entry.key};
      Unlink(idx, p);
      free := free + [idx];
      size := SaturatingSub(size, entry.Size());
      CutIndexed(before, nodes, order0, old(index), p);
      EntriesCut(before, nodes, order0, p);
    }

    ghost predicate Exact()
      reads this
      requires Valid()
    {
      size == TotalSize(Recency())
    }

    method Remove(k: Pubkey) returns (account: Option<Account>)
      requires Valid()
      modifies this
      ensures Valid() && Recency() == Without(old(Recency()), k)
      ensures ChangedAt(old(Recency()), Recency(), k, None)
      ensures account == var p := Position(old(Recency()), k);
                         if p < |old(Recency())| then Some(old(Recency())[p].account) else None
      ensures old(Exact()) ==> Exact()
    {
      ghost var p := Find(nodes, order, index, k);
      IndexedKeysDistinct(nodes, order, index);
      WithoutChanges(Recency(), k);
      if k in index {
        var idx := index[k];
        TotalSizeDrop(Recency(), p);
        account := Some(nodes[idx].entry.account);
        Detach(idx, p);
      } else {
        account := None;
      }
    }

    method AllocNode(node: Node) returns (idx: nat)
      requires Valid() && |nodes| < NIL
      modifies `nodes, `free
      ensures idx < |nodes| <= NIL && idx !in order && nodes[idx] == node
      ensures SameOn(old(nodes), nodes, order)
      ensures Partition(|nodes|, [idx] + order, free)
    {
      if free != [] {
        idx := free[|free| - 1];
        assert idx in free;
        free := free[..|free| - 1];
        nodes := nodes[idx := node];
        assert forall x :: x in old(free) <==> x in free || x == idx;
      } else {
        idx := |nodes|;
        nodes := nodes + [node];
      }
    }

    method ToFront(idx: nat, ghost p: nat)
      requires Valid() && p < |order| && order[p] == idx
      modifies `nodes, `head, `tail, `order
      ensures Valid()
      ensures Recency() == [old(Recency())[p]] + Cut(old(Recency()), p)
    {
      ghost var before, order0 := nodes, order;
      MoveToHead(idx, p);
      FrontEntries(before, nodes, order0, p);
      FrontPartition(|nodes|, order0, free, p);
      SameIndexed(before, nodes, order0, order, index);
    }

    // Replaces the payload of a listed node and moves it to the front.
    method Promote(idx: nat, e: Entry, ghost p: nat)
      requires Valid() && p < |order| && order[p] == idx && Recency()[p].key == e.key
      modifies `nodes, `head, `tail, `order
      ensures Valid()
      ensures Recency() == [e] + Cut(old(Recency()), p)
    {
      NewPayloadLinks(nodes, order, head, tail, order[p], e);
      NewPayloadIndexed(nodes, order, index, order[p], e);
      NewPayloadEntries(nodes, order, p, e);
      nodes := nodes[idx := nodes[idx].(entry := e)];
      assert Cut(Recency(), p) == Cut(old(Recency()), p);
      ToFront(idx, p);
    }

    method Get(k: Pubkey) returns (account: Option<Account>)
      requires Valid()
      modifies this
      ensures Valid()
      ensures var c, p := old(Recency()), Position(old(Recency()), k);
              if p < |c| then
                && account == Some(c[p].account) && Recency() == Put(c, c[p].Touched())
                && ChangedAt(c, Recency(), k, Some(c[p].Touched()))
              else account == None && Recency() == c
      ensures account.Some? ==>
                var p := Position(old(Recency()), k); var count := old(Recency())[p].accessCount;
                Recency()[0] == Entry(k, account.value, if count < U64_MAX then count + 1 else U64_MAX)
      ensures old(Exact()) ==> Exact()
    {
      ghost var p := Find(nodes, order, index, k);
      IndexedKeysDistinct(nodes, order, index);
      if k in index {
        PutChanges(Recency(), Recency()[p].Touched());
        var e := GetExisting(index[k], p);
        account := Some(e.account);
      } else {
        account := None;
      }
    }

    method GetExisting(idx: nat, ghost p: nat) returns (e: Entry)
      requires Valid() && p < |order| && order[p] == idx
      modifies this
      ensures Valid() && e == old(Recency())[p] && Recency() == [e.Touched()] + Cut(old(Recency()), p)
      ensures old(Exact()) ==> Exact()
    {
      e := nodes[idx].entry;
      ReplacedSize(Recency(), p, e.Touched());
      Promote(idx, e.Touched(), p);
    }

    method Insert(k: Pubkey, account: Account)
      requires Valid() && |nodes| < NIL
      modifies this
      ensures Valid()
      ensures Recency() == Put(old(Recency()), Entry(k, account, 1))
      ensures ChangedAt(old(Recency()), Recency(), k, Some(Entry(k, account, 1)))
      ensures old(Exact()) && TotalSize(Recency()) <= U64_MAX ==> Exact()
    {
      var e := Entry(k, account, 1);
      ghost var p := Find(nodes, order, index, k);
      IndexedKeysDistinct(nodes, order, index);
      PutChanges(Recency(), e);
      if k in index {
        InsertExisting(index[k], e, p);
      } else {
        TotalSizeCons(e, Recency());
        InsertNew(e);
      }
    }

    method InsertExisting(idx: nat, e: Entry, ghost p: nat)
      requires Valid() && p < |order| && order[p] == idx && Recency()[p].key == e.key
      modifies this
      ensures Valid() && Recency() == [e] + Cut(old(Recency()), p)
      ensures old(Exact()) && TotalSize(Recency()) <= U64_MAX ==> Exact()
    {
      ReplacedSize(Recency(), p, e);
      size := SaturatingAdd(SaturatingSub(size, nodes[idx].entry.Size()), e.Size());
      Promote(idx, e, p);
    }

    method InsertNew(e: Entry)
      requires Valid() && |nodes| < NIL && e.key !in index
      modifies this
      ensures Valid() && Recency() == [e] + old(Recency())
      ensures size == SaturatingAdd(old(size), e.Size())
    {
      var idx := AllocNode(Node(e, NIL, NIL));
      AllocKeeps(old(nodes), nodes, order, head, tail);
      AllocIndexed(old(nodes), nodes, order, index, e.key, idx);
      index := index[e.key := idx];
      Attach(idx);
      size := SaturatingAdd(size, e.Size());
    }

    // Puts an allocated and mapped node at the front of the list.
    method Attach(idx: nat)
      requires Linked(nodes, order, head, tail) && idx < |nodes| && idx !in order
      requires Partition(|nodes|, [idx] + order, free)
      requires InArena(nodes, [idx] + order) && Indexed(nodes, [idx] + order, index)
      modifies `nodes, `head, `tail, `order
      ensures Valid()
      ensures Recency() == [old(nodes[idx].entry)] + old(Entries(nodes, order))
    {
      EntriesCons(nodes, order, idx);
      ghost var before := nodes;
      PushHead(idx);
      SameIndexed(before, nodes, order, order, index);
    }

    // Takes the oldest entry out.
    method EvictTail() returns (evicted: (Pubkey, Account))
      requires Valid() && order != []
      modifies this
      ensures Valid()
      ensures var c := old(Recency()); var last := |c| - 1;
              && Recency() == c[..last] && evicted == (c[last].key, c[last].account)
              && size == SaturatingSub(old(size), c[last].Size())
      ensures old(Exact()) ==> Exact()
    {
      var idx := tail;
      TotalSizeDrop(Recency(), |order| - 1);
      evicted := (nodes[idx].entry.key, nodes[idx].entry.account);
      assert Cut(Recency(), |order| - 1) == Recency()[..|order| - 1];
      Detach(idx, |order| - 1);
    }

    method EvictNext(evicted: seq<(Pubkey, Account)>, ghost c: Contents, ghost size0: nat,
                     ghost watermark: nat, ghost batch: nat, ghost lfu: bool)
      returns (evicted': seq<(Pubkey, Account)>)
      requires Valid() && order != []
      requires EvictedSoFar(c, size0, watermark, batch, lfu, evicted, Recency(), size)
      requires size > watermark && |evicted| < batch
      requires lfu ==> Recency()[|order| - 1].accessCount < U64_MAX
      modifies this
      ensures Valid() && |evicted'| == |evicted| + 1
      ensures EvictedSoFar(c, size0, watermark, batch, lfu, evicted', Recency(), size)
      ensures old(Exact()) ==> Exact()
    {
      EvictOneMore(c, size0, watermark, batch, lfu, evicted, Recency(), size);
      var account := EvictTail();
      evicted' := evicted + [account];
    }

    method EvictLru(watermark: nat, batch: nat) returns (evicted: seq<(Pubkey, Account)>)
      requires Valid()
      modifies this
      ensures Valid() && Evicted(old(Recency()), old(size), watermark, batch, false, evicted, Recency())
      ensures old(Exact()) ==> Exact()
    {
      evicted := [];
      var count := 0;
      ghost var c, size0 := Recency(), size;
      EvictStart(c, size0, watermark, batch, false);
      while size > watermark && count < batch && tail != NIL
        invariant Valid() && count == |evicted|
        invariant EvictedSoFar(c, size0, watermark, batch, false, evicted, Recency(), size)
        invariant old(Exact()) ==> Exact()
        decreases batch - count
      {
        NoTail(nodes, order, head, tail);
        evicted := EvictNext(evicted, c, size0, watermark, batch, false);
        count := count + 1;
      }
      NoTail(nodes, order, head, tail);
      EvictStop(c, size0, watermark, batch, false, evicted, Recency(), size);
    }

    // The scan of the LFU policy: as the tail has no next node it ends after one step.
    method LeastUsed() returns (minIdx: nat)
      requires Valid() && order != []
      ensures minIdx == if Recency()[|order| - 1].accessCount < U64_MAX then tail else NIL
      ensures tail != NIL
    {
      var scanLimit := if |index| / 4 > 1 then |index| / 4 else 1;
      var minCount := U64_MAX;
      minIdx := NIL;
      var cursor, scanned := tail, 0;
      assert LinkOk(nodes, order, |order| - 1);
      while cursor != NIL && scanned < scanLimit
        invariant cursor == if scanned == 0 then tail else NIL
        invariant scanned == 0 ==> minIdx == NIL && minCount == U64_MAX
        invariant scanned > 0 ==> minIdx == if nodes[tail].entry.accessCount < U64_MAX then tail else NIL
      {
        if nodes[cursor].entry.accessCount < minCount {
          minCount := nodes[cursor].entry.accessCount;
          minIdx := cursor;
        }
        cursor := nodes[cursor].next;
        scanned := scanned + 1;
      }
    }

    // One round of the LFU policy; `more` is false when the scan found nothing to evict.
    method EvictLeastUsed(evicted: seq<(Pubkey, Account)>, ghost c: Contents, ghost size0: nat,
                          ghost watermark: nat, ghost batch: nat)
      returns (more: bool, evicted': seq<(Pubkey, Account)>)
      requires Valid() && order != []
      requires EvictedSoFar(c, size0, watermark, batch, true, evicted, Recency(), size)
      requires size > watermark && |evicted| < batch
      modifies this
      ensures Valid()
      ensures |evicted'| == |evicted| + (if more then 1 else 0)
      ensures EvictedSoFar(c, size0, watermark, batch, true, evicted', Recency(), size)
      ensures old(Exact()) ==> Exact()
      ensures !more ==> Evicted(c, size0, watermark, batch, true, evicted', Recency())
    {
      var minIdx := LeastUsed();
      more, evicted' := minIdx != NIL, evicted;
      if more {
        evicted' := EvictNext(evicted, c, size0, watermark, batch, true);
      } else {
        EvictStop(c, size0, watermark, batch, true, evicted, Recency(), size);
      }
    }

    method EvictLfu(watermark: nat, batch: nat) returns (evicted: seq<(Pubkey, Account)>)
      requires Valid()
      modifies this
      ensures Valid() && Evicted(old(Recency()), old(size), watermark, batch, true, evicted, Recency())
      ensures old(Exact()) ==> Exact()
    {
      evicted := [];
      var count := 0;
      ghost var c, size0 := Recency(), size;
      EvictStart(c, size0, watermark, batch, true);
      while size > watermark && count < batch && index != map[]
        invariant Valid() && count == |evicted|
        invariant EvictedSoFar(c, size0, watermark, batch, true, evicted, Recency(), size)
        invariant old(Exact()) ==> Exact()
        decreases batch - count
      {
        NonEmpty(nodes, order, index);
        var more;
        more, evicted := EvictLeastUsed(evicted, c, size0, watermark, batch);
        if !more {
          return;
        }
        count := count + 1;
      }
      NonEmpty(nodes, order, index);
      EvictStop(c, size0, watermark, batch, true, evicted, Recency(), size);
    }

    // ARC falls back to LRU.
    method EvictToWarm(policy: Policy, watermark: nat, batch: nat) returns (evicted: seq<(Pubkey, Account)>)
      requires Valid()
      modifies this
      ensures Valid() && Evicted(old(Recency()), old(size), watermark, batch, policy.LFU?, evicted, Recency())
      ensures old(Exact()) ==> Exact()
      ensures old(Exact()) ==> Shortest(old(Recency()), |old(Recency())|, watermark, batch, policy.LFU?, |Recency()|)
    {
      ghost var c := Recency();
      match policy {
        case LRU => evicted := EvictLru(watermark, batch);
        case LFU => evicted := EvictLfu(watermark, batch);
        case ARC => evicted := EvictLru(watermark, batch);
      }
      if old(Exact()) {
        EvictedIsShortest(c, old(size), watermark, batch, policy.LFU?, evicted, Recency());
      }
    }
  }
}
