/**
 Whether the storage orderer keeps its documentation: the storage at a position should have the
 capacity that the selection for this position has in the capacity order. The code applies the
 selection to the storage index instead, which is the same for some capacities only.
 */
module StorageInterleaving {
  import opened Types
  import opened IndexGeneration
  import opened StorageOrderer

  // Storage indices by rising capacity, as an unstable sort may leave them.
  ghost predicate ByCapacity(c: seq<nat>, sorted: seq<nat>) {
    && Permutes(sorted, |c|)
    && forall i, j | 0 <= i < j < |sorted| :: c[sorted[i]] <= c[sorted[j]]
  }

  // A storage has the capacity of a place in the capacity order.
  predicate FitsAt(c: seq<nat>, sorted: seq<nat>, storage: int, place: int) {
    0 <= storage < |c| && 0 <= place < |sorted| && sorted[place] < |c| && c[storage] == c[sorted[place]]
  }

  // Every position holds a storage of the documented capacity.
  ghost predicate Interleaves(c: seq<nat>, sorted: seq<nat>, startRate: nat, endRate: nat)
    requires startRate + endRate > 0
  {
    forall p: nat | p < |sorted| ::
      FitsAt(c, sorted, Select(|sorted|, sorted[p], startRate, endRate), Select(|sorted|, p, startRate, endRate))
  }

  // It does so whatever the sort makes of equal capacities.
  ghost predicate KeepsOrder(c: seq<nat>, startRate: nat, endRate: nat)
    requires startRate + endRate > 0
  {
    forall sorted | ByCapacity(c, sorted) :: Interleaves(c, sorted, startRate, endRate)
  }

  // ---------- ranks ----------

  ghost function Smaller(c: seq<nat>, v: nat): set<nat> {
    set j: nat | j < |c| && c[j] < v
  }

  ghost function UpTo(c: seq<nat>, v: nat): set<nat> {
    set j: nat | j < |c| && c[j] <= v
  }

  // A sort may put storage i at place x: fewer are smaller, enough are not larger.
  ghost predicate HasRank(c: seq<nat>, i: int, x: int) {
    0 <= i < |c| && |Smaller(c, c[i])| <= x < |UpTo(c, c[i])|
  }

  lemma UpToBound(c: seq<nat>, v: nat)
    ensures |UpTo(c, v)| <= |c|
  {
    var range := RangeSize(|c|);
    SubsetCard(UpTo(c, v), range);
  }

  lemma RankExists(c: seq<nat>, i: nat)
    requires i < |c|
    ensures HasRank(c, i, |Smaller(c, c[i])|) && |Smaller(c, c[i])| < |c|
  {
    assert i in UpTo(c, c[i]) && i !in Smaller(c, c[i]);
    SubsetCard(Smaller(c, c[i]) + {i}, UpTo(c, c[i]));
    UpToBound(c, c[i]);
  }

  lemma SmallerBelow(c: seq<nat>, v: nat, w: nat)
    requires v < w
    ensures |UpTo(c, v)| <= |Smaller(c, w)|
  {
    SubsetCard(UpTo(c, v), Smaller(c, w));
  }

  lemma SameRankSameCapacity(c: seq<nat>, i: int, j: int, x: int)
    requires HasRank(c, i, x) && HasRank(c, j, x)
    ensures c[i] == c[j]
  {
    if c[i] < c[j] {
      SmallerBelow(c, c[i], c[j]);
    } else if c[j] < c[i] {
      SmallerBelow(c, c[j], c[i]);
    }
  }

  lemma SmallerComeBefore(c: seq<nat>, sorted: seq<nat>, p: nat)
    requires ByCapacity(c, sorted) && p < |sorted|
    ensures |Smaller(c, c[sorted[p]])| <= p
  {
    var v, before := c[sorted[p]], sorted[..p];
    PermutesAll(sorted, |c|);
    DistinctSize(before);
    forall j | j in Smaller(c, v) ensures j in Members(before) {
      assert j in sorted;
      var q :| 0 <= q < |sorted| && sorted[q] == j;
      assert q < p && before[q] == j;
    }
    SubsetCard(Smaller(c, v), Members(before));
  }

  lemma EarlierAreNotLarger(c: seq<nat>, sorted: seq<nat>, p: nat)
    requires ByCapacity(c, sorted) && p < |sorted|
    ensures p < |UpTo(c, c[sorted[p]])|
  {
    var v, upTo := c[sorted[p]], sorted[..p + 1];
    DistinctSize(upTo);
    forall j | j in Members(upTo) ensures j in UpTo(c, v) {
      var q :| 0 <= q < |upTo| && upTo[q] == j;
      assert sorted[q] == j;
    }
    SubsetCard(Members(upTo), UpTo(c, v));
  }

  // Every place of a sort is a rank of the storage there.
  lemma PlaceIsRank(c: seq<nat>, sorted: seq<nat>, p: nat)
    requires ByCapacity(c, sorted) && p < |sorted|
    ensures HasRank(c, sorted[p], p)
  {
    SmallerComeBefore(c, sorted, p);
    EarlierAreNotLarger(c, sorted, p);
  }

  // ---------- a sort exists, and may put a storage at any of its ranks ----------

  ghost predicate SortedPart(c: seq<nat>, s: seq<nat>, m: nat) {
    && |s| == m <= |c| && Distinct(s) && (forall i | 0 <= i < m :: s[i] < m)
    && forall i, j | 0 <= i < j < m :: c[s[i]] <= c[s[j]]
  }

  lemma {:induction false} PlaceFor(c: seq<nat>, s: seq<nat>, i: nat, n: nat) returns (at: nat)
    requires SortedPart(c, s, |s|) && i < |c| && n <= |s| && forall j | n <= j < |s| :: c[i] <= c[s[j]]
    ensures at <= |s| && (forall j | 0 <= j < at :: c[s[j]] <= c[i]) && forall j | at <= j < |s| :: c[i] <= c[s[j]]
  {
    if n == 0 || c[s[n - 1]] <= c[i] {
      at := n;
    } else {
      at := PlaceFor(c, s, i, n - 1);
    }
  }

  lemma InsertedAt(rest: seq<nat>, at: nat, s: seq<nat>, i: nat)
    requires at <= |rest| && s == rest[..at] + [|rest|] + rest[at..] && i < |s|
    ensures s[i] == if i < at then rest[i] else if i == at then |rest| else rest[i - 1]
  {
  }

  lemma InsertedSorted(c: seq<nat>, rest: seq<nat>, at: nat, s: seq<nat>)
    requires SortedPart(c, rest, |rest|) && |rest| < |c| && at <= |rest| && s == rest[..at] + [|rest|] + rest[at..]
    requires (forall j | 0 <= j < at :: c[rest[j]] <= c[|rest|])
             && forall j | at <= j < |rest| :: c[|rest|] <= c[rest[j]]
    ensures SortedPart(c, s, |rest| + 1)
  {
    forall i, j | 0 <= i < j < |s| ensures s[i] != s[j] && c[s[i]] <= c[s[j]] {
      InsertedAt(rest, at, s, i);
      InsertedAt(rest, at, s, j);
    }
    forall i | 0 <= i < |s| ensures s[i] <= |rest| {
      InsertedAt(rest, at, s, i);
    }
  }

  lemma {:induction false} SomeSort(c: seq<nat>, m: nat) returns (s: seq<nat>)
    requires m <= |c|
    ensures SortedPart(c, s, m)
  {
    if m == 0 {
      s := [];
    } else {
      var rest := SomeSort(c, m - 1);
      var at := PlaceFor(c, rest, m - 1, |rest|);
      s := rest[..at] + [m - 1] + rest[at..];
      InsertedSorted(c, rest, at, s);
    }
  }

  lemma SortWith(c: seq<nat>, i: nat, x: nat) returns (sorted: seq<nat>)
    requires HasRank(c, i, x)
    ensures ByCapacity(c, sorted) && x < |sorted| && sorted[x] == i
  {
    UpToBound(c, c[i]);
    var s := SomeSort(c, |c|);
    PermutesAll(s, |c|);
    assert i in s;
    var q :| 0 <= q < |s| && s[q] == i;
    PlaceIsRank(c, s, x);
    SameRankSameCapacity(c, i, s[x], x);
    sorted := s[q := s[x]][x := i];
  }

  // ---------- one ratio ----------

  ghost predicate RespectsAt(c: seq<nat>, startRate: nat, endRate: nat, i: nat, x: nat)
    requires startRate + endRate > 0
  {
    HasRank(c, Select(|c|, i, startRate, endRate), Select(|c|, x, startRate, endRate))
  }

  // The selection takes every storage and a rank of it to a storage and a rank of that one.
  ghost predicate Respects(c: seq<nat>, startRate: nat, endRate: nat)
    requires startRate + endRate > 0
  {
    forall i: nat, x: nat | HasRank(c, i, x) :: RespectsAt(c, startRate, endRate, i, x)
  }

  lemma RespectsInterleaves(c: seq<nat>, sorted: seq<nat>, startRate: nat, endRate: nat)
    requires startRate + endRate > 0 && Respects(c, startRate, endRate) && ByCapacity(c, sorted)
    ensures Interleaves(c, sorted, startRate, endRate)
  {
    forall p: nat | p < |sorted|
      ensures FitsAt(c, sorted, Select(|sorted|, sorted[p], startRate, endRate),
                     Select(|sorted|, p, startRate, endRate))
    {
      var storage, place := Select(|c|, sorted[p], startRate, endRate), Select(|c|, p, startRate, endRate);
      PlaceIsRank(c, sorted, p);
      assert RespectsAt(c, startRate, endRate, sorted[p], p);
      SelectInRange(|c|, p, startRate, endRate);
      PlaceIsRank(c, sorted, place);
      SameRankSameCapacity(c, storage, sorted[place], place);
    }
  }

  lemma InterleavesRespects(c: seq<nat>, startRate: nat, endRate: nat, i: nat, x: nat)
    requires startRate + endRate > 0 && KeepsOrder(c, startRate, endRate) && HasRank(c, i, x)
    ensures RespectsAt(c, startRate, endRate, i, x)
  {
    var sorted := SortWith(c, i, x);
    var storage, place := Select(|c|, i, startRate, endRate), Select(|c|, x, startRate, endRate);
    assert Interleaves(c, sorted, startRate, endRate);
    assert FitsAt(c, sorted, storage, place);
    PlaceIsRank(c, sorted, place);
  }

  // For any capacities and ratio: the documented order is kept exactly when the selection respects ranks.
  lemma KeepsOrderIff(c: seq<nat>, startRate: nat, endRate: nat)
    requires startRate + endRate > 0
    ensures KeepsOrder(c, startRate, endRate) <==> Respects(c, startRate, endRate)
  {
    if Respects(c, startRate, endRate) {
      forall sorted | ByCapacity(c, sorted) ensures Interleaves(c, sorted, startRate, endRate) {
        RespectsInterleaves(c, sorted, startRate, endRate);
      }
    }
    if KeepsOrder(c, startRate, endRate) {
      forall i: nat, x: nat | HasRank(c, i, x) ensures RespectsAt(c, startRate, endRate, i, x) {
        InterleavesRespects(c, startRate, endRate, i, x);
      }
    }
  }

  // ---------- distinct capacities: ranks are numbers ----------

  ghost function Rank(c: seq<nat>, i: nat): nat
    requires i < |c|
  {
    |Smaller(c, c[i])|
  }

  lemma DistinctRank(c: seq<nat>, i: nat, x: int)
    requires Distinct(c) && i < |c|
    ensures HasRank(c, i, x) <==> x == Rank(c, i)
  {
    assert UpTo(c, c[i]) == Smaller(c, c[i]) + {i};
  }

  ghost predicate CommutesAt(c: seq<nat>, startRate: nat, endRate: nat, i: nat)
    requires startRate + endRate > 0 && i < |c|
  {
    SelectInRange(|c|, i, startRate, endRate);
    Rank(c, Select(|c|, i, startRate, endRate)) == Select(|c|, Rank(c, i), startRate, endRate)
  }

  // With distinct capacities and one ratio, ranking and selecting have to commute.
  lemma DistinctKeepsOrderIff(c: seq<nat>, startRate: nat, endRate: nat)
    requires startRate + endRate > 0 && Distinct(c)
    ensures KeepsOrder(c, startRate, endRate)
            <==> forall i: nat | i < |c| :: CommutesAt(c, startRate, endRate, i)
  {
    KeepsOrderIff(c, startRate, endRate);
    forall i: nat | i < |c|
      ensures RespectsAt(c, startRate, endRate, i, Rank(c, i)) <==> CommutesAt(c, startRate, endRate, i)
    {
      SelectInRange(|c|, i, startRate, endRate);
      DistinctRank(c, Select(|c|, i, startRate, endRate), Select(|c|, Rank(c, i), startRate, endRate));
    }
    forall i: nat | i < |c| ensures HasRank(c, i, Rank(c, i)) {
      RankExists(c, i);
    }
    if forall i: nat | i < |c| :: CommutesAt(c, startRate, endRate, i) {
      forall i: nat, x: nat | HasRank(c, i, x) ensures RespectsAt(c, startRate, endRate, i, x) {
        DistinctRank(c, i, x);
        assert CommutesAt(c, startRate, endRate, i);
      }
    }
  }

  // ---------- every ratio ----------

  ghost predicate AlwaysKeepsOrder(c: seq<nat>) {
    forall startRate: nat, endRate: nat | startRate + endRate > 0 :: KeepsOrder(c, startRate, endRate)
  }

  ghost predicate Constant(c: seq<nat>) {
    forall i, j | 0 <= i < j < |c| :: c[i] == c[j]
  }

  ghost predicate Rising(c: seq<nat>) {
    forall i, j | 0 <= i < j < |c| :: c[i] < c[j]
  }

  // With one cycle for the whole range the selection keeps the first k and reverses the others.
  function Reversed(n: nat, k: nat, i: int): int {
    if i < k then i else n - 1 + k - i
  }

  lemma OneCycle(n: nat, nth: nat, k: nat)
    requires k <= n && nth < n
    ensures Select(n, nth, k, n - k) == Reversed(n, k, nth)
  {
    DivUnique(nth, n, 0, nth);
  }

  lemma ReversedRank(c: seq<nat>, k: nat, i: nat, x: nat)
    requires AlwaysKeepsOrder(c) && k <= |c| && i < |c| && HasRank(c, i, x)
    ensures HasRank(c, Reversed(|c|, k, i), Reversed(|c|, k, x))
  {
    UpToBound(c, c[i]);
    assert KeepsOrder(c, k, |c| - k);
    InterleavesRespects(c, k, |c| - k, i, x);
    OneCycle(|c|, i, k);
    OneCycle(|c|, x, k);
  }

  // Neighbouring ranks of one storage.
  ghost predicate Tie(c: seq<nat>, x: int) {
    exists i :: HasRank(c, i, x) && HasRank(c, i, x + 1)
  }

  lemma TieMoves(c: seq<nat>, x: nat, k: nat)
    requires AlwaysKeepsOrder(c) && Tie(c, x) && k <= x
    ensures Tie(c, |c| - 2 + k - x)
  {
    var i: nat :| HasRank(c, i, x) && HasRank(c, i, x + 1);
    UpToBound(c, c[i]);
    ReversedRank(c, k, i, x);
    ReversedRank(c, k, i, x + 1);
    assert HasRank(c, Reversed(|c|, k, i), |c| - 2 + k - x) && HasRank(c, Reversed(|c|, k, i), |c| - 2 + k - x + 1);
  }

  lemma TieBound(c: seq<nat>, x: nat)
    requires Tie(c, x)
    ensures x + 2 <= |c|
  {
    var i :| HasRank(c, i, x) && HasRank(c, i, x + 1);
    UpToBound(c, c[i]);
  }

  // One tie makes all ranks tie.
  lemma TieSpreads(c: seq<nat>, x: nat, y: nat)
    requires AlwaysKeepsOrder(c) && Tie(c, x) && y + 2 <= |c|
    ensures Tie(c, y)
  {
    TieBound(c, x);
    TieMoves(c, x, x);
    TieMoves(c, |c| - 2, y);
  }

  lemma {:induction false} TiedIsConstant(c: seq<nat>, i: nat, x: nat, first: nat)
    requires (forall y: nat | y + 2 <= |c| :: Tie(c, y)) && HasRank(c, i, x) && HasRank(c, first, 0)
    ensures c[i] == c[first]
    decreases x
  {
    if x == 0 {
      SameRankSameCapacity(c, i, first, 0);
    } else {
      UpToBound(c, c[i]);
      assert Tie(c, x - 1);
      var j: nat :| HasRank(c, j, x - 1) && HasRank(c, j, x - 1 + 1);
      SameRankSameCapacity(c, i, j, x);
      TiedIsConstant(c, j, x - 1, first);
    }
  }

  lemma TieIsConstant(c: seq<nat>, x: nat)
    requires AlwaysKeepsOrder(c) && Tie(c, x)
    ensures Constant(c)
  {
    forall y: nat | y + 2 <= |c| ensures Tie(c, y) {
      TieSpreads(c, x, y);
    }
    TieBound(c, x);
    var s := SomeSort(c, |c|);
    PlaceIsRank(c, s, 0);
    forall i: nat | i < |c| ensures c[i] == c[s[0]] {
      RankExists(c, i);
      TiedIsConstant(c, i, |Smaller(c, c[i])|, s[0]);
    }
  }

  // Two equal capacities tie.
  lemma EqualTie(c: seq<nat>, i: nat, j: nat)
    requires i < j < |c| && c[i] == c[j]
    ensures Tie(c, |Smaller(c, c[i])|)
  {
    assert i !in Smaller(c, c[i]) && j !in Smaller(c, c[i]);
    SubsetCard(Smaller(c, c[i]) + {i, j}, UpTo(c, c[i]));
    assert HasRank(c, i, |Smaller(c, c[i])|) && HasRank(c, i, |Smaller(c, c[i])| + 1);
  }

  // ---------- distinct capacities and every ratio: only the identity commutes with all reversals ----------

  ghost predicate ReversesAt(r: seq<nat>, k: nat, i: nat)
    requires i < |r|
  {
    var j := Reversed(|r|, k, i);
    0 <= j < |r| && r[j] == Reversed(|r|, k, r[i])
  }

  ghost predicate Commuting(r: seq<nat>) {
    && Permutes(r, |r|)
    && forall k: nat, i: nat | k <= |r| && i < |r| :: ReversesAt(r, k, i)
  }

  lemma NotBelow(r: seq<nat>, i: nat)
    requires Permutes(r, |r|) && i < |r| && forall j | 0 <= j < i :: r[j] == j
    ensures r[i] >= i
  {
    var m := r[r[i]];
  }

  // An index below the last two is fixed: two reversals that keep it have no other fixed point in common.
  lemma LowIsFixed(r: seq<nat>, i: nat)
    requires Commuting(r) && i + 2 < |r| && forall j | 0 <= j < i :: r[j] == j
    ensures r[i] == i
  {
    assert ReversesAt(r, i + 1, i) && ReversesAt(r, i + 2, i);
    NotBelow(r, i);
  }

  lemma {:induction false} LowAreFixed(r: seq<nat>, i: nat)
    requires Commuting(r) && i + 2 <= |r|
    ensures forall j | 0 <= j < i :: r[j] == j
  {
    if i > 0 {
      LowAreFixed(r, i - 1);
      LowIsFixed(r, i - 1);
    }
  }

  lemma AllAreFixed(r: seq<nat>, i: nat)
    requires Commuting(r) && |r| >= 3 && i < |r|
    ensures r[i] == i
  {
    var n := |r|;
    LowAreFixed(r, n - 2);
    assert ReversesAt(r, n - 3, n - 3);
    assert r[n - 3] == n - 3;
    NotBelow(r, n - 2);
    assert r[n - 2] != r[n - 1];
  }

  ghost function Ranks(c: seq<nat>): (r: seq<nat>)
    ensures |r| == |c| && forall i | 0 <= i < |c| :: r[i] == Rank(c, i)
  {
    seq(|c|, i requires 0 <= i < |c| => Rank(c, i))
  }

  lemma RanksPermute(c: seq<nat>)
    requires Distinct(c)
    ensures Permutes(Ranks(c), |c|)
  {
    forall i: nat | i < |c| ensures Ranks(c)[i] < |c| {
      RankExists(c, i);
    }
    forall i: nat, j: nat | i < j < |c| ensures Ranks(c)[i] != Ranks(c)[j] {
      RankExists(c, i);
      RankExists(c, j);
      if Rank(c, i) == Rank(c, j) {
        SameRankSameCapacity(c, i, j, Rank(c, i));
      }
    }
  }

  lemma RanksCommute(c: seq<nat>)
    requires Distinct(c) && AlwaysKeepsOrder(c)
    ensures Commuting(Ranks(c))
  {
    RanksPermute(c);
    forall k: nat, i: nat | k <= |c| && i < |c| ensures ReversesAt(Ranks(c), k, i) {
      RankExists(c, i);
      ReversedRank(c, k, i, Rank(c, i));
      DistinctRank(c, Reversed(|c|, k, i), Reversed(|c|, k, Rank(c, i)));
    }
  }

  lemma FixedRanksRise(c: seq<nat>, i: nat, j: nat)
    requires i < j < |c| && Rank(c, i) == i && Rank(c, j) == j
    ensures c[i] < c[j]
  {
    if c[j] <= c[i] {
      SubsetCard(Smaller(c, c[j]), Smaller(c, c[i]));
    }
  }

  // ---------- the exact condition ----------

  lemma RisingRank(c: seq<nat>, i: nat)
    requires Rising(c) && i < |c|
    ensures Rank(c, i) == i
  {
    var range := RangeSize(i);
    forall j: nat ensures j in Smaller(c, c[i]) <==> j in range {
      if j < |c| && j > i { assert c[i] < c[j]; }
    }
    assert Smaller(c, c[i]) == range;
  }

  lemma RisingRespects(c: seq<nat>, startRate: nat, endRate: nat)
    requires startRate + endRate > 0 && Rising(c)
    ensures Respects(c, startRate, endRate)
  {
    forall i: nat, x: nat | HasRank(c, i, x) ensures RespectsAt(c, startRate, endRate, i, x) {
      RisingRank(c, i);
      DistinctRank(c, i, x);
      SelectInRange(|c|, i, startRate, endRate);
      RisingRank(c, Select(|c|, i, startRate, endRate));
      RankExists(c, Select(|c|, i, startRate, endRate));
    }
  }

  lemma ConstantRank(c: seq<nat>, i: nat)
    requires Constant(c) && i < |c|
    ensures |Smaller(c, c[i])| == 0 && |UpTo(c, c[i])| == |c|
  {
    var range := RangeSize(|c|);
    forall j: nat | j < |c| ensures c[j] == c[i] { }
    assert Smaller(c, c[i]) == {} && UpTo(c, c[i]) == range;
  }

  lemma ConstantRespects(c: seq<nat>, startRate: nat, endRate: nat)
    requires startRate + endRate > 0 && Constant(c)
    ensures Respects(c, startRate, endRate)
  {
    forall i: nat, x: nat | HasRank(c, i, x) ensures RespectsAt(c, startRate, endRate, i, x) {
      UpToBound(c, c[i]);
      SelectInRange(|c|, i, startRate, endRate);
      SelectInRange(|c|, x, startRate, endRate);
      ConstantRank(c, Select(|c|, i, startRate, endRate));
    }
  }

  lemma TwoRespect(c: seq<nat>, startRate: nat, endRate: nat)
    requires startRate + endRate > 0 && |c| == 2 && c[0] > c[1]
    ensures Respects(c, startRate, endRate)
  {
    assert Smaller(c, c[0]) == {1} && UpTo(c, c[0]) == {0, 1};
    assert Smaller(c, c[1]) == {} && UpTo(c, c[1]) == {1};
    SelectInRange(2, 0, startRate, endRate);
    SelectInRange(2, 1, startRate, endRate);
    SelectDiffers(2, 0, 1, startRate, endRate);
    forall i: nat, x: nat | HasRank(c, i, x) ensures RespectsAt(c, startRate, endRate, i, x) {
      assert x == 1 - i;
    }
  }

  lemma ShortOrPlainRespects(c: seq<nat>, startRate: nat, endRate: nat)
    requires startRate + endRate > 0 && (|c| <= 2 || Constant(c) || Rising(c))
    ensures Respects(c, startRate, endRate)
  {
    if Rising(c) {
      RisingRespects(c, startRate, endRate);
    } else if Constant(c) {
      ConstantRespects(c, startRate, endRate);
    } else {
      TwoRespect(c, startRate, endRate);
    }
  }

  // The documented order is kept for every ratio exactly when there are at most two storages, all have
  // the same capacity, or they come in strictly rising capacity.
  lemma AlwaysKeepsOrderIff(c: seq<nat>)
    ensures AlwaysKeepsOrder(c) <==> |c| <= 2 || Constant(c) || Rising(c)
  {
    if |c| <= 2 || Constant(c) || Rising(c) {
      forall startRate: nat, endRate: nat | startRate + endRate > 0 ensures KeepsOrder(c, startRate, endRate) {
        ShortOrPlainRespects(c, startRate, endRate);
        KeepsOrderIff(c, startRate, endRate);
      }
    }
    if AlwaysKeepsOrder(c) && |c| > 2 {
      if Distinct(c) {
        RanksCommute(c);
        forall i: nat, j: nat | i < j < |c| ensures c[i] < c[j] {
          AllAreFixed(Ranks(c), i);
          AllAreFixed(Ranks(c), j);
          FixedRanksRise(c, i, j);
        }
      } else {
        var i: nat, j: nat :| i < j < |c| && c[i] == c[j];
        EqualTie(c, i, j);
        TieIsConstant(c, |Smaller(c, c[i])|);
      }
    }
  }

  // The ratio snapshots use, four small ones to one large, selects in place up to five storages.
  lemma SnapshotRatioUpToFive(c: seq<nat>)
    requires |c| <= 5
    ensures KeepsOrder(c, 4, 1)
  {
    forall i: nat, x: nat | HasRank(c, i, x) ensures RespectsAt(c, 4, 1, i, x) {
      UpToBound(c, c[i]);
      assert Select(|c|, i, 4, 1) == i && Select(|c|, x, 4, 1) == x;
    }
    KeepsOrderIff(c, 4, 1);
  }

  lemma SixSorted()
    ensures ByCapacity([6, 1, 2, 3, 4, 5], [1, 2, 3, 4, 5, 0])
  {
  }

  lemma SixMiss()
    ensures !FitsAt([6, 1, 2, 3, 4, 5], [1, 2, 3, 4, 5, 0], Select(6, 5, 4, 1), Select(6, 4, 4, 1))
  {
    assert Select(6, 5, 4, 1) == 4 && Select(6, 4, 4, 1) == 5;
  }

  // Six storages for which that ratio misses it: the third largest, not the largest, comes fifth.
  lemma SnapshotRatioCanMiss()
    ensures !KeepsOrder([6, 1, 2, 3, 4, 5], 4, 1)
  {
    SixSorted();
    SixMiss();
    assert !Interleaves([6, 1, 2, 3, 4, 5], [1, 2, 3, 4, 5, 0], 4, 1);
  }
}
