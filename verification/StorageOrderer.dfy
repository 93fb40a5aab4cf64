/**
 The order in which storages are handed to threads: a selection that alternates between both ends of
 a range, the orderer built on it, and the shared counter the threads take positions from.
 */
module StorageOrderer {
  import opened Types
  import opened IndexGeneration

  // ---------- selecting from both ends of a range ----------

  // Selections from the start of the range among the first m.
  function Starts(m: nat, startRate: nat, endRate: nat): nat
    requires startRate + endRate > 0
  {
    if m == 0 then 0
    else Starts(m - 1, startRate, endRate) + if (m - 1) % (startRate + endRate) < startRate then 1 else 0
  }

  function Ends(m: nat, startRate: nat, endRate: nat): nat
    requires startRate + endRate > 0
  {
    if m == 0 then 0 else Ends(m - 1, startRate, endRate) + if (m - 1) % (startRate + endRate) < startRate then 0 else 1
  }

  // As coded; an index below zero would be an underflow of the unsigned arithmetic.
  function Select(len: nat, nth: nat, startRate: nat, endRate: nat): int
    requires startRate + endRate > 0
  {
    var cycle := startRate + endRate;
    var cycleIndex := nth % cycle;
    var cycleNum := nth / cycle;
    if cycleIndex < startRate then cycleNum * startRate + cycleIndex
    else len - (cycleNum * endRate + cycleIndex - startRate) - 1
  }

  lemma DivUnique(m: nat, c: nat, q: nat, r: nat)
    requires c > 0 && m == q * c + r && r < c
    ensures m / c == q && m % c == r
  {
    var d := m / c - q;
    assert d * c == r - m % c;
    assert d >= 1 ==> d * c >= c;
    assert d <= -1 ==> d * c <= 0 - c;
  }

  lemma DivNext(m: nat, c: nat)
    requires c > 0
    ensures if m % c + 1 < c then (m + 1) / c == m / c && (m + 1) % c == m % c + 1
            else (m + 1) / c == m / c + 1 && (m + 1) % c == 0
  {
    var q, r := m / c, m % c;
    assert m == q * c + r;
    if r + 1 < c {
      DivUnique(m + 1, c, q, r + 1);
    } else {
      assert m + 1 == (q + 1) * c;
      DivUnique(m + 1, c, q + 1, 0);
    }
  }

  function StartsClosed(q: nat, r: nat, startRate: nat): nat {
    q * startRate + if r < startRate then r else startRate
  }

  function EndsClosed(q: nat, r: nat, startRate: nat, endRate: nat): nat {
    q * endRate + if r < startRate then 0 else r - startRate
  }

  lemma NextCycle(q: nat, rate: nat)
    ensures (q + 1) * rate == q * rate + rate
  {
  }

  // The closed forms the code computes.
  lemma {:induction false} CountsClosed(m: nat, startRate: nat, endRate: nat)
    requires startRate + endRate > 0
    ensures Starts(m, startRate, endRate)
            == StartsClosed(m / (startRate + endRate), m % (startRate + endRate), startRate)
    ensures Ends(m, startRate, endRate)
            == EndsClosed(m / (startRate + endRate), m % (startRate + endRate), startRate, endRate)
  {
    var c := startRate + endRate;
    if m == 0 {
      DivUnique(0, c, 0, 0);
    } else {
      CountsClosed(m - 1, startRate, endRate);
      DivNext(m - 1, c);
      NextCycle((m - 1) / c, startRate);
      NextCycle((m - 1) / c, endRate);
    }
  }

  lemma {:induction false} CountsAdd(m: nat, startRate: nat, endRate: nat)
    requires startRate + endRate > 0
    ensures Starts(m, startRate, endRate) + Ends(m, startRate, endRate) == m
  {
    if m > 0 { CountsAdd(m - 1, startRate, endRate); }
  }

  lemma {:induction false} CountsGrow(a: nat, b: nat, startRate: nat, endRate: nat)
    requires startRate + endRate > 0 && a <= b
    ensures Starts(a, startRate, endRate) <= Starts(b, startRate, endRate)
    ensures Ends(a, startRate, endRate) <= Ends(b, startRate, endRate)
  {
    if a < b { CountsGrow(a, b - 1, startRate, endRate); }
  }

  predicate FromStart(nth: nat, startRate: nat, endRate: nat)
    requires startRate + endRate > 0
  {
    nth % (startRate + endRate) < startRate
  }

  // The nth selection takes the next value from its end of the range.
  lemma SelectCounts(len: nat, nth: nat, startRate: nat, endRate: nat)
    requires startRate + endRate > 0
    ensures Select(len, nth, startRate, endRate) ==
            if FromStart(nth, startRate, endRate) then Starts(nth, startRate, endRate)
            else len - 1 - Ends(nth, startRate, endRate)
  {
    CountsClosed(nth, startRate, endRate);
  }

  lemma SelectInRange(len: nat, nth: nat, startRate: nat, endRate: nat)
    requires startRate + endRate > 0 && nth < len
    ensures 0 <= Select(len, nth, startRate, endRate) < len
  {
    SelectCounts(len, nth, startRate, endRate);
    CountsAdd(nth, startRate, endRate);
  }

  lemma SelectDiffers(len: nat, a: nat, b: nat, startRate: nat, endRate: nat)
    requires startRate + endRate > 0 && a < b < len
    ensures Select(len, a, startRate, endRate) != Select(len, b, startRate, endRate)
  {
    SelectCounts(len, a, startRate, endRate);
    SelectCounts(len, b, startRate, endRate);
    CountsAdd(a, startRate, endRate);
    CountsAdd(b, startRate, endRate);
    CountsGrow(a + 1, b, startRate, endRate);
  }

  // ---------- the orderer ----------

  ghost predicate Permutes(s: seq<nat>, n: nat) {
    |s| == n && Distinct(s) && forall i | 0 <= i < n :: s[i] < n
  }

  ghost function Selected(sorted: seq<nat>, startRate: nat, endRate: nat): (r: seq<int>)
    requires startRate + endRate > 0
    ensures |r| == |sorted| && forall p | 0 <= p < |r| :: r[p] == Select(|sorted|, sorted[p], startRate, endRate)
  {
    seq(|sorted|, p requires 0 <= p < |sorted| => Select(|sorted|, sorted[p], startRate, endRate))
  }

  lemma SelectionPermutes(sorted: seq<nat>, n: nat, startRate: nat, endRate: nat, indices: seq<nat>)
    requires startRate + endRate > 0 && Permutes(sorted, n) && |indices| == n
    requires forall p | 0 <= p < n :: indices[p] == Selected(sorted, startRate, endRate)[p]
    ensures Permutes(indices, n)
  {
    forall p | 0 <= p < n ensures indices[p] < n {
      SelectInRange(n, sorted[p], startRate, endRate);
    }
    forall p, q | 0 <= p < q < n ensures indices[p] != indices[q] {
      if sorted[p] < sorted[q] {
        SelectDiffers(n, sorted[p], sorted[q], startRate, endRate);
      } else {
        SelectDiffers(n, sorted[q], sorted[p], startRate, endRate);
      }
    }
  }

  // The selection is applied to the storage index at each position, in place.
  method SmallToLargeRatio(indices: array<nat>, startRate: nat, endRate: nat)
    requires startRate + endRate > 0 && Permutes(indices[..], indices.Length)
    modifies indices
    ensures Permutes(indices[..], indices.Length)
    ensures forall p | 0 <= p < indices.Length :: indices[p] == Selected(old(indices[..]), startRate, endRate)[p]
  {
    ghost var sorted := indices[..];
    for p := 0 to indices.Length
      invariant forall q | 0 <= q < p :: indices[q] == Selected(sorted, startRate, endRate)[q]
      invariant forall q | p <= q < indices.Length :: indices[q] == sorted[q]
    {
      SelectInRange(indices.Length, sorted[p], startRate, endRate);
      indices[p] := Select(indices.Length, indices[p], startRate, endRate);
    }
    SelectionPermutes(sorted, indices.Length, startRate, endRate, indices[..]);
  }

  // ---------- the shared consumer ----------

  class ConcurrentConsumer {
    const indices: seq<nat>
    var currentPosition: nat

    constructor (indices: seq<nat>)
      ensures this.indices == indices && currentPosition == 0
    {
      this.indices, currentPosition := indices, 0;
    }

    // One atomic fetch-and-add decides who gets a position.
    method Next() returns (item: Option<nat>)
      modifies this
      ensures currentPosition == old(currentPosition) + 1
      ensures item == if old(currentPosition) < |indices| then Some(indices[old(currentPosition)]) else None
    {
      var position := currentPosition;
      currentPosition := currentPosition + 1;
      item := if position < |indices| then Some(indices[position]) else None;
    }
  }

  // What thread t gets when the first n positions are taken and call i comes from thread owner[i].
  ghost function TakenBy(indices: seq<nat>, owner: seq<nat>, t: nat, n: nat): seq<nat>
    requires n <= |indices| && n <= |owner|
  {
    if n == 0 then [] else TakenBy(indices, owner, t, n - 1) + if owner[n - 1] == t then [indices[n - 1]] else []
  }

  ghost function TakenBelow(indices: seq<nat>, owner: seq<nat>, t: nat): set<nat>
    requires |indices| <= |owner|
  {
    set i | 0 <= i < |indices| && owner[i] < t :: indices[i]
  }

  lemma {:induction false} TakenIsOwned(indices: seq<nat>, owner: seq<nat>, t: nat, n: nat, x: nat)
    requires n <= |indices| && n <= |owner|
    ensures x in TakenBy(indices, owner, t, n) <==> exists i :: 0 <= i < n && owner[i] == t && indices[i] == x
  {
    if n > 0 {
      TakenIsOwned(indices, owner, t, n - 1, x);
    }
  }

  lemma {:induction false} TakenDistinct(indices: seq<nat>, owner: seq<nat>, t: nat, n: nat)
    requires n <= |indices| && n <= |owner| && Distinct(indices)
    ensures Distinct(TakenBy(indices, owner, t, n))
  {
    if n > 0 {
      TakenDistinct(indices, owner, t, n - 1);
      TakenIsOwned(indices, owner, t, n - 1, indices[n - 1]);
    }
  }

  lemma {:induction false} RangeSize(n: nat) returns (range: set<nat>)
    ensures |range| == n && forall x: nat :: x in range <==> x < n
  {
    if n == 0 {
      range := {};
    } else {
      var smaller := RangeSize(n - 1);
      range := smaller + {n - 1};
    }
  }

  lemma {:induction false} DistinctSize(s: seq<nat>)
    requires Distinct(s)
    ensures |Members(s)| == |s|
  {
    if s != [] {
      var last := |s| - 1;
      DistinctSize(s[..last]);
      assert s == s[..last] + [s[last]];
      assert Members(s) == Members(s[..last]) + {s[last]};
    }
  }

  // A permutation reaches every index.
  lemma PermutesAll(s: seq<nat>, n: nat)
    requires Permutes(s, n)
    ensures forall x: nat :: x in s <==> x < n
  {
    var range := RangeSize(n);
    DistinctSize(s);
    SubsetCard(Members(s), range);
    assert forall x: nat :: x in s <==> x in Members(s);
  }

  lemma StepSchedule(indices: seq<nat>, owner: seq<nat>, taken: seq<nat>, t: nat)
    requires Permutes(indices, |indices|) && |indices| <= |owner|
    requires forall x: nat :: x in taken <==> exists i :: 0 <= i < |indices| && owner[i] == t && indices[i] == x
    requires Distinct(taken)
    ensures TakenOnce(taken, TakenBelow(indices, owner, t), |indices|)
    ensures TakenBelow(indices, owner, t) + Members(taken) == TakenBelow(indices, owner, t + 1)
  {
    forall i | 0 <= i < |taken| ensures taken[i] < |indices| && taken[i] !in TakenBelow(indices, owner, t) {
      assert taken[i] in taken;
    }
  }

  lemma {:induction false} ScheduleFrom(indices: seq<nat>, owner: seq<nat>, threads: seq<seq<nat>>, t: nat)
    requires Permutes(indices, |indices|) && |indices| <= |owner| && t <= |threads|
    requires forall i | 0 <= i < |owner| :: owner[i] < |threads|
    requires forall u: nat | u < |threads| :: threads[u] == TakenBy(indices, owner, u, |indices|)
    ensures Schedule(threads[t..], TakenBelow(indices, owner, t), |indices|)
    decreases |threads| - t
  {
    if t == |threads| {
      PermutesAll(indices, |indices|);
      forall x: nat ensures x in TakenBelow(indices, owner, t) <==> x < |indices| {
        if x < |indices| {
          assert x in indices;
          var i :| 0 <= i < |indices| && indices[i] == x;
        }
      }
    } else {
      var taken := threads[t];
      TakenDistinct(indices, owner, t, |indices|);
      forall x: nat ensures x in taken <==> exists i :: 0 <= i < |indices| && owner[i] == t && indices[i] == x {
        TakenIsOwned(indices, owner, t, |indices|, x);
      }
      StepSchedule(indices, owner, taken, t);
      ScheduleFrom(indices, owner, threads, t + 1);
      assert threads[t..][1..] == threads[t + 1..];
    }
  }

  lemma AllTaken(indices: seq<nat>, owner: seq<nat>, threads: seq<seq<nat>>)
    requires Permutes(indices, |indices|) && |indices| <= |owner|
    requires forall i | 0 <= i < |owner| :: owner[i] < |threads|
    requires forall u: nat | u < |threads| :: threads[u] == TakenBy(indices, owner, u, |indices|)
    ensures Schedule(threads, {}, |indices|)
  {
    ScheduleFrom(indices, owner, threads, 0);
    assert threads[0..] == threads;
    assert TakenBelow(indices, owner, 0) == {};
  }

  // Threads ask for storages in any order of callers and keep what they get. As soon as one of them
  // gets nothing, every storage has been taken exactly once: what the threads took is a schedule of
  // index generation.
  method Consume(indices: seq<nat>, threads: nat, callers: seq<nat>) returns (taken: seq<seq<nat>>, finished: set<nat>)
    requires Permutes(indices, |indices|) && forall i | 0 <= i < |callers| :: callers[i] < threads
    ensures |taken| == threads
    ensures forall t: nat | t < threads ::
              taken[t] == TakenBy(indices, callers, t, if |callers| < |indices| then |callers| else |indices|)
    ensures forall t :: t in finished <==> exists i :: |indices| <= i < |callers| && callers[i] == t
    ensures finished != {} ==> Schedule(taken, {}, |indices|)
  {
    var consumer := new ConcurrentConsumer(indices);
    taken := seq(threads, _ => []);
    finished := {};
    for c := 0 to |callers|
      invariant consumer.indices == indices && consumer.currentPosition == c && |taken| == threads
      invariant forall t: nat | t < threads ::
                  taken[t] == TakenBy(indices, callers, t, if c < |indices| then c else |indices|)
      invariant forall t :: t in finished <==> exists i :: |indices| <= i < c && callers[i] == t
    {
      var t := callers[c];
      var item := consumer.Next();
      if item.Some? {
        taken := taken[t := taken[t] + [item.value]];
      } else {
        finished := finished + {t};
      }
    }
    if finished != {} {
      AllTaken(indices, callers, taken);
    }
  }
}
