/**
 Reading an account storage without its obsolete accounts: a stream over the storage file that skips
 the byte ranges of accounts marked obsolete up to a slot.
 */
module StorageReader {
  import opened Types

  // An account marked obsolete, and the bytes it takes in the file.
  datatype Item = Item(offset: Offset, dataLen: nat, slot: Slot)

  datatype Range = Range(start: nat, size: nat)

  // ---------- what should come out ----------

  ghost predicate Covered(ranges: seq<Range>, p: nat) {
    exists i :: 0 <= i < |ranges| && ranges[i].start <= p < ranges[i].start + ranges[i].size
  }

  // The bytes from a position on that no range covers.
  ghost function Kept(data: seq<bv8>, ranges: seq<Range>, from: nat): seq<bv8>
    requires from <= |data|
    decreases |data| - from
  {
    if from == |data| then []
    else (if Covered(ranges, from) then [] else [data[from]]) + Kept(data, ranges, from + 1)
  }

  lemma {:induction false} KeptSkips(data: seq<bv8>, ranges: seq<Range>, from: nat, to: nat)
    requires from <= to <= |data| && forall p: nat | from <= p < to :: Covered(ranges, p)
    ensures Kept(data, ranges, from) == Kept(data, ranges, to)
    decreases |data| - from
  {
    if from < to {
      assert Covered(ranges, from);
      KeptSkips(data, ranges, from + 1, to);
    }
  }

  lemma CopyOne(data: seq<bv8>, from: nat, to: nat, rest: seq<bv8>)
    requires from < to <= |data|
    ensures [data[from]] + (data[from + 1..to] + rest) == data[from..to] + rest
  {
  }

  lemma {:induction false} KeptCopies(data: seq<bv8>, ranges: seq<Range>, from: nat, to: nat)
    requires from <= to <= |data| && forall p: nat | from <= p < to :: !Covered(ranges, p)
    ensures Kept(data, ranges, from) == data[from..to] + Kept(data, ranges, to)
    decreases |data| - from
  {
    if from < to {
      KeptCopies(data, ranges, from + 1, to);
      assert Kept(data, ranges, from) == [data[from]] + Kept(data, ranges, from + 1);
      CopyOne(data, from, to, Kept(data, ranges, to));
    }
  }

  // ---------- the ranges, highest first ----------

  function Min(a: nat, b: nat): nat {
    if a < b then a else b
  }

  ghost predicate Apart(a: Range, b: Range) {
    a.start + a.size <= b.start || b.start + b.size <= a.start
  }

  ghost predicate Disjoint(ranges: seq<Range>) {
    forall i, j | 0 <= i < j < |ranges| :: Apart(ranges[i], ranges[j]) && ranges[i].start != ranges[j].start
  }

  ghost predicate Within(ranges: seq<Range>, total: nat) {
    forall i | 0 <= i < |ranges| :: ranges[i].start <= total
  }

  ghost predicate Descending(ranges: seq<Range>) {
    forall i, j | 0 <= i < j < |ranges| :: ranges[j].start + ranges[j].size <= ranges[i].start
  }

  function Insert(r: Range, ranges: seq<Range>): seq<Range> {
    if ranges == [] || r.start >= ranges[0].start then [r] + ranges
    else [ranges[0]] + Insert(r, ranges[1..])
  }

  function SortDescending(ranges: seq<Range>): seq<Range> {
    if ranges == [] then [] else Insert(ranges[0], SortDescending(ranges[1..]))
  }

  lemma {:induction false} InsertMembers(r: Range, ranges: seq<Range>)
    ensures forall x :: x in Insert(r, ranges) <==> x == r || x in ranges
  {
    if ranges != [] && r.start < ranges[0].start {
      InsertMembers(r, ranges[1..]);
      assert ranges == [ranges[0]] + ranges[1..];
    }
  }

  lemma {:induction false} SortMembers(ranges: seq<Range>)
    ensures forall x :: x in SortDescending(ranges) <==> x in ranges
  {
    if ranges != [] {
      SortMembers(ranges[1..]);
      InsertMembers(ranges[0], SortDescending(ranges[1..]));
      assert ranges == [ranges[0]] + ranges[1..];
    }
  }

  lemma ConsDescends(r: Range, ranges: seq<Range>)
    requires Descending(ranges) && forall x | x in ranges :: x.start + x.size <= r.start
    ensures Descending([r] + ranges)
  {
  }

  lemma BelowFirst(ranges: seq<Range>)
    requires Descending(ranges) && ranges != []
    ensures Descending(ranges[1..]) && forall x | x in ranges[1..] :: x.start + x.size <= ranges[0].start
  {
  }

  lemma {:induction false} InsertDescends(r: Range, ranges: seq<Range>)
    requires Descending(ranges)
    requires forall x | x in ranges :: Apart(r, x) && r.start != x.start
    ensures Descending(Insert(r, ranges))
  {
    if ranges == [] {
    } else if r.start >= ranges[0].start {
      BelowFirst(ranges);
      assert ranges[0] in ranges;
      assert forall x | x in ranges :: x == ranges[0] || x in ranges[1..];
      ConsDescends(r, ranges);
    } else {
      BelowFirst(ranges);
      InsertDescends(r, ranges[1..]);
      InsertMembers(r, ranges[1..]);
      assert ranges[0] in ranges;
      ConsDescends(ranges[0], Insert(r, ranges[1..]));
    }
  }

  lemma {:induction false} SortDescends(ranges: seq<Range>)
    requires Disjoint(ranges)
    ensures Descending(SortDescending(ranges))
  {
    if ranges != [] {
      SortDescends(ranges[1..]);
      SortMembers(ranges[1..]);
      InsertDescends(ranges[0], SortDescending(ranges[1..]));
    }
  }

  // ---------- what the reader still has to deliver ----------

  // The ranges not yet passed lie ahead of the offset.
  ghost predicate Ahead(total: nat, offset: nat, left: seq<Range>) {
    && offset <= total && Descending(left) && Within(left, total)
    && forall i | 0 <= i < |left| :: offset <= left[i].start
  }

  // Past a range, or at the end of the file if the range is longer.
  function Past(r: Range, total: nat): nat
    requires r.start <= total
  {
    r.start + Min(r.size, total - r.start)
  }

  lemma AheadNext(total: nat, offset: nat, left: seq<Range>)
    requires Ahead(total, offset, left) && left != []
    ensures Ahead(total, Past(left[|left| - 1], total), left[..|left| - 1])
  {
  }

  ghost function Remaining(data: seq<bv8>, offset: nat, left: seq<Range>): seq<bv8>
    requires Ahead(|data|, offset, left)
    decreases |left|
  {
    if left == [] then data[offset..]
    else
      var r := left[|left| - 1];
      AheadNext(|data|, offset, left);
      data[offset..r.start] + Remaining(data, Past(r, |data|), left[..|left| - 1])
  }

  lemma {:induction false} KeptSame(data: seq<bv8>, a: seq<Range>, b: seq<Range>, from: nat)
    requires from <= |data| && forall p: nat | from <= p < |data| :: Covered(a, p) <==> Covered(b, p)
    ensures Kept(data, a, from) == Kept(data, b, from)
    decreases |data| - from
  {
    if from < |data| {
      assert Covered(a, from) <==> Covered(b, from);
      KeptSame(data, a, b, from + 1);
    }
  }

  lemma CoveredPast(data: seq<bv8>, left: seq<Range>, p: nat)
    requires left != [] && Within(left, |data|) && Past(left[|left| - 1], |data|) <= p < |data|
    ensures Covered(left, p) <==> Covered(left[..|left| - 1], p)
  {
    var rest := left[..|left| - 1];
    if Covered(left, p) {
      var i :| 0 <= i < |left| && left[i].start <= p < left[i].start + left[i].size;
      assert rest[i] == left[i];
    }
    if Covered(rest, p) {
      var i :| 0 <= i < |rest| && rest[i].start <= p < rest[i].start + rest[i].size;
      assert left[i] == rest[i];
    }
  }

  // The stream is the file without the covered bytes.
  lemma {:induction false} RemainingIsKept(data: seq<bv8>, offset: nat, left: seq<Range>)
    requires Ahead(|data|, offset, left)
    ensures Remaining(data, offset, left) == Kept(data, left, offset)
    decreases |left|
  {
    if left == [] {
      KeptCopies(data, left, offset, |data|);
    } else {
      var last := |left| - 1;
      var r, rest := left[last], left[..last];
      var past := Past(r, |data|);
      AheadNext(|data|, offset, left);
      RemainingIsKept(data, past, rest);
      KeptCopies(data, left, offset, r.start);
      forall p: nat | r.start <= p < past ensures Covered(left, p) {
        assert left[last] == r;
      }
      KeptSkips(data, left, r.start, past);
      forall p: nat | past <= p < |data| ensures Covered(left, p) <==> Covered(rest, p) {
        CoveredPast(data, left, p);
      }
      KeptSame(data, left, rest, past);
    }
  }

  // ---------- the length ----------

  function ObsoleteBytes(ranges: seq<Range>, total: nat): nat
    requires Within(ranges, total)
  {
    if ranges == [] then 0
    else
      assert forall i | 0 <= i < |ranges| - 1 :: ranges[1..][i] == ranges[i + 1];
      Min(ranges[0].size, total - ranges[0].start) + ObsoleteBytes(ranges[1..], total)
  }

  lemma {:induction false} InsertBytes(r: Range, ranges: seq<Range>, total: nat)
    requires Within(ranges, total) && r.start <= total
    ensures Within(Insert(r, ranges), total)
    ensures ObsoleteBytes(Insert(r, ranges), total) == Min(r.size, total - r.start) + ObsoleteBytes(ranges, total)
  {
    if ranges == [] || r.start >= ranges[0].start {
      assert ([r] + ranges)[1..] == ranges;
    } else {
      InsertBytes(r, ranges[1..], total);
      assert ([ranges[0]] + Insert(r, ranges[1..]))[1..] == Insert(r, ranges[1..]);
    }
  }

  lemma {:induction false} SortBytes(ranges: seq<Range>, total: nat)
    requires Within(ranges, total)
    ensures Within(SortDescending(ranges), total)
    ensures ObsoleteBytes(SortDescending(ranges), total) == ObsoleteBytes(ranges, total)
  {
    if ranges != [] {
      SortBytes(ranges[1..], total);
      InsertBytes(ranges[0], SortDescending(ranges[1..]), total);
    }
  }

  lemma {:induction false} BytesLast(ranges: seq<Range>, total: nat)
    requires ranges != [] && Within(ranges, total)
    ensures var last := ranges[|ranges| - 1];
            ObsoleteBytes(ranges, total)
                == ObsoleteBytes(ranges[..|ranges| - 1], total) + Min(last.size, total - last.start)
  {
    if |ranges| > 1 {
      BytesLast(ranges[1..], total);
      assert ranges[1..][..|ranges| - 2] == ranges[..|ranges| - 1][1..];
    }
  }

  lemma {:induction false} RemainingLength(data: seq<bv8>, offset: nat, left: seq<Range>)
    requires Ahead(|data|, offset, left)
    ensures |Remaining(data, offset, left)| == |data| - offset - ObsoleteBytes(left, |data|)
    decreases |left|
  {
    if left != [] {
      AheadNext(|data|, offset, left);
      RemainingLength(data, Past(left[|left| - 1], |data|), left[..|left| - 1]);
      BytesLast(left, |data|);
    }
  }

  // ---------- the reader ----------

  // The ranges of the accounts marked obsolete up to a slot, or of all of them.
  function RangesOf(items: seq<Item>, storedSize: nat -> nat, snapshotSlot: Option<Slot>): seq<Range> {
    if items == [] then []
    else
      (if snapshotSlot.None? || items[0].slot <= snapshotSlot.value
       then [Range(items[0].offset, storedSize(items[0].dataLen))] else [])
      + RangesOf(items[1..], storedSize, snapshotSlot)
  }

  // An account marked obsolete at a slot not after the snapshot, or at any slot without one, has the byte.
  ghost predicate ObsoleteAt(items: seq<Item>, storedSize: nat -> nat, snapshotSlot: Option<Slot>, p: nat) {
    exists i :: 0 <= i < |items| && !(snapshotSlot.Some? && snapshotSlot.value < items[i].slot)
                && items[i].offset <= p < items[i].offset + storedSize(items[i].dataLen)
  }

  lemma FirstOrRest(items: seq<Item>, storedSize: nat -> nat, snapshotSlot: Option<Slot>, p: nat)
    requires items != []
    ensures ObsoleteAt(items, storedSize, snapshotSlot, p)
       <==> ObsoleteAt([items[0]], storedSize, snapshotSlot, p) || ObsoleteAt(items[1..], storedSize, snapshotSlot, p)
  {
    var rest := items[1..];
    forall i | 0 <= i < |rest| ensures rest[i] == items[i + 1] {
    }
    forall i | 0 < i < |items| ensures items[i] == rest[i - 1] {
    }
    assert [items[0]][0] == items[0];
  }

  lemma RangesFirst(items: seq<Item>, storedSize: nat -> nat, snapshotSlot: Option<Slot>)
    requires items != []
    ensures RangesOf(items, storedSize, snapshotSlot)
         == RangesOf([items[0]], storedSize, snapshotSlot) + RangesOf(items[1..], storedSize, snapshotSlot)
  {
    assert [items[0]][1..] == [];
  }

  lemma CoveredJoin(a: seq<Range>, b: seq<Range>, p: nat)
    ensures Covered(a + b, p) <==> Covered(a, p) || Covered(b, p)
  {
    forall i | 0 <= i < |b| ensures (a + b)[|a| + i] == b[i] {
    }
    forall i | 0 <= i < |a| ensures (a + b)[i] == a[i] {
    }
    if i :| 0 <= i < |a + b| && (a + b)[i].start <= p < (a + b)[i].start + (a + b)[i].size {
      assert if i < |a| then (a + b)[i] == a[i] else (a + b)[i] == b[i - |a|];
    }
  }

  lemma FirstCovers(item: Item, storedSize: nat -> nat, snapshotSlot: Option<Slot>, p: nat)
    ensures Covered(RangesOf([item], storedSize, snapshotSlot), p) <==> ObsoleteAt([item], storedSize, snapshotSlot, p)
  {
    var range := Range(item.offset, storedSize(item.dataLen));
    if snapshotSlot.None? || item.slot <= snapshotSlot.value {
      assert RangesOf([item], storedSize, snapshotSlot) == [range];
      assert Covered([range], p) <==> [range][0].start <= p < [range][0].start + [range][0].size;
      assert ObsoleteAt([item], storedSize, snapshotSlot, p) <==>
        [item][0].offset <= p < [item][0].offset + storedSize([item][0].dataLen);
    }
  }

  // The ranges cover exactly the bytes of the obsolete accounts.
  lemma {:induction false} RangesCoverObsolete(items: seq<Item>, storedSize: nat -> nat, snapshotSlot: Option<Slot>,
                                               p: nat)
    ensures Covered(RangesOf(items, storedSize, snapshotSlot), p) <==> ObsoleteAt(items, storedSize, snapshotSlot, p)
  {
    if items != [] {
      RangesCoverObsolete(items[1..], storedSize, snapshotSlot, p);
      FirstCovers(items[0], storedSize, snapshotSlot, p);
      FirstOrRest(items, storedSize, snapshotSlot, p);
      RangesFirst(items, storedSize, snapshotSlot);
      CoveredJoin(RangesOf([items[0]], storedSize, snapshotSlot), RangesOf(items[1..], storedSize, snapshotSlot), p);
    }
  }

  // Where the next read has to stop: the next range or the end of the file.
  function NextStop(total: nat, left: seq<Range>): nat {
    if left == [] then total else left[|left| - 1].start
  }

  lemma NothingLeft(data: seq<bv8>, offset: nat, left: seq<Range>)
    requires Ahead(|data|, offset, left) && NextStop(|data|, left) == offset
    requires left != [] ==> offset != left[|left| - 1].start
    ensures Remaining(data, offset, left) == []
  {
  }

  lemma SortCovers(ranges: seq<Range>, p: nat)
    ensures Covered(SortDescending(ranges), p) <==> Covered(ranges, p)
  {
    SortMembers(ranges);
    var sorted := SortDescending(ranges);
    if Covered(sorted, p) {
      var i :| 0 <= i < |sorted| && sorted[i].start <= p < sorted[i].start + sorted[i].size;
      assert sorted[i] in ranges;
    }
    if Covered(ranges, p) {
      var i :| 0 <= i < |ranges| && ranges[i].start <= p < ranges[i].start + ranges[i].size;
      assert ranges[i] in sorted;
    }
  }

  lemma SortedStream(data: seq<bv8>, ranges: seq<Range>)
    requires Disjoint(ranges) && Within(ranges, |data|)
    ensures Ahead(|data|, 0, SortDescending(ranges))
    ensures Remaining(data, 0, SortDescending(ranges)) == Kept(data, ranges, 0)
    ensures |Remaining(data, 0, SortDescending(ranges))| == |data| - ObsoleteBytes(ranges, |data|)
  {
    var sorted := SortDescending(ranges);
    SortDescends(ranges);
    SortBytes(ranges, |data|);
    RemainingIsKept(data, 0, sorted);
    RemainingLength(data, 0, sorted);
    forall p: nat ensures Covered(sorted, p) <==> Covered(ranges, p) {
      SortCovers(ranges, p);
    }
    KeptSame(data, sorted, ranges, 0);
  }

  lemma SkipRange(data: seq<bv8>, offset: nat, left: seq<Range>)
    requires Ahead(|data|, offset, left) && left != [] && offset == left[|left| - 1].start
    ensures Ahead(|data|, Past(left[|left| - 1], |data|), left[..|left| - 1])
    ensures Remaining(data, offset, left) == Remaining(data, Past(left[|left| - 1], |data|), left[..|left| - 1])
  {
    AheadNext(|data|, offset, left);
  }

  // The first n bytes of `bytes` written over a buffer from a position on.
  ghost predicate Spliced(was: seq<bv8>, at: nat, bytes: seq<bv8>, n: nat, now: seq<bv8>) {
    at + n <= |was| && n <= |bytes| && now == was[..at] + bytes[..n] + was[at + n..]
  }

  lemma AdvanceConcat(data: seq<bv8>, offset: nat, left: seq<Range>, n: nat)
    requires Ahead(|data|, offset, left) && offset + n <= NextStop(|data|, left)
    ensures Ahead(|data|, offset + n, left)
    ensures Remaining(data, offset, left) == data[offset..offset + n] + Remaining(data, offset + n, left)
  {
    if left != [] {
      var start := left[|left| - 1].start;
      assert data[offset..start] == data[offset..offset + n] + data[offset + n..start];
    }
  }

  lemma Concatenated(whole: seq<bv8>, a: seq<bv8>, b: seq<bv8>)
    requires whole == a + b
    ensures |a| <= |whole| && whole[..|a|] == a && whole[|a|..] == b
  {
  }

  lemma Advance(data: seq<bv8>, offset: nat, left: seq<Range>, n: nat)
    requires Ahead(|data|, offset, left) && offset + n <= NextStop(|data|, left)
    ensures Ahead(|data|, offset + n, left)
    ensures var rest := Remaining(data, offset, left);
            n <= |rest| && rest[..n] == data[offset..offset + n] && rest[n..] == Remaining(data, offset + n, left)
  {
    AdvanceConcat(data, offset, left, n);
    Concatenated(Remaining(data, offset, left), data[offset..offset + n], Remaining(data, offset + n, left));
  }

  method CopyInto(buf: array<bv8>, at: nat, data: seq<bv8>, from: nat, n: nat)
    requires at + n <= buf.Length && from + n <= |data|
    modifies buf
    ensures Spliced(old(buf[..]), at, data[from..from + n], n, buf[..])
  {
    for i := 0 to n
      invariant buf[..at] == old(buf[..at]) && buf[at..at + i] == data[from..from + i]
                && buf[at + i..] == old(buf[at + i..])
    {
      buf[at + i] := data[from + i];
      assert buf[at..at + i + 1] == buf[at..at + i] + [data[from + i]];
      assert data[from..from + i + 1] == data[from..from + i] + [data[from + i]];
    }
    assert buf[..] == buf[..at] + buf[at..at + n] + buf[at + n..];
  }

  // The first `at` bytes of the buffer hold the start of the stream, the others are as before.
  ghost predicate Filled(want: seq<bv8>, before: seq<bv8>, at: nat, rest: seq<bv8>, now: seq<bv8>) {
    at <= |before| && at <= |want| && rest == want[at..] && now == want[..at] + before[at..]
  }

  lemma FillNext(want: seq<bv8>, before: seq<bv8>, at: nat, rest: seq<bv8>, was: seq<bv8>, n: nat, now: seq<bv8>)
    requires Filled(want, before, at, rest, was)
    requires Spliced(was, at, rest, n, now)
    ensures Filled(want, before, at + n, rest[n..], now)
  {
    assert was[..at] == want[..at] && was[at + n..] == before[at + n..];
    assert want[..at + n] == want[..at] + rest[..n];
  }

  lemma FillStart(want: seq<bv8>, before: seq<bv8>)
    ensures Filled(want, before, 0, want, before)
  {
  }

  lemma FillEnd(want: seq<bv8>, before: seq<bv8>, at: nat, rest: seq<bv8>, now: seq<bv8>)
    requires Filled(want, before, at, rest, now) && (at == |before| || rest == [])
    ensures at == Min(|before|, |want|)
  {
  }

  class AccountStorageReader {
    const data: seq<bv8>
    const numAliveBytes: int
    var sortedObsoleteAccounts: seq<Range>
    var currentOffset: nat

    ghost predicate Valid()
      reads this
    {
      Ahead(|data|, currentOffset, sortedObsoleteAccounts)
    }

    ghost function Rest(): seq<bv8>
      reads this
      requires Valid()
    {
      Remaining(data, currentOffset, sortedObsoleteAccounts)
    }

    // The stream is what the obsolete accounts do not cover, and its length is known beforehand.
    constructor (data: seq<bv8>, items: seq<Item>, storedSize: nat -> nat, snapshotSlot: Option<Slot>)
      requires Disjoint(RangesOf(items, storedSize, snapshotSlot))
      requires Within(RangesOf(items, storedSize, snapshotSlot), |data|)
      ensures Valid() && this.data == data
      ensures Rest() == Kept(data, RangesOf(items, storedSize, snapshotSlot), 0)
      ensures numAliveBytes == |Rest()|
    {
      var ranges := RangesOf(items, storedSize, snapshotSlot);
      this.data := data;
      this.numAliveBytes := |data| - ObsoleteBytes(ranges, |data|);
      this.sortedObsoleteAccounts := SortDescending(ranges);
      this.currentOffset := 0;
      new;
      SortedStream(data, ranges);
    }

    predicate AtRange()
      reads this
    {
      var left := |sortedObsoleteAccounts|;
      left > 0 && currentOffset == sortedObsoleteAccounts[left - 1].start
    }

    method Skip()
      requires Valid() && AtRange()
      modifies this
      ensures Valid() && Rest() == old(Rest()) && |sortedObsoleteAccounts| < old(|sortedObsoleteAccounts|)
    {
      var left := |sortedObsoleteAccounts|;
      SkipRange(data, currentOffset, sortedObsoleteAccounts);
      currentOffset := Past(sortedObsoleteAccounts[left - 1], |data|);
      sortedObsoleteAccounts := sortedObsoleteAccounts[..left - 1];
    }

    // One read of the file, up to the next range and the end of the buffer; it may come back short.
    method ReadChunk(buf: array<bv8>, at: nat) returns (n: nat)
      requires Valid() && !AtRange() && at < buf.Length
      modifies `currentOffset, buf
      ensures Valid() && Spliced(old(buf[..]), at, old(Rest()), n, buf[..])
      ensures n == 0 ==> old(Rest()) == []
      ensures Rest() == old(Rest())[n..]
    {
      var bytesToRead := Min(buf.Length - at, NextStop(|data|, sortedObsoleteAccounts) - currentOffset);
      n := 0;
      if bytesToRead == 0 {
        NothingLeft(data, currentOffset, sortedObsoleteAccounts);
      } else {
        n :| 1 <= n <= bytesToRead;
        Advance(data, currentOffset, sortedObsoleteAccounts, n);
        CopyInto(buf, at, data, currentOffset, n);
        currentOffset := currentOffset + n;
      }
    }

    // One round: skips a range or reads a chunk; `done` at the end of the stream.
    method Round(buf: array<bv8>, at: nat, ghost want: seq<bv8>, ghost before: seq<bv8>) returns (at': nat, done: bool)
      requires Valid() && at < buf.Length && Filled(want, before, at, Rest(), buf[..])
      modifies this, buf
      ensures Valid() && Filled(want, before, at', Rest(), buf[..])
      ensures done ==> at' == at && Rest() == []
      ensures |sortedObsoleteAccounts| <= old(|sortedObsoleteAccounts|) && at <= at' <= buf.Length
      ensures !done && at' == at ==> |sortedObsoleteAccounts| < old(|sortedObsoleteAccounts|)
    {
      at', done := at, false;
      if AtRange() {
        Skip();
      } else {
        var n := ReadChunk(buf, at);
        FillNext(want, before, at, old(Rest()), old(buf[..]), n, buf[..]);
        at', done := at + n, n == 0;
      }
    }

    // Fills the buffer until it is full or the stream ends, however short the single reads are.
    method Read(buf: array<bv8>) returns (totalRead: nat)
      requires Valid()
      modifies this, buf
      ensures Valid()
      ensures totalRead == Min(buf.Length, |old(Rest())|)
      ensures Filled(old(Rest()), old(buf[..]), totalRead, Rest(), buf[..])
    {
      totalRead := 0;
      ghost var want, before := Rest(), buf[..];
      FillStart(want, before);
      while totalRead < buf.Length
        invariant Valid() && Filled(want, before, totalRead, Rest(), buf[..])
        decreases |sortedObsoleteAccounts|, buf.Length - totalRead
      {
        var done;
        totalRead, done := Round(buf, totalRead, want, before);
        if done {
          FillEnd(want, before, totalRead, Rest(), buf[..]);
          return;
        }
      }
      FillEnd(want, before, totalRead, Rest(), buf[..]);
    }
  }

  // ---------- one read after another ----------

  function Total(sizes: seq<nat>, n: nat): nat
    requires n <= |sizes|
  {
    if n == 0 then 0 else Total(sizes, n - 1) + sizes[n - 1]
  }

  // What a read appends to the bytes read before.
  lemma ReadAppends(kept: seq<bv8>, out: seq<bv8>, want: seq<bv8>, before: seq<bv8>, n: nat, rest: seq<bv8>,
                    now: seq<bv8>)
    requires out + want == kept && Filled(want, before, n, rest, now)
    ensures (out + now[..n]) + rest == kept
  {
    assert now[..n] == want[..n] && want == want[..n] + want[n..];
  }

  method ReadMore(reader: AccountStorageReader, out: seq<bv8>, size: nat, ghost kept: seq<bv8>) returns (out': seq<bv8>)
    requires reader.Valid() && out + reader.Rest() == kept
    modifies reader
    ensures reader.Valid() && out' + reader.Rest() == kept && |out'| == Min(|out| + size, |kept|)
  {
    var buf := new bv8[size];
    ghost var want, before := reader.Rest(), buf[..];
    var n := reader.Read(buf);
    ReadAppends(kept, out, want, before, n, reader.Rest(), buf[..]);
    out' := out + buf[..n];
  }

  /** Reads with buffers of any sizes, joined, are the bytes no obsolete account covers, up to what the buffers hold. */
  method ReadAll(data: seq<bv8>, items: seq<Item>, storedSize: nat -> nat, snapshotSlot: Option<Slot>, sizes: seq<nat>)
    returns (out: seq<bv8>)
    requires Disjoint(RangesOf(items, storedSize, snapshotSlot))
    requires Within(RangesOf(items, storedSize, snapshotSlot), |data|)
    ensures var kept := Kept(data, RangesOf(items, storedSize, snapshotSlot), 0);
            && out == kept[..Min(Total(sizes, |sizes|), |kept|)]
            && (Total(sizes, |sizes|) >= |kept| ==> out == kept)
  {
    ghost var kept := Kept(data, RangesOf(items, storedSize, snapshotSlot), 0);
    var reader := new AccountStorageReader(data, items, storedSize, snapshotSlot);
    out := [];
    for i := 0 to |sizes|
      invariant fresh(reader) && reader.Valid() && out + reader.Rest() == kept
      invariant |out| == Min(Total(sizes, i), |kept|)
    {
      out := ReadMore(reader, out, sizes[i], kept);
    }
  }
}
