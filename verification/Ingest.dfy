/** Ingestion of growing files: each pass resumes at the bytes the store already holds of a
    source, so across passes, stops and kills those bytes are always a prefix of the file. */
module Ingest {
  import opened Bytes
  import opened StoreFormat
  import opened Recovery
  import opened Durability
  import opened TornRecords
  import opened Framing
  import opened Store = RawStore
  import Reading = RawReader

  /** The bytes the records of one source hold, in id order. */
  function SourceBytes(recs: seq<Rec>, source: U32): seq<Byte> {
    if recs == [] then []
    else
      var last := recs[|recs| - 1];
      SourceBytes(recs[..|recs| - 1], source) + (if last.source == source then last.bytes else [])
  }

  lemma {:induction false} SourceBytesSnoc(recs: seq<Rec>, r: Rec, source: U32)
    ensures SourceBytes(recs + [r], source) == SourceBytes(recs, source) + (if r.source == source then r.bytes else [])
  {
    assert (recs + [r])[..|recs|] == recs;
  }

  lemma {:induction false} SourceBytesPrefix(recs: seq<Rec>, m: nat, source: U32)
    requires m <= |recs|
    ensures SourceBytes(recs[..m], source) <= SourceBytes(recs, source)
    decreases |recs|
  {
    if m == |recs| {
      assert recs[..m] == recs;
    } else {
      var front := recs[..|recs| - 1];
      assert front[..m] == recs[..m];
      SourceBytesPrefix(front, m, source);
    }
  }

  /** `now` is `was` and one honest record of the source for each of the events. */
  ghost predicate Stored(sha: Sha, source: U32, was: seq<Rec>, events: seq<seq<Byte>>, now: seq<Rec>) {
    && |now| == |was| + |events| && now[..|was|] == was
    && forall i :: 0 <= i < |events| ==> StoredAs(sha, source, now[|was| + i], events[i])
  }

  ghost predicate StoredAs(sha: Sha, source: U32, r: Rec, event: seq<Byte>) {
    r.source == source && r.bytes == event && Honest(sha, r)
  }

  /** The store refuses an event of 4 GiB or more. */
  const TOO_LONG := 0x1_0000_0000

  /** The records from `from` on were received at this time. */
  ghost predicate Received(from: nat, recs: seq<Rec>, receipt: I64) {
    forall i :: from <= i < |recs| ==> recs[i].receipt == receipt
  }

  lemma StoredSnoc(sha: Sha, source: U32, was: seq<Rec>, events: seq<seq<Byte>>, now: seq<Rec>, r: Rec, event: seq<Byte>)
    requires Stored(sha, source, was, events, now) && StoredAs(sha, source, r, event)
    ensures Stored(sha, source, was, events + [event], now + [r])
  {
    hide StoredAs;
    assert (now + [r])[..|was|] == now[..|was|];
  }

  lemma StoredTwice(sha: Sha, source: U32, was: seq<Rec>, e1: seq<seq<Byte>>, mid: seq<Rec>, e2: seq<seq<Byte>>, now: seq<Rec>)
    requires Stored(sha, source, was, e1, mid) && Stored(sha, source, mid, e2, now)
    ensures Stored(sha, source, was, e1 + e2, now)
  {
    hide StoredAs;
    assert now[..|was|] == now[..|mid|][..|was|];
    forall i | 0 <= i < |e1 + e2| ensures StoredAs(sha, source, now[|was| + i], (e1 + e2)[i]) {
      if i < |e1| {
        assert now[|was| + i] == now[..|mid|][|was| + i];
      } else {
        assert now[|was| + i] == now[|mid| + (i - |e1|)];
      }
    }
  }

  /** Storing the events of a source appends their bytes to it and to no other. */
  lemma {:induction false} StoredBytes(sha: Sha, source: U32, was: seq<Rec>, events: seq<seq<Byte>>, now: seq<Rec>, s: U32)
    requires Stored(sha, source, was, events, now)
    ensures SourceBytes(now, s) == SourceBytes(was, s) + (if s == source then Concat(events) else [])
    decreases |events|
  {
    hide SourceBytes, Concat;
    if events == [] {
      assert now == was;
      ConcatNone();
    } else {
      var n := |events| - 1;
      var front, last := now[..|now| - 1], now[|now| - 1];
      assert Stored(sha, source, was, events[..n], front) by {
        assert front[..|was|] == now[..|was|];
      }
      StoredBytes(sha, source, was, events[..n], front, s);
      SourceBytesSnoc(front, last, s);
      assert now == front + [last] && StoredAs(sha, source, now[|was| + n], events[n]);
      assert events == events[..n] + [events[n]];
      ConcatSnoc(events[..n], events[n]);
    }
  }

  lemma ConcatNone()
    ensures Concat([]) == []
  {
  }

  lemma {:induction false} ConcatSnoc(parts: seq<seq<Byte>>, x: seq<Byte>)
    ensures Concat(parts + [x]) == Concat(parts) + x
    decreases |parts|
  {
    if parts == [] {
      assert Concat([x]) == x + Concat([]);
    } else {
      assert (parts + [x])[1..] == parts[1..] + [x];
      ConcatSnoc(parts[1..], x);
    }
  }

  // ----- One pass

  function Slices(bytes: seq<Byte>, ranges: seq<(nat, nat)>): (r: seq<seq<Byte>>)
    requires forall i :: 0 <= i < |ranges| ==> ranges[i].0 <= ranges[i].1 <= |bytes|
    ensures |r| == |ranges|
  {
    if ranges == [] then []
    else
      var last := ranges[|ranges| - 1];
      Slices(bytes, ranges[..|ranges| - 1]) + [bytes[last.0..last.1]]
  }

  /** What the records of these ranges take in the segment. */
  function FrameSize(ranges: seq<(nat, nat)>): (r: nat) {
    if ranges == [] then 0
    else
      var last := ranges[|ranges| - 1];
      FrameSize(ranges[..|ranges| - 1]) + HEADER_LEN + (if last.0 <= last.1 then last.1 - last.0 else 0)
  }

  predicate InBounds(ranges: seq<(nat, nat)>, len: nat) {
    forall i :: 0 <= i < |ranges| ==> ranges[i].0 <= ranges[i].1 <= len
  }

  /** One store lock's worth: every range appended, then one flush. */
  method StoreBatch(store: RawStore, source: U32, receipt: I64, bytes: seq<Byte>, ranges: seq<(nat, nat)>) returns (ok: bool)
    requires store.Valid() && InBounds(ranges, |bytes|)
    requires store.segLen + FrameSize(ranges) < 0x1_0000_0000_0000_0000
    modifies store`history, store`nextId, store`segLen, store`head, store.seg, store.idx
    ensures store.Valid()
    ensures Received(|old(store.history.recs)|, store.history.recs, receipt)
    ensures ok ==>
      && Stored(store.sha, source, old(store.history.recs), Slices(bytes, ranges), store.history.recs)
      && store.history.flushed == |store.history.recs|
      && store.segLen == old(store.segLen) + FrameSize(ranges)
    ensures !ok ==> exists k ::
      && 0 <= k < |ranges| && ranges[k].1 - ranges[k].0 >= TOO_LONG
      && Stored(store.sha, source, old(store.history.recs), Slices(bytes, ranges[..k]), store.history.recs)
  {
    hide RawStore.Valid;
    ghost var recs := store.history.recs;
    var k := 0;
    while k < |ranges|
      invariant k <= |ranges| && store.Valid()
      invariant Stored(store.sha, source, recs, Slices(bytes, ranges[..k]), store.history.recs)
      invariant Received(|recs|, store.history.recs, receipt)
      invariant store.segLen == old(store.segLen) + FrameSize(ranges[..k])
    {
      var event := bytes[ranges[k].0..ranges[k].1];
      RangesGrow(bytes, ranges, k);
      ghost var had := store.history.recs;
      var id := store.Append(source, receipt, event);
      if id == None {
        return false;
      }
      StoredSnoc(store.sha, source, recs, Slices(bytes, ranges[..k]), had, Rec(receipt, source, store.sha(event), event), event);
      k := k + 1;
    }
    assert ranges[..k] == ranges;
    store.Flush();
    ok := true;
  }

  lemma {:induction false} RangesGrow(bytes: seq<Byte>, ranges: seq<(nat, nat)>, k: nat)
    requires InBounds(ranges, |bytes|) && k < |ranges|
    ensures Slices(bytes, ranges[..k + 1]) == Slices(bytes, ranges[..k]) + [bytes[ranges[k].0..ranges[k].1]]
    ensures FrameSize(ranges[..k + 1]) == FrameSize(ranges[..k]) + HEADER_LEN + (ranges[k].1 - ranges[k].0)
    ensures FrameSize(ranges[..k + 1]) <= FrameSize(ranges)
  {
    assert ranges[..k + 1][..k] == ranges[..k];
    FrameSizePrefix(ranges, k + 1);
  }

  lemma {:induction false} FrameSizePrefix(ranges: seq<(nat, nat)>, k: nat)
    requires k <= |ranges|
    ensures FrameSize(ranges[..k]) <= FrameSize(ranges)
    decreases |ranges|
  {
    if k == |ranges| {
      assert ranges[..k] == ranges;
    } else {
      assert ranges[..|ranges| - 1][..k] == ranges[..k];
      FrameSizePrefix(ranges[..|ranges| - 1], k);
    }
  }

  /** One more batch behind the events a pass has stored already. */
  method StoreMore(store: RawStore, source: U32, receipt: I64, bytes: seq<Byte>, ranges: seq<(nat, nat)>,
                   ghost was: seq<Rec>, ghost done: seq<seq<Byte>>) returns (ok: bool, ghost events: seq<seq<Byte>>)
    requires store.Valid() && InBounds(ranges, |bytes|)
    requires store.segLen + FrameSize(ranges) < 0x1_0000_0000_0000_0000
    requires Stored(store.sha, source, was, done, store.history.recs)
    modifies store`history, store`nextId, store`segLen, store`head, store.seg, store.idx
    ensures store.Valid()
    ensures Stored(store.sha, source, was, events, store.history.recs)
    ensures done <= events <= done + Slices(bytes, ranges)
    ensures old(store.history.recs) <= store.history.recs && |store.history.recs| == |was| + |events|
    ensures Received(|was| + |done|, store.history.recs, receipt)
    ensures !ok ==> |events| < |done| + |ranges| && Refused((done + Slices(bytes, ranges))[|events|])
    ensures ok ==>
      && events == done + Slices(bytes, ranges)
      && store.history.flushed == |store.history.recs|
      && store.segLen == old(store.segLen) + FrameSize(ranges)
  {
    hide RawStore.Valid, Slices, FrameSize, StoredAs;
    ghost var mid := store.history.recs;
    ok := StoreBatch(store, source, receipt, bytes, ranges);
    if ok {
      StoredTwice(store.sha, source, was, done, mid, Slices(bytes, ranges), store.history.recs);
      events := done + Slices(bytes, ranges);
    } else {
      ghost var k :| 0 <= k < |ranges| && ranges[k].1 - ranges[k].0 >= TOO_LONG
        && Stored(store.sha, source, mid, Slices(bytes, ranges[..k]), store.history.recs);
      StoredTwice(store.sha, source, was, done, mid, Slices(bytes, ranges[..k]), store.history.recs);
      SlicesPrefix(bytes, ranges, k);
      SliceAt(bytes, ranges, k);
      events := done + Slices(bytes, ranges[..k]);
    }
  }

  predicate Refused(event: seq<Byte>) {
    |event| >= TOO_LONG
  }

  lemma {:induction false} SliceAt(bytes: seq<Byte>, ranges: seq<(nat, nat)>, k: nat)
    requires InBounds(ranges, |bytes|) && k < |ranges|
    ensures Slices(bytes, ranges)[k] == bytes[ranges[k].0..ranges[k].1]
    decreases |ranges|
  {
    if k < |ranges| - 1 {
      SliceAt(bytes, ranges[..|ranges| - 1], k);
    }
  }

  datatype Pass = Aborted | Consumed(offset: nat, complete: bool)

  function StartOf(bytes: seq<Byte>, from: nat): (start: nat)
    ensures start <= |bytes|
  {
    if from <= |bytes| then from else |bytes|
  }

  /** The first batch boundary at which a stop was requested. */
  ghost predicate FirstStop(stopped: nat -> bool, b: nat) {
    b > 0 && stopped(b) && forall c: nat :: 0 < c < b ==> !stopped(c)
  }

  /** How many events the first `b` full batches hold. */
  function Boundary(b: nat, size: nat): nat {
    b * size
  }

  ghost predicate NoStop(stopped: nat -> bool, b: nat) {
    forall c: nat :: 0 < c <= b ==> !stopped(c)
  }

  /** One more batch, full unless it is the last. */
  lemma NextBoundary(stopped: nat -> bool, b: nat, size: nat, count: nat, more: nat, done: bool)
    requires size > 0 && count == Boundary(b, size) && NoStop(stopped, b) && more <= size && (done <==> more < size)
    ensures !done ==> count + more == Boundary(b + 1, size)
    ensures !done && !stopped(b + 1) ==> NoStop(stopped, b + 1)
    ensures !done && stopped(b + 1) ==> FirstStop(stopped, b + 1)
    ensures done ==> PassedAll(stopped, size, count + more)
  {
    if done {
      BoundariesPassed(stopped, b, size, count + more);
    }
  }

  /** No stop at any boundary there was. */
  ghost predicate PassedAll(stopped: nat -> bool, size: nat, count: nat) {
    forall b: nat :: b > 0 && Boundary(b, size) <= count ==> !stopped(b)
  }

  /** Which batch the `i`-th event of a pass is of. */
  function BatchNo(i: nat, size: nat): nat
    requires size > 0
  {
    i / size
  }

  lemma BatchOf(i: nat, b: nat, size: nat)
    requires size > 0 && Boundary(b, size) <= i < Boundary(b, size) + size
    ensures BatchNo(i, size) == b
  {
    var q := i / size;
    Times(q + 1, b, size);
    Times(b + 1, q, size);
  }

  lemma Times(a: nat, b: nat, size: nat)
    ensures a <= b ==> a * size <= b * size
  {
  }

  /** What the records so far were received at. */
  ghost predicate Stamped(was: nat, recs: seq<Rec>, count: nat, size: nat, clock: nat -> I64)
    requires size > 0
  {
    was + count <= |recs| && forall i :: 0 <= i < count ==> recs[was + i].receipt == clock(BatchNo(i, size))
  }

  lemma NoneBatched(stopped: nat -> bool, size: nat)
    ensures Boundary(0, size) == 0 && NoStop(stopped, 0)
  {
  }

  lemma NoneStamped(recs: seq<Rec>, size: nat, clock: nat -> I64)
    requires size > 0
    ensures Stamped(|recs|, recs, 0, size, clock)
  {
  }

  lemma StampedMore(was: nat, before: seq<Rec>, recs: seq<Rec>, count: nat, more: nat, b: nat, size: nat, clock: nat -> I64)
    requires size > 0 && Stamped(was, before, count, size, clock) && before <= recs && |before| == was + count
    requires count == Boundary(b, size) && more <= size && |recs| == was + count + more
    requires Received(was + count, recs, clock(b))
    ensures Stamped(was, recs, count + more, size, clock)
  {
    hide Boundary, BatchNo;
    forall i | 0 <= i < count + more ensures recs[was + i].receipt == clock(BatchNo(i, size)) {
      if i < count {
        assert recs[was + i] == before[was + i];
      } else {
        BatchOf(i, b, size);
      }
    }
  }

  /** Boundaries up to `b` have been passed. */
  lemma BoundariesPassed(stopped: nat -> bool, b: nat, size: nat, count: nat)
    requires size > 0 && count < b * size + size
    requires NoStop(stopped, b)
    ensures PassedAll(stopped, size, count)
  {
    forall c: nat | c > 0 && Boundary(c, size) <= count ensures c <= b {
      Times(b + 1, c, size);
    }
  }

  /** Frames and stores a file from byte `from`, in batches, each appended and flushed before
      the next is framed. A stop request ends the pass at a batch boundary. */
  method IngestFile(store: RawStore, source: U32, bytes: seq<Byte>, from: nat, eof: bool,
                    batchEvents: nat, clock: nat -> I64, stopped: nat -> bool)
    returns (r: Pass, ghost events: seq<seq<Byte>>)
    requires store.Valid() && batchEvents > 0
    requires store.segLen + (HEADER_LEN + 1) * |bytes| < 0x1_0000_0000_0000_0000
    modifies store`history, store`nextId, store`segLen, store`head, store.seg, store.idx
    ensures store.Valid()
    ensures Stored(store.sha, source, old(store.history.recs), events, store.history.recs)
    ensures events <= Events(bytes[StartOf(bytes, from)..], eof)
    ensures r.Consumed? ==>
      && StartOf(bytes, from) <= r.offset <= |bytes|
      && Concat(events) == bytes[StartOf(bytes, from)..r.offset]
      && events + Events(bytes[r.offset..], eof) == Events(bytes[StartOf(bytes, from)..], eof)
      && (store.history == old(store.history) || store.history.flushed == |store.history.recs|)
      && (r.complete ==> Events(bytes[r.offset..], eof) == [] && (eof ==> r.offset == |bytes|))
    ensures r.Consumed? && r.complete ==> PassedAll(stopped, batchEvents, |events|)
    ensures r.Consumed? && !r.complete ==> exists b: nat :: FirstStop(stopped, b) && |events| == Boundary(b, batchEvents)
    ensures r.Aborted? ==>
      var all := Events(bytes[StartOf(bytes, from)..], eof);
      |events| < |all| && Refused(all[|events|])
    ensures Stamped(|old(store.history.recs)|, store.history.recs, |events|, batchEvents, clock)
  {
    hide Events, EventLen, RawStore.Valid, InBounds, Slices, FrameSize, Stored, Concat, Framed, Stamped, Received, Refused, Boundary, NoStop, PassedAll, FirstStop;
    var start := StartOf(bytes, from);
    var framer := new Framer(bytes[start..], eof);
    var consumed: nat, batches: nat := start, 0;
    ghost var before := store.history;
    events := [];
    NoneStamped(before.recs, batchEvents, clock);
    NoneBatched(stopped, batchEvents);
    StoredNone(store.sha, source, before.recs);
    NothingFramed(bytes, start, eof);
    while true
      invariant store.Valid() && fresh(framer)
      invariant framer.buf == bytes[start..] && framer.eof == eof && framer.pos == consumed - start
      invariant Framed(bytes, start, consumed, eof, events, [])
      invariant start <= consumed <= |bytes|
      invariant store.segLen + (HEADER_LEN + 1) * (|bytes| - consumed) < 0x1_0000_0000_0000_0000
      invariant Stored(store.sha, source, before.recs, events, store.history.recs)
      invariant |store.history.recs| == |before.recs| + |events|
      invariant |events| == Boundary(batches, batchEvents) && NoStop(stopped, batches)
      invariant Stamped(|before.recs|, store.history.recs, |events|, batchEvents, clock)
      invariant store.history == before || store.history.flushed == |store.history.recs|
      decreases |bytes| - consumed
    {
      ghost var had := events;
      FramedStored(bytes, start, consumed, eof, events, []);
      var ranges, end, done := GatherBatch(framer, bytes, start, consumed, eof, batchEvents, events);
      if ranges == [] {
        NextBoundary(stopped, batches, batchEvents, |events|, 0, done);
        return Consumed(consumed, true), events;
      }
      FramedWithin(bytes, start, end, eof, events, ranges);
      ghost var mid := store.history.recs;
      var ok;
      ok, events := StoreMore(store, source, clock(batches), bytes, ranges, before.recs, events);
      StampedMore(|before.recs|, mid, store.history.recs, |had|, |events| - |had|, batches, batchEvents, clock);
      if !ok {
        return Aborted, events;
      }
      FramedStored(bytes, start, end, eof, had, ranges);
      NextBoundary(stopped, batches, batchEvents, |had|, |ranges|, done);
      consumed := end;
      batches := batches + 1;
      if done || stopped(batches) {
        return Consumed(consumed, done), events;
      }
    }
  }

  /** The framer's turns between two stores: ranges until a batch is full or the framer has
      no more. */
  method GatherBatch(framer: Framer, bytes: seq<Byte>, start: nat, from: nat, eof: bool, batchEvents: nat,
                     ghost events: seq<seq<Byte>>) returns (ranges: seq<(nat, nat)>, consumed: nat, done: bool)
    requires batchEvents > 0 && start <= from <= |bytes|
    requires framer.buf == bytes[start..] && framer.eof == eof && framer.pos == from - start
    requires Framed(bytes, start, from, eof, events, [])
    modifies framer
    ensures from <= consumed <= |bytes| && framer.pos == consumed - start
    ensures Framed(bytes, start, consumed, eof, events, ranges)
    ensures FrameSize(ranges) <= (HEADER_LEN + 1) * (consumed - from)
    ensures ranges == [] ==> consumed == from && done
    ensures ranges != [] ==> from < consumed
    ensures |ranges| <= batchEvents && (done <==> |ranges| < batchEvents)
    ensures done ==> Events(bytes[consumed..], eof) == [] && (eof ==> consumed == |bytes|)
  {
    hide Events, EventLen, Framed, FrameSize;
    ranges, consumed := [], from;
    NoSize();
    while |ranges| < batchEvents
      invariant |ranges| <= batchEvents
      invariant from <= consumed <= |bytes| && framer.pos == consumed - start
      invariant Framed(bytes, start, consumed, eof, events, ranges)
      invariant FrameSize(ranges) <= (HEADER_LEN + 1) * (consumed - from)
      invariant if ranges == [] then consumed == from else from < consumed
      decreases |bytes| - consumed
    {
      RestOfRest(bytes, start, consumed);
      var next := framer.Next();
      if next == None {
        NoEvents(bytes[consumed..], eof);
        return ranges, consumed, true;
      }
      var end := next.value.1 + start;
      TakesEvent(bytes, start, consumed, end, eof, events, ranges);
      ranges := ranges + [(next.value.0 + start, end)];
      consumed := end;
    }
    done := false;
  }

  lemma NoSize()
    ensures FrameSize([]) == 0
  {
  }

  /** The events stored and the ranges still pending are the framing of what is consumed. */
  ghost predicate Framed(bytes: seq<Byte>, start: nat, consumed: nat, eof: bool, events: seq<seq<Byte>>, ranges: seq<(nat, nat)>) {
    && start <= consumed <= |bytes| && InBounds(ranges, |bytes|)
    && events + Slices(bytes, ranges) + Events(bytes[consumed..], eof) == Events(bytes[start..], eof)
    && Concat(events + Slices(bytes, ranges)) == bytes[start..consumed]
  }

  lemma NothingFramed(bytes: seq<Byte>, start: nat, eof: bool)
    requires start <= |bytes|
    ensures Framed(bytes, start, start, eof, [], []) && FrameSize([]) == 0
  {
    hide Events;
  }

  /** Once the pending ranges are stored, the events stored are the framing. */
  lemma {:induction false} FramedStored(bytes: seq<Byte>, start: nat, consumed: nat, eof: bool, events: seq<seq<Byte>>, ranges: seq<(nat, nat)>)
    requires Framed(bytes, start, consumed, eof, events, ranges)
    ensures var all := events + Slices(bytes, ranges);
      && Framed(bytes, start, consumed, eof, all, [])
      && all + Events(bytes[consumed..], eof) == Events(bytes[start..], eof)
      && all <= Events(bytes[start..], eof)
      && Concat(all) == bytes[start..consumed]
    ensures FrameSize([]) == 0 && (ranges == [] ==> events + Slices(bytes, ranges) == events)
  {
    hide Events, Concat;
    var all := events + Slices(bytes, ranges);
    assert all + Slices(bytes, []) == all;
  }

  lemma {:induction false} FramedWithin(bytes: seq<Byte>, start: nat, consumed: nat, eof: bool, events: seq<seq<Byte>>, ranges: seq<(nat, nat)>)
    requires Framed(bytes, start, consumed, eof, events, ranges)
    ensures InBounds(ranges, |bytes|) && events + Slices(bytes, ranges) <= Events(bytes[start..], eof)
  {
    hide Events, Concat, Slices;
  }

  lemma StoredNone(sha: Sha, source: U32, was: seq<Rec>)
    ensures Stored(sha, source, was, [], was)
  {
  }

  /** The framer's next range is the next event of the file. */
  lemma {:induction false} TakesEvent(bytes: seq<Byte>, start: nat, consumed: nat, end: nat, eof: bool,
                   events: seq<seq<Byte>>, ranges: seq<(nat, nat)>)
    requires Framed(bytes, start, consumed, eof, events, ranges)
    requires EventLen(bytes[consumed..], eof) == Some(end - consumed)
    ensures consumed < end <= |bytes|
    ensures Framed(bytes, start, end, eof, events, ranges + [(consumed, end)])
    ensures FrameSize(ranges + [(consumed, end)]) == FrameSize(ranges) + HEADER_LEN + (end - consumed)
  {
    hide Events, EventLen, Concat, Slices;
    var rest := bytes[consumed..];
    FirstEvent(rest, eof);
    assert rest[..end - consumed] == bytes[consumed..end] && rest[end - consumed..] == bytes[end..];
    SlicesSnoc(bytes, ranges, consumed, end);
    var event, got := bytes[consumed..end], Slices(bytes, ranges);
    Regroup(events, got, event, Events(bytes[end..], eof));
    ConcatSnoc(events + got, event);
    assert bytes[start..consumed] + event == bytes[start..end];
  }

  lemma {:induction false} SlicesSnoc(bytes: seq<Byte>, ranges: seq<(nat, nat)>, from: nat, to: nat)
    requires InBounds(ranges, |bytes|) && from <= to <= |bytes|
    ensures Slices(bytes, ranges + [(from, to)]) == Slices(bytes, ranges) + [bytes[from..to]]
    ensures FrameSize(ranges + [(from, to)]) == FrameSize(ranges) + HEADER_LEN + (to - from)
  {
    assert (ranges + [(from, to)])[..|ranges|] == ranges;
  }

  lemma Regroup(a: seq<seq<Byte>>, b: seq<seq<Byte>>, x: seq<Byte>, c: seq<seq<Byte>>)
    ensures a + (b + [x]) + c == a + b + ([x] + c)
    ensures a + (b + [x]) == (a + b) + [x]
  {
  }

  lemma {:induction false} SlicesPrefix(bytes: seq<Byte>, ranges: seq<(nat, nat)>, k: nat)
    requires InBounds(ranges, |bytes|) && k <= |ranges|
    ensures Slices(bytes, ranges[..k]) <= Slices(bytes, ranges)
    decreases |ranges|
  {
    if k == |ranges| {
      assert ranges[..k] == ranges;
    } else {
      assert ranges[..|ranges| - 1][..k] == ranges[..k];
      SlicesPrefix(bytes, ranges[..|ranges| - 1], k);
    }
  }

  // ----- Every run conserves bytes

  /** The store's history and the files of the sources as they stand. */
  datatype World = World(h: History, files: map<U32, seq<Byte>>)

  function FileOf(w: World, source: U32): seq<Byte> {
    if source in w.files then w.files[source] else []
  }

  /** Where the next pass over a source resumes: the bytes stored of it so far. */
  function Resume(w: World, source: U32): nat {
    |SourceBytes(w.h.recs, source)|
  }

  ghost predicate Conserved(w: World) {
    forall s :: SourceBytes(w.h.recs, s) <= FileOf(w, s)
  }

  /** Files only grow. */
  ghost predicate Grow(w: World, w': World) {
    w'.h == w.h && forall s :: FileOf(w, s) <= FileOf(w', s)
  }

  /** A pass, complete, stopped or cut short by a kill, over the file as some earlier moment
      saw it: it stores events of the bytes from the resume offset on. */
  ghost predicate PassStep(sha: Sha, w: World, w': World, source: U32, snapshot: seq<Byte>, eof: bool, events: seq<seq<Byte>>) {
    && w'.files == w.files
    && snapshot <= FileOf(w, source) && Resume(w, source) <= |snapshot|
    && events <= Events(snapshot[Resume(w, source)..], eof)
    && Stored(sha, source, w.h.recs, events, w'.h.recs)
  }

  /** A pass from the resume offset is a step of the world, however it ends; consumed, the
      offset it returns is the one the next pass resumes from. A finalizing pass that nobody
      stops leaves the source with the whole file. */
  method ResumePass(store: RawStore, ghost files: map<U32, seq<Byte>>, source: U32, bytes: seq<Byte>, from: nat, eof: bool,
                    batchEvents: nat, clock: nat -> I64, stopped: nat -> bool)
    returns (r: Pass)
    requires store.Valid() && batchEvents > 0
    requires store.segLen + (HEADER_LEN + 1) * |bytes| < 0x1_0000_0000_0000_0000
    requires bytes <= FileOf(World(store.history, files), source)
    requires from == Resume(World(store.history, files), source) <= |bytes|
    modifies store`history, store`nextId, store`segLen, store`head, store.seg, store.idx
    ensures store.Valid()
    ensures WorldStep(store.sha, World(old(store.history), files), World(store.history, files))
    ensures r.Consumed? ==> r.offset == Resume(World(store.history, files), source)
    ensures eof && Conserved(World(old(store.history), files)) && Uninterrupted(bytes[from..], stopped) ==>
      r == Consumed(|bytes|, true) && SourceBytes(store.history.recs, source) == bytes
  {
    hide RawStore.Valid, Events, Stored, Concat, SourceBytes, Refused, FirstStop;
    ghost var w := World(store.history, files);
    ghost var events;
    r, events := IngestFile(store, source, bytes, from, eof, batchEvents, clock, stopped);
    assert PassStep(store.sha, w, World(store.history, files), source, bytes, eof, events);
    StoredBytes(store.sha, source, w.h.recs, events, store.history.recs, source);
    if eof && Conserved(w) && Uninterrupted(bytes[from..], stopped) {
      assert r != Aborted;
      if !r.complete {
        ghost var b: nat :| FirstStop(stopped, b);
        StopsThere(stopped, b);
      }
      assert events == Events(bytes[from..], true);
      FinalPassIsWhole(store.sha, w, World(store.history, files), source, bytes, events);
    }
  }

  lemma StopsThere(stopped: nat -> bool, b: nat)
    requires FirstStop(stopped, b)
    ensures stopped(b)
  {
  }

  /** Nobody requests a stop, and the store takes every event. */
  ghost predicate Uninterrupted(rest: seq<Byte>, stopped: nat -> bool) {
    (forall b :: !stopped(b)) && forall i :: 0 <= i < |Events(rest, true)| ==> !Refused(Events(rest, true)[i])
  }

  /** A kill that brings no record back altered: recovery keeps a prefix of the records. */
  ghost predicate Kill(w: World, w': World) {
    && w'.files == w.files
    && |w'.h.recs| <= |w.h.recs| && w'.h.recs == w.h.recs[..|w'.h.recs|]
  }

  /** A kill and recovery is one exactly when all records were whole, or nothing is found at
      the cut, or just what was appended there; so is any whose segment ends in no zeros. */
  lemma CleanKill(sha: Sha, storeId: StoreId, w: World, seg: seq<Byte>, k: nat, idx: seq<Byte>, l: nat, now: seq<Rec>)
    requires Durability.Valid(sha, w.h) && CrashImage(sha, storeId, w.h, seg, k, idx, l) && |seg| >= SEG_MAGIC_LEN
    requires Fits(now) && Rebuilt(sha, storeId, Recover(sha, GenesisOf(sha, storeId), seg, idx), now)
    ensures var recs, m := w.h.recs, Whole(w.h.recs, k);
      Kill(w, World(History(now, |now|), w.files)) <==>
      || m == |recs|
      || RecordEnd(sha, seg, OffsetOf(recs, m), m, m >= Indexed(idx)) == None
      || SegOf(recs[..m + 1]) <= seg
    ensures k == |seg| ==> Kill(w, World(History(now, |now|), w.files))
  {
    hide Recover, Rebuilt, CrashImage, Altered, Whole, SegOf, RecordEnd;
    KillLeaves(sha, storeId, w.h, seg, k, idx, l, now);
    UnalteredExactly(sha, storeId, w.h, seg, k, idx, l, now);
  }

  ghost predicate WorldStep(sha: Sha, w: World, w': World) {
    || Grow(w, w')
    || Kill(w, w')
    || exists source, snapshot, eof, events :: PassStep(sha, w, w', source, snapshot, eof, events)
  }

  lemma {:induction false} EventsArePrefix(s: seq<Byte>, eof: bool, events: seq<seq<Byte>>)
    requires events <= Events(s, eof)
    ensures Concat(events) <= s
    decreases |events|
  {
    hide EventLen;
    if events != [] {
      FirstEvent(s, eof);
      var n := EventLen(s, eof).value;
      assert events[1..] <= Events(s, eof)[1..] == Events(s[n..], eof);
      EventsArePrefix(s[n..], eof, events[1..]);
      assert s == s[..n] + s[n..];
    }
  }

  lemma StepConserves(sha: Sha, w: World, w': World)
    requires Conserved(w) && WorldStep(sha, w, w')
    ensures Conserved(w')
  {
    hide SourceBytes, Events, Stored, Concat;
    forall s ensures SourceBytes(w'.h.recs, s) <= FileOf(w', s) {
      assert SourceBytes(w.h.recs, s) <= FileOf(w, s);
      if Grow(w, w') {
        assert FileOf(w, s) <= FileOf(w', s);
      } else if Kill(w, w') {
        SourceBytesPrefix(w.h.recs, |w'.h.recs|, s);
      } else {
        var source, snapshot, eof, events :| PassStep(sha, w, w', source, snapshot, eof, events);
        StoredBytes(sha, source, w.h.recs, events, w'.h.recs, s);
        if s == source {
          PassPrefix(SourceBytes(w.h.recs, s), Concat(events), snapshot, FileOf(w, s), eof, events);
        }
      }
    }
  }

  lemma {:induction false} PassPrefix(had: seq<Byte>, got: seq<Byte>, snapshot: seq<Byte>, file: seq<Byte>, eof: bool, events: seq<seq<Byte>>)
    requires had <= file && snapshot <= file && |had| <= |snapshot|
    requires got == Concat(events) && events <= Events(snapshot[|had|..], eof)
    ensures had + got <= snapshot <= file
  {
    hide Events, Concat;
    EventsArePrefix(snapshot[|had|..], eof, events);
    assert had == snapshot[..|had|];
    assert snapshot == snapshot[..|had|] + snapshot[|had|..];
  }

  /** Conservation over whole runs: whatever mix of passes, growth, stops and kills, the
      records of each source, in id order, are a prefix of its file as long as the offset
      the next pass resumes from. */
  lemma {:induction false} RunConserves(sha: Sha, run: seq<World>, i: nat)
    requires |run| > 0 && run[0].h.recs == []
    requires forall j :: 0 <= j < |run| - 1 ==> WorldStep(sha, run[j], run[j + 1])
    requires i < |run|
    ensures Conserved(run[i])
    ensures forall s ::
      && Resume(run[i], s) <= |FileOf(run[i], s)|
      && SourceBytes(run[i].h.recs, s) == FileOf(run[i], s)[..Resume(run[i], s)]
  {
    hide WorldStep;
    if i > 0 {
      RunConserves(sha, run, i - 1);
      assert WorldStep(sha, run[i - 1], run[i - 1 + 1]);
      StepConserves(sha, run[i - 1], run[i]);
    }
    assert forall s :: SourceBytes(run[i].h.recs, s) <= FileOf(run[i], s);
  }

  /** A finalizing pass that stores every event leaves the whole file as that pass saw it. */
  lemma {:induction false} FinalPassIsWhole(sha: Sha, w: World, w': World, source: U32, snapshot: seq<Byte>, events: seq<seq<Byte>>)
    requires Conserved(w) && PassStep(sha, w, w', source, snapshot, true, events)
    requires events == Events(snapshot[Resume(w, source)..], true)
    ensures SourceBytes(w'.h.recs, source) == snapshot
  {
    hide SourceBytes, Events, Stored, Concat;
    var had := SourceBytes(w.h.recs, source);
    StoredBytes(sha, source, w.h.recs, events, w'.h.recs, source);
    assert had <= FileOf(w, source);
    AllOfIt(had, snapshot, FileOf(w, source));
  }

  lemma {:induction false} AllOfIt(had: seq<Byte>, snapshot: seq<Byte>, file: seq<Byte>)
    requires had <= file && snapshot <= file && |had| <= |snapshot|
    ensures had + Concat(Events(snapshot[|had|..], true)) == snapshot
  {
    hide Events, Concat;
    Lossless(snapshot[|had|..], true);
    var got := Concat(Events(snapshot[|had|..], true));
    assert got + [] == got;
    assert had == snapshot[..|had|];
    assert snapshot == snapshot[..|had|] + snapshot[|had|..];
  }

  // ----- The offsets a restart resumes from

  /** `ingested_bytes`: the stored bytes of each source, summed from the records themselves;
      a record that cannot be read is an error, because a wrong offset would store bytes
      twice. */
  method IngestedBytes(reader: Reading.Reader) returns (r: Option<map<U32, nat>>)
    requires reader.Valid()
    ensures r.None? <==> exists id :: 0 <= id < reader.count && reader.Get(id).None?
    ensures r.Some? ==> forall recs :: Reads(reader, recs) ==> Sums(recs, r.value)
  {
    hide Reading.Reader.Get, Sums;
    var sums: map<U32, nat> := map[];
    ghost var seen: seq<Rec> := [];
    var id := 0;
    NothingCounted();
    while id < reader.count
      invariant id == |seen| <= reader.count
      invariant forall i :: 0 <= i < id ==> reader.Get(i) == Some(seen[i])
      invariant Sums(seen, sums)
    {
      var rec := reader.Get(id);
      if rec == None {
        return None;
      }
      var source := rec.value.source;
      Counted(seen, rec.value, sums);
      sums := sums[source := (if source in sums then sums[source] else 0) + |rec.value.bytes|];
      seen := seen + [rec.value];
      id := id + 1;
    }
    forall recs | Reads(reader, recs) ensures recs == seen {
      ReadsUnique(reader, recs, seen);
    }
    r := Some(sums);
  }

  ghost predicate Reads(reader: Reading.Reader, recs: seq<Rec>)
    requires reader.Valid()
  {
    |recs| == reader.count && forall id :: 0 <= id < |recs| ==> reader.Get(id) == Some(recs[id])
  }

  lemma ReadsUnique(reader: Reading.Reader, a: seq<Rec>, b: seq<Rec>)
    requires reader.Valid() && Reads(reader, a) && Reads(reader, b)
    ensures a == b
  {
    hide Reading.Reader.Get;
    forall i | 0 <= i < |a| ensures a[i] == b[i] {
      assert reader.Get(i) == Some(a[i]);
    }
  }

  /** The map has the sources of the records, each with the number of bytes stored of it. */
  ghost predicate Sums(recs: seq<Rec>, m: map<U32, nat>) {
    && (forall s :: s in m <==> exists i :: 0 <= i < |recs| && recs[i].source == s)
    && (forall s :: SumOf(m, s) == |SourceBytes(recs, s)|)
  }

  function SumOf(m: map<U32, nat>, s: U32): nat {
    if s in m then m[s] else 0
  }

  lemma NothingCounted()
    ensures Sums([], map[])
  {
  }

  lemma Counted(seen: seq<Rec>, rec: Rec, sums: map<U32, nat>)
    requires Sums(seen, sums)
    ensures Sums(seen + [rec], sums[rec.source := SumOf(sums, rec.source) + |rec.bytes|])
  {
    hide SourceBytes;
    var next := sums[rec.source := SumOf(sums, rec.source) + |rec.bytes|];
    var more := seen + [rec];
    forall s ensures SumOf(next, s) == |SourceBytes(more, s)| {
      SourceBytesSnoc(seen, rec, s);
      assert SumOf(sums, s) == |SourceBytes(seen, s)|;
    }
    forall s ensures s in next <==> exists i :: 0 <= i < |more| && more[i].source == s {
      if s == rec.source {
        assert more[|seen|].source == s;
      } else if s in sums {
        var i :| 0 <= i < |seen| && seen[i].source == s;
        assert more[i].source == s;
      }
    }
  }
}
