/** The writer: `open` with its recovery, `append`, `flush` and reads through the writer's
    own files, each proved against the functions of the recovery and the store format. */
module RawStore {
  import opened Bytes
  import opened Disk
  import opened StoreFormat
  import opened Recovery
  import opened CrashImages
  import opened Durability
  import RawReader

  // ----- Recovery in place

  method RecordEndInFile(sha: Sha, seg: File, off: nat, id: nat, segFileLen: nat, checkDigest: bool) returns (r: Option<Found>)
    requires segFileLen == |seg.data|
    modifies seg`pos
    ensures r == RecordEnd(sha, seg.data, off, id, checkDigest)
  {
    if off < SEG_MAGIC_LEN || off + HEADER_LEN > segFileLen {
      return None;
    }
    seg.Seek(off);
    var read := seg.ReadExact(HEADER_LEN);
    var hdr := read.value;
    if UnLe(hdr[0..4]) != REC_MAGIC || UnLe(hdr[4..12]) != id {
      return None;
    }
    var len := UnLe(hdr[24..28]);
    var end := off + HEADER_LEN + len;
    if end > segFileLen {
      return None;
    }
    if checkDigest {
      var body := seg.ReadExact(len);
      if sha(body.value) != hdr[28..60] {
        return None;
      }
    }
    r := Some(Found(end, hdr[28..60]));
  }

  method ReadEntryInFile(idx: File, id: nat) returns (e: seq<Byte>)
    requires EntryPos(id + 1) <= |idx.data|
    modifies idx`pos
    ensures e == ReadEntry(idx.data, id)
  {
    idx.Seek(EntryPos(id));
    var read := idx.ReadExact(IDX_ENTRY_LEN);
    e := read.value;
  }

  /** Zeros in chunks of 64 KiB, over a tail that is already there. */
  method ZeroTailInFile(f: File, from: nat, to: nat)
    requires to <= from || from <= |f.data|
    modifies f
    ensures f.data == ZeroTail(old(f.data), from, to)
  {
    hide Overlay, Zeros;
    if to <= from {
      return;
    }
    f.Seek(from);
    ghost var before := f.data;
    OverlayNothing(before, from);
    var left: nat := to - from;
    while left > 0
      invariant left <= to - from && f.pos == to - left
      invariant f.data == Overlay(before, from, Zeros(f.pos - from))
    {
      var n := if left <= 0x1_0000 then left else 0x1_0000;
      OverlayGrows(before, from, f.pos - from, n);
      f.WriteAll(Zeros(n));
      left := left - n;
    }
    assert f.pos == to;
  }

  lemma OverlayNothing(data: seq<Byte>, from: nat)
    requires from <= |data|
    ensures Overlay(data, from, Zeros(0)) == data
  {
    assert data[..from] + data[from..] == data;
  }

  lemma OverlayGrows(data: seq<Byte>, from: nat, done: nat, n: nat)
    requires from <= |data|
    ensures Overlay(Overlay(data, from, Zeros(done)), from + done, Zeros(n)) == Overlay(data, from, Zeros(done + n))
  {
    assert Zeros(done) + Zeros(n) == Zeros(done + n);
    var once := Overlay(data, from, Zeros(done));
    assert once[..from + done] == data[..from] + Zeros(done);
    if from + done + n < |once| {
      assert once[from + done + n..] == data[from + done + n..];
    }
  }

  method RecoverInPlace(sha: Sha, seg: File, idx: File, genesis: Digest) returns (s: Scan)
    requires seg != idx && |seg.data| >= SEG_MAGIC_LEN
    modifies seg, idx
    ensures Outcome(s, seg.data, idx.data) == Recover(sha, genesis, old(seg.data), old(idx.data))
  {
    hide RecordEnd, ReadEntry, ChainStep, Overlay, Linked, ZeroTail, Backward, Forward;
    ghost var seg0, idx0 := seg.data, idx.data;
    var segFileLen := |seg.data|;
    var idxFileLen := |idx.data|;
    var indexed := if idxFileLen <= IDX_HEADER_LEN then 0 else (idxFileLen - IDX_HEADER_LEN) / IDX_ENTRY_LEN;
    BackwardInBounds(sha, genesis, seg0, idx0, indexed);
    var b := BackwardInPlace(sha, seg, idx, genesis, indexed);
    s := ForwardInPlace(sha, seg, idx, b, indexed);
    ForwardIdxLength(sha, seg0, Recovered(b, idx0), indexed, |idx0|);
    ForwardReaches(sha, seg0, Recovered(b, idx0), indexed);
    ZeroTailInFile(idx, EntryPos(s.n), idxFileLen);
    ZeroTailInFile(seg, s.segLen, segFileLen);
  }

  method ForwardInPlace(sha: Sha, seg: File, idx: File, b: Scan, indexed: nat) returns (s: Scan)
    requires seg != idx && b.segLen <= |seg.data|
    modifies seg`pos, idx
    ensures Recovered(s, idx.data) == Forward(sha, seg.data, Recovered(b, old(idx.data)), indexed)
  {
    hide RecordEnd, ChainStep, Overlay;
    ghost var idx0 := idx.data;
    var n: nat, segLen: nat, head := b.n, b.segLen, b.head;
    while true
      invariant segLen <= |seg.data|
      invariant Forward(sha, seg.data, Recovered(b, idx0), indexed)
             == Forward(sha, seg.data, Recovered(Scan(n, segLen, head), idx.data), indexed)
      decreases |seg.data| - segLen
    {
      var found := RecordEndInFile(sha, seg, segLen, n, |seg.data|, n >= indexed);
      if found == None {
        return Scan(n, segLen, head);
      }
      head := ChainStep(sha, head, found.value.digest);
      idx.Seek(EntryPos(n));
      idx.WriteAll(Entry(segLen, head));
      n := n + 1;
      segLen := found.value.end;
    }
  }

  /** The index is never shorter than the entries recovery has counted. */
  lemma {:induction false} ForwardReaches(sha: Sha, seg: seq<Byte>, s: Recovered, indexed: nat)
    requires s.scan.segLen <= |seg|
    requires s.scan.n == 0 || EntryPos(s.scan.n) <= |s.idx|
    ensures var r := Forward(sha, seg, s, indexed); r.scan.n == 0 || EntryPos(r.scan.n) <= |r.idx|
    decreases |seg| - s.scan.segLen
  {
    hide RecordEnd, ChainStep;
    match RecordEnd(sha, seg, s.scan.segLen, s.scan.n, s.scan.n >= indexed)
    case None =>
    case Some(found) => ForwardReaches(sha, seg, Reindexed(sha, s, found), indexed);
  }

  method BackwardInPlace(sha: Sha, seg: File, idx: File, genesis: Digest, indexed: nat) returns (s: Scan)
    requires seg != idx && |seg.data| >= SEG_MAGIC_LEN
    requires indexed > 0 ==> EntryPos(indexed) <= |idx.data|
    modifies seg`pos, idx`pos
    ensures s == Backward(sha, genesis, seg.data, idx.data, indexed)
  {
    var n: nat := indexed;
    while n > 0
      invariant n <= indexed
      invariant Backward(sha, genesis, seg.data, idx.data, indexed) == Backward(sha, genesis, seg.data, idx.data, n)
    {
      var linked := LinkedInPlace(sha, seg, idx, genesis, n);
      if linked.Some? {
        return linked.value;
      }
      n := n - 1;
    }
    s := Scan(0, SEG_MAGIC_LEN, genesis);
  }

  method LinkedInPlace(sha: Sha, seg: File, idx: File, genesis: Digest, n: nat) returns (r: Option<Scan>)
    requires seg != idx && 0 < n && EntryPos(n) <= |idx.data|
    modifies seg`pos, idx`pos
    ensures r == Linked(sha, genesis, seg.data, idx.data, n)
  {
    hide RecordEnd, ReadEntry, ChainStep;
    var entry := ReadEntryInFile(idx, n - 1);
    var off, chain := UnLe(entry[0..8]), entry[8..40];
    var found := RecordEndInFile(sha, seg, off, n - 1, |seg.data|, false);
    if found.Some? {
      var prev: Digest := genesis;
      if n >= 2 {
        var before := ReadEntryInFile(idx, n - 2);
        prev := before[8..40];
      }
      if chain == ChainStep(sha, prev, found.value.digest) {
        return Some(Scan(n, found.value.end, chain));
      }
    }
    r := None;
  }

  // ----- Opening

  datatype OpenError = BadSegMagic | ShortSegment | PreChainStore

  /** The checks `open` makes before recovery, and the two headers it writes for a fresh
      store: what is wrong with the files, or the files it goes on with and their id. */
  datatype Headers = Refused(error: OpenError) | Accepted(seg: seq<Byte>, idx: seq<Byte>, storeId: StoreId)

  function CheckHeaders(seg: seq<Byte>, idx: seq<Byte>, freshId: StoreId): (h: Headers)
    ensures h.Accepted? ==> |h.seg| >= SEG_MAGIC_LEN && |h.idx| >= IDX_HEADER_LEN
  {
    if 0 < |seg| < SEG_MAGIC_LEN then Refused(ShortSegment)
    else if seg != [] && seg[..SEG_MAGIC_LEN] != FILE_MAGIC then Refused(BadSegMagic)
    else
      var seg' := if seg == [] then FILE_MAGIC else seg;
      if |idx| >= IDX_HEADER_LEN then
        if idx[..8] != IDX_MAGIC then Refused(PreChainStore) else Accepted(seg', idx, idx[8..24])
      else if |seg'| > SEG_MAGIC_LEN then Refused(PreChainStore)
      else Accepted(seg', IdxHeader(freshId), freshId)
  }

  datatype Opened = Failed(error: OpenError) | Opened(store: RawStore)

  datatype Read = NotIssued | DamagedRecord | Got(record: Rec)

  // ----- What keeps the invariant

  /** The writer's counters are those of the history. */
  ghost predicate Holds(sha: Sha, storeId: StoreId, h: History, s: Scan) {
    && Durability.Valid(sha, h)
    && s == Scan(|h.recs|, |SegOf(h.recs)|, ChainOf(sha, GenesisOf(sha, storeId), h.recs))
  }

  /** One writer has written `whole` so far, at least `flushed` bytes of it to the file, and
      ahead of the cursor the file holds zeros. */
  ghost predicate Written(whole: seq<Byte>, flushed: nat, stream: seq<Byte>, pos: nat, ahead: seq<Byte>) {
    stream == whole && flushed <= pos && ahead == Zeros(|ahead|)
  }

  lemma WrittenMore(whole: seq<Byte>, flushed: nat, stream: seq<Byte>, pos: nat, ahead: seq<Byte>,
                    whole': seq<Byte>, flushed': nat, stream': seq<Byte>, pos': nat, ahead': seq<Byte>)
    requires Written(whole, flushed, stream, pos, ahead)
    requires stream' == whole' && flushed' <= pos'
    requires Suffix(ahead', ahead)
    ensures Written(whole', flushed', stream', pos', ahead')
  {
  }

  lemma SuffixTransitive(a: seq<Byte>, b: seq<Byte>, c: seq<Byte>)
    requires Suffix(a, b) && Suffix(b, c)
    ensures Suffix(a, c)
  {
  }

  lemma ConcatAssociative(a: seq<Byte>, b: seq<Byte>, c: seq<Byte>)
    ensures (a + b) + c == a + (b + c)
  {
  }

  lemma StreamIsImage(stream: seq<Byte>, data: seq<Byte>, pos: nat, buf: seq<Byte>)
    requires pos <= |data| && data[..pos] + buf == stream && data[pos..] == Zeros(|data| - pos)
    ensures pos <= |stream| && data == stream[..pos] + Zeros(|data| - pos)
  {
    assert stream[..pos] == data[..pos];
    assert data == data[..pos] + data[pos..];
  }

  lemma HoldsFlushed(sha: Sha, storeId: StoreId, h: History, s: Scan)
    requires Holds(sha, storeId, h, s)
    ensures Holds(sha, storeId, History(h.recs, |h.recs|), s)
    ensures OffsetOf(h.recs, |h.recs|) == |SegOf(h.recs)| && EntryPos(|h.recs|) == |IdxOf(sha, storeId, h.recs)|
  {
    hide SegOf, ChainOf, GenesisOf;
    assert h.recs[..|h.recs|] == h.recs;
  }

  lemma HoldsAppended(sha: Sha, storeId: StoreId, h: History, s: Scan, rec: Rec)
    requires Holds(sha, storeId, h, s)
    requires Honest(sha, rec) && rec.Fits() && s.segLen + HEADER_LEN + |rec.bytes| < 0x1_0000_0000_0000_0000
    ensures var h' := History(h.recs + [rec], h.flushed);
      var head := ChainStep(sha, s.head, rec.digest);
      && Append(sha, h, h')
      && Holds(sha, storeId, h', Scan(s.n + 1, s.segLen + HEADER_LEN + |rec.bytes|, head))
      && SegOf(h'.recs) == SegOf(h.recs) + (Header(s.n, rec) + rec.bytes)
      && IdxOf(sha, storeId, h'.recs) == IdxOf(sha, storeId, h.recs) + Entry(s.segLen, head)
      && OffsetOf(h'.recs, h.flushed) == OffsetOf(h.recs, h.flushed)
  {
    hide SegOf, ChainOf, GenesisOf, IdxOf, Header, ChainStep, Entry;
    SegSnoc(h.recs, rec);
    IdxSnoc(sha, storeId, h.recs, rec);
    assert (h.recs + [rec])[..|h.recs|] == h.recs;
    assert (h.recs + [rec])[..h.flushed] == h.recs[..h.flushed];
  }

  class RawStore {
    const sha: Sha
    const seg: BufWriter
    const idx: BufWriter
    const storeId: StoreId
    const genesis: Digest
    var nextId: nat
    var segLen: nat
    var head: Digest

    /** The history these files hold once both buffers are drained, and how much of it the
        last flush put on disk. */
    ghost var history: History

    ghost predicate Separate()
      reads this, seg, idx
    {
      seg != idx
    }

    ghost predicate Valid()
      reads this, seg, idx
    {
      && Separate() && seg.Valid() && idx.Valid()
      && genesis == GenesisOf(sha, storeId)
      && Holds(sha, storeId, history, Scan(nextId, segLen, head))
      && Written(SegOf(history.recs), OffsetOf(history.recs, history.flushed), seg.Stream(), seg.pos, seg.Ahead())
      && Written(IdxOf(sha, storeId, history.recs), EntryPos(history.flushed), idx.Stream(), idx.pos, idx.Ahead())
    }

    /** Two buffered writers with nothing in their buffers, each at the end recovery found. */
    constructor (sha: Sha, seg: File, idx: File, storeId: StoreId, s: Scan)
      requires seg != idx
      ensures this.sha == sha && this.storeId == storeId && genesis == GenesisOf(sha, storeId)
      ensures fresh(this.seg) && fresh(this.idx) && this.seg != this.idx
      ensures this.seg.buf == [] && this.seg.data == seg.data && this.seg.pos == seg.pos
      ensures this.idx.buf == [] && this.idx.data == idx.data && this.idx.pos == idx.pos
      ensures nextId == s.n && segLen == s.segLen && head == s.head
    {
      this.sha, this.storeId := sha, storeId;
      genesis := GenesisOf(sha, storeId);
      var w := new BufWriter(seg);
      var x := new BufWriter(idx);
      this.seg, this.idx := w, x;
      nextId, segLen, head := s.n, s.segLen, s.head;
      history := History([], 0);
    }

    /** Whatever is on disk now is a crash image of the history: a kill at this point loses
        at most what was never flushed. */
    lemma DiskIsCrashImage()
      requires Valid()
      requires |seg.data| < 0x1_0000_0000_0000_0000
      requires TearShows(sha, GenesisOf(sha, storeId), seg.data, idx.data, idx.pos)
      ensures CrashImage(sha, storeId, history, seg.data, seg.pos, idx.data, idx.pos)
    {
      hide SegOf, IdxOf, GenesisOf, ChainOf;
      StreamIsImage(SegOf(history.recs), seg.data, seg.pos, seg.buf);
      StreamIsImage(IdxOf(sha, storeId, history.recs), idx.data, idx.pos, idx.buf);
    }

    /** `flush`, up to the system's own buffers: the segment first, then the index. */
    method Flush()
      requires Valid()
      modifies this`history, seg, idx
      ensures Valid()
      ensures Durability.Flush(old(history), history)
      ensures seg.buf == [] && idx.buf == []
    {
      hide SegOf, IdxOf, GenesisOf, ChainOf, Holds, Written, OffsetOf, EntryPos, BufWriter.Stream, BufWriter.Ahead, Suffix;
      ghost var recs, f := history.recs, history.flushed;
      ghost var s1, p1, a1 := seg.Stream(), seg.pos, seg.Ahead();
      ghost var s2, p2, a2 := idx.Stream(), idx.pos, idx.Ahead();
      HoldsFlushed(sha, storeId, history, Scan(nextId, segLen, head));
      seg.Flush();
      idx.Flush();
      var whole, index := SegOf(recs), IdxOf(sha, storeId, recs);
      StreamsAre(sha, storeId, history, Scan(nextId, segLen, head), s1, p1, a1, s2, p2, a2);
      assert seg.pos == |whole| && idx.pos == |index|;
      WrittenMore(whole, OffsetOf(recs, f), s1, p1, a1, whole, |whole|, seg.Stream(), seg.pos, seg.Ahead());
      WrittenMore(index, EntryPos(f), s2, p2, a2, index, |index|, idx.Stream(), idx.pos, idx.Ahead());
      history := History(recs, |recs|);
    }

    /** The three writes of one append. */
    method Write(hdr: seq<Byte>, bytes: seq<Byte>, entry: seq<Byte>)
      requires Separate() && seg.Valid() && idx.Valid()
      modifies seg, idx
      ensures seg.Valid() && idx.Valid()
      ensures seg.Stream() == old(seg.Stream()) + (hdr + bytes) && seg.pos >= old(seg.pos)
      ensures Suffix(seg.Ahead(), old(seg.Ahead()))
      ensures idx.Stream() == old(idx.Stream()) + entry && idx.pos >= old(idx.pos)
      ensures Suffix(idx.Ahead(), old(idx.Ahead()))
    {
      hide BufWriter.Stream, BufWriter.Ahead, Suffix;
      ghost var s1, a1 := seg.Stream(), seg.Ahead();
      seg.WriteAll(hdr);
      ghost var a2 := seg.Ahead();
      seg.WriteAll(bytes);
      SuffixTransitive(seg.Ahead(), a2, a1);
      ConcatAssociative(s1, hdr, bytes);
      idx.WriteAll(entry);
    }

    /** Header, bytes and index entry go to their buffers, and the id is handed out. An event
        of 4 GiB or more is refused and leaves the store as it was. */
    method Append(source: U32, receipt: I64, bytes: seq<Byte>) returns (r: Option<nat>)
      requires Valid()
      requires segLen + HEADER_LEN + |bytes| < 0x1_0000_0000_0000_0000
      modifies this`history, this`nextId, this`segLen, this`head, seg, idx
      ensures Valid()
      ensures |bytes| >= 0x1_0000_0000 ==> r == None && history == old(history) && segLen == old(segLen)
      ensures |bytes| < 0x1_0000_0000 ==>
        && r == Some(|old(history).recs|) && segLen == old(segLen) + HEADER_LEN + |bytes|
        && history == History(old(history).recs + [Rec(receipt, source, sha(bytes), bytes)], old(history).flushed)
        && Durability.Append(sha, old(history), history)
    {
      hide SegOf, IdxOf, GenesisOf, ChainOf, ChainStep, Header, Entry, Holds, Written, BufWriter.Stream, BufWriter.Ahead, Suffix;
      if |bytes| >= 0x1_0000_0000 {
        return None;
      }
      ghost var recs, f := history.recs, history.flushed;
      ghost var s1, p1, a1 := seg.Stream(), seg.pos, seg.Ahead();
      ghost var s2, p2, a2 := idx.Stream(), idx.pos, idx.Ahead();
      var rec := Rec(receipt, source, sha(bytes), bytes);
      var id := nextId;
      var chain := ChainStep(sha, head, rec.digest);
      StreamsAre(sha, storeId, history, Scan(nextId, segLen, head), s1, p1, a1, s2, p2, a2);
      HoldsAppended(sha, storeId, history, Scan(nextId, segLen, head), rec);
      Write(Header(id, rec), bytes, Entry(segLen, chain));
      WrittenMore(SegOf(recs), OffsetOf(recs, f), s1, p1, a1, SegOf(recs + [rec]), OffsetOf(recs + [rec], f), seg.Stream(), seg.pos, seg.Ahead());
      WrittenMore(IdxOf(sha, storeId, recs), EntryPos(f), s2, p2, a2, IdxOf(sha, storeId, recs + [rec]), EntryPos(f), idx.Stream(), idx.pos, idx.Ahead());
      segLen := segLen + HEADER_LEN + |bytes|;
      nextId := nextId + 1;
      head := chain;
      history := History(recs + [rec], f);
      r := Some(id);
    }

    lemma StreamsAre(sha: Sha, storeId: StoreId, h: History, s: Scan,
                     s1: seq<Byte>, p1: nat, a1: seq<Byte>, s2: seq<Byte>, p2: nat, a2: seq<Byte>)
      requires Holds(sha, storeId, h, s)
      requires Written(SegOf(h.recs), OffsetOf(h.recs, h.flushed), s1, p1, a1)
      requires Written(IdxOf(sha, storeId, h.recs), EntryPos(h.flushed), s2, p2, a2)
      ensures h.flushed <= |h.recs| == s.n && s.segLen == |SegOf(h.recs)|
      ensures s1 == SegOf(h.recs) && s2 == IdxOf(sha, storeId, h.recs)
      ensures OffsetOf(h.recs, h.flushed) <= p1 && EntryPos(h.flushed) <= p2
    {
    }

    /** Reads one record back by id, after a flush, through the writer's own files. */
    method Get(id: nat) returns (r: Read)
      requires Valid()
      modifies this`history, seg, idx
      ensures Valid() && history.recs == old(history).recs
      ensures r == if id < |history.recs| then Got(history.recs[id]) else NotIssued
      ensures id < |history.recs| ==> Durability.Flush(old(history), history)
    {
      hide SegOf, IdxOf, GenesisOf, ChainOf, Header, Parsed;
      if id >= nextId {
        return NotIssued;
      }
      Flush();
      ghost var recs := history.recs;
      IdxRecordAt(sha, storeId, recs, idx.data, id);
      var off := UnLe(ReadEntry(idx.data, id)[0..8]);
      SegRecordAt(recs, seg.data, id);
      var hdr := seg.data[off..off + HEADER_LEN];
      if UnLe(hdr[0..4]) != REC_MAGIC || UnLe(hdr[4..12]) != id {
        return DamagedRecord;
      }
      var body, len := off + HEADER_LEN, UnLe(hdr[24..28]);
      if body + len > segLen {
        return DamagedRecord;
      }
      r := Got(Parsed(hdr, seg.data[body..body + len]));
    }
  }

  /** What the index and the segment of a flushed store hold for one id. */
  lemma IdxRecordAt(sha: Sha, storeId: StoreId, recs: seq<Rec>, idx: seq<Byte>, id: nat)
    requires Fits(recs) && id < |recs| && IdxOf(sha, storeId, recs) <= idx
    ensures UnLe(ReadEntry(idx, id)[0..8]) == OffsetOf(recs, id)
  {
    hide SegOf, IdxOf, GenesisOf, ChainOf;
    EntryAt(sha, storeId, recs, id);
    var whole := IdxOf(sha, storeId, recs);
    SlicesAgree(whole, idx, whole, EntryPos(id), EntryPos(id + 1));
    EntryOffset(recs, id, ReadEntry(idx, id), ReadEntry(idx, id), ChainOf(sha, GenesisOf(sha, storeId), recs[..id + 1]));
  }

  lemma {:induction false} SegRecordAt(recs: seq<Rec>, seg: seq<Byte>, id: nat)
    requires Fits(recs) && id < |recs| && SegOf(recs) <= seg
    ensures var off := OffsetOf(recs, id);
      && off + HEADER_LEN + |recs[id].bytes| <= |SegOf(recs)|
      && var hdr := seg[off..off + HEADER_LEN];
      && UnLe(hdr[0..4]) == REC_MAGIC && UnLe(hdr[4..12]) == id && UnLe(hdr[24..28]) == |recs[id].bytes|
      && Parsed(hdr, seg[off + HEADER_LEN..off + HEADER_LEN + |recs[id].bytes|]) == recs[id]
  {
    hide SegOf, Header, Parsed;
    var off, end := OffsetOf(recs, id), OffsetOf(recs, id + 1);
    SegPrefix(recs, id);
    HeaderAt(recs, id);
    SlicesAgree(SegOf(recs), seg, SegOf(recs), off, off + HEADER_LEN);
    SlicesAgree(SegOf(recs), seg, SegOf(recs), off + HEADER_LEN, end);
    HeaderFields(id, recs[id]);
    RawReader.ParsedIsRecord(id, recs[id]);
  }

  datatype HeaderRead = Err(error: OpenError) | StoreIs(storeId: StoreId)

  /** The magic of the segment and the header of the index, written where the files are new. */
  method ReadHeaders(seg: File, idx: File, freshId: StoreId) returns (r: HeaderRead)
    requires seg != idx
    modifies seg, idx
    ensures var h := CheckHeaders(old(seg.data), old(idx.data), freshId);
      && (h.Refused? ==>
        && r == Err(h.error) && idx.data == old(idx.data)
        && seg.data == if old(seg.data) == [] then FILE_MAGIC else old(seg.data))
      && (h.Accepted? ==> r == StoreIs(h.storeId) && seg.data == h.seg && idx.data == h.idx)
  {
    seg.Seek(0);
    if |seg.data| == 0 {
      seg.WriteAll(FILE_MAGIC);
      assert seg.data == FILE_MAGIC;
    } else {
      var magic := seg.ReadExact(SEG_MAGIC_LEN);
      if magic == None {
        return Err(ShortSegment);
      }
      if magic.value != FILE_MAGIC {
        return Err(BadSegMagic);
      }
    }
    var storeId: StoreId := freshId;
    idx.Seek(0);
    if |idx.data| >= IDX_HEADER_LEN {
      var header := idx.ReadExact(IDX_HEADER_LEN);
      assert header.value[..8] == idx.data[..8];
      if header.value[..8] != IDX_MAGIC {
        return Err(PreChainStore);
      }
      assert header.value[8..24] == idx.data[8..24];
      storeId := header.value[8..24];
    } else {
      if |seg.data| > SEG_MAGIC_LEN {
        return Err(PreChainStore);
      }
      idx.WriteAll(IdxHeader(freshId));
      idx.SetLen(IDX_HEADER_LEN);
      assert idx.data == IdxHeader(freshId);
    }
    r := StoreIs(storeId);
  }

  // ----- Opening an image

  /** Opening whatever a kill left of a store hands the same store back: nothing flushed is
      lost, and the invariant holds again with everything on disk. On any other pair of
      files `open` does what the header checks and the recovery say. */
  method Open(sha: Sha, seg: File, idx: File, freshId: StoreId) returns (r: Opened)
    requires seg != idx
    modifies seg, idx
    ensures var h := CheckHeaders(old(seg.data), old(idx.data), freshId);
      && (h.Refused? ==>
        && r == Failed(h.error) && idx.data == old(idx.data)
        && seg.data == if old(seg.data) == [] then FILE_MAGIC else old(seg.data))
      && (h.Accepted? ==>
        && r.Opened? && fresh(r.store) && fresh(r.store.seg) && fresh(r.store.idx)
        && r.store.sha == sha && r.store.storeId == h.storeId
        && r.store.seg.data == seg.data && r.store.idx.data == idx.data
        && Outcome(Scan(r.store.nextId, r.store.segLen, r.store.head), seg.data, idx.data)
           == Recover(sha, GenesisOf(sha, h.storeId), h.seg, h.idx))
    ensures forall storeId, h, k, l ::
      Durability.Valid(sha, h) && CrashImage(sha, storeId, h, old(seg.data), k, old(idx.data), l) ==>
        && r.Opened? && r.store.storeId == storeId && r.store.Valid()
        && KillAndRecover(sha, storeId, h, r.store.history)
        && Keeps(h, r.store.history)
  {
    hide SegOf, IdxOf, GenesisOf, ChainOf, Recover, Rebuilt, Durability.Valid, CrashImage, CheckHeaders;
    ghost var seg0, idx0 := seg.data, idx.data;
    forall storeId, h, k, l | Durability.Valid(sha, h) && CrashImage(sha, storeId, h, seg0, k, idx0, l)
      ensures CheckHeaders(seg0, idx0, freshId) == Accepted(seg0, idx0, storeId)
    {
      ImageHeaders(sha, storeId, h, seg0, k, idx0, l, freshId);
    }
    var headers := ReadHeaders(seg, idx, freshId);
    if headers.Err? {
      return Failed(headers.error);
    }
    var storeId := headers.storeId;
    var s := RecoverInPlace(sha, seg, idx, GenesisOf(sha, storeId));
    seg.Seek(s.segLen);
    idx.Seek(EntryPos(s.n));
    var store := new RawStore(sha, seg, idx, storeId, s);
    ghost var o := Outcome(s, seg.data, idx.data);
    if exists now :: Fits(now) && Rebuilt(sha, storeId, o, now) {
      ghost var now :| Fits(now) && Rebuilt(sha, storeId, o, now);
      store.history := History(now, |now|);
      RebuiltStreams(sha, storeId, o, now);
    }
    forall id, h, k, l | Durability.Valid(sha, h) && CrashImage(sha, id, h, seg0, k, idx0, l)
      ensures store.storeId == id && store.Valid() && KillAndRecover(sha, id, h, store.history) && Keeps(h, store.history)
    {
      ImageRebuilds(sha, id, h, seg0, k, idx0, l, o);
      KillLeaves(sha, id, h, seg0, k, idx0, l, store.history.recs);
    }
    r := Opened(store);
  }

  lemma ImageHeaders(sha: Sha, storeId: StoreId, h: History, seg: seq<Byte>, k: nat, idx: seq<Byte>, l: nat, freshId: StoreId)
    requires Durability.Valid(sha, h) && CrashImage(sha, storeId, h, seg, k, idx, l)
    ensures CheckHeaders(seg, idx, freshId) == Accepted(seg, idx, storeId)
  {
    hide SegOf, IdxOf, GenesisOf;
    var none := h.recs[..0];
    assert none == [];
    ImageParts(h.recs, h.flushed, seg, k);
    IdxParts(sha, storeId, h.recs, h.flushed, idx, l);
    OffsetsGrow(h.recs, 0, h.flushed);
    PrefixInImage(h.recs, seg, k, 0);
    PrefixInIdx(sha, storeId, h.recs, idx, l, 0);
    RawReader.HeaderOfFiles(sha, storeId, none, seg, idx);
    assert seg[..SEG_MAGIC_LEN] == FILE_MAGIC;
  }

  lemma ImageRebuilds(sha: Sha, storeId: StoreId, h: History, seg: seq<Byte>, k: nat, idx: seq<Byte>, l: nat, o: Outcome)
    requires Durability.Valid(sha, h) && CrashImage(sha, storeId, h, seg, k, idx, l)
    requires |seg| >= SEG_MAGIC_LEN ==> o == Recover(sha, GenesisOf(sha, storeId), seg, idx)
    ensures |seg| >= SEG_MAGIC_LEN && exists now :: Fits(now) && Rebuilt(sha, storeId, o, now)
  {
    hide SegOf, IdxOf, GenesisOf, Recover, Rebuilt;
    var now := RecoverRebuilds(sha, storeId, h.recs, h.flushed, seg, k, idx, l);
  }

  /** The streams of two writers standing at the recovered ends. */
  lemma {:induction false} RebuiltStreams(sha: Sha, storeId: StoreId, o: Outcome, now: seq<Rec>)
    requires Fits(now) && Rebuilt(sha, storeId, o, now)
    ensures Durability.Valid(sha, History(now, |now|)) && OffsetOf(now, |now|) == |SegOf(now)|
    ensures o.scan == Scan(|now|, |SegOf(now)|, ChainOf(sha, GenesisOf(sha, storeId), now))
    ensures |SegOf(now)| <= |o.seg| && EntryPos(|now|) <= |o.idx|
    ensures o.seg[..|SegOf(now)|] + [] == SegOf(now) && o.seg[|SegOf(now)|..] == Zeros(|o.seg| - |SegOf(now)|)
    ensures o.idx[..EntryPos(|now|)] + [] == IdxOf(sha, storeId, now)
    ensures o.idx[EntryPos(|now|)..] == Zeros(|o.idx| - EntryPos(|now|))
  {
    hide SegOf, IdxOf, GenesisOf, ChainOf;
    assert now[..|now|] == now;
  }
}
