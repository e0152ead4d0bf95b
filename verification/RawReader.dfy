/** The read-only view of a store: what it counts, what it reads, what `verify` reports. */
module RawReader {
  import opened Bytes
  import opened StoreFormat
  import opened Recovery
  import opened CrashImages

  datatype VerifyReason = DigestReason | ChainReason

  datatype Report = Report(
    checked: nat,
    corrupt: seq<nat>,
    firstBad: Option<(nat, VerifyReason)>)

  /** The two files as mapped at open time, and the count of records they hold. */
  datatype Reader = Reader(seg: seq<Byte>, idx: seq<Byte>, storeId: StoreId, count: nat) {
    ghost predicate Valid() {
      count > 0 ==> EntryPos(count) <= |idx|
    }

    /** Stored offset and chain value; `None` when the id was never issued. */
    function Offset(id: nat): Option<nat>
      requires Valid()
    {
      if id >= count then None else Some(UnLe(ReadEntry(idx, id)[0..8]))
    }

    function Chain(id: nat): (r: Option<Digest>)
      requires Valid()
      ensures r.Some? <==> id < count
    {
      if id >= count then None else Some(ReadEntry(idx, id)[8..40])
    }

    /** The record with this id, unless it was never issued or is structurally damaged. */
    function Get(id: nat): (r: Option<Rec>)
      requires Valid()
    {
      match Offset(id)
      case None => None
      case Some(off) =>
        if off < SEG_MAGIC_LEN || off + HEADER_LEN > |seg| then None
        else
          var hdr := seg[off..off + HEADER_LEN];
          var body := off + HEADER_LEN;
          var len := UnLe(hdr[24..28]);
          if UnLe(hdr[0..4]) != REC_MAGIC || body + len > |seg| || UnLe(hdr[4..12]) != id then None
          else Some(Parsed(hdr, seg[body..body + len]))
    }

    /** The chain value record `id` must follow: what its predecessor stores. */
    function Prev(sha: Sha, id: nat): Digest
      requires Valid() && id <= count
    {
      if id == 0 then GenesisOf(sha, storeId) else Chain(id - 1).value
    }

    /** What `verify` holds against one record. */
    function Fault(sha: Sha, id: nat): (r: Option<VerifyReason>)
      requires Valid() && id < count
    {
      match Get(id)
      case None => Some(DigestReason)
      case Some(rec) =>
        if sha(rec.bytes) != rec.digest then Some(DigestReason)
        else if Chain(id) != Some(ChainStep(sha, Prev(sha, id), rec.digest)) then Some(ChainReason)
        else None
    }

    /** The digest is to blame if the record cannot be read or its bytes do not hash to it,
        the chain if they do and only the link fails, and nothing if all three hold. */
    lemma ReasonsExactly(sha: Sha, id: nat)
      requires Valid() && id < count
      ensures var readable := Get(id).Some?;
        var hashed := readable && Get(id).value.digest == sha(Get(id).value.bytes);
        var linked := readable && Chain(id) == Some(ChainStep(sha, Prev(sha, id), Get(id).value.digest));
        && (Fault(sha, id) == Some(DigestReason) <==> !hashed)
        && (Fault(sha, id) == Some(ChainReason) <==> hashed && !linked)
        && (Fault(sha, id) == None <==> hashed && linked)
    {
      hide Get, Chain, Prev, ChainStep;
    }

    /** The ids below `n` that are at fault, in order. */
    function Faulty(sha: Sha, n: nat): (ids: seq<nat>)
      requires Valid() && n <= count
      ensures forall i :: i in ids ==> i < n && Fault(sha, i).Some?
    {
      if n == 0 then [] else
        var front := Faulty(sha, n - 1);
        if Fault(sha, n - 1).Some? then front + [n - 1] else front
    }

    lemma {:induction false} FaultyIsAll(sha: Sha, n: nat)
      requires Valid() && n <= count
      ensures forall i :: 0 <= i < n && Fault(sha, i).Some? ==> i in Faulty(sha, n)
      ensures forall a, b :: 0 <= a < b < |Faulty(sha, n)| ==> Faulty(sha, n)[a] < Faulty(sha, n)[b]
    {
      hide Fault;
      if n > 0 {
        FaultyIsAll(sha, n - 1);
        var front := Faulty(sha, n - 1);
        assert forall a :: 0 <= a < |front| ==> front[a] in front;
      }
    }

    /** One turn of the loop of `check`, given the running chain value. */
    method CheckOne(sha: Sha, i: nat, prev: Digest, storedChain: Option<Digest>) returns (reason: Option<VerifyReason>)
      requires Valid() && i < count && prev == Prev(sha, i) && storedChain == Chain(i)
      ensures reason == Fault(sha, i)
    {
      hide Get, Chain, ChainStep, Prev;
      match Get(i) {
        case None => reason := Some(DigestReason);
        case Some(rec) =>
          if sha(rec.bytes) != rec.digest {
            reason := Some(DigestReason);
          } else if storedChain != Some(ChainStep(sha, prev, rec.digest)) {
            reason := Some(ChainReason);
          } else {
            reason := None;
          }
      }
    }

    /** `verify`: every digest and every link, each against what the predecessor stores. */
    method Verify(sha: Sha) returns (report: Report)
      requires Valid()
      ensures report.checked == count
      ensures report.corrupt == Faulty(sha, count)
      ensures report.corrupt == [] ==> report.firstBad == None
      ensures report.corrupt != [] ==>
        var id := report.corrupt[0];
        id < count && report.firstBad.Some? && report.firstBad.value.0 == id && Some(report.firstBad.value.1) == Fault(sha, id)
    {
      hide Fault, ReadEntry;
      var corrupt: seq<nat> := [];
      var firstBad: Option<(nat, VerifyReason)> := None;
      var prev: Digest := GenesisOf(sha, storeId);
      var i := 0;
      while i < count
        invariant i <= count && prev == Prev(sha, i)
        invariant corrupt == Faulty(sha, i)
        invariant corrupt == [] ==> firstBad == None
        invariant corrupt != [] ==>
          corrupt[0] in corrupt && firstBad.Some? && firstBad.value.0 == corrupt[0]
          && Some(firstBad.value.1) == Fault(sha, corrupt[0])
      {
        var storedChain := Chain(i);
        var reason := CheckOne(sha, i, prev, storedChain);
        if reason.Some? {
          corrupt := corrupt + [i];
          if firstBad == None {
            firstBad := Some((i, reason.value));
          }
        }
        if storedChain.Some? {
          prev := storedChain.value;
        }
        i := i + 1;
      }
      report := Report(count, corrupt, firstBad);
    }
  }

  datatype OpenError = BadSegMagic | PreChain

  datatype Opened = Failed(error: OpenError) | Ready(reader: Reader)

  /** Entries at the back whose offset is below the file magic are the zeros of a recovery. */
  function Trimmed(idx: seq<Byte>, n: nat): (m: nat)
    requires n > 0 ==> EntryPos(n) <= |idx|
    ensures m <= n
    ensures m > 0 ==> UnLe(ReadEntry(idx, m - 1)[0..8]) >= SEG_MAGIC_LEN
    ensures forall i :: m <= i < n ==> UnLe(ReadEntry(idx, i)[0..8]) < SEG_MAGIC_LEN
  {
    if n > 0 && UnLe(ReadEntry(idx, n - 1)[0..8]) < SEG_MAGIC_LEN then Trimmed(idx, n - 1) else n
  }

  method Open(seg: seq<Byte>, idx: seq<Byte>) returns (r: Opened)
    ensures r.Failed? && r.error == BadSegMagic <==> !(FILE_MAGIC <= seg)
    ensures r.Failed? && r.error == PreChain <==> FILE_MAGIC <= seg && (|idx| < IDX_HEADER_LEN || idx[..8] != IDX_MAGIC)
    ensures r.Ready? ==>
      && |idx| >= IDX_HEADER_LEN
      && r.reader == Reader(seg, idx, idx[8..24], Trimmed(idx, Indexed(idx)))
      && r.reader.Valid()
  {
    if |seg| < SEG_MAGIC_LEN || seg[..SEG_MAGIC_LEN] != FILE_MAGIC {
      return Failed(BadSegMagic);
    }
    if |idx| < IDX_HEADER_LEN || idx[..8] != IDX_MAGIC {
      return Failed(PreChain);
    }
    var count: nat := (|idx| - IDX_HEADER_LEN) / IDX_ENTRY_LEN;
    while count > 0 && UnLe(ReadEntry(idx, count - 1)[0..8]) < SEG_MAGIC_LEN
      invariant count <= Indexed(idx)
      invariant Trimmed(idx, Indexed(idx)) == Trimmed(idx, count)
    {
      count := count - 1;
    }
    r := Ready(Reader(seg, idx, idx[8..24], count));
  }

  // ----- The reader of a recovered store

  /** The files of a history, possibly with recovery's zeros behind it. */
  ghost predicate FilesOf(sha: Sha, storeId: StoreId, recs: seq<Rec>, seg: seq<Byte>, idx: seq<Byte>) {
    && SegOf(recs) <= seg
    && |idx| >= EntryPos(|recs|) && idx == IdxOf(sha, storeId, recs) + Zeros(|idx| - EntryPos(|recs|))
  }

  /** What a reader of those files sees of record `i`. */
  ghost predicate Shows(sha: Sha, storeId: StoreId, reader: Reader, recs: seq<Rec>, i: nat)
    requires i < |recs| && reader.Valid()
  {
    && reader.Get(i) == Some(recs[i])
    && reader.Offset(i) == Some(OffsetOf(recs, i))
    && reader.Chain(i) == Some(ChainOf(sha, GenesisOf(sha, storeId), recs[..i + 1]))
  }

  lemma ReaderShows(sha: Sha, storeId: StoreId, recs: seq<Rec>, reader: Reader, i: nat)
    requires Fits(recs) && FilesOf(sha, storeId, recs, reader.seg, reader.idx)
    requires reader.count == |recs| && i < |recs|
    ensures reader.Valid() && Shows(sha, storeId, reader, recs, i)
  {
    hide SegOf, IdxOf, ChainOf, GenesisOf, RecordEnd, Header, Parsed;
    var g := GenesisOf(sha, storeId);
    var off := OffsetOf(recs, i);
    var whole, idx := IdxOf(sha, storeId, recs), reader.idx;
    EntryAt(sha, storeId, recs, i);
    var p := EntryPos(i);
    SlicesAgree(whole, idx, whole, p, p + IDX_ENTRY_LEN);
    var entry := ReadEntry(idx, i);
    EntryOffset(recs, i, entry, entry, ChainOf(sha, g, recs[..i + 1]));
    assert entry[8..40] == ChainOf(sha, g, recs[..i + 1]);
    SegPrefix(recs, i);
    HeaderAt(recs, i);
    SlicesAgree(SegOf(recs), reader.seg, SegOf(recs), off, off + HEADER_LEN);
    SlicesAgree(SegOf(recs), reader.seg, SegOf(recs), off + HEADER_LEN, OffsetOf(recs, i + 1));
    HeaderFields(i, recs[i]);
    ParsedIsRecord(i, recs[i]);
  }

  lemma ParsedIsRecord(id: U64, r: Rec)
    requires r.Fits()
    ensures Parsed(Header(id, r), r.bytes) == r
  {
    HeaderFields(id, r);
    assert FromU64(ToU64(r.receipt)) == r.receipt;
  }

  /** Opening the files of a history yields a reader of exactly that history. */
  lemma {:induction false} OpenCounts(sha: Sha, storeId: StoreId, recs: seq<Rec>, seg: seq<Byte>, idx: seq<Byte>)
    requires Fits(recs) && FilesOf(sha, storeId, recs, seg, idx)
    ensures FILE_MAGIC <= seg && |idx| >= IDX_HEADER_LEN && idx[..8] == IDX_MAGIC && idx[8..24] == storeId
    ensures Trimmed(idx, Indexed(idx)) == |recs|
  {
    hide SegOf, IdxOf, GenesisOf, Trimmed;
    HeaderOfFiles(sha, storeId, recs, seg, idx);
    CountOfFiles(sha, storeId, recs, idx);
  }

  lemma {:induction false} HeaderOfFiles(sha: Sha, storeId: StoreId, recs: seq<Rec>, seg: seq<Byte>, idx: seq<Byte>)
    requires SegOf(recs) <= seg && IdxOf(sha, storeId, recs) <= idx
    ensures FILE_MAGIC <= seg && idx[..8] == IDX_MAGIC && idx[8..24] == storeId
  {
    hide SegOf, IdxOf, GenesisOf;
    PrefixOfMagic(recs);
    HeaderOfIdx(sha, storeId, recs);
    SlicesAgree(IdxOf(sha, storeId, recs), idx, IdxOf(sha, storeId, recs), 0, 8);
    SlicesAgree(IdxOf(sha, storeId, recs), idx, IdxOf(sha, storeId, recs), 8, 24);
  }

  lemma {:induction false} CountOfFiles(sha: Sha, storeId: StoreId, recs: seq<Rec>, idx: seq<Byte>)
    requires Fits(recs) && |idx| >= EntryPos(|recs|)
    requires idx == IdxOf(sha, storeId, recs) + Zeros(|idx| - EntryPos(|recs|))
    ensures Trimmed(idx, Indexed(idx)) == |recs|
  {
    hide SegOf, IdxOf, GenesisOf, Trimmed, ReadEntry;
    assert idx[EntryPos(|recs|)..] == Zeros(|idx| - EntryPos(|recs|));
    var n := Indexed(idx);
    forall i | |recs| <= i < n ensures UnLe(ReadEntry(idx, i)[0..8]) == 0 {
      ZeroEntry(idx, EntryPos(|recs|), i);
    }
    if recs != [] {
      LastOffset(sha, storeId, recs, idx);
    }
    TrimmedIs(idx, n, |recs|);
  }

  lemma HeaderOfIdx(sha: Sha, storeId: StoreId, recs: seq<Rec>)
    ensures IdxOf(sha, storeId, recs)[0..8] == IDX_MAGIC && IdxOf(sha, storeId, recs)[8..24] == storeId
  {
    hide EntriesOf, GenesisOf;
  }

  lemma ZeroEntry(idx: seq<Byte>, l: nat, i: nat)
    requires l <= EntryPos(i) && EntryPos(i + 1) <= |idx| && idx[l..] == Zeros(|idx| - l)
    ensures UnLe(ReadEntry(idx, i)[0..8]) == 0
  {
    ZeroSlice(idx, l, EntryPos(i), EntryPos(i) + 8);
    SliceOfSlice(idx, EntryPos(i), EntryPos(i + 1), 0, 8);
    UnLeZeros(8);
  }

  lemma {:induction false} TrimmedIs(idx: seq<Byte>, n: nat, m: nat)
    requires m <= n && (n > 0 ==> EntryPos(n) <= |idx|)
    requires m > 0 ==> UnLe(ReadEntry(idx, m - 1)[0..8]) >= SEG_MAGIC_LEN
    requires forall i :: m <= i < n ==> UnLe(ReadEntry(idx, i)[0..8]) < SEG_MAGIC_LEN
    ensures Trimmed(idx, n) == m
  {
    hide ReadEntry;
  }

  lemma {:induction false} PrefixOfMagic(recs: seq<Rec>)
    ensures FILE_MAGIC <= SegOf(recs)
  {
    SegPrefix(recs, 0);
    assert recs[..0] == [];
  }

  lemma LastOffset(sha: Sha, storeId: StoreId, recs: seq<Rec>, idx: seq<Byte>)
    requires Fits(recs) && recs != [] && IdxOf(sha, storeId, recs) <= idx
    ensures UnLe(ReadEntry(idx, |recs| - 1)[0..8]) >= SEG_MAGIC_LEN
  {
    hide SegOf, IdxOf, ChainOf, GenesisOf;
    var i := |recs| - 1;
    EntryAt(sha, storeId, recs, i);
    SlicesAgree(IdxOf(sha, storeId, recs), idx, IdxOf(sha, storeId, recs), EntryPos(i), EntryPos(i + 1));
    EntryOffset(recs, i, ReadEntry(idx, i), ReadEntry(idx, i), ChainOf(sha, GenesisOf(sha, storeId), recs[..i + 1]));
  }

  /** Whatever files a reader is given, it shows a record under an id exactly if that record
      stands whole at the offset of its entry, framed under that very id. */
  lemma {:induction false} GetExactly(reader: Reader, id: U64, r: Rec)
    requires reader.Valid() && id < reader.count
    ensures reader.Get(id) == Some(r) <==> Standing(reader.seg, reader.Offset(id).value, id, r)
  {
    hide ReadEntry, Parsed, Framed;
    var seg, off := reader.seg, reader.Offset(id).value;
    if reader.Get(id) == Some(r) {
      var hdr := seg[off..off + HEADER_LEN];
      ParsedBytes(hdr, seg[off + HEADER_LEN..off + HEADER_LEN + UnLe(hdr[24..28])]);
      ParsedThenHeader(hdr, id, r.bytes);
      FrameIs(seg, off, id, r);
    }
    if Standing(seg, off, id, r) {
      FrameParts(seg, off, id, r);
      HeaderFields(id, r);
      ParsedIsRecord(id, r);
    }
  }

  lemma ParsedBytes(hdr: seq<Byte>, body: seq<Byte>)
    requires |hdr| == HEADER_LEN
    ensures Parsed(hdr, body).bytes == body
  {
  }

  lemma FrameIs(seg: seq<Byte>, off: nat, id: nat, r: Rec)
    requires off + HEADER_LEN + |r.bytes| <= |seg|
    requires seg[off..off + HEADER_LEN] == Header(id, r) && seg[off + HEADER_LEN..off + HEADER_LEN + |r.bytes|] == r.bytes
    ensures seg[off..off + HEADER_LEN + |r.bytes|] == Framed(id, r)
  {
    hide Header;
  }

  /** `verify` names exactly the records whose bytes are not the ones that were hashed. */
  lemma VerifyNamesTheDishonest(sha: Sha, storeId: StoreId, recs: seq<Rec>, reader: Reader, i: nat)
    requires Fits(recs) && FilesOf(sha, storeId, recs, reader.seg, reader.idx)
    requires reader.count == |recs| && reader.storeId == storeId && i < |recs|
    ensures reader.Valid()
    ensures reader.Fault(sha, i) == if Honest(sha, recs[i]) then None else Some(DigestReason)
  {
    hide SegOf, IdxOf, GenesisOf, ChainStep, ChainOf, Reader.Get, Reader.Chain;
    var g := GenesisOf(sha, storeId);
    ReaderShows(sha, storeId, recs, reader, i);
    assert recs[..i + 1] == recs[..i] + [recs[i]];
    IdxSnoc(sha, storeId, recs[..i], recs[i]);
    if i > 0 {
      ReaderShows(sha, storeId, recs, reader, i - 1);
    } else {
      assert recs[..0] == [];
      EmptyStore(sha, g);
    }
    assert reader.Prev(sha, i) == ChainOf(sha, g, recs[..i]);
    assert reader.Chain(i) == Some(ChainStep(sha, reader.Prev(sha, i), recs[i].digest));
  }

  /** After recovery the store opens, counts what recovery counted, and verifies, up to the
      one record recovery may have read from torn bytes. */
  lemma {:induction false} RecoveredVerifies(sha: Sha, storeId: StoreId, now: seq<Rec>, o: Outcome, reader: Reader)
    requires Fits(now) && Rebuilt(sha, storeId, o, now)
    requires reader == Reader(o.seg, o.idx, storeId, Trimmed(o.idx, Indexed(o.idx)))
    ensures reader.count == o.scan.n && reader.Valid()
    ensures forall i :: i in reader.Faulty(sha, reader.count) <==> 0 <= i < |now| && !Honest(sha, now[i])
    ensures HonestFrom(sha, now, 0) ==> reader.Faulty(sha, reader.count) == []
  {
    hide SegOf, IdxOf, GenesisOf, ChainStep, Trimmed;
    OpenCounts(sha, storeId, now, o.seg, o.idx);
    forall i | 0 <= i < |now|
      ensures reader.Fault(sha, i).Some? <==> !Honest(sha, now[i])
    {
      VerifyNamesTheDishonest(sha, storeId, now, reader, i);
    }
    reader.FaultyIsAll(sha, reader.count);
    var ids := reader.Faulty(sha, reader.count);
    assert ids != [] ==> ids[0] in ids;
  }
}
