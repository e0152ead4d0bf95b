/** Recovery of every crash image: exact when no zeros trail the files, and with one
    possibly altered last record when they do. */
module CrashImages {
  import opened Bytes
  import opened Disk
  import opened StoreFormat
  import opened Recovery

  // ----- The second loop

  /** One round of the second loop indexes the record it found and keeps the files agreed. */
  lemma ForwardRound(sha: Sha, storeId: StoreId, recs: seq<Rec>, flushed: nat, seg: seq<Byte>, k: nat,
                     s: Recovered, i: nat, indexed: nat) returns (r: Rec)
    requires Fits(recs) && flushed <= |recs| && |seg| < 0x1_0000_0000_0000_0000
    requires SegImage(recs, flushed, seg, k)
    requires i < |recs| && OffsetOf(recs, i) <= k
    requires Agreed(sha, storeId, recs, k, seg, s, recs[..i])
    requires RecordEnd(sha, seg, s.scan.segLen, s.scan.n, i >= indexed).Some?
    ensures var found := RecordEnd(sha, seg, s.scan.segLen, s.scan.n, i >= indexed).value;
      Agreed(sha, storeId, recs, k, seg, Reindexed(sha, s, found), recs[..i] + [r])
    ensures OffsetOf(recs, i + 1) <= k ==> r == recs[i]
  {
    hide SegOf, RecordEnd, Framed, IdxOf, ChainOf, Kept, ChainStep, Overlay, SegImage;
    var now := recs[..i];
    r := FindsFramed(sha, seg, s.scan.segLen, s.scan.n, i >= indexed);
    ExtendsSeg(now, r, seg);
    ExtendsIdx(sha, storeId, now, r, s.idx);
    FoundIsKept(sha, recs, flushed, seg, k, i, i >= indexed, r);
  }

  lemma {:induction false} ForwardAgreed(sha: Sha, storeId: StoreId, recs: seq<Rec>, flushed: nat, seg: seq<Byte>, k: nat,
                     s: Recovered, now: seq<Rec>, indexed: nat) returns (fin: seq<Rec>)
    requires Fits(recs) && flushed <= |recs| && |seg| < 0x1_0000_0000_0000_0000
    requires SegImage(recs, flushed, seg, k) && HonestFrom(sha, recs, flushed)
    requires Agreed(sha, storeId, recs, k, seg, s, now) && flushed <= |now|
    ensures Agreed(sha, storeId, recs, k, seg, Forward(sha, seg, s, indexed), fin)
    ensures |now| <= |fin|
    ensures fin == recs[..Whole(recs, k)] || (Altered(recs, k, fin) && k < |seg|)
    decreases |seg| - s.scan.segLen
  {
    hide SegOf, RecordEnd, Framed, IdxOf, ChainOf, ChainStep, Overlay, Whole;
    ImageParts(recs, flushed, seg, k);
    var i := |now|;
    if !(i <= |recs| && now == recs[..i] && |SegOf(now)| <= k) {
      FindsNothing(sha, seg, |SegOf(now)|, i, i >= indexed);
      fin := now;
    } else if i == |recs| {
      assert recs[..i] == recs;
      FindsNothing(sha, seg, |SegOf(now)|, i, i >= indexed);
      WholeIs(recs, k, i);
      fin := now;
    } else {
      if OffsetOf(recs, i + 1) <= k {
        PrefixInImage(recs, seg, k, i + 1);
        FindsWhole(sha, recs, seg, i, i >= indexed);
      } else {
        WholeIs(recs, k, i);
      }
      match RecordEnd(sha, seg, s.scan.segLen, s.scan.n, i >= indexed)
      case None => fin := now;
      case Some(found) =>
        var r := ForwardRound(sha, storeId, recs, flushed, seg, k, s, i, indexed);
        fin := ForwardAgreed(sha, storeId, recs, flushed, seg, k, Reindexed(sha, s, found), now + [r], indexed);
    }
  }

  // ----- The first loop

  /** An entry the first loop accepts, at the true offset, makes one more record of the
      history it stands behind. */
  lemma LinkedExtends(sha: Sha, storeId: StoreId, seg: seq<Byte>, idx: seq<Byte>, before: seq<Rec>) returns (r: Rec)
    requires Fits(before) && SegOf(before) <= seg && IdxOf(sha, storeId, before) <= idx
    requires |seg| < 0x1_0000_0000_0000_0000
    requires EntryPos(|before| + 1) <= |idx|
    requires UnLe(ReadEntry(idx, |before|)[0..8]) == |SegOf(before)|
    requires Linked(sha, GenesisOf(sha, storeId), seg, idx, |before| + 1).Some?
    ensures var now := before + [r];
      && r.Fits() && Fits(now) && SegOf(now) <= seg && IdxOf(sha, storeId, now) <= idx
      && Linked(sha, GenesisOf(sha, storeId), seg, idx, |before| + 1)
         == Some(Scan(|now|, |SegOf(now)|, ChainOf(sha, GenesisOf(sha, storeId), now)))
      && |SegOf(now)| == |SegOf(before)| + HEADER_LEN + |r.bytes|
      && seg[|SegOf(before)|..|SegOf(now)|] == Framed(|before|, r)
      && RecordEnd(sha, seg, |SegOf(before)|, |before|, false) == Some(Found(|SegOf(now)|, r.digest))
  {
    hide SegOf, RecordEnd, Framed, IdxOf, ChainOf, ChainStep, Overlay, GenesisOf;
    r := FindsFramed(sha, seg, |SegOf(before)|, |before|, false);
    ExtendsSeg(before, r, seg);
    LinkedChain(sha, storeId, seg, idx, before, r);
    EntryExtends(sha, storeId, idx, before, r);
  }

  lemma {:induction false} LinkedChain(sha: Sha, storeId: StoreId, seg: seq<Byte>, idx: seq<Byte>, before: seq<Rec>, r: Rec)
    requires IdxOf(sha, storeId, before) <= idx && EntryPos(|before| + 1) <= |idx|
    requires Linked(sha, GenesisOf(sha, storeId), seg, idx, |before| + 1).Some?
    requires var found := RecordEnd(sha, seg, UnLe(ReadEntry(idx, |before|)[0..8]), |before|, false);
      found.Some? && found.value.digest == r.digest
    ensures ReadEntry(idx, |before|)[8..40] == ChainOf(sha, GenesisOf(sha, storeId), before + [r])
  {
    hide SegOf, RecordEnd, IdxOf, ChainOf, ChainStep, GenesisOf;
    StoredChain(sha, storeId, idx, before);
    IdxSnoc(sha, storeId, before, r);
  }

  lemma {:induction false} EntryExtends(sha: Sha, storeId: StoreId, idx: seq<Byte>, before: seq<Rec>, r: Rec)
    requires IdxOf(sha, storeId, before) <= idx && EntryPos(|before| + 1) <= |idx|
    requires UnLe(ReadEntry(idx, |before|)[0..8]) == |SegOf(before)|
    requires ReadEntry(idx, |before|)[8..40] == ChainOf(sha, GenesisOf(sha, storeId), before + [r])
    ensures IdxOf(sha, storeId, before + [r]) <= idx
  {
    hide SegOf, IdxOf, ChainOf, ChainStep, GenesisOf;
    IdxSnoc(sha, storeId, before, r);
    TwoParts(ReadEntry(idx, |before|));
    PrefixThenSlice(IdxOf(sha, storeId, before), idx, EntryPos(|before| + 1));
  }

  lemma PrefixThenSlice(p: seq<Byte>, s: seq<Byte>, to: nat)
    requires p <= s && |p| <= to <= |s|
    ensures p + s[|p|..to] <= s
  {
    assert p + s[|p|..to] == s[..to];
  }

  lemma TwoParts(e: seq<Byte>)
    requires |e| == IDX_ENTRY_LEN
    ensures e == Le(UnLe(e[0..8]), 8) + e[8..40]
  {
    UnLeThenLe(e[0..8]);
  }

  /** The chain value before the next record, as the index and the genesis give it. */
  lemma {:induction false} StoredChain(sha: Sha, storeId: StoreId, idx: seq<Byte>, before: seq<Rec>)
    requires IdxOf(sha, storeId, before) <= idx
    ensures var g := GenesisOf(sha, storeId);
      ChainOf(sha, g, before) == if before == [] then g else ReadEntry(idx, |before| - 1)[8..40]
  {
    hide SegOf, IdxOf, GenesisOf, ChainStep, ChainOf;
    EmptyStore(sha, GenesisOf(sha, storeId));
    if before != [] {
      var i := |before| - 1;
      EntryAt(sha, storeId, before, i);
      assert before[..i + 1] == before;
      SlicesAgree(IdxOf(sha, storeId, before), idx, IdxOf(sha, storeId, before), EntryPos(i), EntryPos(i + 1));
    }
  }

  lemma IdxParts(sha: Sha, storeId: StoreId, recs: seq<Rec>, flushed: nat, idx: seq<Byte>, l: nat)
    requires flushed <= |recs| && IdxImage(sha, storeId, recs, flushed, idx, l)
    ensures IdxOf(sha, storeId, recs)[..l] <= idx && idx[l..] == Zeros(|idx| - l)
  {
    hide IdxOf;
  }

  lemma PrefixInIdx(sha: Sha, storeId: StoreId, recs: seq<Rec>, idx: seq<Byte>, l: nat, i: nat)
    requires i <= |recs| && EntryPos(i) <= l <= EntryPos(|recs|) && l <= |idx|
    requires IdxOf(sha, storeId, recs)[..l] <= idx
    ensures IdxOf(sha, storeId, recs[..i]) <= idx
  {
    hide IdxOf;
    IdxPrefix(sha, storeId, recs, i);
    assert IdxOf(sha, storeId, recs[..i]) == IdxOf(sha, storeId, recs)[..l][..EntryPos(i)];
  }

  /** What an entry of the image says. Whole, it names its record. Torn, an offset that is
      not all there leaves 32 zeros in place of the chain value, which is not what the link
      test computes. Beyond the tear it is zeros, and no record starts at offset 0. */
  lemma EntryOfImage(sha: Sha, storeId: StoreId, recs: seq<Rec>, flushed: nat, seg: seq<Byte>,
                     idx: seq<Byte>, l: nat, n: nat)
    requires Fits(recs) && flushed <= |recs| && IdxImage(sha, storeId, recs, flushed, idx, l)
    requires 0 < n && EntryPos(n) <= |idx|
    requires TearShows(sha, GenesisOf(sha, storeId), seg, idx, l)
    requires Linked(sha, GenesisOf(sha, storeId), seg, idx, n).Some?
    ensures n <= |recs| && EntryPos(n - 1) + 8 <= l
    ensures UnLe(ReadEntry(idx, n - 1)[0..8]) == OffsetOf(recs, n - 1)
  {
    hide LinkValue, SegOf, IdxOf, ChainOf, GenesisOf, Linked;
    IdxParts(sha, storeId, recs, flushed, idx, l);
    var p := EntryPos(n - 1);
    if l <= p {
      ZeroSlice(idx, l, p, p + 8);
      ZeroOffset(sha, GenesisOf(sha, storeId), seg, idx, n);
      assert false;
    } else if l < p + 8 {
      ZeroSlice(idx, l, p + 8, p + 40);
      assert TornOffset(n, l);
      ZeroChain(sha, GenesisOf(sha, storeId), seg, idx, n);
      assert false;
    } else {
      EntryAt(sha, storeId, recs, n - 1);
      var whole := IdxOf(sha, storeId, recs);
      SlicesAgree(whole[..l], idx, whole, p, p + 8);
      SliceOfSlice(idx, p, p + IDX_ENTRY_LEN, 0, 8);
      SliceOfSlice(whole, p, p + IDX_ENTRY_LEN, 0, 8);
      EntryOffset(recs, n - 1, idx[p..p + IDX_ENTRY_LEN], whole[p..p + IDX_ENTRY_LEN], ChainOf(sha, GenesisOf(sha, storeId), recs[..n]));
    }
  }

  lemma ZeroSlice(s: seq<Byte>, l: nat, from: nat, to: nat)
    requires l <= from <= to <= |s| && s[l..] == Zeros(|s| - l)
    ensures s[from..to] == Zeros(to - from)
  {
    assert forall i :: 0 <= i < to - from ==> s[from..to][i] == s[l..][from - l + i];
  }

  lemma ZeroOffset(sha: Sha, genesis: Digest, seg: seq<Byte>, idx: seq<Byte>, n: nat)
    requires 0 < n && EntryPos(n) <= |idx|
    requires idx[EntryPos(n - 1)..EntryPos(n - 1) + 8] == Zeros(8)
    ensures Linked(sha, genesis, seg, idx, n) == None
  {
    hide ChainStep;
    SliceOfSlice(idx, EntryPos(n - 1), EntryPos(n), 0, 8);
    UnLeZeros(8);
  }

  lemma ZeroChain(sha: Sha, genesis: Digest, seg: seq<Byte>, idx: seq<Byte>, n: nat)
    requires 0 < n && EntryPos(n) <= |idx| && LinkValue(sha, genesis, seg, idx, n) != Some(Zeros(32))
    requires idx[EntryPos(n - 1) + 8..EntryPos(n - 1) + 40] == Zeros(32)
    ensures Linked(sha, genesis, seg, idx, n) == None
  {
    hide RecordEnd;
    SliceOfSlice(idx, EntryPos(n - 1), EntryPos(n), 8, 40);
  }

  lemma EntryOffset(recs: seq<Rec>, i: nat, entry: seq<Byte>, whole: seq<Byte>, chain: Digest)
    requires Fits(recs) && i < |recs| && |entry| == IDX_ENTRY_LEN
    requires whole == Entry(OffsetOf(recs, i), chain) && entry[0..8] == whole[0..8]
    ensures UnLe(entry[0..8]) == OffsetOf(recs, i)
  {
    hide SegOf;
    OffsetsGrow(recs, i, |recs|);
    assert recs[..|recs|] == recs;
    PowersOf256();
    LeThenUnLe(OffsetOf(recs, i), 8);
    assert whole[0..8] == Le(OffsetOf(recs, i), 8);
  }

  lemma {:induction false} BackwardAgreed(sha: Sha, storeId: StoreId, recs: seq<Rec>, flushed: nat, seg: seq<Byte>, k: nat,
                      idx: seq<Byte>, l: nat, n: nat) returns (now: seq<Rec>)
    requires Fits(recs) && flushed <= |recs| && |seg| < 0x1_0000_0000_0000_0000
    requires SegImage(recs, flushed, seg, k) && IdxImage(sha, storeId, recs, flushed, idx, l)
    requires TearShows(sha, GenesisOf(sha, storeId), seg, idx, l)
    requires flushed <= n && EntryPos(n) <= |idx|
    ensures flushed <= |now|
    ensures Agreed(sha, storeId, recs, k, seg,
                   Recovered(Backward(sha, GenesisOf(sha, storeId), seg, idx, n), idx), now)
    decreases n
  {
    hide TearShows, SegOf, RecordEnd, IdxOf, ChainOf, ChainStep, GenesisOf, Linked, Framed;
    ImageParts(recs, flushed, seg, k);
    IdxParts(sha, storeId, recs, flushed, idx, l);
    OffsetsGrow(recs, 0, flushed);
    if n == 0 {
      now := [];
      assert recs[..0] == [];
      PrefixInImage(recs, seg, k, 0);
      PrefixInIdx(sha, storeId, recs, idx, l, 0);
      EmptyStore(sha, GenesisOf(sha, storeId));
    } else {
      var linked := Linked(sha, GenesisOf(sha, storeId), seg, idx, n);
      if linked.Some? {
        EntryOfImage(sha, storeId, recs, flushed, seg, idx, l, n);
        var before := recs[..n - 1];
        LinkedWithin(sha, storeId, recs, flushed, seg, k, idx, n);
        PrefixInImage(recs, seg, k, n - 1);
        PrefixInIdx(sha, storeId, recs, idx, l, n - 1);
        FitsPrefix(recs, n - 1);
        var r := LinkedExtends(sha, storeId, seg, idx, before);
        FoundIsKept(sha, recs, flushed, seg, k, n - 1, false, r);
        now := before + [r];
      } else {
        if n == flushed {
          FlushedIsLinked(sha, storeId, recs, flushed, seg, k, idx, l);
          assert false;
        }
        now := BackwardAgreed(sha, storeId, recs, flushed, seg, k, idx, l, n - 1);
      }
    }
  }

  lemma {:induction false} EmptyStore(sha: Sha, genesis: Digest)
    ensures SegOf([]) == FILE_MAGIC && ChainOf(sha, genesis, []) == genesis && Fits([])
  {
  }

  /** A linked entry names a record whose first byte reached the disk. */
  lemma LinkedWithin(sha: Sha, storeId: StoreId, recs: seq<Rec>, flushed: nat, seg: seq<Byte>, k: nat, idx: seq<Byte>, n: nat)
    requires Fits(recs) && flushed <= |recs| && SegImage(recs, flushed, seg, k)
    requires 0 < n <= |recs| && EntryPos(n) <= |idx|
    requires UnLe(ReadEntry(idx, n - 1)[0..8]) == OffsetOf(recs, n - 1)
    requires Linked(sha, GenesisOf(sha, storeId), seg, idx, n).Some?
    ensures OffsetOf(recs, n - 1) <= k
  {
    hide SegOf, ChainStep, GenesisOf;
    var off := OffsetOf(recs, n - 1);
    if k < off <= |seg| {
      ImageParts(recs, flushed, seg, k);
      ZerosAfter(seg, k, off);
      FindsNothing(sha, seg, off, n - 1, false);
    }
  }

  /** The entry of the last flushed record is always linked, so the loop never drops it. */
  lemma FlushedIsLinked(sha: Sha, storeId: StoreId, recs: seq<Rec>, flushed: nat, seg: seq<Byte>, k: nat, idx: seq<Byte>, l: nat)
    requires Fits(recs) && 0 < flushed <= |recs|
    requires SegImage(recs, flushed, seg, k) && IdxImage(sha, storeId, recs, flushed, idx, l)
    ensures Linked(sha, GenesisOf(sha, storeId), seg, idx, flushed).Some?
  {
    hide SegOf, RecordEnd, IdxOf, ChainStep, GenesisOf;
    var n := flushed;
    var g := GenesisOf(sha, storeId);
    ImageParts(recs, flushed, seg, k);
    IdxParts(sha, storeId, recs, flushed, idx, l);
    PrefixInImage(recs, seg, k, n);
    FindsWhole(sha, recs, seg, n - 1, false);
    PrefixInIdx(sha, storeId, recs, idx, l, n);
    PrefixInIdx(sha, storeId, recs, idx, l, n - 1);
    StoredChain(sha, storeId, idx, recs[..n - 1]);
    StoredChain(sha, storeId, idx, recs[..n]);
    assert recs[..n][..n - 1] == recs[..n - 1];
    FlushedEntry(sha, storeId, recs, flushed, idx, l);
  }

  lemma FlushedEntry(sha: Sha, storeId: StoreId, recs: seq<Rec>, flushed: nat, idx: seq<Byte>, l: nat)
    requires Fits(recs) && 0 < flushed <= |recs| && IdxImage(sha, storeId, recs, flushed, idx, l)
    ensures EntryPos(flushed) <= |idx| && UnLe(ReadEntry(idx, flushed - 1)[0..8]) == OffsetOf(recs, flushed - 1)
  {
    hide IdxOf, ChainStep, GenesisOf;
    var n := flushed;
    var g := GenesisOf(sha, storeId);
    IdxParts(sha, storeId, recs, flushed, idx, l);
    EntryAt(sha, storeId, recs, n - 1);
    var whole := IdxOf(sha, storeId, recs);
    var p := EntryPos(n - 1);
    SlicesAgree(whole[..l], idx, whole, p, p + IDX_ENTRY_LEN);
    EntryOffset(recs, n - 1, idx[p..p + IDX_ENTRY_LEN], whole[p..p + IDX_ENTRY_LEN], ChainOf(sha, g, recs[..n]));
  }

  // ----- The whole recovery

  lemma {:induction false} ForwardIdxLength(sha: Sha, seg: seq<Byte>, s: Recovered, indexed: nat, len: nat)
    requires s.scan.segLen <= |seg|
    requires len <= |s.idx| && (|s.idx| == len || |s.idx| <= EntryPos(s.scan.n))
    ensures var r := Forward(sha, seg, s, indexed);
      len <= |r.idx| && (|r.idx| == len || |r.idx| <= EntryPos(r.scan.n))
    decreases |seg| - s.scan.segLen
  {
    hide RecordEnd, ChainStep;
    match RecordEnd(sha, seg, s.scan.segLen, s.scan.n, s.scan.n >= indexed)
    case None =>
    case Some(found) => ForwardIdxLength(sha, seg, Reindexed(sha, s, found), indexed, len);
  }

  lemma ZeroTailIs(p: seq<Byte>, data: seq<Byte>, to: nat)
    requires p <= data && (|data| <= to || |data| == |p|)
    ensures var z := ZeroTail(data, |p|, to);
      && |z| == (if |data| < to then to else |data|)
      && z == p + Zeros(|z| - |p|)
  {
    var z := ZeroTail(data, |p|, to);
    if to <= |p| {
      assert z == data == p;
    } else {
      assert z == data[..|p|] + Zeros(to - |p|);
    }
  }

  /** Recovery of any crash image rebuilds a store: both files are those of one history,
      followed by zeros, neither file is shorter than it was, no flushed record is lost or
      changed, and the history is the whole records of the prefix, or, when zeros trail
      the segment, those and one record more. */
  lemma RecoverRebuilds(sha: Sha, storeId: StoreId, recs: seq<Rec>, flushed: nat,
                        seg: seq<Byte>, k: nat, idx: seq<Byte>, l: nat) returns (now: seq<Rec>)
    requires Fits(recs) && flushed <= |recs| && |seg| < 0x1_0000_0000_0000_0000
    requires SegImage(recs, flushed, seg, k) && IdxImage(sha, storeId, recs, flushed, idx, l)
    requires HonestFrom(sha, recs, flushed)
    requires TearShows(sha, GenesisOf(sha, storeId), seg, idx, l)
    ensures SEG_MAGIC_LEN <= |seg| && Fits(now)
    ensures var o := Recover(sha, GenesisOf(sha, storeId), seg, idx);
      Rebuilt(sha, storeId, o, now) && |o.seg| == |seg| && |o.idx| >= |idx|
    ensures flushed <= Whole(recs, k) && flushed <= |now| && now[..flushed] == recs[..flushed]
    ensures now == recs[..Whole(recs, k)] || (Altered(recs, k, now) && k < |seg|)
  {
    hide TearShows, SegOf, RecordEnd, IdxOf, ChainOf, ChainStep, GenesisOf, Linked, Framed, Backward, Forward, Whole;
    var g := GenesisOf(sha, storeId);
    var n := Indexed(idx);
    OffsetsGrow(recs, 0, flushed);
    FlushedIsWhole(recs, flushed, k);
    var before := BackwardAgreed(sha, storeId, recs, flushed, seg, k, idx, l, n);
    var b := Recovered(Backward(sha, g, seg, idx, n), idx);
    now := ForwardAgreed(sha, storeId, recs, flushed, seg, k, b, before, n);
    ForwardIdxLength(sha, seg, b, n, |idx|);
    TailsAreZero(sha, storeId, seg, idx, now);
    PrefixOfPrefix(recs, flushed, Whole(recs, k), now);
  }

  lemma PrefixOfPrefix(recs: seq<Rec>, flushed: nat, m: nat, now: seq<Rec>)
    requires flushed <= m <= |recs| && m <= |now| && now[..m] == recs[..m]
    ensures now[..flushed] == recs[..flushed]
  {
    assert now[..m][..flushed] == recs[..m][..flushed];
  }

  lemma {:induction false} TailsAreZero(sha: Sha, storeId: StoreId, seg: seq<Byte>, idx: seq<Byte>, now: seq<Rec>)
    requires |seg| >= SEG_MAGIC_LEN
    requires var g := GenesisOf(sha, storeId);
      var n := Indexed(idx);
      && Backward(sha, g, seg, idx, n).segLen <= |seg|
      && var s := Forward(sha, seg, Recovered(Backward(sha, g, seg, idx, n), idx), n);
      && s.scan == Scan(|now|, |SegOf(now)|, ChainOf(sha, g, now))
      && SegOf(now) <= seg && IdxOf(sha, storeId, now) <= s.idx
      && |idx| <= |s.idx| && (|s.idx| == |idx| || |s.idx| <= EntryPos(|now|))
    ensures var o := Recover(sha, GenesisOf(sha, storeId), seg, idx);
      Rebuilt(sha, storeId, o, now) && |o.seg| == |seg| && |o.idx| >= |idx|
  {
    hide SegOf, IdxOf, ChainOf, GenesisOf, Backward, Forward, ZeroTail;
    var n := Indexed(idx);
    var s := Forward(sha, seg, Recovered(Backward(sha, GenesisOf(sha, storeId), seg, idx, n), idx), n);
    ZeroTailIs(SegOf(now), seg, |seg|);
    ZeroTailIs(IdxOf(sha, storeId, now), s.idx, |idx|);
  }

  lemma FlushedIsWhole(recs: seq<Rec>, flushed: nat, k: nat)
    requires flushed <= |recs| && OffsetOf(recs, flushed) <= k
    ensures flushed <= Whole(recs, k)
  {
    hide SegOf;
  }

  /** Exact recovery. When the files are plain prefixes of the two streams, cut anywhere and
      in either drain order, recovery yields the whole records of the segment prefix, and
      needs nothing of the hash. */
  lemma {:induction false} RecoverExact(sha: Sha, storeId: StoreId, recs: seq<Rec>, flushed: nat, k: nat, l: nat)
    requires Fits(recs) && flushed <= |recs| && HonestFrom(sha, recs, flushed)
    requires OffsetOf(recs, flushed) <= k <= |SegOf(recs)|
    requires EntryPos(flushed) <= l <= EntryPos(|recs|)
    ensures SEG_MAGIC_LEN <= k
    ensures var now := recs[..Whole(recs, k)];
      Rebuilt(sha, storeId,
              Recover(sha, GenesisOf(sha, storeId), SegOf(recs)[..k], IdxOf(sha, storeId, recs)[..l]), now)
  {
    hide TearShows, SegOf, IdxOf, Recover, Whole, GenesisOf;
    var seg, idx := SegOf(recs)[..k], IdxOf(sha, storeId, recs)[..l];
    assert SegImage(recs, flushed, seg, k) by { assert Zeros(0) == []; }
    assert IdxImage(sha, storeId, recs, flushed, idx, l) by { assert Zeros(0) == []; }
    CleanTear(sha, GenesisOf(sha, storeId), seg, idx, l);
    var now := RecoverRebuilds(sha, storeId, recs, flushed, seg, k, idx, l);
  }

  /** Running recovery over a recovered store changes nothing. */
  lemma RecoverIdempotent(sha: Sha, storeId: StoreId, now: seq<Rec>, o: Outcome)
    requires Fits(now) && |o.seg| < 0x1_0000_0000_0000_0000
    requires Rebuilt(sha, storeId, o, now)
    ensures SEG_MAGIC_LEN <= |o.seg|
    ensures Recover(sha, GenesisOf(sha, storeId), o.seg, o.idx) == o
  {
    hide TearShows, SegOf, IdxOf, Recover, GenesisOf, ChainOf, Whole;
    assert now[..|now|] == now;
    assert SegOf(now)[..|SegOf(now)|] == SegOf(now);
    var i := IdxOf(sha, storeId, now);
    assert i[..EntryPos(|now|)] == i;
    CleanTear(sha, GenesisOf(sha, storeId), o.seg, o.idx, EntryPos(|now|));
    var again := RecoverRebuilds(sha, storeId, now, |now|, o.seg, |SegOf(now)|, o.idx, EntryPos(|now|));
    WholeIs(now, |SegOf(now)|, |now|);
    RecoverIdxLength(sha, storeId, now, o);
  }

  lemma RecoverIdxLength(sha: Sha, storeId: StoreId, now: seq<Rec>, o: Outcome)
    requires SEG_MAGIC_LEN <= |o.seg| && |o.idx| >= EntryPos(|now|)
    requires Recover(sha, GenesisOf(sha, storeId), o.seg, o.idx).scan.n == |now|
    ensures |Recover(sha, GenesisOf(sha, storeId), o.seg, o.idx).idx| == |o.idx|
  {
    hide SegOf, IdxOf, GenesisOf, ChainOf, Backward, Forward, RecordEnd;
    var g := GenesisOf(sha, storeId);
    BackwardInBounds(sha, g, o.seg, o.idx, Indexed(o.idx));
    ForwardIdxLength(sha, o.seg, Recovered(Backward(sha, g, o.seg, o.idx, Indexed(o.idx)), o.idx), Indexed(o.idx), |o.idx|);
  }

  // ----- Where the two loops stop

  /** The second loop stops where no record is found. */
  lemma {:induction false} ForwardEnds(sha: Sha, seg: seq<Byte>, s: Recovered, indexed: nat)
    requires s.scan.segLen <= |seg|
    ensures var r := Forward(sha, seg, s, indexed);
      RecordEnd(sha, seg, r.scan.segLen, r.scan.n, r.scan.n >= indexed) == None
    decreases |seg| - s.scan.segLen
  {
    hide RecordEnd, Overlay, ChainStep;
    match RecordEnd(sha, seg, s.scan.segLen, s.scan.n, s.scan.n >= indexed)
    case None =>
    case Some(found) => ForwardEnds(sha, seg, Reindexed(sha, s, found), indexed);
  }

  /** Nothing found at the first record that is not whole: the first loop stops below it. */
  lemma {:induction false} BackwardBelow(sha: Sha, storeId: StoreId, recs: seq<Rec>, flushed: nat, seg: seq<Byte>, k: nat,
                     idx: seq<Byte>, l: nat, n: nat)
    requires Fits(recs) && flushed <= |recs| && |seg| < 0x1_0000_0000_0000_0000
    requires SegImage(recs, flushed, seg, k) && IdxImage(sha, storeId, recs, flushed, idx, l)
    requires TearShows(sha, GenesisOf(sha, storeId), seg, idx, l)
    requires n <= Indexed(idx) && (n > 0 ==> EntryPos(n) <= |idx|)
    requires NothingAtCut(sha, recs, seg, k, Indexed(idx))
    ensures Backward(sha, GenesisOf(sha, storeId), seg, idx, n).n <= Whole(recs, k)
    decreases n
  {
    hide TearShows, SegOf, RecordEnd, IdxOf, ChainStep, GenesisOf, Linked, Whole, SegImage, IdxImage;
    var m := Whole(recs, k);
    if n > m {
      if Linked(sha, GenesisOf(sha, storeId), seg, idx, n).Some? {
        EntryOfImage(sha, storeId, recs, flushed, seg, idx, l, n);
        LinkedWithin(sha, storeId, recs, flushed, seg, k, idx, n);
        LinkedFinds(sha, GenesisOf(sha, storeId), seg, idx, n);
        BeyondWhole(recs, k, n - 1);
        assert false;
      }
      BackwardBelow(sha, storeId, recs, flushed, seg, k, idx, l, n - 1);
    }
  }

  /** At the first record that is not whole, if there is one, recovery finds none: the guard
      of its second loop, evaluated there. */
  predicate NothingAtCut(sha: Sha, recs: seq<Rec>, seg: seq<Byte>, k: nat, indexed: nat) {
    var m := Whole(recs, k);
    m == |recs| || RecordEnd(sha, seg, OffsetOf(recs, m), m, m >= indexed) == None
  }

  lemma LinkedFinds(sha: Sha, genesis: Digest, seg: seq<Byte>, idx: seq<Byte>, n: nat)
    requires 0 < n && EntryPos(n) <= |idx| && Linked(sha, genesis, seg, idx, n).Some?
    ensures RecordEnd(sha, seg, UnLe(ReadEntry(idx, n - 1)[0..8]), n - 1, false).Some?
  {
    hide RecordEnd, ChainStep;
  }

  lemma BeyondWhole(recs: seq<Rec>, k: nat, i: nat)
    requires i <= |recs| && OffsetOf(recs, i) <= k
    ensures i <= Whole(recs, k)
  {
    hide SegOf;
  }

  /** And the second loop then stops exactly there. */
  lemma {:induction false} ForwardToCut(sha: Sha, storeId: StoreId, recs: seq<Rec>, flushed: nat, seg: seq<Byte>, k: nat,
                     s: Recovered, i: nat, indexed: nat)
    requires Fits(recs) && flushed <= i <= Whole(recs, k) && |seg| < 0x1_0000_0000_0000_0000
    requires SegImage(recs, flushed, seg, k) && HonestFrom(sha, recs, flushed)
    requires Agreed(sha, storeId, recs, k, seg, s, recs[..i])
    requires NothingAtCut(sha, recs, seg, k, indexed)
    ensures Forward(sha, seg, s, indexed).scan.n == Whole(recs, k)
    decreases Whole(recs, k) - i
  {
    hide SegOf, RecordEnd, Framed, IdxOf, ChainOf, ChainStep, Overlay, Kept;
    ImageParts(recs, flushed, seg, k);
    var m := Whole(recs, k);
    if i < m {
      OffsetsGrow(recs, i, i + 1);
      OffsetsGrow(recs, i + 1, m);
      PrefixInImage(recs, seg, k, i + 1);
      FindsWhole(sha, recs, seg, i, i >= indexed);
      var r := ForwardRound(sha, storeId, recs, flushed, seg, k, s, i, indexed);
      assert recs[..i] + [r] == recs[..i + 1];
      ForwardToCut(sha, storeId, recs, flushed, seg, k, Reindexed(sha, s, Found(OffsetOf(recs, i + 1), recs[i].digest)), i + 1, indexed);
    } else if m == |recs| {
      assert recs[..m] == recs;
      assert k == |SegOf(recs)|;
      FindsNothing(sha, seg, k, m, m >= indexed);
    }
  }

  /** Recovery stops at the first record that is not whole exactly if it finds none there. */
  lemma {:induction false} RecoverStopsAt(sha: Sha, storeId: StoreId, recs: seq<Rec>, flushed: nat,
                       seg: seq<Byte>, k: nat, idx: seq<Byte>, l: nat, now: seq<Rec>)
    requires Fits(recs) && flushed <= |recs| && SEG_MAGIC_LEN <= |seg| < 0x1_0000_0000_0000_0000
    requires SegImage(recs, flushed, seg, k) && IdxImage(sha, storeId, recs, flushed, idx, l)
    requires HonestFrom(sha, recs, flushed)
    requires TearShows(sha, GenesisOf(sha, storeId), seg, idx, l)
    requires now == recs[..Whole(recs, k)] || Altered(recs, k, now)
    requires Rebuilt(sha, storeId, Recover(sha, GenesisOf(sha, storeId), seg, idx), now)
    ensures now == recs[..Whole(recs, k)] <==> NothingAtCut(sha, recs, seg, k, Indexed(idx))
  {
    hide TearShows, SegOf, RecordEnd, IdxOf, ChainOf, ChainStep, GenesisOf, Linked, Backward, Forward, Whole, SegImage, IdxImage, Kept, ZeroTail;
    var g, n, m := GenesisOf(sha, storeId), Indexed(idx), Whole(recs, k);
    BackwardInBounds(sha, g, seg, idx, n);
    var b := Recovered(Backward(sha, g, seg, idx, n), idx);
    ForwardEnds(sha, seg, b, n);
    if NothingAtCut(sha, recs, seg, k, n) {
      BackwardBelow(sha, storeId, recs, flushed, seg, k, idx, l, n);
      FlushedEntries(sha, storeId, recs, flushed, idx, l);
      var before := BackwardAgreed(sha, storeId, recs, flushed, seg, k, idx, l, n);
      KeptBelow(recs, k, seg, before);
      ForwardToCut(sha, storeId, recs, flushed, seg, k, b, |before|, n);
    }
  }

  lemma FlushedEntries(sha: Sha, storeId: StoreId, recs: seq<Rec>, flushed: nat, idx: seq<Byte>, l: nat)
    requires flushed <= |recs| && IdxImage(sha, storeId, recs, flushed, idx, l)
    ensures flushed <= Indexed(idx) && EntryPos(Indexed(idx)) <= |idx|
  {
    hide IdxOf;
  }

  lemma {:induction false} KeptBelow(recs: seq<Rec>, k: nat, seg: seq<Byte>, now: seq<Rec>)
    requires SegOf(now) <= seg && Kept(recs, k, seg, now) && |now| <= Whole(recs, k)
    ensures now == recs[..|now|]
  {
    hide SegOf, Whole;
  }
}
