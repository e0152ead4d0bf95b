/** A kill during `recover` itself: it rewrites index entries, then overwrites the tail of the
    index, then that of the segment. Wherever it stops, the next recovery ends where this one
    would have. */
module RestartedRecovery {
  import opened Bytes
  import opened Disk
  import opened StoreFormat
  import opened Recovery
  import opened CrashImages

  // ----- What a kill can leave

  /** The index once the second loop has written its first `w` bytes. */
  function Rewritten(sha: Sha, seg: seq<Byte>, s: Recovered, indexed: nat, w: nat): seq<Byte>
    requires s.scan.segLen <= |seg|
    decreases |seg| - s.scan.segLen
  {
    match RecordEnd(sha, seg, s.scan.segLen, s.scan.n, s.scan.n >= indexed)
    case None => s.idx
    case Some(found) =>
      var next := Reindexed(sha, s, found);
      if w >= IDX_ENTRY_LEN then Rewritten(sha, seg, next, indexed, w - IDX_ENTRY_LEN)
      else Overlay(s.idx, EntryPos(s.scan.n), Entry(s.scan.segLen, next.scan.head)[..w])
  }

  /** How far recovery had come: `w` bytes of entries written, or all of them and `z` zeros
      over the tail of the index, or all of those and `z` over the tail of the segment. */
  datatype Stage = Rewriting(w: nat) | ClearingIndex(z: nat) | ClearingSegment(z: nat)

  function Loops(sha: Sha, genesis: Digest, seg: seq<Byte>, idx: seq<Byte>): (s: Recovered)
    requires |seg| >= SEG_MAGIC_LEN
    ensures s.scan.segLen <= |seg|
  {
    BackwardInBounds(sha, genesis, seg, idx, Indexed(idx));
    Forward(sha, seg, Recovered(Backward(sha, genesis, seg, idx, Indexed(idx)), idx), Indexed(idx))
  }

  datatype Files = Files(seg: seq<Byte>, idx: seq<Byte>)

  function Interrupted(sha: Sha, genesis: Digest, seg: seq<Byte>, idx: seq<Byte>, stage: Stage): Files
    requires |seg| >= SEG_MAGIC_LEN
  {
    var n := Indexed(idx);
    var s := Loops(sha, genesis, seg, idx);
    BackwardInBounds(sha, genesis, seg, idx, n);
    match stage
    case Rewriting(w) => Files(seg, Rewritten(sha, seg, Recovered(Backward(sha, genesis, seg, idx, n), idx), n, w))
    case ClearingIndex(z) => Files(seg, ZeroTail(s.idx, EntryPos(s.scan.n), AtMost(EntryPos(s.scan.n) + z, |idx|)))
    case ClearingSegment(z) =>
      Files(ZeroTail(seg, s.scan.segLen, AtMost(s.scan.segLen + z, |seg|)), Recover(sha, genesis, seg, idx).idx)
  }

  function AtMost(n: nat, most: nat): nat {
    if n <= most then n else most
  }

  // ----- Where the next recovery ends

  /** The entry of the last record both files hold whole is linked. */
  lemma {:induction false} LastIsLinked(sha: Sha, storeId: StoreId, now: seq<Rec>, seg: seq<Byte>, idx: seq<Byte>)
    requires Fits(now) && now != [] && SegOf(now) <= seg && IdxOf(sha, storeId, now) <= idx
    ensures EntryPos(|now|) <= |idx|
    ensures Linked(sha, GenesisOf(sha, storeId), seg, idx, |now|)
         == Some(Scan(|now|, |SegOf(now)|, ChainOf(sha, GenesisOf(sha, storeId), now)))
  {
    hide SegOf, RecordEnd, IdxOf, ChainOf, ChainStep, GenesisOf, Entry;
    var n, g := |now|, GenesisOf(sha, storeId);
    var whole, p := IdxOf(sha, storeId, now), EntryPos(n - 1);
    assert now[..n] == now && now == now[..n - 1] + [now[n - 1]];
    FindsWhole(sha, now, seg, n - 1, false);
    IdxPrefix(sha, storeId, now, n - 1);
    StoredChain(sha, storeId, idx, now[..n - 1]);
    StoredChain(sha, storeId, idx, now);
    IdxSnoc(sha, storeId, now[..n - 1], now[n - 1]);
    EntryAt(sha, storeId, now, n - 1);
    SlicesAgree(whole, idx, whole, p, p + IDX_ENTRY_LEN);
    EntryOffset(now, n - 1, idx[p..p + IDX_ENTRY_LEN], whole[p..p + IDX_ENTRY_LEN], ChainOf(sha, g, now));
  }

  /** With nothing linked past it, the first loop stops there. */
  lemma {:induction false} BackwardStops(sha: Sha, storeId: StoreId, now: seq<Rec>, seg: seq<Byte>, idx: seq<Byte>, n: nat)
    requires Fits(now) && SegOf(now) <= seg && IdxOf(sha, storeId, now) <= idx
    requires |now| <= n && EntryPos(n) <= |idx|
    requires forall j :: |now| < j <= n ==> Linked(sha, GenesisOf(sha, storeId), seg, idx, j) == None
    ensures Backward(sha, GenesisOf(sha, storeId), seg, idx, n) == Scan(|now|, |SegOf(now)|, ChainOf(sha, GenesisOf(sha, storeId), now))
    decreases n
  {
    hide SegOf, IdxOf, ChainOf, GenesisOf, Linked;
    if n == |now| {
      if now == [] {
        EmptyStore(sha, GenesisOf(sha, storeId));
      } else {
        LastIsLinked(sha, storeId, now, seg, idx);
      }
    } else {
      BackwardStops(sha, storeId, now, seg, idx, n - 1);
    }
  }

  /** What recovery makes of files that begin with those of a history, with no entry linked
      and no record found behind it. */
  function Cleared(sha: Sha, storeId: StoreId, now: seq<Rec>, segLen: nat, idxLen: nat): Outcome
    requires |SegOf(now)| <= segLen && EntryPos(|now|) <= idxLen
  {
    Outcome(Scan(|now|, |SegOf(now)|, ChainOf(sha, GenesisOf(sha, storeId), now)),
            SegOf(now) + Zeros(segLen - |SegOf(now)|), IdxOf(sha, storeId, now) + Zeros(idxLen - EntryPos(|now|)))
  }

  lemma {:induction false} EndsThere(sha: Sha, storeId: StoreId, now: seq<Rec>, seg: seq<Byte>, idx: seq<Byte>)
    requires Fits(now) && SegOf(now) <= seg && IdxOf(sha, storeId, now) <= idx && |seg| >= SEG_MAGIC_LEN
    requires EntryPos(|now|) <= |idx|
    requires forall j :: |now| < j <= Indexed(idx) ==> Linked(sha, GenesisOf(sha, storeId), seg, idx, j) == None
    requires RecordEnd(sha, seg, |SegOf(now)|, |now|, |now| >= Indexed(idx)) == None
    ensures Recover(sha, GenesisOf(sha, storeId), seg, idx) == Cleared(sha, storeId, now, |seg|, |idx|)
  {
    hide SegOf, IdxOf, ChainOf, GenesisOf, Linked, Backward, RecordEnd, ZeroTail;
    BackwardStops(sha, storeId, now, seg, idx, Indexed(idx));
    ZeroTailIs(SegOf(now), seg, |seg|);
    ZeroTailIs(IdxOf(sha, storeId, now), idx, |idx|);
  }

  /** A rebuilt store is cleared to the lengths its files have. */
  lemma RebuiltIsCleared(sha: Sha, storeId: StoreId, o: Outcome, now: seq<Rec>)
    requires Rebuilt(sha, storeId, o, now)
    ensures o == Cleared(sha, storeId, now, |o.seg|, |o.idx|)
  {
    hide SegOf, IdxOf, ChainOf, GenesisOf;
  }

  /** The lengths recovery leaves, and that they change no test of the second loop. */
  lemma {:induction false} LengthsAfter(sha: Sha, genesis: Digest, seg: seq<Byte>, idx: seq<Byte>)
    requires |seg| >= SEG_MAGIC_LEN && |idx| >= IDX_HEADER_LEN
    ensures var o, s := Recover(sha, genesis, seg, idx), Loops(sha, genesis, seg, idx);
      && o.scan == s.scan && |o.seg| == |seg| && |o.idx| == |s.idx|
      && |s.idx| == (if |idx| >= EntryPos(s.scan.n) then |idx| else EntryPos(s.scan.n))
      && (s.scan.n >= Indexed(s.idx) <==> s.scan.n >= Indexed(idx))
      && RecordEnd(sha, seg, s.scan.segLen, s.scan.n, s.scan.n >= Indexed(idx)) == None
  {
    hide RecordEnd, Backward, Forward;
    var n := Indexed(idx);
    BackwardInBounds(sha, genesis, seg, idx, n);
    var b := Recovered(Backward(sha, genesis, seg, idx, n), idx);
    ForwardEnds(sha, seg, b, n);
    ForwardReaches(sha, seg, b, n);
    ForwardIdxLength(sha, seg, b, n, |idx|);
  }

  /** Each round leaves the index at least as long as its last entry. */
  lemma {:induction false} ForwardReaches(sha: Sha, seg: seq<Byte>, s: Recovered, indexed: nat)
    requires s.scan.segLen <= |seg| && EntryPos(s.scan.n) <= |s.idx|
    ensures var r := Forward(sha, seg, s, indexed);
      EntryPos(r.scan.n) <= |r.idx|
    decreases |seg| - s.scan.segLen
  {
    hide RecordEnd, ChainStep;
    match RecordEnd(sha, seg, s.scan.segLen, s.scan.n, s.scan.n >= indexed)
    case None =>
    case Some(found) => ForwardReaches(sha, seg, Reindexed(sha, s, found), indexed);
  }

  // ----- Stopped over the segment

  lemma {:induction false} SegmentCleared(sha: Sha, storeId: StoreId, seg: seq<Byte>, idx: seq<Byte>, now: seq<Rec>, z: nat)
    requires |seg| >= SEG_MAGIC_LEN && |idx| >= IDX_HEADER_LEN && Fits(now) && SegOf(now) <= seg
    requires var o := Recover(sha, GenesisOf(sha, storeId), seg, idx); Rebuilt(sha, storeId, o, now) && |o.seg| == |seg|
    ensures var g := GenesisOf(sha, storeId);
      var f := Interrupted(sha, g, seg, idx, ClearingSegment(z));
      |f.seg| >= SEG_MAGIC_LEN && Recover(sha, g, f.seg, f.idx) == Recover(sha, g, seg, idx)
  {
    hide SegOf, IdxOf, ChainOf, GenesisOf, Linked, RecordEnd, Recover, Loops, Cleared;
    var g := GenesisOf(sha, storeId);
    var o, f := Recover(sha, g, seg, idx), Interrupted(sha, g, seg, idx, ClearingSegment(z));
    var end, n := |SegOf(now)|, |now|;
    LengthsAfter(sha, g, seg, idx);
    ZeroedFrom(seg, end, AtMost(end + z, |seg|));
    forall j | n < j <= Indexed(o.idx) ensures Linked(sha, g, f.seg, o.idx, j) == None {
      ZeroBehind(IdxOf(sha, storeId, now), o.idx, EntryPos(j - 1));
      ZeroOffset(sha, g, f.seg, o.idx, j);
    }
    if AtMost(end + z, |seg|) > end {
      ZeroedHeader(sha, f.seg, end, n, n >= Indexed(o.idx));
    }
    EndsThere(sha, storeId, now, f.seg, f.idx);
    RebuiltIsCleared(sha, storeId, o, now);
  }

  lemma ZeroedFrom(data: seq<Byte>, from: nat, to: nat)
    requires from <= to <= |data|
    ensures var r := ZeroTail(data, from, to);
      && |r| == |data| && r[..from] == data[..from] && r[from..to] == Zeros(to - from) && r[to..] == data[to..]
  {
    if from == to {
      assert data[from..to] == Zeros(0);
    }
  }

  lemma ZeroBehind(p: seq<Byte>, s: seq<Byte>, at: nat)
    requires |p| <= at && at + 8 <= |s| && s == p + Zeros(|s| - |p|)
    ensures s[at..at + 8] == Zeros(8)
  {
  }

  /** A header whose first byte is zero carries no magic. */
  lemma ZeroedHeader(sha: Sha, seg: seq<Byte>, off: nat, id: nat, checkDigest: bool)
    requires off < |seg| && seg[off] == 0
    ensures RecordEnd(sha, seg, off, id, checkDigest) == None
  {
    if off + HEADER_LEN <= |seg| {
      var magic := seg[off..off + HEADER_LEN][0..4];
      assert magic[0] == 0;
      assert UnLe(magic) == 256 * UnLe(magic[1..]);
    }
  }

  // ----- Stopped over the index

  /** The second loop leaves what stands behind its last entry as it was. */
  lemma {:induction false} ForwardTail(sha: Sha, seg: seq<Byte>, s: Recovered, indexed: nat)
    requires s.scan.segLen <= |seg| && EntryPos(s.scan.n) <= |s.idx|
    ensures var r := Forward(sha, seg, s, indexed);
      && s.scan.n <= r.scan.n && |s.idx| <= |r.idx|
      && forall q :: EntryPos(r.scan.n) <= q < |s.idx| ==> r.idx[q] == s.idx[q]
    decreases |seg| - s.scan.segLen
  {
    hide RecordEnd, ChainStep;
    match RecordEnd(sha, seg, s.scan.segLen, s.scan.n, s.scan.n >= indexed)
    case None =>
    case Some(found) =>
      var next := Reindexed(sha, s, found);
      ForwardTail(sha, seg, next, indexed);
      OverlayTail(s.idx, EntryPos(s.scan.n), Entry(s.scan.segLen, next.scan.head));
  }

  lemma OverlayTail(data: seq<Byte>, pos: nat, b: seq<Byte>)
    requires pos <= |data|
    ensures forall q :: pos + |b| <= q < |data| ==> Overlay(data, pos, b)[q] == data[q]
  {
  }

  /** The one entry whose offset is partly overwritten, if there is one, does not link. */
  ghost predicate HalfShows(sha: Sha, genesis: Digest, f: Files, t: nat) {
    forall n: nat :: 0 < n && EntryPos(n) <= |f.idx| && TornOffset(n, t) ==> Linked(sha, genesis, f.seg, f.idx, n) == None
  }

  /** An entry behind the whole records that is as the kill left it does not link either,
      whatever stands before it. */
  lemma {:induction false} LeftUnlinked(sha: Sha, storeId: StoreId, recs: seq<Rec>, flushed: nat, seg: seq<Byte>, k: nat,
                                        idx: seq<Byte>, l: nat, now: seq<Byte>, n: nat)
    requires Fits(recs) && flushed <= |recs| && |seg| < 0x1_0000_0000_0000_0000
    requires SegImage(recs, flushed, seg, k) && IdxImage(sha, storeId, recs, flushed, idx, l)
    requires TearShows(sha, GenesisOf(sha, storeId), seg, now, l)
    requires NothingAtCut(sha, recs, seg, k, Indexed(idx))
    requires Whole(recs, k) < n && EntryPos(n) <= |idx| && |now| == |idx|
    requires now[EntryPos(n - 1)..EntryPos(n)] == idx[EntryPos(n - 1)..EntryPos(n)]
    ensures Linked(sha, GenesisOf(sha, storeId), seg, now, n) == None
  {
    hide SegOf, IdxOf, ChainOf, GenesisOf, Linked, RecordEnd, Whole, SegImage, IdxImage, NothingAtCut, TearShows;
    var p := EntryPos(n - 1);
    if l < p + 8 {
      IdxTail(sha, storeId, recs, flushed, idx, l);
      SameEntry(now, idx, p);
      TornUnlinked(sha, GenesisOf(sha, storeId), seg, idx, now, l, n);
    } else {
      TrueOffset(sha, storeId, recs, flushed, idx, l, n);
      CutFindsNothing(sha, recs, flushed, seg, k, Indexed(idx), n);
      assert ReadEntry(now, n - 1) == ReadEntry(idx, n - 1);
      Unfound(sha, GenesisOf(sha, storeId), seg, now, n);
    }
  }

  lemma SameEntry(s: seq<Byte>, t: seq<Byte>, p: nat)
    requires p + IDX_ENTRY_LEN <= |s| == |t| && s[p..p + IDX_ENTRY_LEN] == t[p..p + IDX_ENTRY_LEN]
    ensures s[p..p + 8] == t[p..p + 8] && s[p + 8..p + 40] == t[p + 8..p + 40]
  {
    SliceOfSlice(s, p, p + IDX_ENTRY_LEN, 0, 8);
    SliceOfSlice(t, p, p + IDX_ENTRY_LEN, 0, 8);
    SliceOfSlice(s, p, p + IDX_ENTRY_LEN, 8, 40);
    SliceOfSlice(t, p, p + IDX_ENTRY_LEN, 8, 40);
  }

  lemma {:induction false} IdxTail(sha: Sha, storeId: StoreId, recs: seq<Rec>, flushed: nat, idx: seq<Byte>, l: nat)
    requires flushed <= |recs| && IdxImage(sha, storeId, recs, flushed, idx, l)
    ensures l <= |idx| && idx[l..] == Zeros(|idx| - l)
  {
    hide IdxOf;
  }

  lemma TornUnlinked(sha: Sha, genesis: Digest, seg: seq<Byte>, idx: seq<Byte>, now: seq<Byte>, l: nat, n: nat)
    requires 0 < n && EntryPos(n) <= |idx| == |now| && l < EntryPos(n - 1) + 8 && l <= |idx| && idx[l..] == Zeros(|idx| - l)
    requires TearShows(sha, genesis, seg, now, l)
    requires var p := EntryPos(n - 1); now[p..p + 8] == idx[p..p + 8] && now[p + 8..p + 40] == idx[p + 8..p + 40]
    ensures Linked(sha, genesis, seg, now, n) == None
  {
    hide Linked, LinkValue;
    var p := EntryPos(n - 1);
    if l <= p {
      ZeroSlice(idx, l, p, p + 8);
      ZeroOffset(sha, genesis, seg, now, n);
    } else {
      ZeroSlice(idx, l, p + 8, p + 40);
      assert TornOffset(n, l);
      ZeroChain(sha, genesis, seg, now, n);
    }
  }

  lemma Unfound(sha: Sha, genesis: Digest, seg: seq<Byte>, idx: seq<Byte>, n: nat)
    requires 0 < n && EntryPos(n) <= |idx|
    requires RecordEnd(sha, seg, UnLe(ReadEntry(idx, n - 1)[0..8]), n - 1, false) == None
    ensures Linked(sha, genesis, seg, idx, n) == None
  {
    hide RecordEnd, ChainStep;
  }

  lemma {:induction false} TrueOffset(sha: Sha, storeId: StoreId, recs: seq<Rec>, flushed: nat, idx: seq<Byte>, l: nat, n: nat)
    requires Fits(recs) && flushed <= |recs| && IdxImage(sha, storeId, recs, flushed, idx, l)
    requires 0 < n && EntryPos(n) <= |idx| && EntryPos(n - 1) + 8 <= l
    ensures n <= |recs| && UnLe(ReadEntry(idx, n - 1)[0..8]) == OffsetOf(recs, n - 1)
  {
    hide SegOf, IdxOf, ChainOf, GenesisOf;
    IdxParts(sha, storeId, recs, flushed, idx, l);
    var p, whole := EntryPos(n - 1), IdxOf(sha, storeId, recs);
    EntryAt(sha, storeId, recs, n - 1);
    SlicesAgree(whole[..l], idx, whole, p, p + 8);
    SliceOfSlice(idx, p, p + IDX_ENTRY_LEN, 0, 8);
    SliceOfSlice(whole, p, p + IDX_ENTRY_LEN, 0, 8);
    EntryOffset(recs, n - 1, idx[p..p + IDX_ENTRY_LEN], whole[p..p + IDX_ENTRY_LEN], ChainOf(sha, GenesisOf(sha, storeId), recs[..n]));
  }

  /** Behind the whole records no record is found at the offset of any other. */
  lemma {:induction false} CutFindsNothing(sha: Sha, recs: seq<Rec>, flushed: nat, seg: seq<Byte>, k: nat, indexed: nat, n: nat)
    requires Fits(recs) && flushed <= |recs| && SegImage(recs, flushed, seg, k)
    requires NothingAtCut(sha, recs, seg, k, indexed) && Whole(recs, k) < n <= indexed && n <= |recs|
    ensures RecordEnd(sha, seg, OffsetOf(recs, n - 1), n - 1, false) == None
  {
    hide SegOf;
    var m, off := Whole(recs, k), OffsetOf(recs, n - 1);
    if n - 1 > m {
      assert off > k;
      if off <= |seg| {
        ImageParts(recs, flushed, seg, k);
        ZerosAfter(seg, k, off);
        FindsNothing(sha, seg, off, n - 1, false);
      }
    }
  }

  lemma {:induction false} IndexCleared(sha: Sha, storeId: StoreId, recs: seq<Rec>, flushed: nat, seg: seq<Byte>, k: nat,
                                        idx: seq<Byte>, l: nat, z: nat)
    requires Image(sha, storeId, recs, flushed, seg, k, idx, l) && |seg| >= SEG_MAGIC_LEN
    requires NothingAtCut(sha, recs, seg, k, Indexed(idx))
    requires var f := Interrupted(sha, GenesisOf(sha, storeId), seg, idx, ClearingIndex(z));
      && TearShows(sha, GenesisOf(sha, storeId), f.seg, f.idx, l)
      && HalfShows(sha, GenesisOf(sha, storeId), f, AtMost(EntryPos(Whole(recs, k)) + z, |idx|))
    ensures var g := GenesisOf(sha, storeId);
      var f := Interrupted(sha, g, seg, idx, ClearingIndex(z));
      Recover(sha, g, f.seg, f.idx) == Recover(sha, g, seg, idx)
  {
    hide SegOf, IdxOf, ChainOf, GenesisOf, Linked, RecordEnd, Whole, TearShows, HalfShows, Cleared, Loops, Recover, NothingAtCut, Image, ZeroTail;
    var g, m := GenesisOf(sha, storeId), Whole(recs, k);
    var now := recs[..m];
    var o, f := Recover(sha, g, seg, idx), Interrupted(sha, g, seg, idx, ClearingIndex(z));
    Unaltered(sha, storeId, recs, flushed, seg, k, idx, l);
    LengthsAfter(sha, g, seg, idx);
    var s, to := Loops(sha, g, seg, idx), AtMost(EntryPos(m) + z, |idx|);
    LoopsLeave(sha, storeId, seg, idx, now);
    if |idx| > EntryPos(m) {
      ZeroedFrom(s.idx, EntryPos(m), to);
      forall j | m < j <= Indexed(f.idx) ensures Linked(sha, g, seg, f.idx, j) == None {
        ClearedUnlinked(sha, storeId, recs, flushed, seg, k, idx, l, s.idx, f.idx, to, j);
      }
    } else {
      NothingZeroed(s.idx, EntryPos(m), to);
    }
    PrefixStays(IdxOf(sha, storeId, now), s.idx, f.idx);
    EndsThere(sha, storeId, now, seg, f.idx);
    RebuiltIsCleared(sha, storeId, o, now);
  }

  lemma NothingZeroed(data: seq<Byte>, from: nat, to: nat)
    requires to <= from
    ensures ZeroTail(data, from, to) == data
  {
  }

  lemma PrefixStays(p: seq<Byte>, s: seq<Byte>, t: seq<Byte>)
    requires p <= s && |p| <= |t| && t[..|p|] == s[..|p|]
    ensures p <= t
  {
  }

  /** A crash image and what is assumed of it. */
  ghost predicate Image(sha: Sha, storeId: StoreId, recs: seq<Rec>, flushed: nat, seg: seq<Byte>, k: nat, idx: seq<Byte>, l: nat) {
    && Fits(recs) && flushed <= |recs| && |seg| < 0x1_0000_0000_0000_0000
    && SegImage(recs, flushed, seg, k) && IdxImage(sha, storeId, recs, flushed, idx, l)
    && HonestFrom(sha, recs, flushed) && TearShows(sha, GenesisOf(sha, storeId), seg, idx, l)
  }

  lemma {:induction false} Unaltered(sha: Sha, storeId: StoreId, recs: seq<Rec>, flushed: nat, seg: seq<Byte>, k: nat,
                                     idx: seq<Byte>, l: nat)
    requires Image(sha, storeId, recs, flushed, seg, k, idx, l)
    requires NothingAtCut(sha, recs, seg, k, Indexed(idx))
    ensures |seg| >= SEG_MAGIC_LEN && |idx| >= IDX_HEADER_LEN
    ensures var o, now := Recover(sha, GenesisOf(sha, storeId), seg, idx), recs[..Whole(recs, k)];
      && Rebuilt(sha, storeId, o, now) && Fits(now) && SegOf(now) <= seg && |o.seg| == |seg|
  {
    hide SegOf, IdxOf, ChainOf, GenesisOf, Recover, Whole, TearShows, NothingAtCut, Rebuilt;
    var now := RecoverRebuilds(sha, storeId, recs, flushed, seg, k, idx, l);
    RecoverStopsAt(sha, storeId, recs, flushed, seg, k, idx, l, now);
    OffsetsGrow(recs, 0, flushed);
    WholeFits(recs, k);
    ImageParts(recs, flushed, seg, k);
    PrefixInImage(recs, seg, k, Whole(recs, k));
  }

  lemma WholeFits(recs: seq<Rec>, k: nat)
    requires OffsetOf(recs, 0) <= k
    ensures OffsetOf(recs, Whole(recs, k)) <= k
  {
    hide SegOf;
  }

  /** After both loops the index begins with the entries of the rebuilt history, and goes on
      as it was. */
  lemma {:induction false} LoopsLeave(sha: Sha, storeId: StoreId, seg: seq<Byte>, idx: seq<Byte>, now: seq<Rec>)
    requires |seg| >= SEG_MAGIC_LEN && |idx| >= IDX_HEADER_LEN
    requires Rebuilt(sha, storeId, Recover(sha, GenesisOf(sha, storeId), seg, idx), now)
    ensures var s := Loops(sha, GenesisOf(sha, storeId), seg, idx);
      && s.scan.n == |now| && |idx| <= |s.idx| && IdxOf(sha, storeId, now) <= s.idx
      && forall q :: EntryPos(|now|) <= q < |idx| ==> s.idx[q] == idx[q]
  {
    hide SegOf, IdxOf, ChainOf, GenesisOf, Backward, Forward;
    var g, n := GenesisOf(sha, storeId), Indexed(idx);
    BackwardInBounds(sha, g, seg, idx, n);
    var b := Recovered(Backward(sha, g, seg, idx, n), idx);
    ForwardTail(sha, seg, b, n);
    ForwardReaches(sha, seg, b, n);
    var s, o := Loops(sha, g, seg, idx), Recover(sha, g, seg, idx);
    ZeroTailFront(s.idx, EntryPos(|now|), |idx|);
    PrefixStays(IdxOf(sha, storeId, now), o.idx, s.idx);
  }

  lemma ZeroTailFront(data: seq<Byte>, from: nat, to: nat)
    requires from <= |data|
    ensures from <= |ZeroTail(data, from, to)| && ZeroTail(data, from, to)[..from] == data[..from]
  {
  }

  lemma ZerosWithin(s: seq<Byte>, from: nat, to: nat, p: nat)
    requires from <= p && p + 8 <= to <= |s| && s[from..to] == Zeros(to - from)
    ensures s[p..p + 8] == Zeros(8)
  {
    SliceOfSlice(s, from, to, p - from, p + 8 - from);
  }

  lemma SameBehind(s: seq<Byte>, t: seq<Byte>, was: seq<Byte>, from: nat, to: nat, p: nat)
    requires from <= to <= p && p + IDX_ENTRY_LEN <= |was| == |s| == |t|
    requires t[to..] == s[to..] && forall q :: from <= q < |was| ==> s[q] == was[q]
    ensures t[p..p + IDX_ENTRY_LEN] == was[p..p + IDX_ENTRY_LEN]
  {
    assert forall q :: to <= q < |t| ==> t[q] == t[to..][q - to];
    assert forall q :: to <= q < |s| ==> s[q] == s[to..][q - to];
  }

  /** No entry behind the whole records links while the tail of the index is overwritten. */
  lemma {:induction false} ClearedUnlinked(sha: Sha, storeId: StoreId, recs: seq<Rec>, flushed: nat, seg: seq<Byte>, k: nat,
                                           idx: seq<Byte>, l: nat, whole: seq<Byte>, now: seq<Byte>, to: nat, n: nat)
    requires Image(sha, storeId, recs, flushed, seg, k, idx, l)
    requires TearShows(sha, GenesisOf(sha, storeId), seg, now, l) && HalfShows(sha, GenesisOf(sha, storeId), Files(seg, now), to)
    requires NothingAtCut(sha, recs, seg, k, Indexed(idx))
    requires var from := EntryPos(Whole(recs, k));
      && from <= to <= |idx| == |whole| == |now| && (forall q :: from <= q < |idx| ==> whole[q] == idx[q])
      && now[from..to] == Zeros(to - from) && now[to..] == whole[to..]
    requires Whole(recs, k) < n && EntryPos(n) <= |idx|
    ensures Linked(sha, GenesisOf(sha, storeId), seg, now, n) == None
  {
    hide SegOf, IdxOf, ChainOf, GenesisOf, Linked, RecordEnd, Whole, TearShows, NothingAtCut, SegImage, IdxImage;
    var p, from := EntryPos(n - 1), EntryPos(Whole(recs, k));
    if p + 8 <= to {
      ZerosWithin(now, from, to, p);
      ZeroOffset(sha, GenesisOf(sha, storeId), seg, now, n);
    } else if p < to {
      assert TornOffset(n, to);
    } else {
      SameBehind(whole, now, idx, from, to, p);
      LeftUnlinked(sha, storeId, recs, flushed, seg, k, idx, l, now, n);
    }
  }

  // ----- Stopped while entries are rewritten

  function AtLeast(n: nat, least: nat): nat {
    if n >= least then n else least
  }

  lemma OverlayImage(whole: seq<Byte>, idx: seq<Byte>, l: nat, pos: nat, b: seq<Byte>)
    requires pos <= l <= |whole| && l <= |idx| && idx == whole[..l] + Zeros(|idx| - l)
    requires pos + |b| <= |whole| && b == whole[pos..pos + |b|]
    ensures var r, t := Overlay(idx, pos, b), AtLeast(l, pos + |b|);
      |r| == AtLeast(|idx|, pos + |b|) && t <= |r| && r == whole[..t] + Zeros(|r| - t)
  {
    var r, end := Overlay(idx, pos, b), pos + |b|;
    OverlayParts(whole, idx, l, pos, b);
    assert r == r[..end] + r[end..];
    if end < l {
      assert idx[end..] == whole[end..l] + Zeros(|idx| - l);
      assert whole[..end] + whole[end..l] == whole[..l];
    } else if end < |idx| {
      assert idx[end..] == Zeros(|idx| - end);
    } else {
      assert r[end..] == [] && Zeros(0) == [];
    }
  }

  lemma OverlayParts(whole: seq<Byte>, idx: seq<Byte>, l: nat, pos: nat, b: seq<Byte>)
    requires pos <= l <= |whole| && l <= |idx| && idx == whole[..l] + Zeros(|idx| - l)
    requires pos + |b| <= |whole| && b == whole[pos..pos + |b|]
    ensures var r, end := Overlay(idx, pos, b), pos + |b|;
      r[..end] == whole[..end] && (end < |idx| ==> r[end..] == idx[end..]) && |r| == AtLeast(|idx|, end)
  {
    assert idx[..pos] == whole[..pos];
    assert whole[..pos] + b == whole[..pos + |b|];
  }

  /** The entry the second loop writes for a whole record is the one the history has. */
  lemma {:induction false} EntryWritten(sha: Sha, storeId: StoreId, recs: seq<Rec>, i: nat)
    requires i < |recs|
    ensures var g, p := GenesisOf(sha, storeId), EntryPos(i);
      && EntryPos(i + 1) <= |IdxOf(sha, storeId, recs)|
      && Entry(OffsetOf(recs, i), ChainStep(sha, ChainOf(sha, g, recs[..i]), recs[i].digest)) == IdxOf(sha, storeId, recs)[p..p + IDX_ENTRY_LEN]
  {
    hide SegOf, IdxOf, ChainOf, ChainStep, GenesisOf, Entry;
    assert recs[..i + 1] == recs[..i] + [recs[i]];
    IdxSnoc(sha, storeId, recs[..i], recs[i]);
    EntryAt(sha, storeId, recs, i);
  }

  /** However many bytes of the entries are written, the index is again what a kill could
      have left of the history's own, cut at `l` or at the last byte written. */
  lemma {:induction false} EntriesRewritten(sha: Sha, storeId: StoreId, recs: seq<Rec>, flushed: nat, seg: seq<Byte>, k: nat,
                                            s: Recovered, i: nat, indexed: nat, l: nat, w: nat)
    requires Fits(recs) && flushed <= i <= Whole(recs, k) && |seg| < 0x1_0000_0000_0000_0000
    requires SegImage(recs, flushed, seg, k) && HonestFrom(sha, recs, flushed)
    requires s.scan.segLen <= |seg| && Agreed(sha, storeId, recs, k, seg, s, recs[..i]) && NothingAtCut(sha, recs, seg, k, indexed)
    requires IdxImage(sha, storeId, recs, flushed, s.idx, l) && EntryPos(i) <= l
    ensures var t := AtMost(EntryPos(i) + w, EntryPos(Whole(recs, k)));
      var r := Rewritten(sha, seg, s, indexed, w);
      IdxImage(sha, storeId, recs, flushed, r, AtLeast(l, t)) && |r| == AtLeast(|s.idx|, t)
    decreases Whole(recs, k) - i
  {
    hide SegOf, RecordEnd, IdxOf, GenesisOf, Overlay, Whole, SegImage, IdxImage, Entry, Agreed, NothingAtCut, Reindexed, HonestFrom, ChainStep;
    var m := Whole(recs, k);
    AgreedScan(sha, storeId, recs, k, seg, s, recs[..i]);
    IdxTail(sha, storeId, recs, flushed, s.idx, l);
    if i == m {
      CutIsEnd(sha, recs, flushed, seg, k, indexed);
    } else {
      var next, e := OneRewritten(sha, storeId, recs, flushed, seg, k, s, i, indexed);
      if w >= IDX_ENTRY_LEN {
        ImageOverlaid(sha, storeId, recs, flushed, s.idx, l, EntryPos(i), e);
        EntriesRewritten(sha, storeId, recs, flushed, seg, k, next, i + 1, indexed, AtLeast(l, EntryPos(i + 1)), w - IDX_ENTRY_LEN);
      } else {
        assert e[..w] == IdxOf(sha, storeId, recs)[EntryPos(i)..EntryPos(i) + w];
        ImageOverlaid(sha, storeId, recs, flushed, s.idx, l, EntryPos(i), e[..w]);
      }
    }
  }

  lemma {:induction false} AgreedScan(sha: Sha, storeId: StoreId, recs: seq<Rec>, k: nat, seg: seq<Byte>, s: Recovered, now: seq<Rec>)
    requires Agreed(sha, storeId, recs, k, seg, s, now)
    ensures s.scan == Scan(|now|, |SegOf(now)|, ChainOf(sha, GenesisOf(sha, storeId), now)) && s.scan.segLen <= |seg|
  {
    hide SegOf, IdxOf, ChainOf, GenesisOf, Kept;
  }

  /** One round of the second loop, and the entry it writes. */
  lemma {:induction false} OneRewritten(sha: Sha, storeId: StoreId, recs: seq<Rec>, flushed: nat, seg: seq<Byte>, k: nat,
                                        s: Recovered, i: nat, indexed: nat) returns (next: Recovered, e: seq<Byte>)
    requires Fits(recs) && flushed <= i < Whole(recs, k) && |seg| < 0x1_0000_0000_0000_0000
    requires SegImage(recs, flushed, seg, k) && HonestFrom(sha, recs, flushed)
    requires Agreed(sha, storeId, recs, k, seg, s, recs[..i])
    ensures RecordEnd(sha, seg, s.scan.segLen, s.scan.n, s.scan.n >= indexed).Some?
    ensures next == Reindexed(sha, s, RecordEnd(sha, seg, s.scan.segLen, s.scan.n, s.scan.n >= indexed).value)
    ensures e == Entry(s.scan.segLen, next.scan.head) && next.idx == Overlay(s.idx, EntryPos(i), e)
    ensures s.scan.n == i && s.scan.segLen < next.scan.segLen <= |seg| && Agreed(sha, storeId, recs, k, seg, next, recs[..i + 1])
    ensures |e| == IDX_ENTRY_LEN && EntryPos(i + 1) <= |IdxOf(sha, storeId, recs)|
    ensures e == IdxOf(sha, storeId, recs)[EntryPos(i)..EntryPos(i + 1)]
  {
    hide SegOf, RecordEnd, IdxOf, ChainOf, ChainStep, GenesisOf, Overlay, Kept, Whole, SegImage, Entry;
    FindsNext(sha, recs, flushed, seg, k, i, indexed);
    OffsetsGrow(recs, i, i + 1);
    var r := ForwardRound(sha, storeId, recs, flushed, seg, k, s, i, indexed);
    assert recs[..i] + [r] == recs[..i + 1];
    EntryWritten(sha, storeId, recs, i);
    next := Reindexed(sha, s, Found(OffsetOf(recs, i + 1), recs[i].digest));
    e := Entry(s.scan.segLen, next.scan.head);
    AgreedScan(sha, storeId, recs, k, seg, next, recs[..i + 1]);
  }

  lemma {:induction false} ImageOverlaid(sha: Sha, storeId: StoreId, recs: seq<Rec>, flushed: nat, idx: seq<Byte>, l: nat, pos: nat, b: seq<Byte>)
    requires flushed <= |recs| && IdxImage(sha, storeId, recs, flushed, idx, l)
    requires pos <= l && pos + |b| <= |IdxOf(sha, storeId, recs)| && b == IdxOf(sha, storeId, recs)[pos..pos + |b|]
    ensures var r := Overlay(idx, pos, b);
      IdxImage(sha, storeId, recs, flushed, r, AtLeast(l, pos + |b|)) && |r| == AtLeast(|idx|, pos + |b|)
  {
    hide IdxOf, Overlay;
    OverlayImage(IdxOf(sha, storeId, recs), idx, l, pos, b);
  }

  lemma {:induction false} CutIsEnd(sha: Sha, recs: seq<Rec>, flushed: nat, seg: seq<Byte>, k: nat, indexed: nat)
    requires Fits(recs) && flushed <= |recs| && SegImage(recs, flushed, seg, k) && NothingAtCut(sha, recs, seg, k, indexed)
    ensures var m := Whole(recs, k);
      RecordEnd(sha, seg, OffsetOf(recs, m), m, m >= indexed) == None
  {
    hide SegOf, RecordEnd;
    var m := Whole(recs, k);
    if m == |recs| {
      OffsetsGrow(recs, 0, flushed);
      ImageParts(recs, flushed, seg, k);
      assert recs[..m] == recs;
      FindsNothing(sha, seg, k, m, m >= indexed);
    }
  }

  lemma {:induction false} FindsNext(sha: Sha, recs: seq<Rec>, flushed: nat, seg: seq<Byte>, k: nat, i: nat, indexed: nat)
    requires Fits(recs) && flushed <= i < Whole(recs, k)
    requires SegImage(recs, flushed, seg, k) && HonestFrom(sha, recs, flushed)
    ensures OffsetOf(recs, i) <= OffsetOf(recs, i + 1) <= k
    ensures RecordEnd(sha, seg, OffsetOf(recs, i), i, i >= indexed) == Some(Found(OffsetOf(recs, i + 1), recs[i].digest))
  {
    hide SegOf, RecordEnd, Whole;
    ImageParts(recs, flushed, seg, k);
    OffsetsGrow(recs, 0, flushed);
    WholeFits(recs, k);
    OffsetsGrow(recs, i, i + 1);
    OffsetsGrow(recs, i + 1, Whole(recs, k));
    PrefixInImage(recs, seg, k, i + 1);
    FindsWhole(sha, recs, seg, i, i >= indexed);
  }

  /** An index that begins with these entries may as well have been cut behind them. */
  lemma {:induction false} Raised(sha: Sha, storeId: StoreId, recs: seq<Rec>, flushed: nat, idx: seq<Byte>, l: nat, i: nat)
    requires flushed <= i <= |recs| && IdxImage(sha, storeId, recs, flushed, idx, l)
    requires IdxOf(sha, storeId, recs[..i]) <= idx
    ensures IdxImage(sha, storeId, recs, flushed, idx, AtLeast(l, EntryPos(i)))
  {
    hide IdxOf;
    if l < EntryPos(i) {
      IdxPrefix(sha, storeId, recs, i);
      var whole := IdxOf(sha, storeId, recs);
      assert whole[..EntryPos(i)] == IdxOf(sha, storeId, recs[..i]) == idx[..EntryPos(i)];
      assert idx[l..] == Zeros(|idx| - l);
      assert idx[EntryPos(i)..] == idx[l..][EntryPos(i) - l..];
    }
  }

  lemma {:induction false} IndexRewritten(sha: Sha, storeId: StoreId, recs: seq<Rec>, flushed: nat, seg: seq<Byte>, k: nat,
                                          idx: seq<Byte>, l: nat, w: nat)
    requires Image(sha, storeId, recs, flushed, seg, k, idx, l) && |seg| >= SEG_MAGIC_LEN
    requires NothingAtCut(sha, recs, seg, k, Indexed(idx))
    requires var g := GenesisOf(sha, storeId);
      var f := Interrupted(sha, g, seg, idx, Rewriting(w));
      TearShows(sha, g, f.seg, f.idx, AtLeast(l, AtMost(EntryPos(Backward(sha, g, seg, idx, Indexed(idx)).n) + w, EntryPos(Whole(recs, k)))))
    ensures var g := GenesisOf(sha, storeId);
      var f := Interrupted(sha, g, seg, idx, Rewriting(w));
      Recover(sha, g, f.seg, f.idx) == Recover(sha, g, seg, idx)
  {
    hide SegOf, IdxOf, ChainOf, GenesisOf, Linked, RecordEnd, Whole, TearShows, LinkValue, Cleared, Backward, Forward, Recover, SegImage, Rewritten, Kept;
    var g, n, m := GenesisOf(sha, storeId), Indexed(idx), Whole(recs, k);
    BackwardInBounds(sha, g, seg, idx, n);
    var b := Recovered(Backward(sha, g, seg, idx, n), idx);
    FlushedEntries(sha, storeId, recs, flushed, idx, l);
    var before := BackwardAgreed(sha, storeId, recs, flushed, seg, k, idx, l, n);
    BackwardBelow(sha, storeId, recs, flushed, seg, k, idx, l, n);
    KeptBelow(recs, k, seg, before);
    var i := |before|;
    Raised(sha, storeId, recs, flushed, idx, l, i);
    EntriesRewritten(sha, storeId, recs, flushed, seg, k, b, i, n, AtLeast(l, EntryPos(i)), w);
    var f, t := Interrupted(sha, g, seg, idx, Rewriting(w)), AtMost(EntryPos(i) + w, EntryPos(m));
    Unaltered(sha, storeId, recs, flushed, seg, k, idx, l);
    SameCut(sha, recs, seg, k, idx, f.idx, t);
    assert AtLeast(AtLeast(l, EntryPos(i)), t) == AtLeast(l, t);
    Unaltered(sha, storeId, recs, flushed, seg, k, f.idx, AtLeast(l, t));
    LengthsAfter(sha, g, seg, idx);
    LengthsAfter(sha, g, seg, f.idx);
    RebuiltIsCleared(sha, storeId, Recover(sha, g, seg, idx), recs[..m]);
    RebuiltIsCleared(sha, storeId, Recover(sha, g, seg, f.idx), recs[..m]);
  }

  /** What is written below the last whole record's end changes no test at the cut. */
  lemma {:induction false} SameCut(sha: Sha, recs: seq<Rec>, seg: seq<Byte>, k: nat, idx: seq<Byte>, now: seq<Byte>, t: nat)
    requires IDX_HEADER_LEN <= |idx| && |now| == AtLeast(|idx|, t) && t <= EntryPos(Whole(recs, k))
    ensures NothingAtCut(sha, recs, seg, k, Indexed(idx)) <==> NothingAtCut(sha, recs, seg, k, Indexed(now))
  {
    hide SegOf, RecordEnd, Whole;
    assert Whole(recs, k) >= Indexed(idx) <==> Whole(recs, k) >= Indexed(now);
  }

  // ----- Wherever it stops

  /** What is assumed of the hash, and of the one entry whose offset is half overwritten, at
      each stage. */
  ghost predicate StageShows(sha: Sha, genesis: Digest, seg: seq<Byte>, idx: seq<Byte>, l: nat, m: nat, stage: Stage)
    requires |seg| >= SEG_MAGIC_LEN
  {
    var f := Interrupted(sha, genesis, seg, idx, stage);
    match stage
    case Rewriting(w) => TearShows(sha, genesis, f.seg, f.idx, AtLeast(l, AtMost(EntryPos(Backward(sha, genesis, seg, idx, Indexed(idx)).n) + w, EntryPos(m))))
    case ClearingIndex(z) => TearShows(sha, genesis, f.seg, f.idx, l) && HalfShows(sha, genesis, f, AtMost(EntryPos(m) + z, |idx|))
    case ClearingSegment(z) => true
  }

  /** Recovery can be killed and started again: at whatever byte of its writes it stopped,
      the next one ends with the very files, count and head it would have ended with, as
      long as it brings back just the whole records. */
  lemma {:induction false} RecoveryRestarts(sha: Sha, storeId: StoreId, recs: seq<Rec>, flushed: nat, seg: seq<Byte>, k: nat,
                                            idx: seq<Byte>, l: nat, stage: Stage)
    requires Image(sha, storeId, recs, flushed, seg, k, idx, l) && |seg| >= SEG_MAGIC_LEN
    requires NothingAtCut(sha, recs, seg, k, Indexed(idx))
    requires StageShows(sha, GenesisOf(sha, storeId), seg, idx, l, Whole(recs, k), stage)
    ensures var g := GenesisOf(sha, storeId);
      var f := Interrupted(sha, g, seg, idx, stage);
      |f.seg| >= SEG_MAGIC_LEN && Recover(sha, g, f.seg, f.idx) == Recover(sha, g, seg, idx)
  {
    hide SegOf, IdxOf, GenesisOf, Recover, Whole, TearShows, HalfShows, Image, NothingAtCut, Interrupted, Backward, Rebuilt;
    match stage
    case Rewriting(w) =>
      InterruptedSegment(sha, GenesisOf(sha, storeId), seg, idx, stage);
      IndexRewritten(sha, storeId, recs, flushed, seg, k, idx, l, w);
    case ClearingIndex(z) =>
      InterruptedSegment(sha, GenesisOf(sha, storeId), seg, idx, stage);
      IndexCleared(sha, storeId, recs, flushed, seg, k, idx, l, z);
    case ClearingSegment(z) =>
      Unaltered(sha, storeId, recs, flushed, seg, k, idx, l);
      SegmentCleared(sha, storeId, seg, idx, recs[..Whole(recs, k)], z);
  }

  lemma InterruptedSegment(sha: Sha, genesis: Digest, seg: seq<Byte>, idx: seq<Byte>, stage: Stage)
    requires |seg| >= SEG_MAGIC_LEN && !stage.ClearingSegment?
    ensures Interrupted(sha, genesis, seg, idx, stage).seg == seg
  {
    hide Backward, Forward, Loops, Rewritten, Recover;
  }
}
