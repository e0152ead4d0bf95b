/** The one record a kill can alter: exactly when recovery reads it, exactly when it is not
    the record that was appended, and a run of two kills that alters one. */
module TornRecords {
  import opened Bytes
  import opened Disk
  import opened StoreFormat
  import opened Recovery
  import opened CrashImages
  import opened Durability

  // ----- The exact condition

  /** A kill leaves exactly the records whose bytes had all reached the disk if and only if
      the guard of the second loop finds nothing at the first record that had not. */
  lemma KillExact(sha: Sha, storeId: StoreId, h: History, seg: seq<Byte>, k: nat, idx: seq<Byte>, l: nat, now: seq<Rec>)
    requires Valid(sha, h) && CrashImage(sha, storeId, h, seg, k, idx, l) && |seg| >= SEG_MAGIC_LEN
    requires Fits(now) && Rebuilt(sha, storeId, Recover(sha, GenesisOf(sha, storeId), seg, idx), now)
    ensures var m := Whole(h.recs, k);
      now == h.recs[..m] <==>
      m == |h.recs| || RecordEnd(sha, seg, OffsetOf(h.recs, m), m, m >= Indexed(idx)) == None
  {
    hide TearShows, SegOf, IdxOf, GenesisOf, Recover, Whole, Rebuilt, SegImage, IdxImage, RecordEnd, Altered;
    KillLeaves(sha, storeId, h, seg, k, idx, l, now);
    RecoverStopsAt(sha, storeId, h.recs, h.flushed, seg, k, idx, l, now);
  }

  /** What recovery rebuilds, it read from the segment as it was. */
  lemma {:induction false} RebuiltReads(sha: Sha, storeId: StoreId, seg: seq<Byte>, idx: seq<Byte>, now: seq<Rec>)
    requires |seg| >= SEG_MAGIC_LEN
    requires Rebuilt(sha, storeId, Recover(sha, GenesisOf(sha, storeId), seg, idx), now)
    ensures SegOf(now) <= seg
  {
    hide SegOf, IdxOf, GenesisOf, ChainOf, Backward, Forward;
    BackwardInBounds(sha, GenesisOf(sha, storeId), seg, idx, Indexed(idx));
    var o := Recover(sha, GenesisOf(sha, storeId), seg, idx);
    assert o.seg[..o.scan.segLen] == seg[..o.scan.segLen];
    assert o.seg[..o.scan.segLen] == SegOf(now);
  }

  /** No record comes back altered if and only if nothing is found at the cut, or the zeros
      behind it are the very bytes that were lost. */
  lemma UnalteredExactly(sha: Sha, storeId: StoreId, h: History, seg: seq<Byte>, k: nat, idx: seq<Byte>, l: nat, now: seq<Rec>)
    requires Valid(sha, h) && CrashImage(sha, storeId, h, seg, k, idx, l) && |seg| >= SEG_MAGIC_LEN
    requires Fits(now) && Rebuilt(sha, storeId, Recover(sha, GenesisOf(sha, storeId), seg, idx), now)
    ensures var m := Whole(h.recs, k);
      now <= h.recs <==>
      || m == |h.recs|
      || RecordEnd(sha, seg, OffsetOf(h.recs, m), m, m >= Indexed(idx)) == None
      || SegOf(h.recs[..m + 1]) <= seg
  {
    hide TearShows, SegOf, IdxOf, GenesisOf, Recover, Whole, Rebuilt, SegImage, IdxImage, RecordEnd;
    KillLeaves(sha, storeId, h, seg, k, idx, l, now);
    KillExact(sha, storeId, h, seg, k, idx, l, now);
    var m := Whole(h.recs, k);
    if now != h.recs[..m] {
      RebuiltReads(sha, storeId, seg, idx, now);
      FitsPrefix(h.recs, m + 1);
      assert now <= h.recs ==> now == h.recs[..|now|];
      if SegOf(h.recs[..m + 1]) <= seg {
        PrefixInjective(now, h.recs[..m + 1], seg);
        assert h.recs[..m + 1][..|now|] == h.recs[..m + 1];
      }
    }
  }

  // ----- The altered record is real

  /** The last record with the bytes from `t` on lost and zeros read in their place. */
  function Damaged(recs: seq<Rec>, t: nat): (bad: seq<Rec>)
    requires recs != [] && t <= |recs[|recs| - 1].bytes|
    ensures |bad| == |recs|
  {
    var last := recs[|recs| - 1];
    recs[..|recs| - 1] + [last.(bytes := last.bytes[..t] + Zeros(|last.bytes| - t))]
  }

  /** Not all the bytes of the last record from `t` on are zeros. */
  predicate Loses(recs: seq<Rec>, t: nat)
    requires recs != []
  {
    NotAllZero(recs[|recs| - 1].bytes, t)
  }

  predicate NotAllZero(bytes: seq<Byte>, t: nat) {
    exists j :: t <= j < |bytes| && bytes[j] != 0
  }

  lemma DamagedDiffers(recs: seq<Rec>, t: nat)
    requires recs != [] && t <= |recs[|recs| - 1].bytes| && Loses(recs, t)
    ensures t < |recs[|recs| - 1].bytes| && Damaged(recs, t)[|recs| - 1].bytes != recs[|recs| - 1].bytes
  {
    var bytes := recs[|recs| - 1].bytes;
    var j :| t <= j < |bytes| && bytes[j] != 0;
    assert (bytes[..t] + Zeros(|bytes| - t))[j] == Zeros(|bytes| - t)[j - t] == 0;
  }

  /** The segment of the damaged history is the torn one and zeros. */
  lemma {:induction false} DamagedSegment(recs: seq<Rec>, t: nat)
    requires Fits(recs) && recs != [] && t <= |recs[|recs| - 1].bytes|
    ensures var k := OffsetOf(recs, |recs| - 1) + HEADER_LEN + t;
      && k <= |SegOf(recs)| && Fits(Damaged(recs, t))
      && OffsetOf(Damaged(recs, t), |recs| - 1) == OffsetOf(recs, |recs| - 1)
      && SegOf(Damaged(recs, t)) == SegOf(recs)[..k] + Zeros(|SegOf(recs)| - k)
  {
    hide SegOf, Header;
    var n := |recs| - 1;
    var before, last := recs[..n], recs[n];
    assert recs == before + [last];
    var bad := last.(bytes := last.bytes[..t] + Zeros(|last.bytes| - t));
    var k := |SegOf(before)| + HEADER_LEN + t;
    SegSnoc(before, last);
    SegSnoc(before, bad);
    SameHeader(n, last, bad);
    assert SegOf(recs)[..k] == SegOf(before) + Header(n, last) + last.bytes[..t];
    assert Damaged(recs, t)[..n] == before;
  }

  lemma SameHeader(id: nat, a: Rec, b: Rec)
    requires |a.bytes| == |b.bytes| && a.receipt == b.receipt && a.source == b.source && a.digest == b.digest
    ensures Header(id, a) == Header(id, b)
  {
  }

  lemma {:induction false} ZerosCover(p: seq<Byte>, k: nat, seg: seq<Byte>)
    requires k <= |p| <= |seg| && seg == p[..k] + Zeros(|seg| - k)
    ensures p[..k] + Zeros(|p| - k) <= seg
  {
    var q := p[..k] + Zeros(|p| - k);
    assert seg[..|p|] == q;
  }

  /** A record torn inside its body, its header whole, is accepted whenever zeros of earlier
      recoveries stand behind the cut of the segment for its whole length and the index file
      reaches past its entry: the entry may be whole, torn, or itself such zeros, because
      `indexed` counts it either way and the bytes are then not hashed. Every record comes
      back, the last with other bytes than were appended. */
  lemma TornBodyAccepted(sha: Sha, storeId: StoreId, h: History, t: nat, seg: seq<Byte>, idx: seq<Byte>, l: nat)
    requires Valid(sha, h) && h.recs != [] && t <= |h.recs[|h.recs| - 1].bytes| && Loses(h.recs, t)
    requires CrashImage(sha, storeId, h, seg, OffsetOf(h.recs, |h.recs| - 1) + HEADER_LEN + t, idx, l)
    requires |SegOf(h.recs)| <= |seg| && EntryPos(|h.recs|) <= |idx|
    ensures |seg| >= SEG_MAGIC_LEN
    ensures Rebuilt(sha, storeId, Recover(sha, GenesisOf(sha, storeId), seg, idx), Damaged(h.recs, t))
    ensures !(Damaged(h.recs, t) <= h.recs)
  {
    hide TearShows, SegOf, IdxOf, GenesisOf, Recover, Whole, Rebuilt, RecordEnd, IdxImage, Damaged, Loses;
    var recs, n := h.recs, |h.recs| - 1;
    var k := OffsetOf(recs, n) + HEADER_LEN + t;
    var now := RecoverRebuilds(sha, storeId, recs, h.flushed, seg, k, idx, l);
    DamagedFound(sha, recs, t, seg, k);
    DamagedDiffers(recs, t);
    KillExact(sha, storeId, h, seg, k, idx, l, now);
    RebuiltReads(sha, storeId, seg, idx, now);
    assert |now| == n + 1;
    PrefixInjective(now, Damaged(recs, t), seg);
    assert now == Damaged(recs, t);
  }

  /** At the cut the guard of the second loop finds the damaged record, unhashed. */
  lemma {:induction false} DamagedFound(sha: Sha, recs: seq<Rec>, t: nat, seg: seq<Byte>, k: nat)
    requires Fits(recs) && recs != [] && t <= |recs[|recs| - 1].bytes|
    requires k == OffsetOf(recs, |recs| - 1) + HEADER_LEN + t
    requires k <= |SegOf(recs)| <= |seg| && seg == SegOf(recs)[..k] + Zeros(|seg| - k)
    ensures Fits(Damaged(recs, t)) && SegOf(Damaged(recs, t)) <= seg
    ensures t < |recs[|recs| - 1].bytes| ==> Whole(recs, k) == |recs| - 1
    ensures RecordEnd(sha, seg, OffsetOf(recs, |recs| - 1), |recs| - 1, false).Some?
  {
    hide SegOf, Whole, RecordEnd, Damaged, Header, Fits;
    var n, bad := |recs| - 1, Damaged(recs, t);
    HeaderAt(recs, n);
    if t < |recs[n].bytes| {
      WholeIs(recs, k, n);
    }
    DamagedSegment(recs, t);
    ZerosCover(SegOf(recs), k, seg);
    assert bad[..n + 1] == bad;
    FindsWhole(sha, bad, seg, n, false);
  }

  // ----- Such images come about

  /** The first kill: one byte of a record `b` behind the flushed ones is missing, its index
      entry is whole. Recovery drops `b` and leaves zeros where both stood. */
  lemma {:induction false} FirstKill(sha: Sha, storeId: StoreId, recs: seq<Rec>, b: Rec) returns (o: Outcome)
    requires Fits(recs + [b]) && Honest(sha, b)
    ensures var all := recs + [b];
      && |SegOf(all)| - 1 >= SEG_MAGIC_LEN
      && o == Recover(sha, GenesisOf(sha, storeId), SegOf(all)[..|SegOf(all)| - 1], IdxOf(sha, storeId, all))
      && Rebuilt(sha, storeId, o, recs) && |o.seg| == |SegOf(all)| - 1 && |o.idx| >= EntryPos(|all|)
    ensures KillAndRecover(sha, storeId, History(recs + [b], |recs|), History(recs, |recs|))
  {
    hide TearShows, SegOf, IdxOf, GenesisOf, Recover, Whole, Framed, ChainOf;
    var all := recs + [b];
    assert all[..|recs|] == recs && all[..|all|] == all;
    SegSnoc(recs, b);
    SegPrefix(recs, 0);
    FitsPrefix(all, |recs|);
    var k, l := |SegOf(all)| - 1, EntryPos(|all|);
    var seg, idx := SegOf(all)[..k], IdxOf(sha, storeId, all);
    assert seg == SegOf(all)[..k] + Zeros(|seg| - k);
    assert idx == idx[..l] + Zeros(|idx| - l);
    o := Recover(sha, GenesisOf(sha, storeId), seg, idx);
    CleanTear(sha, GenesisOf(sha, storeId), seg, idx, l);
    WholeIs(all, k, |recs|);
    var now := RecoverRebuilds(sha, storeId, all, |recs|, seg, k, idx, l);
    assert CrashImage(sha, storeId, History(all, |recs|), seg, k, idx, l);
  }

  /** What the second kill leaves of `c`, appended over those zeros: its header and `t` bytes
      of its body, and of its index entry all or nothing. */
  function SecondSegment(recs: seq<Rec>, c: Rec, t: nat, seg: seq<Byte>): seq<Byte>
    requires t <= |c.bytes|
  {
    Overlay(seg, |SegOf(recs)|, Framed(|recs|, c)[..HEADER_LEN + t])
  }

  function SecondIndex(sha: Sha, storeId: StoreId, recs: seq<Rec>, c: Rec, drained: bool, idx: seq<Byte>): seq<Byte> {
    if drained then Overlay(idx, EntryPos(|recs|), Entry(|SegOf(recs)|, ChainOf(sha, GenesisOf(sha, storeId), recs + [c]))) else idx
  }

  /** Two kills alter a record. Whatever the store holds, whatever record the first kill
      tears and whatever shorter one the second, and whether or not the index buffer drained
      before the second: the store comes back with the second record under its id and other
      bytes in it. */
  lemma TwoKillsAlter(sha: Sha, storeId: StoreId, recs: seq<Rec>, b: Rec, c: Rec, t: nat, drained: bool)
    requires Fits(recs + [b]) && Fits(recs + [c]) && Honest(sha, b) && Honest(sha, c)
    requires |c.bytes| < |b.bytes| && t <= |c.bytes| && Loses(recs + [c], t)
    ensures KillAndRecover(sha, storeId, History(recs + [b], |recs|), History(recs, |recs|))
    ensures Append(sha, History(recs, |recs|), History(recs + [c], |recs|))
    ensures |Damaged(recs + [c], t)| == |recs| + 1
    ensures KillAndRecover(sha, storeId, History(recs + [c], |recs|), History(Damaged(recs + [c], t), |recs| + 1))
    ensures !(Damaged(recs + [c], t) <= recs + [c])
  {
    hide SegOf, IdxOf, GenesisOf, Recover, Framed, ChainOf, Rebuilt, CrashImage, Loses, Damaged, SecondSegment, SecondIndex;
    var o := FirstKill(sha, storeId, recs, b);
    var h := History(recs + [c], |recs|);
    assert h.recs[..|recs|] == recs;
    var seg, idx := SecondSegment(recs, c, t, o.seg), SecondIndex(sha, storeId, recs, c, drained, o.idx);
    var l := EntryPos(if drained then |recs| + 1 else |recs|);
    SecondImage(sha, storeId, recs, b, c, t, drained, o);
    TornBodyAccepted(sha, storeId, h, t, seg, idx, l);
    DamagedDiffers(h.recs, t);
    DamagedSegment(h.recs, t);
  }

  lemma {:induction false} SecondImage(sha: Sha, storeId: StoreId, recs: seq<Rec>, b: Rec, c: Rec, t: nat, drained: bool, o: Outcome)
    requires Fits(recs + [b]) && Fits(recs + [c]) && Rebuilt(sha, storeId, o, recs)
    requires |o.seg| == |SegOf(recs + [b])| - 1 && |o.idx| >= EntryPos(|recs| + 1)
    requires |c.bytes| < |b.bytes| && t <= |c.bytes|
    ensures var h := History(recs + [c], |recs|);
      var seg, idx := SecondSegment(recs, c, t, o.seg), SecondIndex(sha, storeId, recs, c, drained, o.idx);
      && CrashImage(sha, storeId, h, seg, OffsetOf(h.recs, |recs|) + HEADER_LEN + t, idx, EntryPos(if drained then |recs| + 1 else |recs|))
      && |SegOf(h.recs)| <= |seg| && EntryPos(|h.recs|) <= |idx|
  {
    hide TearShows, SegOf, IdxOf, GenesisOf, Framed, SegImage, IdxImage, SecondSegment, SecondIndex, Rebuilt, Fits;
    var all := recs + [c];
    var seg, idx := SecondSegment(recs, c, t, o.seg), SecondIndex(sha, storeId, recs, c, drained, o.idx);
    CleanTear(sha, GenesisOf(sha, storeId), seg, idx, EntryPos(if drained then |recs| + 1 else |recs|));
    SecondSegmentImage(sha, storeId, recs, b, c, t, o);
    SecondIndexImage(sha, storeId, recs, c, drained, o);
  }

  lemma {:induction false} SecondSegmentImage(sha: Sha, storeId: StoreId, recs: seq<Rec>, b: Rec, c: Rec, t: nat, o: Outcome)
    requires Fits(recs + [b]) && Rebuilt(sha, storeId, o, recs) && |o.seg| == |SegOf(recs + [b])| - 1
    requires |c.bytes| < |b.bytes| && t <= |c.bytes|
    ensures var all, seg := recs + [c], SecondSegment(recs, c, t, o.seg);
      && SegImage(all, |recs|, seg, OffsetOf(all, |recs|) + HEADER_LEN + t) && |SegOf(all)| <= |seg| < 0x1_0000_0000_0000_0000
  {
    hide SegOf, IdxOf, GenesisOf, ChainOf, Framed;
    var all := recs + [c];
    assert all[..|recs|] == recs;
    SegSnoc(recs, b);
    SegSnoc(recs, c);
    OverZeros(SegOf(recs), |o.seg|, Framed(|recs|, c), HEADER_LEN + t);
  }

  lemma {:induction false} SecondIndexImage(sha: Sha, storeId: StoreId, recs: seq<Rec>, c: Rec, drained: bool, o: Outcome)
    requires Rebuilt(sha, storeId, o, recs) && |o.idx| >= EntryPos(|recs| + 1)
    ensures var all, idx := recs + [c], SecondIndex(sha, storeId, recs, c, drained, o.idx);
      && IdxImage(sha, storeId, all, |recs|, idx, EntryPos(if drained then |recs| + 1 else |recs|)) && EntryPos(|all|) <= |idx|
  {
    hide SegOf, IdxOf, GenesisOf, ChainOf, Entry;
    var all := recs + [c];
    IdxSnoc(sha, storeId, recs, c);
    var e := Entry(|SegOf(recs)|, ChainOf(sha, GenesisOf(sha, storeId), all));
    if drained {
      OverZeros(IdxOf(sha, storeId, recs), |o.idx|, e, |e|);
    } else {
      OverZeros(IdxOf(sha, storeId, recs), |o.idx|, e, 0);
    }
  }

  /** Writing the first `n` bytes of `e` over the zeros behind `p`. */
  lemma OverZeros(p: seq<Byte>, len: nat, e: seq<Byte>, n: nat)
    requires n <= |e| && |p| + n <= len
    ensures Overlay(p + Zeros(len - |p|), |p|, e[..n]) == (p + e)[..|p| + n] + Zeros(len - |p| - n)
    ensures n == 0 ==> p + Zeros(len - |p|) == (p + e)[..|p|] + Zeros(len - |p|)
  {
    var z := p + Zeros(len - |p|);
    assert z[..|p|] == p && (p + e)[..|p| + n] == p + e[..n];
    assert z[|p| + n..] == Zeros(len - |p| - n);
  }
}
