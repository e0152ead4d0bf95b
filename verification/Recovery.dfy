/** `recover`: one consistent store from whatever a kill left of the two files. First the
    recovery itself as functions of the two byte strings, then what it does to every crash
    image: a prefix of each stream followed by the zeros of earlier recoveries. */
module Recovery {
  import opened Bytes
  import opened Disk
  import opened StoreFormat

  // ----- The recovery, as the code reads and writes the two files

  datatype Found = Found(end: nat, digest: Digest)

  /** End and stored digest of the record at `off`, if a complete record carrying `id` is
      there; the bytes are hashed only on request. */
  function RecordEnd(sha: Sha, seg: seq<Byte>, off: nat, id: nat, checkDigest: bool): (r: Option<Found>)
    ensures r.Some? ==> off + HEADER_LEN <= r.value.end <= |seg|
  {
    if off < SEG_MAGIC_LEN || off + HEADER_LEN > |seg| then None
    else
      var hdr := seg[off..off + HEADER_LEN];
      if UnLe(hdr[0..4]) != REC_MAGIC || UnLe(hdr[4..12]) != id then None
      else
        var end := off + HEADER_LEN + UnLe(hdr[24..28]);
        if end > |seg| then None
        else if checkDigest && sha(seg[off + HEADER_LEN..end]) != hdr[28..60] then None
        else Some(Found(end, hdr[28..60]))
  }

  function EntryPos(id: nat): nat {
    IDX_HEADER_LEN + id * IDX_ENTRY_LEN
  }

  function ReadEntry(idx: seq<Byte>, id: nat): (e: seq<Byte>)
    requires EntryPos(id + 1) <= |idx|
    ensures |e| == IDX_ENTRY_LEN
  {
    idx[EntryPos(id)..EntryPos(id + 1)]
  }

  /** `saturating_sub` and a floor: a torn last entry is not counted. */
  function Indexed(idx: seq<Byte>): (n: nat)
    ensures n > 0 ==> EntryPos(n) <= |idx|
    ensures |idx| < EntryPos(n + 1)
  {
    if |idx| <= IDX_HEADER_LEN then 0 else (|idx| - IDX_HEADER_LEN) / IDX_ENTRY_LEN
  }

  datatype Scan = Scan(n: nat, segLen: nat, head: Digest)

  /** Whether entry `n - 1` names a record of the segment and its chain value follows its
      predecessor's. */
  function Linked(sha: Sha, genesis: Digest, seg: seq<Byte>, idx: seq<Byte>, n: nat): (r: Option<Scan>)
    requires 0 < n && EntryPos(n) <= |idx|
  {
    var entry := ReadEntry(idx, n - 1);
    match RecordEnd(sha, seg, UnLe(entry[0..8]), n - 1, false)
    case None => None
    case Some(found) =>
      var prev := if n >= 2 then ReadEntry(idx, n - 2)[8..40] else genesis;
      if entry[8..40] == ChainStep(sha, prev, found.digest) then Some(Scan(n, found.end, entry[8..40])) else None
  }

  /** The first loop: entries are dropped from the back until one is linked. */
  function Backward(sha: Sha, genesis: Digest, seg: seq<Byte>, idx: seq<Byte>, n: nat): (r: Scan)
    requires n > 0 ==> EntryPos(n) <= |idx|
    ensures r.n <= n
  {
    if n == 0 then Scan(0, SEG_MAGIC_LEN, genesis)
    else match Linked(sha, genesis, seg, idx, n)
      case Some(r) => r
      case None => Backward(sha, genesis, seg, idx, n - 1)
  }

  datatype Recovered = Recovered(scan: Scan, idx: seq<Byte>)

  /** The second loop: complete records past the last entry are indexed again. */
  function Forward(sha: Sha, seg: seq<Byte>, s: Recovered, indexed: nat): (r: Recovered)
    requires s.scan.segLen <= |seg|
    ensures r.scan.segLen <= |seg|
    decreases |seg| - s.scan.segLen
  {
    match RecordEnd(sha, seg, s.scan.segLen, s.scan.n, s.scan.n >= indexed)
    case None => s
    case Some(found) => Forward(sha, seg, Reindexed(sha, s, found), indexed)
  }

  function Reindexed(sha: Sha, s: Recovered, found: Found): Recovered {
    var head := ChainStep(sha, s.scan.head, found.digest);
    Recovered(Scan(s.scan.n + 1, found.end, head),
              Overlay(s.idx, EntryPos(s.scan.n), Entry(s.scan.segLen, head)))
  }

  /** `zero_tail`: nothing is cut off, `from..to` is overwritten with zeros. */
  function ZeroTail(data: seq<Byte>, from: nat, to: nat): seq<Byte> {
    if to <= from then data else Overlay(data, from, Zeros(to - from))
  }

  datatype Outcome = Outcome(scan: Scan, seg: seq<Byte>, idx: seq<Byte>)

  function Recover(sha: Sha, genesis: Digest, seg: seq<Byte>, idx: seq<Byte>): (r: Outcome)
    requires |seg| >= SEG_MAGIC_LEN
  {
    var indexed := Indexed(idx);
    BackwardInBounds(sha, genesis, seg, idx, indexed);
    var s := Forward(sha, seg, Recovered(Backward(sha, genesis, seg, idx, indexed), idx), indexed);
    Outcome(s.scan,
            ZeroTail(seg, s.scan.segLen, |seg|),
            ZeroTail(s.idx, EntryPos(s.scan.n), |idx|))
  }

  lemma {:induction false} BackwardInBounds(sha: Sha, genesis: Digest, seg: seq<Byte>, idx: seq<Byte>, n: nat)
    requires n > 0 ==> EntryPos(n) <= |idx|
    requires |seg| >= SEG_MAGIC_LEN
    ensures Backward(sha, genesis, seg, idx, n).segLen <= |seg|
  {
    if n > 0 && Linked(sha, genesis, seg, idx, n) == None {
      BackwardInBounds(sha, genesis, seg, idx, n - 1);
    }
  }

  // ----- Crash images

  /** What a kill can leave of the segment: at least the flushed records, then any further
      prefix of what was written, then the zeros an earlier recovery left ahead of the
      writer. */
  ghost predicate SegImage(recs: seq<Rec>, flushed: nat, seg: seq<Byte>, k: nat)
    requires flushed <= |recs|
  {
    && OffsetOf(recs, flushed) <= k <= |SegOf(recs)| && k <= |seg|
    && seg == SegOf(recs)[..k] + Zeros(|seg| - k)
  }

  /** The same of the index, whose buffer drains on its own. */
  ghost predicate IdxImage(sha: Sha, storeId: StoreId, recs: seq<Rec>, flushed: nat, idx: seq<Byte>, l: nat)
    requires flushed <= |recs|
  {
    && EntryPos(flushed) <= l <= EntryPos(|recs|) && l <= |idx|
    && idx == IdxOf(sha, storeId, recs)[..l] + Zeros(|idx| - l)
  }

  /** The records of a history whose last byte lies within the first `k` of the segment. */
  function Whole(recs: seq<Rec>, k: nat): (m: nat)
    ensures m <= |recs|
  {
    WholeUpTo(recs, k, |recs|)
  }

  function WholeUpTo(recs: seq<Rec>, k: nat, n: nat): (m: nat)
    requires n <= |recs|
    ensures m <= n
    ensures m > 0 ==> OffsetOf(recs, m) <= k
    ensures forall i :: m < i <= n ==> OffsetOf(recs, i) > k
  {
    if n == 0 || OffsetOf(recs, n) <= k then n else WholeUpTo(recs, k, n - 1)
  }

  /** The chain value the link test computes for entry `n - 1`, if it finds a record. */
  function LinkValue(sha: Sha, genesis: Digest, seg: seq<Byte>, idx: seq<Byte>, n: nat): Option<Digest>
    requires 0 < n && EntryPos(n) <= |idx|
  {
    match RecordEnd(sha, seg, UnLe(ReadEntry(idx, n - 1)[0..8]), n - 1, false)
    case None => None
    case Some(found) => Some(ChainStep(sha, if n >= 2 then ReadEntry(idx, n - 2)[8..40] else genesis, found.digest))
  }

  /** The hypothesis about the hash that a zero tail needs. The entry, if there is one, that
      is torn inside its offset has 32 zeros for its chain value; that is not the very value
      the link test computes for it. */
  ghost predicate TearShows(sha: Sha, genesis: Digest, seg: seq<Byte>, idx: seq<Byte>, l: nat) {
    forall n: nat :: 0 < n && EntryPos(n) <= |idx| && TornOffset(n, l) ==> LinkValue(sha, genesis, seg, idx, n) != Some(Zeros(32))
  }

  predicate TornOffset(n: nat, l: nat) {
    n > 0 && EntryPos(n - 1) < l < EntryPos(n - 1) + 8
  }

  /** No entry is, if nothing follows the cut or it falls between two entries. */
  lemma CleanTear(sha: Sha, genesis: Digest, seg: seq<Byte>, idx: seq<Byte>, l: nat)
    requires |idx| == l || exists j: nat :: l == EntryPos(j)
    ensures TearShows(sha, genesis, seg, idx, l)
  {
    hide LinkValue;
  }

  /** Every record past the first `from` is as `append` built it. */
  ghost predicate HonestFrom(sha: Sha, recs: seq<Rec>, from: nat) {
    forall i :: from <= i < |recs| ==> Honest(sha, recs[i])
  }

  /** A kill and what recovery makes of it: the files are those of the history `now`. */
  ghost predicate Rebuilt(sha: Sha, storeId: StoreId, o: Outcome, now: seq<Rec>) {
    && o.scan == Scan(|now|, |SegOf(now)|, ChainOf(sha, GenesisOf(sha, storeId), now))
    && |o.seg| >= |SegOf(now)| && o.seg == SegOf(now) + Zeros(|o.seg| - |SegOf(now)|)
    && |o.idx| >= EntryPos(|now|) && o.idx == IdxOf(sha, storeId, now) + Zeros(|o.idx| - EntryPos(|now|))
  }

  /** `now` is the whole records of the prefix and one more, read from its torn remains. */
  ghost predicate Altered(recs: seq<Rec>, k: nat, now: seq<Rec>) {
    var m := Whole(recs, k);
    m < |recs| && |now| == m + 1 && now[..m] == recs[..m]
  }

  /** Either nothing of the history was lost or altered so far, or nothing follows. */
  ghost predicate Kept(recs: seq<Rec>, k: nat, seg: seq<Byte>, now: seq<Rec>)
    requires SegOf(now) <= seg
  {
    || (|now| <= |recs| && now == recs[..|now|] && |SegOf(now)| <= k)
    || (Altered(recs, k, now) && k < |seg| && seg[|SegOf(now)|..] == Zeros(|seg| - |SegOf(now)|))
  }

  /** The state between the loops and inside the second: both files begin with those of
      the history `now`. */
  ghost predicate Agreed(sha: Sha, storeId: StoreId, recs: seq<Rec>, k: nat, seg: seq<Byte>, s: Recovered, now: seq<Rec>) {
    && s.scan == Scan(|now|, |SegOf(now)|, ChainOf(sha, GenesisOf(sha, storeId), now))
    && Fits(now)
    && SegOf(now) <= seg && IdxOf(sha, storeId, now) <= s.idx
    && Kept(recs, k, seg, now)
  }

  // ----- What `record_end` finds in an image

  /** Two files with a common prefix agree on every slice of it. */
  lemma SlicesAgree(p: seq<Byte>, s: seq<Byte>, t: seq<Byte>, from: nat, to: nat)
    requires p <= s && p <= t && from <= to <= |p|
    ensures s[from..to] == t[from..to]
  {
    assert s[from..to] == p[from..to];
    assert t[from..to] == p[from..to];
  }

  lemma ReadsFramed(sha: Sha, seg: seq<Byte>, off: nat, id: U64, r: Rec, checkDigest: bool)
    requires r.Fits() && SEG_MAGIC_LEN <= off && off + HEADER_LEN + |r.bytes| <= |seg|
    requires seg[off..off + HEADER_LEN] == Header(id, r)
    requires seg[off + HEADER_LEN..off + HEADER_LEN + |r.bytes|] == r.bytes
    requires checkDigest ==> Honest(sha, r)
    ensures RecordEnd(sha, seg, off, id, checkDigest) == Some(Found(off + HEADER_LEN + |r.bytes|, r.digest))
  {
    HeaderFields(id, r);
  }

  /** A record that lies whole within the prefix is found, with its own end and digest. */
  lemma FindsWhole(sha: Sha, recs: seq<Rec>, seg: seq<Byte>, i: nat, checkDigest: bool)
    requires Fits(recs) && i < |recs|
    requires SegOf(recs[..i + 1]) <= seg
    requires checkDigest ==> Honest(sha, recs[i])
    ensures RecordEnd(sha, seg, OffsetOf(recs, i), i, checkDigest)
         == Some(Found(OffsetOf(recs, i + 1), recs[i].digest))
  {
    hide SegOf, RecordEnd;
    var off, end := OffsetOf(recs, i), OffsetOf(recs, i + 1);
    var whole := SegOf(recs);
    SegPrefix(recs, i);
    HeaderAt(recs, i);
    SegPrefix(recs, i + 1);
    SlicesAgree(SegOf(recs[..i + 1]), seg, whole, off, off + HEADER_LEN);
    SlicesAgree(SegOf(recs[..i + 1]), seg, whole, off + HEADER_LEN, end);
    ReadsFramed(sha, seg, off, i, recs[i], checkDigest);
  }

  /** Where only zeros are left, or nothing, there is no record. */
  lemma FindsNothing(sha: Sha, seg: seq<Byte>, off: nat, id: nat, checkDigest: bool)
    requires off <= |seg| && seg[off..] == Zeros(|seg| - off)
    ensures RecordEnd(sha, seg, off, id, checkDigest) == None
  {
    if off + HEADER_LEN <= |seg| {
      assert seg[off..off + HEADER_LEN][0..4] == seg[off..][0..4] == Zeros(4);
      UnLeZeros(4);
    }
  }

  /** Whatever is found carries the framing of some record, read from the bytes there. */
  lemma FindsFramed(sha: Sha, seg: seq<Byte>, off: nat, id: nat, checkDigest: bool) returns (r: Rec)
    requires RecordEnd(sha, seg, off, id, checkDigest).Some?
    ensures var f := RecordEnd(sha, seg, off, id, checkDigest).value;
      && r.Fits() && f == Found(off + HEADER_LEN + |r.bytes|, r.digest)
      && f.end <= |seg| && seg[off..f.end] == Framed(id, r)
  {
    var hdr := seg[off..off + HEADER_LEN];
    var end := off + HEADER_LEN + UnLe(hdr[24..28]);
    var body := seg[off + HEADER_LEN..end];
    r := Parsed(hdr, body);
    ParsedThenHeader(hdr, id, body);
    assert seg[off..end] == hdr + body;
  }

  /** The frame of this record under this id stands at this offset. */
  predicate Standing(seg: seq<Byte>, off: nat, id: nat, r: Rec) {
    && r.Fits() && SEG_MAGIC_LEN <= off && off + HEADER_LEN + |r.bytes| <= |seg|
    && seg[off..off + HEADER_LEN + |r.bytes|] == Framed(id, r)
  }

  /** A record is found exactly where one stands whole, framed under that very id, and, if
      the bytes are to be hashed, honest; its end and digest are then the ones found. */
  lemma {:induction false} RecordEndExactly(sha: Sha, seg: seq<Byte>, off: nat, id: U64, checkDigest: bool)
    ensures RecordEnd(sha, seg, off, id, checkDigest).Some?
       <==> exists r :: Standing(seg, off, id, r) && (checkDigest ==> Honest(sha, r))
    ensures forall r :: Standing(seg, off, id, r) && (checkDigest ==> Honest(sha, r)) ==>
      RecordEnd(sha, seg, off, id, checkDigest) == Some(Found(off + HEADER_LEN + |r.bytes|, r.digest))
  {
    hide Framed, RecordEnd;
    if RecordEnd(sha, seg, off, id, checkDigest).Some? {
      var r := FindsFramed(sha, seg, off, id, checkDigest);
      FoundInside(sha, seg, off, id, checkDigest);
      if checkDigest { FoundHonest(sha, seg, off, id, r); }
      assert Standing(seg, off, id, r);
    }
    forall r | Standing(seg, off, id, r) && (checkDigest ==> Honest(sha, r))
      ensures RecordEnd(sha, seg, off, id, checkDigest) == Some(Found(off + HEADER_LEN + |r.bytes|, r.digest))
    {
      FrameParts(seg, off, id, r);
      ReadsFramed(sha, seg, off, id, r, checkDigest);
    }
  }

  lemma FrameParts(seg: seq<Byte>, off: nat, id: nat, r: Rec)
    requires Standing(seg, off, id, r)
    ensures seg[off..off + HEADER_LEN] == Header(id, r)
    ensures seg[off + HEADER_LEN..off + HEADER_LEN + |r.bytes|] == r.bytes
  {
    hide Header;
    FrontOfSlice(seg, off, off + HEADER_LEN + |r.bytes|, Header(id, r), r.bytes);
  }

  lemma FoundInside(sha: Sha, seg: seq<Byte>, off: nat, id: nat, checkDigest: bool)
    requires RecordEnd(sha, seg, off, id, checkDigest).Some?
    ensures off >= SEG_MAGIC_LEN
  {
  }

  lemma FoundHonest(sha: Sha, seg: seq<Byte>, off: nat, id: nat, r: Rec)
    requires RecordEnd(sha, seg, off, id, true).Some? && Standing(seg, off, id, r)
    requires RecordEnd(sha, seg, off, id, true).value == Found(off + HEADER_LEN + |r.bytes|, r.digest)
    ensures Honest(sha, r)
  {
    hide Framed;
    FrameParts(seg, off, id, r);
  }

  lemma EndFollowsHeader(sha: Sha, seg: seq<Byte>, off: nat, id: U64, r: Rec, checkDigest: bool)
    requires r.Fits() && off + HEADER_LEN <= |seg| && seg[off..off + HEADER_LEN] == Header(id, r)
    requires RecordEnd(sha, seg, off, id, checkDigest).Some?
    ensures RecordEnd(sha, seg, off, id, checkDigest).value.end == off + HEADER_LEN + |r.bytes|
  {
    HeaderFields(id, r);
  }

  /** If the bytes of record `i` end early, what is found there, if anything, ends past the
      last byte that reached the disk: only zeros follow it. */
  lemma {:induction false} FindsTorn(sha: Sha, recs: seq<Rec>, seg: seq<Byte>, k: nat, i: nat, checkDigest: bool)
    requires Fits(recs) && i < |recs|
    requires OffsetOf(recs, i) <= k < OffsetOf(recs, i + 1) && k <= |seg|
    requires k <= |SegOf(recs)| && SegOf(recs)[..k] <= seg
    requires RecordEnd(sha, seg, OffsetOf(recs, i), i, checkDigest).Some?
    ensures k < RecordEnd(sha, seg, OffsetOf(recs, i), i, checkDigest).value.end
  {
    hide SegOf, RecordEnd;
    var off := OffsetOf(recs, i);
    if off + HEADER_LEN <= k {
      HeaderAt(recs, i);
      SegPrefix(recs, i);
      SlicesAgree(SegOf(recs)[..k], seg, SegOf(recs), off, off + HEADER_LEN);
      EndFollowsHeader(sha, seg, off, i, recs[i], checkDigest);
    }
  }

  /** A record read at the end of a history extends it, files and all. */
  lemma {:induction false} ExtendsSeg(now: seq<Rec>, r: Rec, seg: seq<Byte>)
    requires Fits(now) && r.Fits() && SegOf(now) <= seg
    requires |SegOf(now)| + HEADER_LEN + |r.bytes| <= |seg| < 0x1_0000_0000_0000_0000
    requires seg[|SegOf(now)|..|SegOf(now)| + HEADER_LEN + |r.bytes|] == Framed(|now|, r)
    ensures Fits(now + [r]) && SegOf(now + [r]) <= seg
    ensures |SegOf(now + [r])| == |SegOf(now)| + HEADER_LEN + |r.bytes|
  {
    SegSnoc(now, r);
    var end := |SegOf(now + [r])|;
    assert seg[..end] == seg[..|SegOf(now)|] + seg[|SegOf(now)|..end];
  }

  lemma OverlayExtends(p: seq<Byte>, data: seq<Byte>, e: seq<Byte>)
    requires p <= data
    ensures p + e <= Overlay(data, |p|, e)
  {
    var over := Overlay(data, |p|, e);
    assert over[..|p| + |e|] == over[..|p|] + over[|p|..|p| + |e|];
  }

  lemma {:induction false} ExtendsIdx(sha: Sha, storeId: StoreId, now: seq<Rec>, r: Rec, idx: seq<Byte>)
    requires IdxOf(sha, storeId, now) <= idx
    ensures var g := GenesisOf(sha, storeId);
      var head := ChainStep(sha, ChainOf(sha, g, now), r.digest);
      && head == ChainOf(sha, g, now + [r])
      && IdxOf(sha, storeId, now + [r]) <= Overlay(idx, EntryPos(|now|), Entry(|SegOf(now)|, head))
  {
    hide IdxOf, SegOf, ChainOf, Entry, ChainStep, Overlay, GenesisOf;
    IdxSnoc(sha, storeId, now, r);
    var g := GenesisOf(sha, storeId);
    OverlayExtends(IdxOf(sha, storeId, now), idx, Entry(|SegOf(now)|, ChainOf(sha, g, now + [r])));
  }

  lemma WholeIs(recs: seq<Rec>, k: nat, n: nat)
    requires n <= |recs| && OffsetOf(recs, n) <= k
    requires n < |recs| ==> k < OffsetOf(recs, n + 1)
    ensures Whole(recs, k) == n
  {
    hide SegOf;
    var m := Whole(recs, k);
    if n < m {
      OffsetsGrow(recs, n + 1, m);
    }
  }

  lemma ZerosAfter(seg: seq<Byte>, k: nat, end: nat)
    requires k <= end <= |seg| && seg[k..] == Zeros(|seg| - k)
    ensures seg[end..] == Zeros(|seg| - end)
  {
    assert seg[end..] == seg[k..][end - k..];
  }

  lemma {:induction false} ImageParts(recs: seq<Rec>, flushed: nat, seg: seq<Byte>, k: nat)
    requires flushed <= |recs| && SegImage(recs, flushed, seg, k)
    ensures SegOf(recs)[..k] <= seg && seg[k..] == Zeros(|seg| - k)
  {
  }

  lemma {:induction false} PrefixInImage(recs: seq<Rec>, seg: seq<Byte>, k: nat, i: nat)
    requires i <= |recs| && OffsetOf(recs, i) <= k <= |SegOf(recs)| && k <= |seg| && SegOf(recs)[..k] <= seg
    ensures SegOf(recs[..i]) <= seg
  {
    hide SegOf;
    PrefixIsSlice(recs, i);
    assert SegOf(recs[..i]) == SegOf(recs)[..k][..OffsetOf(recs, i)];
  }

  /** Whatever record follows the first `i` is record `i` itself when its bytes are all
      there, and otherwise the one altered record, with only zeros behind it. */
  lemma FoundIsKept(sha: Sha, recs: seq<Rec>, flushed: nat, seg: seq<Byte>, k: nat, i: nat, checkDigest: bool, r: Rec)
    requires Fits(recs) && flushed <= |recs| && SegImage(recs, flushed, seg, k)
    requires i < |recs| && OffsetOf(recs, i) <= k
    requires r.Fits() && RecordEnd(sha, seg, OffsetOf(recs, i), i, checkDigest)
                      == Some(Found(OffsetOf(recs, i) + HEADER_LEN + |r.bytes|, r.digest))
    requires seg[OffsetOf(recs, i)..OffsetOf(recs, i) + HEADER_LEN + |r.bytes|] == Framed(i, r)
    requires SegOf(recs[..i] + [r]) <= seg
    requires |SegOf(recs[..i] + [r])| == OffsetOf(recs, i) + HEADER_LEN + |r.bytes|
    ensures Kept(recs, k, seg, recs[..i] + [r])
    ensures OffsetOf(recs, i + 1) <= k ==> r == recs[i]
  {
    hide SegOf, RecordEnd, Framed, Header;
    var off := OffsetOf(recs, i);
    var now := recs[..i] + [r];
    ImageParts(recs, flushed, seg, k);
    if OffsetOf(recs, i + 1) <= k {
      PrefixInImage(recs, seg, k, i + 1);
      FindsWholeEither(sha, recs, seg, i, checkDigest);
      FramedAt(recs, i);
      SegPrefix(recs, i);
      SlicesAgree(SegOf(recs)[..k], seg, SegOf(recs), off, OffsetOf(recs, i + 1));
      FramedInjective(i, r, recs[i]);
      assert now == recs[..i + 1];
    } else {
      FindsTorn(sha, recs, seg, k, i, checkDigest);
      WholeIs(recs, k, i);
      assert now[..i] == recs[..i];
      ZerosAfter(seg, k, |SegOf(now)|);
    }
  }

  lemma FindsWholeEither(sha: Sha, recs: seq<Rec>, seg: seq<Byte>, i: nat, checkDigest: bool)
    requires Fits(recs) && i < |recs|
    requires SegOf(recs[..i + 1]) <= seg
    requires RecordEnd(sha, seg, OffsetOf(recs, i), i, checkDigest).Some?
    ensures RecordEnd(sha, seg, OffsetOf(recs, i), i, checkDigest)
         == Some(Found(OffsetOf(recs, i + 1), recs[i].digest))
  {
    hide SegOf;
    FindsWhole(sha, recs, seg, i, false);
  }
}
