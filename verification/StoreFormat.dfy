/** The two files of the raw store as functions of the history of records they hold:
    `raw.seg` is the magic and one framed record after another, `raw.idx` is a header and
    one 40-byte entry per record, its offset in the segment and its hash-chain value. */
module StoreFormat {
  import opened Bytes

  type Digest = d: seq<Byte> | |d| == 32 witness Zeros(32)
  type Sha = seq<Byte> -> Digest

  const REC_MAGIC: U32 := 0x4650_4C55
  const HEADER_LEN := 60
  const IDX_HEADER_LEN := 24
  const IDX_ENTRY_LEN := 40
  const SEG_MAGIC_LEN := 8

  /** "ULPFSEG\x01" and "ULPFIDX\x02". */
  const FILE_MAGIC: seq<Byte> := [0x55, 0x4C, 0x50, 0x46, 0x53, 0x45, 0x47, 1]
  const IDX_MAGIC: seq<Byte> := [0x55, 0x4C, 0x50, 0x46, 0x49, 0x44, 0x58, 2]

  /** "ULPF chain genesis". */
  const GENESIS_TEXT: seq<Byte> :=
    [0x55, 0x4C, 0x50, 0x46, 0x20, 0x63, 0x68, 0x61, 0x69, 0x6E, 0x20, 0x67, 0x65, 0x6E, 0x65, 0x73, 0x69, 0x73]

  type StoreId = s: seq<Byte> | |s| == 16 witness Zeros(16)

  /** A record as its frame states it. The digest is a field of its own: in a damaged
      record it is not the hash of the bytes. */
  datatype Rec = Rec(receipt: I64, source: U32, digest: Digest, bytes: seq<Byte>) {
    predicate Fits() {
      |bytes| < 0x1_0000_0000
    }
  }

  /** What `append` builds: the digest is the hash of the bytes. */
  ghost predicate Honest(sha: Sha, r: Rec) {
    r.digest == sha(r.bytes)
  }

  function GenesisOf(sha: Sha, storeId: StoreId): Digest {
    sha(GENESIS_TEXT + storeId)
  }

  function ChainStep(sha: Sha, prev: Digest, digest: Digest): Digest {
    sha(prev + digest)
  }

  function Header(id: nat, r: Rec): (h: seq<Byte>)
    ensures |h| == HEADER_LEN
  {
    Le(REC_MAGIC, 4) + Le(id, 8) + Le(ToU64(r.receipt), 8) + Le(r.source, 4) + Le(|r.bytes|, 4) + r.digest
  }

  function Framed(id: nat, r: Rec): (s: seq<Byte>)
    ensures |s| == HEADER_LEN + |r.bytes|
  {
    Header(id, r) + r.bytes
  }

  function SegOf(recs: seq<Rec>): (s: seq<Byte>)
    ensures |s| >= SEG_MAGIC_LEN
  {
    if recs == [] then FILE_MAGIC
    else SegOf(recs[..|recs| - 1]) + Framed(|recs| - 1, recs[|recs| - 1])
  }

  function ChainOf(sha: Sha, genesis: Digest, recs: seq<Rec>): Digest {
    if recs == [] then genesis
    else ChainStep(sha, ChainOf(sha, genesis, recs[..|recs| - 1]), recs[|recs| - 1].digest)
  }

  function Entry(off: nat, chain: Digest): (e: seq<Byte>)
    ensures |e| == IDX_ENTRY_LEN
  {
    Le(off, 8) + chain
  }

  function IdxHeader(storeId: StoreId): (h: seq<Byte>)
    ensures |h| == IDX_HEADER_LEN
  {
    IDX_MAGIC + storeId
  }

  /** The index of a history, as the entries that follow the header. */
  function EntriesOf(sha: Sha, genesis: Digest, recs: seq<Rec>): (s: seq<Byte>)
    ensures |s| == IDX_ENTRY_LEN * |recs|
  {
    if recs == [] then []
    else
      EntriesOf(sha, genesis, recs[..|recs| - 1])
      + Entry(|SegOf(recs[..|recs| - 1])|, ChainOf(sha, genesis, recs))
  }

  function IdxOf(sha: Sha, storeId: StoreId, recs: seq<Rec>): (s: seq<Byte>)
    ensures |s| == IDX_HEADER_LEN + IDX_ENTRY_LEN * |recs|
  {
    IdxHeader(storeId) + EntriesOf(sha, GenesisOf(sha, storeId), recs)
  }

  ghost predicate Fits(recs: seq<Rec>) {
    && |SegOf(recs)| < 0x1_0000_0000_0000_0000
    && forall i :: 0 <= i < |recs| ==> recs[i].Fits()
  }

  /** Where record `i` of the history starts; where the segment ends for `i == |recs|`. */
  function OffsetOf(recs: seq<Rec>, i: nat): nat
    requires i <= |recs|
  {
    |SegOf(recs[..i])|
  }

  // ----- Prefixes of a history are prefixes of its files

  lemma {:induction false} SegPrefix(recs: seq<Rec>, m: nat)
    requires m <= |recs|
    ensures SegOf(recs[..m]) <= SegOf(recs)
    ensures |SegOf(recs)| >= SEG_MAGIC_LEN + HEADER_LEN * |recs|
    ensures m < |recs| ==> |SegOf(recs[..m])| + HEADER_LEN <= |SegOf(recs)|
    decreases |recs|
  {
    if recs == [] {
      assert recs[..m] == recs;
    } else {
      var front := recs[..|recs| - 1];
      if m == |recs| {
        assert recs[..m] == recs;
        SegPrefix(front, |front|);
      } else {
        SegPrefix(front, m);
        assert front[..m] == recs[..m];
      }
    }
  }

  lemma {:induction false} EntriesPrefix(sha: Sha, genesis: Digest, recs: seq<Rec>, m: nat)
    requires m <= |recs|
    ensures EntriesOf(sha, genesis, recs[..m]) <= EntriesOf(sha, genesis, recs)
    decreases |recs|
  {
    hide SegOf, ChainOf, Entry;
    if m == |recs| {
      assert recs[..m] == recs;
    } else {
      var front := recs[..|recs| - 1];
      assert front[..m] == recs[..m];
      EntriesPrefix(sha, genesis, front, m);
    }
  }

  lemma IdxPrefix(sha: Sha, storeId: StoreId, recs: seq<Rec>, m: nat)
    requires m <= |recs|
    ensures IdxOf(sha, storeId, recs[..m]) <= IdxOf(sha, storeId, recs)
  {
    EntriesPrefix(sha, GenesisOf(sha, storeId), recs, m);
  }

  /** One more record: one more frame, one more link, one more entry. */
  lemma {:induction false} SegSnoc(recs: seq<Rec>, r: Rec)
    ensures SegOf(recs + [r]) == SegOf(recs) + Framed(|recs|, r)
  {
    hide Framed;
    assert (recs + [r])[..|recs|] == recs;
  }

  lemma {:induction false} IdxSnoc(sha: Sha, storeId: StoreId, recs: seq<Rec>, r: Rec)
    ensures var g := GenesisOf(sha, storeId);
      && ChainOf(sha, g, recs + [r]) == ChainStep(sha, ChainOf(sha, g, recs), r.digest)
      && IdxOf(sha, storeId, recs + [r])
         == IdxOf(sha, storeId, recs) + Entry(|SegOf(recs)|, ChainOf(sha, g, recs + [r]))
  {
    hide SegOf, Entry, IdxHeader, ChainStep;
    var g := GenesisOf(sha, storeId);
    assert (recs + [r])[..|recs|] == recs;
    assert EntriesOf(sha, g, recs + [r])
        == EntriesOf(sha, g, recs) + Entry(|SegOf(recs)|, ChainOf(sha, g, recs + [r]));
  }

  /** Entry `i` of the index stands at its place and holds the offset and the chain value
      of the prefix. */
  lemma EntryAt(sha: Sha, storeId: StoreId, recs: seq<Rec>, i: nat)
    requires i < |recs|
    ensures var at := IDX_HEADER_LEN + IDX_ENTRY_LEN * i;
      IdxOf(sha, storeId, recs)[at..at + IDX_ENTRY_LEN]
      == Entry(OffsetOf(recs, i), ChainOf(sha, GenesisOf(sha, storeId), recs[..i + 1]))
  {
    hide SegOf, ChainOf, Entry, IdxOf, GenesisOf;
    var g := GenesisOf(sha, storeId);
    IdxPrefix(sha, storeId, recs, i + 1);
    assert recs[..i + 1] == recs[..i] + [recs[i]];
    IdxSnoc(sha, storeId, recs[..i], recs[i]);
    var e := Entry(OffsetOf(recs, i), ChainOf(sha, g, recs[..i + 1]));
    EndOfPrefix(IdxOf(sha, storeId, recs[..i]), e, IdxOf(sha, storeId, recs));
  }

  lemma EndOfPrefix(p: seq<Byte>, e: seq<Byte>, s: seq<Byte>)
    requires p + e <= s
    ensures s[|p|..|p| + |e|] == e
  {
    assert s[..|p| + |e|] == p + e;
    assert s[|p|..|p| + |e|] == (p + e)[|p|..];
  }

  /** Record `i` stands in the segment between its offset and the next. */
  lemma {:induction false} FramedAt(recs: seq<Rec>, i: nat)
    requires i < |recs|
    ensures OffsetOf(recs, i + 1) == OffsetOf(recs, i) + HEADER_LEN + |recs[i].bytes| <= |SegOf(recs)|
    ensures SegOf(recs)[OffsetOf(recs, i)..OffsetOf(recs, i + 1)] == Framed(i, recs[i])
  {
    hide SegOf, Framed;
    SegPrefix(recs, i + 1);
    assert recs[..i + 1] == recs[..i] + [recs[i]];
    SegSnoc(recs[..i], recs[i]);
    EndOfPrefix(SegOf(recs[..i]), Framed(i, recs[i]), SegOf(recs));
  }

  lemma {:induction false} OffsetsGrow(recs: seq<Rec>, i: nat, j: nat)
    requires i <= j <= |recs|
    ensures SEG_MAGIC_LEN <= OffsetOf(recs, i) <= OffsetOf(recs, j) <= |SegOf(recs)|
    ensures i < j ==> OffsetOf(recs, i) + HEADER_LEN <= OffsetOf(recs, j)
  {
    SegPrefix(recs, j);
    SegPrefix(recs[..j], i);
    assert recs[..j][..i] == recs[..i];
  }

  lemma {:induction false} PrefixIsSlice(recs: seq<Rec>, m: nat)
    requires m <= |recs|
    ensures OffsetOf(recs, m) <= |SegOf(recs)|
    ensures SegOf(recs[..m]) == SegOf(recs)[..OffsetOf(recs, m)]
  {
    SegPrefix(recs, m);
  }

  /** Frames are read front to back: two histories whose segments begin one file agree as
      far as the shorter goes. */
  lemma {:induction false} PrefixInjective(a: seq<Rec>, b: seq<Rec>, seg: seq<Byte>)
    requires Fits(a) && Fits(b) && |a| <= |b|
    requires SegOf(a) <= seg && SegOf(b) <= seg
    ensures a == b[..|a|]
    decreases |a|
  {
    hide SegOf, Framed, Header;
    if a != [] {
      var n := |a| - 1;
      SegPrefix(a, n);
      FitsPrefix(a, n);
      PrefixInjective(a[..n], b, seg);
      SameRecordAt(a, b, seg, n);
      assert a == a[..n] + [a[n]] && b[..n + 1] == b[..n] + [b[n]];
    }
  }

  lemma FitsPrefix(recs: seq<Rec>, m: nat)
    requires Fits(recs) && m <= |recs|
    ensures Fits(recs[..m])
  {
    hide SegOf;
    SegPrefix(recs, m);
  }

  lemma {:induction false} SameRecordAt(a: seq<Rec>, b: seq<Rec>, seg: seq<Byte>, n: nat)
    requires Fits(a) && Fits(b) && n < |a| && n < |b|
    requires SegOf(a) <= seg && SegOf(b) <= seg && a[..n] == b[..n]
    ensures a[n] == b[n]
  {
    hide SegOf, Framed, Header;
    FramedAt(a, n);
    FramedAt(b, n);
    HeaderAt(a, n);
    HeaderAt(b, n);
    NextOffset(a, n);
    NextOffset(b, n);
    SegPrefix(a, n);
    var off := OffsetOf(a, n);
    assert SegOf(a)[off..off + HEADER_LEN] == seg[off..off + HEADER_LEN] == SegOf(b)[off..off + HEADER_LEN];
    assert OffsetOf(a, n + 1) == OffsetOf(b, n + 1);
    assert SegOf(a)[off..OffsetOf(a, n + 1)] == seg[off..OffsetOf(a, n + 1)] == SegOf(b)[off..OffsetOf(a, n + 1)];
    FramedInjective(n, a[n], b[n]);
  }

  /** A history is what its segment says: no two histories write the same file. */
  lemma {:induction false} SegInjective(a: seq<Rec>, b: seq<Rec>)
    requires Fits(a) && Fits(b) && SegOf(a) == SegOf(b)
    ensures a == b
  {
    hide SegOf;
    SegPrefix(a, if |b| <= |a| then |b| else |a|);
    SegPrefix(b, if |b| <= |a| then |b| else |a|);
    if |a| <= |b| {
      PrefixInjective(a, b, SegOf(a));
      assert |a| == |b| ==> b[..|a|] == b;
    } else {
      PrefixInjective(b, a, SegOf(a));
    }
  }

  lemma FrontOfSlice(s: seq<Byte>, from: nat, to: nat, front: seq<Byte>, back: seq<Byte>)
    requires from <= to <= |s| && s[from..to] == front + back
    ensures s[from..from + |front|] == front
    ensures s[from + |front|..to] == back
  {
    assert s[from..from + |front|] == s[from..to][..|front|];
    assert s[from + |front|..to] == s[from..to][|front|..];
  }

  lemma {:induction false} HeaderAt(recs: seq<Rec>, i: nat)
    requires i < |recs|
    ensures var off := OffsetOf(recs, i);
      && off + HEADER_LEN + |recs[i].bytes| == OffsetOf(recs, i + 1) <= |SegOf(recs)|
      && SegOf(recs)[off..off + HEADER_LEN] == Header(i, recs[i])
      && SegOf(recs)[off + HEADER_LEN..OffsetOf(recs, i + 1)] == recs[i].bytes
  {
    hide SegOf, Header;
    FramedAt(recs, i);
    FrontOfSlice(SegOf(recs), OffsetOf(recs, i), OffsetOf(recs, i + 1), Header(i, recs[i]), recs[i].bytes);
  }

  /** The length field of record `i` says where record `i + 1` starts. */
  lemma {:induction false} NextOffset(recs: seq<Rec>, i: nat)
    requires Fits(recs) && i < |recs|
    ensures var off := OffsetOf(recs, i);
      && off + HEADER_LEN <= |SegOf(recs)|
      && OffsetOf(recs, i + 1) == off + HEADER_LEN + UnLe(SegOf(recs)[off..off + HEADER_LEN][24..28])
  {
    HeaderAt(recs, i);
    SegPrefix(recs, i);
    HeaderFields(i, recs[i]);
  }

  // ----- The frame of one record, read back

  /** A header parsed field by field, as `record_end` and `get` read it. */
  lemma HeaderFields(id: nat, r: Rec)
    requires id < 0x1_0000_0000_0000_0000 && r.Fits()
    ensures var h := Header(id, r);
      && UnLe(h[0..4]) == REC_MAGIC && UnLe(h[4..12]) == id
      && UnLe(h[12..20]) == ToU64(r.receipt) && UnLe(h[20..24]) == r.source
      && UnLe(h[24..28]) == |r.bytes| && h[28..60] == r.digest
  {
    var h := Header(id, r);
    PowersOf256();
    assert h[0..4] == Le(REC_MAGIC, 4);
    assert h[4..12] == Le(id, 8);
    assert h[12..20] == Le(ToU64(r.receipt), 8);
    assert h[20..24] == Le(r.source, 4);
    assert h[24..28] == Le(|r.bytes|, 4);
    assert h[28..60] == r.digest;
    LeThenUnLe(REC_MAGIC, 4);
    LeThenUnLe(id, 8);
    LeThenUnLe(ToU64(r.receipt), 8);
    LeThenUnLe(r.source, 4);
    LeThenUnLe(|r.bytes|, 4);
  }

  lemma FramedInjective(id: nat, a: Rec, b: Rec)
    requires id < 0x1_0000_0000_0000_0000 && a.Fits() && b.Fits()
    requires Framed(id, a) == Framed(id, b)
    ensures a == b
  {
    HeaderFields(id, a);
    HeaderFields(id, b);
    assert Framed(id, a)[..HEADER_LEN] == Header(id, a);
    assert Framed(id, b)[..HEADER_LEN] == Header(id, b);
    assert Framed(id, a)[HEADER_LEN..] == a.bytes;
    assert Framed(id, b)[HEADER_LEN..] == b.bytes;
    assert FromU64(ToU64(a.receipt)) == a.receipt && FromU64(ToU64(b.receipt)) == b.receipt;
  }

  /** The record a header of this magic and id describes, whatever wrote the bytes. */
  function Parsed(hdr: seq<Byte>, body: seq<Byte>): (r: Rec)
    requires |hdr| == HEADER_LEN
  {
    PowersOf256();
    Rec(FromU64(UnLe(hdr[12..20])), UnLe(hdr[20..24]), hdr[28..60], body)
  }

  lemma SixFields(h: seq<Byte>)
    requires |h| == HEADER_LEN
    ensures h == h[0..4] + h[4..12] + h[12..20] + h[20..24] + h[24..28] + h[28..60]
  {
  }

  /** Any 60 bytes with the magic and the id are the header of the record they parse to. */
  lemma ParsedThenHeader(hdr: seq<Byte>, id: nat, body: seq<Byte>)
    requires |hdr| == HEADER_LEN && UnLe(hdr[0..4]) == REC_MAGIC && UnLe(hdr[4..12]) == id
    requires UnLe(hdr[24..28]) == |body|
    ensures Parsed(hdr, body).Fits()
    ensures Header(id, Parsed(hdr, body)) == hdr
  {
    var r := Parsed(hdr, body);
    assert |body| < Pow256(4);
    assert Le(REC_MAGIC, 4) == hdr[0..4] by { UnLeThenLe(hdr[0..4]); }
    assert Le(id, 8) == hdr[4..12] by { UnLeThenLe(hdr[4..12]); }
    assert Le(ToU64(r.receipt), 8) == hdr[12..20] by {
      PowersOf256();
      UnLeThenLe(hdr[12..20]);
      assert UnLe(hdr[12..20]) < Pow256(8);
    }
    assert Le(r.source, 4) == hdr[20..24] by { UnLeThenLe(hdr[20..24]); }
    assert Le(|body|, 4) == hdr[24..28] by { UnLeThenLe(hdr[24..28]); }
    SixFields(hdr);
    PowersOf256();
  }
}
