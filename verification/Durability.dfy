/** Whole runs of a store: appends, flushes and kills in any order, each kill followed by
    recovery of whatever image it left. */
module Durability {
  import opened Bytes
  import opened StoreFormat
  import opened Recovery
  import opened CrashImages

  /** The records appended so far, and how many of them had been flushed. */
  datatype History = History(recs: seq<Rec>, flushed: nat)

  ghost predicate Valid(sha: Sha, h: History) {
    h.flushed <= |h.recs| && Fits(h.recs) && HonestFrom(sha, h.recs, h.flushed)
  }

  /** The two files a kill can leave of a history: each stream cut on its own, at or past
      what was flushed, and zeros where an earlier recovery left them. */
  ghost predicate CrashImage(sha: Sha, storeId: StoreId, h: History, seg: seq<Byte>, k: nat, idx: seq<Byte>, l: nat) {
    && h.flushed <= |h.recs| && |seg| < 0x1_0000_0000_0000_0000
    && SegImage(h.recs, h.flushed, seg, k)
    && IdxImage(sha, storeId, h.recs, h.flushed, idx, l)
    && TearShows(sha, GenesisOf(sha, storeId), seg, idx, l)
  }

  ghost predicate Append(sha: Sha, h: History, h': History) {
    && |h'.recs| == |h.recs| + 1 && h'.recs[..|h.recs|] == h.recs
    && Honest(sha, h'.recs[|h.recs|]) && Fits(h'.recs)
    && h'.flushed == h.flushed
  }

  ghost predicate Flush(h: History, h': History) {
    h' == History(h.recs, |h.recs|)
  }

  /** A kill and the next open: recovery of some image of `h` rebuilds the files of `h'`,
      all of which are then on disk. */
  ghost predicate KillAndRecover(sha: Sha, storeId: StoreId, h: History, h': History) {
    && Fits(h'.recs) && h'.flushed == |h'.recs|
    && exists seg, k, idx, l ::
        && CrashImage(sha, storeId, h, seg, k, idx, l) && |seg| >= SEG_MAGIC_LEN
        && Rebuilt(sha, storeId, Recover(sha, GenesisOf(sha, storeId), seg, idx), h'.recs)
  }

  ghost predicate Step(sha: Sha, storeId: StoreId, h: History, h': History) {
    Append(sha, h, h') || Flush(h, h') || KillAndRecover(sha, storeId, h, h')
  }

  /** From an empty store, any number of steps. */
  ghost predicate Run(sha: Sha, storeId: StoreId, run: seq<History>) {
    && |run| > 0 && run[0] == History([], 0)
    && forall i :: 0 <= i < |run| - 1 ==> Step(sha, storeId, run[i], run[i + 1])
  }

  /** What was flushed stays: the same records under the same ids. */
  ghost predicate Keeps(h: History, h': History) {
    h.flushed <= |h.recs| && h.flushed <= |h'.recs| && h'.recs[..h.flushed] == h.recs[..h.flushed]
  }

  /** One files' history is unique, so what recovery rebuilds is a function of the image. */
  lemma RebuiltUnique(sha: Sha, storeId: StoreId, o: Outcome, a: seq<Rec>, b: seq<Rec>)
    requires Fits(a) && Fits(b) && Rebuilt(sha, storeId, o, a) && Rebuilt(sha, storeId, o, b)
    ensures a == b
  {
    hide SegOf, IdxOf, ChainOf, GenesisOf;
    assert SegOf(a) == o.seg[..|SegOf(a)|] == SegOf(b);
    SegInjective(a, b);
  }

  /** What one kill can do: the flushed records stand, the rest is cut to the records whose
      bytes had all reached the disk, and at most one record more, the last, differs from
      what was appended under its id; and that one only where zeros trailed the segment. */
  lemma KillLeaves(sha: Sha, storeId: StoreId, h: History, seg: seq<Byte>, k: nat, idx: seq<Byte>, l: nat, now: seq<Rec>)
    requires Valid(sha, h) && CrashImage(sha, storeId, h, seg, k, idx, l) && |seg| >= SEG_MAGIC_LEN
    requires Fits(now) && Rebuilt(sha, storeId, Recover(sha, GenesisOf(sha, storeId), seg, idx), now)
    ensures h.flushed <= Whole(h.recs, k) && Keeps(h, History(now, |now|))
    ensures now == h.recs[..Whole(h.recs, k)] || (Altered(h.recs, k, now) && k < |seg|)
  {
    hide SegOf, IdxOf, GenesisOf, Recover, Whole, Rebuilt;
    var found := RecoverRebuilds(sha, storeId, h.recs, h.flushed, seg, k, idx, l);
    RebuiltUnique(sha, storeId, Recover(sha, GenesisOf(sha, storeId), seg, idx), found, now);
  }

  lemma StepKeeps(sha: Sha, storeId: StoreId, h: History, h': History)
    requires Valid(sha, h) && Step(sha, storeId, h, h')
    ensures Valid(sha, h') && Keeps(h, h') && h.flushed <= h'.flushed
  {
    hide SegOf, IdxOf, GenesisOf, Recover, Whole, Rebuilt;
    if Append(sha, h, h') {
      assert h'.recs[..h.flushed] == h'.recs[..|h.recs|][..h.flushed];
      assert forall i :: 0 <= i < |h.recs| ==> h'.recs[i] == h'.recs[..|h.recs|][i];
    } else if KillAndRecover(sha, storeId, h, h') {
      var seg, k, idx, l :|
        && CrashImage(sha, storeId, h, seg, k, idx, l) && |seg| >= SEG_MAGIC_LEN
        && Rebuilt(sha, storeId, Recover(sha, GenesisOf(sha, storeId), seg, idx), h'.recs);
      KillLeaves(sha, storeId, h, seg, k, idx, l, h'.recs);
    }
  }

  lemma {:induction false} RunValid(sha: Sha, storeId: StoreId, run: seq<History>, i: nat)
    requires Run(sha, storeId, run) && i < |run|
    ensures Valid(sha, run[i])
  {
    hide Step, Valid;
    if i > 0 {
      RunValid(sha, storeId, run, i - 1);
      assert Step(sha, storeId, run[i - 1], run[i - 1 + 1]);
      StepKeeps(sha, storeId, run[i - 1], run[i]);
    } else {
      EmptyValid(sha);
    }
  }

  lemma EmptyValid(sha: Sha)
    ensures Valid(sha, History([], 0))
  {
  }

  /** Under this id both histories hold the same record, at the same place, with the same
      chain value. */
  ghost predicate Stands(sha: Sha, storeId: StoreId, a: seq<Rec>, b: seq<Rec>, id: nat) {
    && id < |a| && id < |b|
    && a[id] == b[id]
    && OffsetOf(a, id) == OffsetOf(b, id)
    && ChainOf(sha, GenesisOf(sha, storeId), a[..id + 1]) == ChainOf(sha, GenesisOf(sha, storeId), b[..id + 1])
  }

  /** Durability over whole runs. Once flushed, a record keeps its id, its bytes and its
      chain value through every later append, flush and kill, and the next id handed out is
      never one of those. */
  lemma {:induction false} FlushedForever(sha: Sha, storeId: StoreId, run: seq<History>, i: nat, j: nat)
    requires Run(sha, storeId, run) && i <= j < |run|
    ensures Keeps(run[i], run[j]) && run[i].flushed <= run[j].flushed <= |run[j].recs|
    ensures forall id :: 0 <= id < run[i].flushed ==> Stands(sha, storeId, run[i].recs, run[j].recs, id)
    decreases j - i
  {
    hide Step, SegOf, ChainOf, GenesisOf;
    RunValid(sha, storeId, run, i);
    RunValid(sha, storeId, run, j);
    if i < j {
      FlushedForever(sha, storeId, run, i, j - 1);
      RunValid(sha, storeId, run, j - 1);
      assert Step(sha, storeId, run[j - 1], run[j - 1 + 1]);
      StepKeeps(sha, storeId, run[j - 1], run[j]);
      PrefixOfPrefix(run[j - 1].recs, run[i].flushed, run[j - 1].flushed, run[j].recs);
    }
    forall id | 0 <= id < run[i].flushed
      ensures Stands(sha, storeId, run[i].recs, run[j].recs, id)
    {
      SamePrefix(run[j].recs, run[i].recs, run[i].flushed, id);
    }
  }

  lemma SamePrefix(a: seq<Rec>, b: seq<Rec>, f: nat, id: nat)
    requires id < f <= |a| && f <= |b| && a[..f] == b[..f]
    ensures a[id] == b[id] && a[..id] == b[..id] && a[..id + 1] == b[..id + 1]
  {
    assert a[id] == a[..f][id] && b[id] == b[..f][id];
    assert a[..id] == a[..f][..id] && b[..id] == b[..f][..id];
    assert a[..id + 1] == a[..f][..id + 1] && b[..id + 1] == b[..f][..id + 1];
  }
}
