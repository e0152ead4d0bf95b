/** The engine as a system of steps. Producers append, flush and number their batches under
    one lock; workers render batches in any order; the output thread puts the lines back in
    sequence behind a buffer; a kill may fall between any two steps. The next start has its
    threads running while it reads and repairs the end of the output. */
module Pipeline {
  import opened Bytes
  import opened Framing
  import opened OutputLines
  import opened FileLines
  import D = Durability
  import S = StoreFormat

  /** A run of consecutive stored records, numbered under the store lock: by recovery, from
      the store, or by a producer that has just stored them. */
  datatype Batch = Batch(no: nat, first: nat, count: nat, recovered: bool)

  /** A batch as a worker rendered it: one line a record. */
  datatype Emitted = Emitted(no: nat, first: nat, lines: seq<Line>)

  /** How far recovery is with the end of the output file: it has yet to read it, has found
      a torn line to cut off, or is done with it. */
  datatype Tail = Unread | Torn(cut: Cut) | Settled

  datatype State = State(
    stored: nat,                 // records in the store, all flushed
    tail: Tail,                  // what recovery knows of the output
    due: Option<nat>,            // the store's length as recovery read it, once it has
    cursor: nat,                 // the id recovery numbers next
    seqNo: nat,                  // the shared sequence counter
    hands: seq<Option<Batch>>,   // one a producer: numbered, not yet sent
    queue: seq<Batch>,           // the bounded batch channel
    work: seq<Option<Batch>>,    // one a worker
    out: seq<Emitted>,           // the bounded channel to the output thread
    pending: map<nat, Emitted>,  // the reorder buffer
    next: nat,                   // the sequence number to write next
    file: seq<Byte>,             // the output file
    buffer: seq<Line>,           // lines written, not yet in the file
    found: nat,                  // history: records in the store when this run began
    log: seq<Batch>,             // every batch of this run, by number
    flushed: nat,                // how many of them have their lines in the file
    mark: nat,                   // how many had when recovery was done with the output
    kept: seq<Byte>,             // the output file then, or as this run found it
    written: seq<Line>,          // what this run has written behind that
    base: nat,                   // the id recovery went on from
    blind: bool,                 // the end of the output named no id
    rash: bool,                  // a producer stored before recovery was through
    early: bool,                 // and a line of that was not in the file when it was read
    unread: bool,                // and that was before recovery had read the store's length
    glued: bool)                 // in some run, a line was written behind a torn one

  // ----- The steps of one run

  /** Recovery has numbered everything below the length it read. */
  predicate Through(s: State) {
    s.due.Some? && s.due.value <= s.cursor
  }

  function Output(s: State): seq<Byte> {
    s.file + Concat(s.buffer)
  }

  /** The id behind the last record of this run whose line is in the file. */
  function Reached(s: State): nat
    requires s.flushed <= |s.log|
  {
    EndOf(s.log[..s.flushed], s.found)
  }

  function Numbered(s: State, p: nat, b: Batch): State
    requires p < |s.hands|
  {
    s.(seqNo := s.seqNo + 1, hands := s.hands[p := Some(b)], log := s.log + [b])
  }

  /** Recovery is done with the output: it goes on at an id, or, when the output named none,
      leaves everything to the producers. Batches whose lines are not yet in the file come
      behind what it has read. */
  function Settle(s: State, resume: Resumption): State
    requires s.flushed <= |s.log|
  {
    var t := s.(tail := Settled, mark := s.flushed, kept := s.file, written := s.buffer);
    match resume
    case At(first) => t.(base := first, cursor := first, early := s.flushed < |s.log|, unread := s.flushed < |s.log|)
    case Unknown => t.(base := Reached(s), cursor := Reached(s), due := Some(Reached(s)), blind := true)
  }

  /** Recovery reads the end of the output. Of an id that it takes from a line glued to a
      torn one, or from the middle of a line that starts before the window, it is assumed
      that it is not beyond the store's. */
  ghost predicate Look(rawId: RawIdOf, s: State, s': State) {
    && s.tail.Unread? && s.flushed <= |s.log|
    && var cut := CutOutput(rawId, s.file);
    && ((s.glued || !WindowReaches(s.file)) && cut.resume.At? ==> cut.resume.first <= Reached(s))
    && s' == if cut.data == s.file then Settle(s, cut.resume) else s.(tail := Torn(cut))
  }

  /** It cuts a torn line off, and whatever has been written behind it since. */
  ghost predicate Trim(s: State, s': State) {
    && s.tail.Torn? && s.flushed <= |s.log| && |s.tail.cut.data| <= |s.file|
    && s' == Settle(s.(file := s.file[..|s.tail.cut.data|]), s.tail.cut.resume)
  }

  ghost predicate ReadLength(s: State, s': State) {
    s.tail.Settled? && s.due == None && s' == s.(due := Some(s.stored))
  }

  /** Recovery numbers the next records the store held and the output lacks. */
  ghost predicate Recover(s: State, s': State, p: nat, count: nat) {
    && p < |s.hands| && s.hands[p] == None
    && 0 < count && s.due.Some? && s.cursor + count <= s.due.value
    && s' == Numbered(s, p, Batch(s.seqNo, s.cursor, count, true)).(cursor := s.cursor + count)
  }

  /** A producer appends and flushes a batch and takes its number. The files of a run are
      read only once recovery is through; a listener stores whenever an event arrives. */
  ghost predicate Store(s: State, s': State, p: nat, count: nat) {
    && p < |s.hands| && s.hands[p] == None && 0 < count
    && s' == Numbered(s, p, Batch(s.seqNo, s.stored, count, false)).(
      stored := s.stored + count, rash := s.rash || !Through(s),
      early := s.early || (s.tail.Settled? && !Through(s)),
      unread := s.unread || (s.tail.Settled? && s.due == None))
  }

  ghost predicate Send(s: State, s': State, p: nat, cap: nat) {
    && p < |s.hands| && s.hands[p].Some? && |s.queue| < cap
    && s' == s.(hands := s.hands[p := None], queue := s.queue + [s.hands[p].value])
  }

  ghost predicate Take(s: State, s': State, w: nat) {
    && w < |s.work| && s.work[w] == None && s.queue != []
    && s' == s.(queue := s.queue[1..], work := s.work[w := Some(s.queue[0])])
  }

  /** A worker renders its batch, a line for each id, and hands it on. */
  ghost predicate Emit(rawId: RawIdOf, s: State, s': State, w: nat, lines: seq<Line>, cap: nat) {
    && w < |s.work| && s.work[w].Some? && |s.out| < 2 * cap
    && var b := s.work[w].value;
    && |lines| == b.count && Carries(rawId, b.first, lines)
    && s' == s.(work := s.work[w := None], out := s.out + [Emitted(b.no, b.first, lines)])
  }

  ghost predicate Receive(s: State, s': State) {
    && s.out != [] && s.next !in s.pending
    && s' == s.(out := s.out[1..], pending := s.pending[s.out[0].no := s.out[0]])
  }

  ghost predicate Write(s: State, s': State) {
    && s.next in s.pending
    && s' == s.(pending := s.pending - {s.next}, next := s.next + 1,
                buffer := s.buffer + s.pending[s.next].lines, written := s.written + s.pending[s.next].lines)
  }

  /** The output thread's buffer reaches the file: when it is full, or after a while. */
  ghost predicate Flush(s: State, s': State) {
    s' == s.(file := Output(s), buffer := [], flushed := s.next, glued := s.glued || (!Clean(s.file) && s.buffer != []))
  }

  /** A step of the running engine. */
  ghost predicate Turn(rawId: RawIdOf, s: State, s': State) {
    || Look(rawId, s, s')
    || Trim(s, s')
    || ReadLength(s, s')
    || (exists p, n :: Recover(s, s', p, n))
    || (exists p, n :: Store(s, s', p, n))
    || (exists p, cap :: Send(s, s', p, cap))
    || (exists w :: Take(s, s', w))
    || (exists w, lines, cap :: Emit(rawId, s, s', w, lines, cap))
    || Receive(s, s')
    || Write(s, s')
    || Flush(s, s')
  }

  // ----- Kill and restart

  /** A run that finds this store and this output. */
  function Restarted(stored: nat, data: seq<Byte>, producers: nat, workers: nat, glued: bool): State {
    State(stored, Unread, None, 0, 0, seq(producers, _ => None), [], seq(workers, _ => None), [], map[], 0,
          data, [], stored, [], 0, 0, data, [], 0, false, false, false, false, glued)
  }

  /** A kill leaves the store with at least its flushed records, possibly with some of a
      batch that was being appended, and the output cut at any byte. */
  ghost predicate Kill(s: State, s': State, d: nat, extra: nat, producers: nat, workers: nat) {
    && d <= |Output(s)|
    && s' == Restarted(s.stored + extra, Output(s)[..d], producers, workers, s.glued || (!Clean(s.file) && d > |s.file|))
  }

  /** Whatever a kill leaves of the store, its length is at least the flushed count: a kill
      and recovery of the store is a kill of this system. */
  lemma StoreSurvives(sha: S.Sha, storeId: S.StoreId, h: D.History, h': D.History, s: State, d: nat, producers: nat, workers: nat)
    requires D.Valid(sha, h) && D.KillAndRecover(sha, storeId, h, h') && h.flushed == s.stored && d <= |Output(s)|
    ensures s.stored <= h'.flushed == |h'.recs| && h'.recs[..s.stored] == h.recs[..s.stored]
    ensures Kill(s, Restarted(|h'.recs|, Output(s)[..d], producers, workers, s.glued || (!Clean(s.file) && d > |s.file|)),
                 d, |h'.recs| - s.stored, producers, workers)
  {
    hide D.KillAndRecover, D.Valid, Output;
    D.StepKeeps(sha, storeId, h, h');
    KillFlushes(sha, storeId, h, h');
  }

  lemma KillFlushes(sha: S.Sha, storeId: S.StoreId, h: D.History, h': D.History)
    requires D.KillAndRecover(sha, storeId, h, h')
    ensures h'.flushed == |h'.recs|
  {
  }

  /** An empty store and an output of its own: there is nothing to recover. */
  ghost predicate Init(s: State, producers: nat, workers: nat) {
    s == Restarted(0, [], producers, workers, false).(tail := Settled, due := Some(0))
  }

  /** Turns and kills in any order. */
  ghost predicate Run(rawId: RawIdOf, run: seq<State>) {
    && |run| > 0 && (exists p, w :: Init(run[0], p, w))
    && forall i :: 0 <= i < |run| - 1 ==> Step(rawId, run[i], run[i + 1])
  }

  ghost predicate Step(rawId: RawIdOf, s: State, s': State) {
    Turn(rawId, s, s') || (exists d, extra, p, w :: Kill(s, s', d, extra, p, w))
  }

  // ----- The ids of batches

  function Range(first: nat, count: nat): (s: seq<nat>)
    ensures |s| == count && forall i :: 0 <= i < count ==> s[i] == first + i
  {
    seq(count, i requires 0 <= i => first + i)
  }

  /** The ids of batches, in their order. */
  function Ids(bs: seq<Batch>): seq<nat> {
    if bs == [] then [] else Ids(bs[..|bs| - 1]) + Range(bs[|bs| - 1].first, bs[|bs| - 1].count)
  }

  lemma {:induction false} IdsSnoc(bs: seq<Batch>, b: Batch)
    ensures Ids(bs + [b]) == Ids(bs) + Range(b.first, b.count)
  {
    assert (bs + [b])[..|bs|] == bs;
  }

  function EndOf(log: seq<Batch>, base: nat): nat {
    if log == [] then base else log[|log| - 1].first + log[|log| - 1].count
  }

  /** Each batch was numbered with its first id at the end of the batches before it. */
  ghost predicate InOrder(log: seq<Batch>, base: nat) {
    log == [] || (InOrder(log[..|log| - 1], base) && log[|log| - 1].first == EndOf(log[..|log| - 1], base))
  }

  lemma {:induction false} InOrderSnoc(log: seq<Batch>, b: Batch, base: nat)
    ensures InOrder(log + [b], base) <==> InOrder(log, base) && b.first == EndOf(log, base)
    ensures EndOf(log + [b], base) == b.first + b.count
  {
    assert (log + [b])[..|log|] == log;
  }

  lemma {:induction false} InOrderPrefix(log: seq<Batch>, base: nat, n: nat)
    requires InOrder(log, base) && n <= |log|
    ensures InOrder(log[..n], base) && EndOf(log[..n], base) <= EndOf(log, base)
    decreases |log|
  {
    if n == |log| {
      assert log[..n] == log;
    } else {
      var front := log[..|log| - 1];
      InOrderPrefix(front, base, n);
      assert front[..n] == log[..n];
    }
  }

  /** What comes after the first `n` batches is in order behind them. */
  lemma {:induction false} InOrderSuffix(log: seq<Batch>, base: nat, n: nat)
    requires InOrder(log, base) && n <= |log|
    ensures InOrder(log[n..], EndOf(log[..n], base))
    ensures EndOf(log[n..], EndOf(log[..n], base)) == EndOf(log, base)
    decreases |log|
  {
    if n == |log| {
      assert log[..n] == log;
    } else {
      var front, last := log[..|log| - 1], log[|log| - 1];
      InOrderSuffix(front, base, n);
      assert front[..n] == log[..n] && log[n..] == front[n..] + [last];
      InOrderSnoc(front[n..], last, EndOf(log[..n], base));
    }
  }

  /** Batches in order stand between their start and their end, one before the other. */
  lemma {:induction false} InOrderBounds(log: seq<Batch>, base: nat, i: nat)
    requires InOrder(log, base) && i < |log|
    ensures base <= log[i].first && log[i].first + log[i].count <= EndOf(log, base)
    ensures forall j :: i < j < |log| ==> Before(log[i], log[j])
    decreases |log|
  {
    var front, last := log[..|log| - 1], log[|log| - 1];
    InOrderPrefix(front, base, 0);
    if i < |front| {
      InOrderBounds(front, base, i);
      assert front[i] == log[i];
      forall j | i < j < |log| ensures Before(log[i], log[j]) {
        if j < |front| {
          assert front[j] == log[j];
        }
      }
    }
  }

  /** Every id between them is of one of them. */
  lemma {:induction false} InOrderCovers(log: seq<Batch>, base: nat, id: nat)
    requires InOrder(log, base) && base <= id < EndOf(log, base)
    ensures StoredId(log, id)
    decreases |log|
  {
    var front, last := log[..|log| - 1], log[|log| - 1];
    if id < last.first {
      InOrderCovers(front, base, id);
      var r :| 0 <= r < |front| && Holds(front[r], id);
      assert Holds(log[r], id);
    } else {
      assert Holds(log[|log| - 1], id);
    }
  }

  ghost predicate NoneEmpty(bs: seq<Batch>) {
    forall i :: 0 <= i < |bs| ==> bs[i].count > 0
  }

  /** The ids run from `base` on without gap or repeat exactly if the batches are in order. */
  lemma {:induction false} InOrderIds(bs: seq<Batch>, base: nat)
    requires NoneEmpty(bs)
    ensures Ids(bs) == Range(base, |Ids(bs)|) <==> InOrder(bs, base)
    ensures InOrder(bs, base) ==> EndOf(bs, base) == base + |Ids(bs)|
    decreases |bs|
  {
    if bs == [] {
      assert Range(base, 0) == [];
    } else {
      hide Range, Ids, InOrder;
      var front, last := bs[..|bs| - 1], bs[|bs| - 1];
      assert bs == front + [last];
      InOrderIds(front, base);
      IdsSnoc(front, last);
      InOrderSnoc(front, last, base);
      AppendRange(Ids(front), last.first, last.count, base);
    }
  }

  lemma AppendRange(ids: seq<nat>, first: nat, count: nat, base: nat)
    requires count > 0
    ensures ids + Range(first, count) == Range(base, |ids| + count) <==> ids == Range(base, |ids|) && first == base + |ids|
  {
    var all := ids + Range(first, count);
    if all == Range(base, |ids| + count) {
      assert all[|ids|] == first;
      assert forall i :: 0 <= i < |ids| ==> ids[i] == all[i];
    }
  }

  /** The lines carry these ids, one each. */
  ghost predicate Spells(rawId: RawIdOf, ids: seq<nat>, ls: seq<Line>) {
    |ls| == |ids| && forall i :: 0 <= i < |ids| ==> CarriesAt(rawId, ids[i], ls[i])
  }

  lemma SpellsMore(rawId: RawIdOf, ids: seq<nat>, ls: seq<Line>, first: nat, more: seq<Line>)
    requires Spells(rawId, ids, ls) && Carries(rawId, first, more)
    ensures Spells(rawId, ids + Range(first, |more|), ls + more)
  {
    hide CarriesAt;
    var all := ids + Range(first, |more|);
    forall i | 0 <= i < |all|
      ensures CarriesAt(rawId, all[i], (ls + more)[i])
    {
      if i >= |ids| {
        assert CarriesAt(rawId, first + (i - |ids|), more[i - |ids|]);
      }
    }
  }

  /** Lines that spell ids are in sequence exactly if the ids are. */
  lemma SpellsInSequence(rawId: RawIdOf, ids: seq<nat>, ls: seq<Line>, base: nat)
    requires Spells(rawId, ids, ls)
    ensures Carries(rawId, base, ls) <==> ids == Range(base, |ids|)
  {
    if Carries(rawId, base, ls) {
      forall i | 0 <= i < |ids|
        ensures ids[i] == base + i
      {
        assert CarriesAt(rawId, ids[i], ls[i]) && CarriesAt(rawId, base + i, ls[i]);
      }
    }
  }

  // ----- The invariant

  function One(b: Option<Batch>, no: nat): nat {
    if b.Some? && b.value.no == no then 1 else 0
  }

  /** How many batches of this number are in threads' hands, in a channel, rendered. */
  function HandNos(hands: seq<Option<Batch>>, no: nat): nat {
    if hands == [] then 0 else One(hands[0], no) + HandNos(hands[1..], no)
  }

  function QueueNos(queue: seq<Batch>, no: nat): nat {
    if queue == [] then 0 else One(Some(queue[0]), no) + QueueNos(queue[1..], no)
  }

  function OutNos(out: seq<Emitted>, no: nat): nat {
    if out == [] then 0 else (if out[0].no == no then 1 else 0) + OutNos(out[1..], no)
  }

  /** In how many places of the engine the batch of this number is. */
  function InFlight(s: State, no: nat): nat {
    HandNos(s.hands, no) + QueueNos(s.queue, no) + HandNos(s.work, no) + OutNos(s.out, no)
    + (if no in s.pending then 1 else 0)
  }

  ghost predicate Known(log: seq<Batch>, b: Batch) {
    b.no < |log| && log[b.no] == b
  }

  ghost predicate Rendered(rawId: RawIdOf, log: seq<Batch>, e: Emitted) {
    && e.no < |log| && log[e.no].no == e.no && log[e.no].first == e.first && log[e.no].count == |e.lines|
    && Carries(rawId, e.first, e.lines)
  }

  /** The bytes are the lines of ids 0 to `count`, each once, in order. */
  ghost predicate Whole(rawId: RawIdOf, data: seq<Byte>, count: nat) {
    exists ls :: |ls| == count && Carries(rawId, 0, ls) && Concat(ls) == data
  }

  /** Every batch anywhere in the engine is one of the log, and rendered as it says. */
  ghost predicate AllKnown(rawId: RawIdOf, s: State) {
    && (forall p :: 0 <= p < |s.hands| && s.hands[p].Some? ==> Known(s.log, s.hands[p].value))
    && (forall i :: 0 <= i < |s.queue| ==> Known(s.log, s.queue[i]))
    && (forall w :: 0 <= w < |s.work| && s.work[w].Some? ==> Known(s.log, s.work[w].value))
    && (forall i :: 0 <= i < |s.out| ==> Rendered(rawId, s.log, s.out[i]))
    && (forall k :: k in s.pending ==> s.pending[k].no == k && Rendered(rawId, s.log, s.pending[k]))
  }

  /** Every batch is in exactly one place until it is written, and what is written spells
      the ids of the batches in number order, whatever those ids are. */
  ghost predicate Flows(rawId: RawIdOf, s: State) {
    && s.seqNo == |s.log| && AllKnown(rawId, s) && s.mark <= s.flushed <= s.next <= |s.log|
    && (forall no: nat :: InFlight(s, no) == if s.next <= no < |s.log| then 1 else 0)
    && Spells(rawId, Ids(s.log[s.mark..s.next]), s.written)
    && Spells(rawId, Ids(s.log[s.flushed..s.next]), s.buffer)
    && s.kept + Concat(s.written) == Output(s)
  }

  /** The batches whose lines were not in the file when recovery was done with it. */
  function After(s: State): seq<Batch> {
    if s.mark <= |s.log| then s.log[s.mark..] else []
  }

  predicate Within(s: State, b: Batch) {
    && 0 < b.count && s.base <= b.first && b.first + b.count <= s.stored
    && (b.recovered ==> s.due.Some? && b.first + b.count <= s.cursor <= s.due.value)
    && (!b.recovered && !s.unread ==> s.due.Some? && s.due.value <= b.first)
  }

  /** Recovery numbers from `base` up to what it read, producers at the end of the store. */
  ghost predicate Bounded(s: State) {
    && s.base <= s.cursor <= s.stored && (s.due.Some? ==> s.base <= s.due.value <= s.stored)
    && (s.unread ==> s.early) && (s.early && !s.unread ==> s.due.Some? && s.base < s.due.value)
    && forall i :: 0 <= i < |After(s)| ==> Within(s, After(s)[i])
  }

  /** As long as nobody stored early, the batches are in order and end where the next one
      will begin. Once somebody did, they are out of order, or will be as soon as recovery
      numbers another batch, which it has yet to do. */
  ghost predicate Ordered(s: State) {
    if s.early then
      !InOrder(After(s), s.base) || (s.cursor < EndOf(After(s), s.base) && !Through(s))
    else
      && InOrder(After(s), s.base) && EndOf(After(s), s.base) == (if Through(s) then s.stored else s.cursor)
      && (s.due.Some? && !Through(s) ==> s.due.value == s.stored)
  }

  /** Until recovery is done with the output, all batches are the producers', in order from
      where the run found the store. */
  ghost predicate Waiting(s: State) {
    && s.mark == 0 && s.due == None && !s.early && !s.unread && !s.blind && s.flushed <= |s.log|
    && InOrder(s.log, s.found) && EndOf(s.log, s.found) == s.stored
    && (forall i :: 0 <= i < |s.log| ==> s.log[i].count > 0 && !s.log[i].recovered)
    && (s.log != [] ==> s.rash)
    && (s.tail.Torn? ==> CutFits(s, s.tail.cut))
  }

  /** What is left of the file is a front of it, and the id is none beyond it. */
  ghost predicate CutFits(s: State, cut: Cut)
    requires s.flushed <= |s.log|
  {
    cut.data <= s.file && (cut.resume.At? ==> Clean(cut.data) && cut.resume.first <= Reached(s))
  }

  ghost predicate Going(s: State) {
    && Bounded(s) && Ordered(s) && Repeats(s) && Covered(s)
    && (s.early ==> s.rash) && (!s.blind ==> Clean(s.kept))
  }

  /** Unless a line was ever glued to a torn one, no line of the file reads as an id the
      store did not have by then. */
  ghost predicate Honest(rawId: RawIdOf, s: State)
    requires s.flushed <= |s.log|
  {
    !s.glued ==> Sound(rawId, s.file, if s.tail.Settled? then s.stored else Reached(s))
  }

  ghost predicate Inv(rawId: RawIdOf, s: State) {
    Flows(rawId, s) && Honest(rawId, s) && if s.tail.Settled? then Going(s) else Waiting(s)
  }

  // ----- Which ids repeat, and which are there at all

  ghost predicate Holds(b: Batch, id: nat) {
    b.first <= id < b.first + b.count
  }

  /** Some batch of recovery has this id. */
  ghost predicate RecoveredId(log: seq<Batch>, id: nat) {
    exists r :: 0 <= r < |log| && log[r].recovered && Holds(log[r], id)
  }

  ghost predicate StoredId(log: seq<Batch>, id: nat) {
    exists r :: 0 <= r < |log| && Holds(log[r], id)
  }

  /** Producers number what is stored once recovery has read the length. */
  ghost predicate Covered(s: State) {
    forall id: nat :: s.due.Some? && s.due.value <= id < s.stored ==> StoredId(After(s), id)
  }

  /** A producer's batch that recovery numbers again, now or once it has read the length. */
  ghost predicate Twice(s: State, e: nat) {
    e < |After(s)| && !After(s)[e].recovered && (s.due.Some? ==> After(s)[e].first < s.due.value)
  }

  ghost predicate Before(b: Batch, c: Batch) {
    b.first + b.count <= c.first
  }

  /** Batches of one sort follow each other; recovery has covered all below its cursor; and
      if somebody stored before the length was read, recovery will number that again. */
  ghost predicate Repeats(s: State) {
    && OneSort(After(s))
    && (forall id: nat :: s.base <= id < s.cursor ==> RecoveredId(After(s), id))
    && (s.unread ==> exists e :: Twice(s, e))
  }

  ghost predicate OneSort(log: seq<Batch>) {
    forall i, j :: 0 <= i < j < |log| && log[i].recovered == log[j].recovered ==> Before(log[i], log[j])
  }

  // ----- Bookkeeping of the numbers

  lemma {:induction false} HandPut(hands: seq<Option<Batch>>, p: nat, b: Option<Batch>, no: nat)
    requires p < |hands|
    ensures HandNos(hands[p := b], no) + One(hands[p], no) == HandNos(hands, no) + One(b, no)
    decreases |hands|
  {
    if p == 0 {
      assert hands[p := b][1..] == hands[1..];
    } else {
      HandPut(hands[1..], p - 1, b, no);
      assert hands[p := b][1..] == hands[1..][p - 1 := b];
    }
  }

  lemma {:induction false} QueuePush(queue: seq<Batch>, b: Batch, no: nat)
    ensures QueueNos(queue + [b], no) == QueueNos(queue, no) + One(Some(b), no)
    decreases |queue|
  {
    if queue == [] {
      assert (queue + [b])[1..] == [];
    } else {
      assert (queue + [b])[1..] == queue[1..] + [b];
      QueuePush(queue[1..], b, no);
    }
  }

  lemma {:induction false} OutPush(out: seq<Emitted>, e: Emitted, no: nat)
    ensures OutNos(out + [e], no) == OutNos(out, no) + (if e.no == no then 1 else 0)
    decreases |out|
  {
    if out == [] {
      assert (out + [e])[1..] == [];
    } else {
      assert (out + [e])[1..] == out[1..] + [e];
      OutPush(out[1..], e, no);
    }
  }

  lemma {:induction false} NoHands(n: nat, no: nat)
    ensures HandNos(seq(n, _ => None), no) == 0
  {
    var hands: seq<Option<Batch>> := seq(n, _ => None);
    if n > 0 {
      assert hands[1..] == seq(n - 1, _ => None);
      NoHands(n - 1, no);
    }
  }

  lemma KnownLater(log: seq<Batch>, b: Batch, c: Batch)
    requires Known(log, b)
    ensures Known(log + [c], b)
  {
  }

  lemma RenderedLater(rawId: RawIdOf, log: seq<Batch>, e: Emitted, c: Batch)
    requires Rendered(rawId, log, e)
    ensures Rendered(rawId, log + [c], e)
  {
    hide Carries;
  }

  // ----- Numbering a batch

  lemma NumberedFlows(rawId: RawIdOf, s: State, p: nat, b: Batch)
    requires Flows(rawId, s) && p < |s.hands| && s.hands[p] == None && b.no == s.seqNo
    ensures Flows(rawId, Numbered(s, p, b))
  {
    hide AllKnown, HandNos, QueueNos, OutNos, Spells, Ids, Concat;
    var s' := Numbered(s, p, b);
    forall no: nat ensures InFlight(s', no) == InFlight(s, no) + One(Some(b), no) { HandPut(s.hands, p, Some(b), no); }
    assert s'.log[s.mark..s.next] == s.log[s.mark..s.next] && s'.log[s.flushed..s.next] == s.log[s.flushed..s.next];
    NumberedKnown(rawId, s, p, b);
  }

  lemma NumberedKnown(rawId: RawIdOf, s: State, p: nat, b: Batch)
    requires AllKnown(rawId, s) && p < |s.hands| && b.no == s.seqNo == |s.log|
    ensures AllKnown(rawId, Numbered(s, p, b))
  {
    hide Known, Rendered;
    var s' := Numbered(s, p, b);
    KnownLast(s.log, b);
    forall q | 0 <= q < |s'.hands| && s'.hands[q].Some? ensures Known(s'.log, s'.hands[q].value) {
      if q != p { KnownLater(s.log, s.hands[q].value, b); }
    }
    forall i | 0 <= i < |s.queue| ensures Known(s'.log, s.queue[i]) { KnownLater(s.log, s.queue[i], b); }
    forall w | 0 <= w < |s.work| && s.work[w].Some? ensures Known(s'.log, s.work[w].value) {
      KnownLater(s.log, s.work[w].value, b);
    }
    forall i | 0 <= i < |s.out| ensures Rendered(rawId, s'.log, s.out[i]) { RenderedLater(rawId, s.log, s.out[i], b); }
    forall k | k in s.pending ensures Rendered(rawId, s'.log, s.pending[k]) { RenderedLater(rawId, s.log, s.pending[k], b); }
  }

  lemma KnownLast(log: seq<Batch>, b: Batch)
    requires b.no == |log|
    ensures Known(log + [b], b)
  {
  }

  /** Nothing in flight hangs on what recovery or the producers know of the store. */
  ghost predicate SameFlow(s: State, s': State) {
    && s'.seqNo == s.seqNo && s'.hands == s.hands && s'.queue == s.queue && s'.work == s.work && s'.out == s.out
    && s'.pending == s.pending && s'.next == s.next && s'.log == s.log && s'.flushed == s.flushed
    && s'.mark == s.mark && s'.kept == s.kept && s'.written == s.written && s'.file == s.file && s'.buffer == s.buffer
  }

  lemma FlowsOn(rawId: RawIdOf, s: State, s': State)
    requires Flows(rawId, s) && SameFlow(s, s')
    ensures Flows(rawId, s')
  {
    hide HandNos, QueueNos, OutNos, Spells, Ids, Known, Rendered, Concat;
    forall no: nat ensures InFlight(s', no) == InFlight(s, no) {}
  }

  lemma {:induction false} EndWithin(s: State)
    requires Bounded(s)
    ensures s.base <= EndOf(After(s), s.base) <= s.stored
  {
  }

  lemma ReadLengthKeeps(s: State, s': State)
    requires Going(s) && ReadLength(s, s')
    ensures Going(s')
  {
    hide InOrder, Holds, RecoveredId, OneSort;
    EndWithin(s);
    assert After(s') == After(s);
    forall i | 0 <= i < |After(s)| ensures Within(s', After(s)[i]) {
      assert Within(s, After(s)[i]);
    }
    if s.unread {
      var e: nat :| Twice(s, e);
      assert Within(s, After(s)[e]);
      assert Twice(s', e);
    }
  }

  lemma RecoverKeeps(s: State, s': State, p: nat, count: nat)
    requires Going(s) && Recover(s, s', p, count) && s.mark <= |s.log|
    ensures Going(s')
  {
    hide InOrder, Repeats, Covered;
    var b := Batch(s.seqNo, s.cursor, count, true);
    assert After(s') == After(s) + [b];
    InOrderSnoc(After(s), b, s.base);
    forall i | 0 <= i < |After(s')| ensures Within(s', After(s')[i]) {
      if i < |After(s)| { assert Within(s, After(s)[i]); }
    }
    RecoverRepeats(s, s', p, count);
    CoveredMore(s, s', b);
  }

  lemma CoveredMore(s: State, s': State, b: Batch)
    requires Covered(s) && After(s') == After(s) + [b]
    requires s'.due == s.due && s.stored <= s'.stored
    requires forall id: nat :: s.stored <= id < s'.stored ==> Holds(b, id)
    ensures Covered(s')
  {
    forall id: nat | s'.due.Some? && s'.due.value <= id < s'.stored ensures StoredId(After(s'), id) {
      if id < s.stored {
        assert StoredId(After(s), id);
        var r :| 0 <= r < |After(s)| && Holds(After(s)[r], id);
        assert Holds(After(s')[r], id);
      } else {
        assert Holds(After(s')[|After(s)|], id);
      }
    }
  }

  lemma RecoverRepeats(s: State, s': State, p: nat, count: nat)
    requires Bounded(s) && Repeats(s) && Recover(s, s', p, count) && s.mark <= |s.log|
    ensures Repeats(s')
  {
    var log, b := After(s), Batch(s.seqNo, s.cursor, count, true);
    assert After(s') == log + [b];
    forall i | 0 <= i < |log| && log[i].recovered ensures Before(log[i], b) {
      assert Within(s, log[i]);
    }
    forall id: nat | s.base <= id < s'.cursor ensures RecoveredId(log + [b], id) {
      if id < s.cursor {
        RecoveredLater(log, b, id);
      } else {
        assert Holds((log + [b])[|log|], id);
      }
    }
    if s.unread {
      var e: nat :| Twice(s, e);
      assert Twice(s', e);
    }
  }

  lemma RecoveredLater(log: seq<Batch>, b: Batch, id: nat)
    requires RecoveredId(log, id)
    ensures RecoveredId(log + [b], id)
  {
    var r :| 0 <= r < |log| && log[r].recovered && Holds(log[r], id);
    assert Holds((log + [b])[r], id);
  }

  lemma StoreKeeps(s: State, s': State, p: nat, count: nat)
    requires Going(s) && s.tail.Settled? && Store(s, s', p, count) && s.mark <= |s.log|
    ensures Going(s')
  {
    hide InOrder, Repeats, Covered;
    var b := Batch(s.seqNo, s.stored, count, false);
    assert After(s') == After(s) + [b];
    InOrderSnoc(After(s), b, s.base);
    EndWithin(s);
    forall i | 0 <= i < |After(s')| ensures Within(s', After(s')[i]) {
      if i < |After(s)| { assert Within(s, After(s)[i]); }
    }
    StoreRepeats(s, s', p, count);
    CoveredMore(s, s', b);
  }

  lemma StoreRepeats(s: State, s': State, p: nat, count: nat)
    requires Bounded(s) && Repeats(s) && s.tail.Settled? && Store(s, s', p, count) && s.mark <= |s.log|
    ensures Repeats(s')
  {
    var log, b := After(s), Batch(s.seqNo, s.stored, count, false);
    assert After(s') == log + [b];
    forall i | 0 <= i < |log| ensures Before(log[i], b) {
      assert Within(s, log[i]);
    }
    forall id: nat | s.base <= id < s'.cursor ensures RecoveredId(log + [b], id) {
      RecoveredLater(log, b, id);
    }
    if s.unread {
      var e: nat :| Twice(s, e);
      assert Twice(s', e);
    } else if s'.unread {
      assert Twice(s', |log|);
    }
  }

  /** Before recovery is done with the output, a stored batch just comes behind the others. */
  lemma WaitingStore(s: State, s': State, p: nat, count: nat)
    requires Waiting(s) && !s.tail.Settled? && Store(s, s', p, count)
    ensures Waiting(s') && Reached(s') == Reached(s)
  {
    hide InOrder;
    var b := Batch(s.seqNo, s.stored, count, false);
    InOrderSnoc(s.log, b, s.found);
    assert s'.log[..s.flushed] == s.log[..s.flushed];
  }

  // ----- Done with the output

  lemma {:induction false} InOrderSorted(log: seq<Batch>, base: nat)
    requires InOrder(log, base)
    ensures OneSort(log)
  {
    hide InOrder, EndOf, Before;
    forall i, j | 0 <= i < j < |log| ensures Before(log[i], log[j]) {
      InOrderBounds(log, base, i);
    }
  }

  lemma SettleGoing(s: State, cut: Cut)
    requires Waiting(s) && CutFits(s, cut) && cut.data == s.file
    ensures Going(Settle(s, cut.resume)) && Reached(s) <= s.stored
  {
    hide InOrder, Clean;
    var t, f := Settle(s, cut.resume), Reached(s);
    InOrderPrefix(s.log, s.found, s.flushed);
    InOrderSuffix(s.log, s.found, s.flushed);
    var bs := s.log[s.flushed..];
    assert After(t) == bs;
    InOrderSorted(bs, f);
    forall i | 0 <= i < |bs| ensures Within(t, bs[i]) {
      InOrderBounds(bs, f, i);
    }
    if t.unread {
      assert Twice(t, 0);
    }
    assert Ordered(t) by { StartsAt(bs, t.base, f); }
    forall id: nat | t.due.Some? && t.due.value <= id < t.stored ensures StoredId(bs, id) {
      InOrderCovers(bs, f, id);
    }
  }

  lemma {:induction false} StartsAt(bs: seq<Batch>, base: nat, f: nat)
    requires InOrder(bs, f)
    ensures bs == [] ==> InOrder(bs, base) && EndOf(bs, base) == base && EndOf(bs, f) == f
    ensures bs != [] ==> EndOf(bs, base) == EndOf(bs, f)
    ensures bs != [] ==> EndOf(bs, f) >= f + bs[|bs| - 1].count
  {
    if bs != [] {
      InOrderBounds(bs, f, |bs| - 1);
    }
  }

  lemma SettleFlows(rawId: RawIdOf, s: State, data: seq<Byte>, resume: Resumption)
    requires Flows(rawId, s)
    ensures Flows(rawId, Settle(s.(file := data), resume))
  {
    hide AllKnown, InFlight, Spells, Ids, Concat, Settle;
    var t := s.(file := data, mark := s.flushed, kept := data, written := s.buffer);
    assert Flows(rawId, t) by { RefiledFlows(rawId, s, t); }
    SettleSame(s.(file := data), resume);
    FlowsOn(rawId, t, Settle(s.(file := data), resume));
  }

  lemma SettleSame(s: State, resume: Resumption)
    requires s.flushed <= |s.log|
    ensures SameFlow(s.(mark := s.flushed, kept := s.file, written := s.buffer), Settle(s, resume))
  {
    hide Reached;
    match resume
    case At(first) =>
    case Unknown =>
  }

  lemma RefiledFlows(rawId: RawIdOf, s: State, t: State)
    requires Flows(rawId, s) && t == s.(file := t.file, mark := s.flushed, kept := t.file, written := s.buffer)
    ensures Flows(rawId, t)
  {
    hide HandNos, QueueNos, OutNos, Known, Rendered, Spells, Ids, Concat;
    forall no: nat ensures InFlight(t, no) == InFlight(s, no) {}
  }

  lemma SettleInv(rawId: RawIdOf, s: State, cut: Cut)
    requires Flows(rawId, s) && Waiting(s) && Honest(rawId, s) && CutFits(s, cut) && !s.tail.Settled?
    ensures Inv(rawId, Settle(s.(file := cut.data), cut.resume))
  {
    hide Flows, Sound, InOrder, EndOf, Going, Clean;
    var t := s.(file := cut.data, tail := Unread);
    assert Settle(t, cut.resume) == Settle(s.(file := cut.data), cut.resume);
    assert Reached(t) == Reached(s);
    SettleFlows(rawId, s, cut.data, cut.resume);
    SettleGoing(t, cut);
    if !s.glued {
      SoundPrefix(rawId, cut.data, s.file, Reached(s));
      SoundMore(rawId, cut.data, Reached(s), s.stored);
    }
  }

  lemma SoundMore(rawId: RawIdOf, data: seq<Byte>, bound: nat, more: nat)
    requires Sound(rawId, data, bound) && bound <= more
    ensures Sound(rawId, data, more)
  {
  }

  lemma LookKeeps(rawId: RawIdOf, s: State, s': State)
    requires Inv(rawId, s) && Look(rawId, s, s')
    ensures Inv(rawId, s')
  {
    hide Flows, InOrder, EndOf, Going, CutOutput, WindowReaches, Clean, HasLine;
    var cut := CutOutput(rawId, s.file);
    CutIsClean(rawId, s.file);
    assert CutFits(s, cut) by {
      if cut.resume.At? && !s.glued && WindowReaches(s.file) {
        CutReads(rawId, s.file);
        if cut.resume.first > 0 {
          SoundReads(rawId, s.file, Reached(s), cut.resume.first - 1);
        }
      }
    }
    if cut.data == s.file {
      SettleInv(rawId, s, cut);
      assert s.(file := cut.data) == s;
    } else {
      FlowsOn(rawId, s, s');
      assert Reached(s') == Reached(s);
    }
  }

  lemma SoundReads(rawId: RawIdOf, data: seq<Byte>, bound: nat, id: nat)
    requires Sound(rawId, data, bound) && HasLine(rawId, data, id)
    ensures id < bound
  {
  }

  lemma TrimKeeps(rawId: RawIdOf, s: State, s': State)
    requires Inv(rawId, s) && Trim(s, s')
    ensures Inv(rawId, s')
  {
    hide Flows, InOrder, EndOf, Going, Clean, Sound;
    assert s.file[..|s.tail.cut.data|] == s.tail.cut.data;
    SettleInv(rawId, s, s.tail.cut);
  }

  // ----- Moving a batch along

  /** Batches went from hand to hand, and nothing else happened. */
  ghost predicate Moved(s: State, s': State) {
    && s'.stored == s.stored && s'.due == s.due && s'.cursor == s.cursor && s'.base == s.base && s'.log == s.log
    && s'.early == s.early && s'.unread == s.unread && s'.rash == s.rash && s'.blind == s.blind && s'.kept == s.kept
    && s'.tail == s.tail && s'.mark == s.mark && s'.flushed == s.flushed && s'.found == s.found && s'.file == s.file
    && s'.glued == s.glued
  }

  lemma SendFlows(rawId: RawIdOf, s: State, s': State, p: nat, cap: nat)
    requires Flows(rawId, s) && Send(s, s', p, cap)
    ensures Flows(rawId, s') && Moved(s, s')
  {
    hide Known, Rendered, HandNos, QueueNos, OutNos, Spells, Ids, Concat;
    forall no: nat ensures InFlight(s', no) == InFlight(s, no) {
      HandPut(s.hands, p, None, no);
      QueuePush(s.queue, s.hands[p].value, no);
    }
  }

  lemma TakeFlows(rawId: RawIdOf, s: State, s': State, w: nat)
    requires Flows(rawId, s) && Take(s, s', w)
    ensures Flows(rawId, s') && Moved(s, s')
  {
    hide Known, Rendered, HandNos, OutNos, Spells, Ids, Concat;
    forall no: nat ensures InFlight(s', no) == InFlight(s, no) { HandPut(s.work, w, Some(s.queue[0]), no); }
  }

  lemma EmitFlows(rawId: RawIdOf, s: State, s': State, w: nat, lines: seq<Line>, cap: nat)
    requires Flows(rawId, s) && Emit(rawId, s, s', w, lines, cap)
    ensures Flows(rawId, s') && Moved(s, s')
  {
    hide Carries, HandNos, QueueNos, OutNos, Spells, Ids, Concat;
    var b := s.work[w].value;
    forall no: nat ensures InFlight(s', no) == InFlight(s, no) {
      HandPut(s.work, w, None, no);
      OutPush(s.out, Emitted(b.no, b.first, lines), no);
    }
    assert Known(s.log, b);
  }

  lemma ReceiveFlows(rawId: RawIdOf, s: State, s': State)
    requires Flows(rawId, s) && Receive(s, s')
    ensures Flows(rawId, s') && Moved(s, s')
  {
    hide HandNos, QueueNos, Known, Rendered, Spells, Ids, Concat;
    var e := s.out[0];
    assert InFlight(s, e.no) <= 1;
    assert e.no !in s.pending;
    forall no: nat ensures InFlight(s', no) == InFlight(s, no) {}
  }

  lemma WriteFlows(rawId: RawIdOf, s: State, s': State)
    requires Flows(rawId, s) && Write(s, s')
    ensures Flows(rawId, s') && Moved(s, s')
  {
    hide HandNos, QueueNos, OutNos, Known, Spells, Ids, Carries, Concat;
    var e := s.pending[s.next];
    assert Rendered(rawId, s.log, e);
    forall no: nat ensures InFlight(s, no) == InFlight(s', no) + (if no == s.next then 1 else 0) {}
    assert InFlight(s, s.next) == 1;
    SpellsNext(rawId, s.log, s.mark, s.next, s.written, e);
    SpellsNext(rawId, s.log, s.flushed, s.next, s.buffer, e);
    ConcatAppend(s.written, e.lines);
    ConcatAppend(s.buffer, e.lines);
    assert s.kept + (Concat(s.written) + Concat(e.lines)) == (s.kept + Concat(s.written)) + Concat(e.lines);
    assert s.file + (Concat(s.buffer) + Concat(e.lines)) == (s.file + Concat(s.buffer)) + Concat(e.lines);
  }

  lemma SpellsNext(rawId: RawIdOf, log: seq<Batch>, from: nat, next: nat, ls: seq<Line>, e: Emitted)
    requires from <= next < |log| && Spells(rawId, Ids(log[from..next]), ls) && Rendered(rawId, log, e) && e.no == next
    ensures Spells(rawId, Ids(log[from..next + 1]), ls + e.lines)
  {
    hide Spells, Ids, Carries;
    assert log[from..next + 1] == log[from..next] + [log[next]];
    IdsSnoc(log[from..next], log[next]);
    SpellsMore(rawId, Ids(log[from..next]), ls, e.first, e.lines);
  }

  lemma FlushFlows(rawId: RawIdOf, s: State, s': State)
    requires Flows(rawId, s) && Flush(s, s')
    ensures Flows(rawId, s')
  {
    hide HandNos, QueueNos, OutNos, Known, Rendered, Carries, CarriesAt;
    forall no: nat ensures InFlight(s', no) == InFlight(s, no) {}
    assert s.log[s.next..s.next] == [];
    NoConcat();
    assert Output(s) + [] == Output(s);
  }

  // ----- What reaches the file

  /** The ids of batches that end by `bound` are below it. */
  lemma {:induction false} IdsBelow(bs: seq<Batch>, bound: nat)
    requires forall i :: 0 <= i < |bs| ==> bs[i].first + bs[i].count <= bound
    ensures forall i :: 0 <= i < |Ids(bs)| ==> Ids(bs)[i] < bound
    decreases |bs|
  {
    if bs != [] {
      IdsBelow(bs[..|bs| - 1], bound);
    }
  }

  lemma SpelledLines(rawId: RawIdOf, ids: seq<nat>, ls: seq<Line>)
    requires Spells(rawId, ids, ls)
    ensures Lines(ls)
    ensures forall id: nat :: Among(rawId, ls, id) <==> id in ids
  {
    forall id: nat ensures Among(rawId, ls, id) <==> id in ids {
      if j :| 0 <= j < |ls| && ls[j] != [] && rawId(Body(ls[j])) == Some(id) {
        assert CarriesAt(rawId, ids[j], ls[j]);
        assert ids[j] == id;
      }
      if id in ids {
        var j :| 0 <= j < |ids| && ids[j] == id;
        assert CarriesAt(rawId, ids[j], ls[j]);
      }
    }
    forall j | 0 <= j < |ls| ensures IsLine(ls[j]) {
      assert CarriesAt(rawId, ids[j], ls[j]);
    }
  }

  /** All batches written so far end by this id. */
  function Limit(s: State): nat
    requires s.next <= |s.log|
  {
    if s.tail.Settled? then s.stored else EndOf(s.log[..s.next], s.found)
  }

  lemma BatchesBelow(rawId: RawIdOf, s: State)
    requires Inv(rawId, s)
    ensures forall i :: s.flushed <= i < s.next ==> s.log[i].first + s.log[i].count <= Limit(s)
    ensures Limit(s) <= s.stored
    ensures (if s.tail.Settled? then s.stored else Reached(s)) <= Limit(s)
  {
    hide AllKnown, InFlight, Spells, Ids, InOrder, Honest, Concat, Repeats, Ordered, Covered;
    if s.tail.Settled? {
      forall i | s.flushed <= i < s.next ensures s.log[i].first + s.log[i].count <= s.stored {
        assert Within(s, After(s)[i - s.mark]);
      }
    } else {
      InOrderPrefix(s.log, s.found, s.next);
      var bs := s.log[..s.next];
      InOrderPrefix(bs, s.found, s.flushed);
      assert bs[..s.flushed] == s.log[..s.flushed];
      forall i | s.flushed <= i < s.next ensures s.log[i].first + s.log[i].count <= Limit(s) {
        InOrderBounds(bs, s.found, i);
      }
    }
  }

  /** Behind a file with no torn end the buffer adds complete lines of known ids. */
  lemma OutputSound(rawId: RawIdOf, s: State)
    requires Inv(rawId, s) && !s.glued && Clean(s.file)
    ensures s.next <= |s.log| && Sound(rawId, Output(s), Limit(s))
  {
    hide AllKnown, InFlight, Spells, Ids, Going, Waiting, Clean, Concat, Sound, Among, Lines, EndOf;
    BatchesBelow(rawId, s);
    var bs := s.log[s.flushed..s.next];
    IdsBelow(bs, Limit(s));
    SpelledLines(rawId, Ids(bs), s.buffer);
    SoundMore(rawId, s.file, if s.tail.Settled? then s.stored else Reached(s), Limit(s));
    SoundJoined(rawId, s.file, s.buffer, Limit(s));
  }

  lemma FlushKeeps(rawId: RawIdOf, s: State, s': State)
    requires Inv(rawId, s) && Flush(s, s')
    ensures Inv(rawId, s') && s.stored <= s'.stored
  {
    hide AllKnown, InFlight, Spells, Ids, InOrder, Clean, Sound, Repeats, Ordered, Covered, Bounded;
    FlushFlows(rawId, s, s');
    assert After(s') == After(s);
    if s.tail.Settled? {
      SameGoing(s, s');
    } else {
      InOrderPrefix(s.log, s.found, s.next);
      InOrderPrefix(s.log[..s.next], s.found, s.flushed);
      assert s.log[..s.next][..s.flushed] == s.log[..s.flushed];
    }
    if !s'.glued {
      if Clean(s.file) {
        OutputSound(rawId, s);
      } else {
        NoConcat();
        BatchesBelow(rawId, s);
        assert Output(s) == s.file;
        SoundMore(rawId, s.file, if s.tail.Settled? then s.stored else Reached(s), Limit(s));
      }
    }
  }

  /** What moves in the engine changes nothing recovery and the producers know. */
  lemma SameGoing(s: State, s': State)
    requires Going(s) && After(s') == After(s)
    requires s'.stored == s.stored && s'.due == s.due && s'.cursor == s.cursor && s'.base == s.base
    requires s'.early == s.early && s'.unread == s.unread && s'.rash == s.rash && s'.blind == s.blind && s'.kept == s.kept
    ensures Going(s')
  {
    hide InOrder, RecoveredId, StoredId, OneSort, Clean;
    forall i | 0 <= i < |After(s')| ensures Within(s', After(s')[i]) {
      assert Within(s, After(s)[i]);
    }
    if s.unread {
      var e: nat :| Twice(s, e);
      assert Twice(s', e);
    }
  }

  /** Sending, taking, rendering, receiving and writing do not touch the file. */
  lemma MovedKeeps(rawId: RawIdOf, s: State, s': State)
    requires Inv(rawId, s) && Flows(rawId, s') && Moved(s, s')
    ensures Inv(rawId, s') && s.stored <= s'.stored
  {
    hide Flows, InOrder, Going, EndOf, Sound, Clean;
    if s.tail.Settled? {
      SameGoing(s, s');
    }
  }

  lemma StoreInv(rawId: RawIdOf, s: State, s': State, p: nat, count: nat)
    requires Inv(rawId, s) && Store(s, s', p, count)
    ensures Inv(rawId, s') && s.stored <= s'.stored
  {
    hide Flows, InOrder, Going, EndOf, Sound, Waiting;
    FlowNumbers(rawId, s);
    var b := Batch(s.seqNo, s.stored, count, false);
    NumberedFlows(rawId, s, p, b);
    FlowsOn(rawId, Numbered(s, p, b), s');
    if s.tail.Settled? {
      StoreKeeps(s, s', p, count);
      if !s.glued { SoundMore(rawId, s.file, s.stored, s'.stored); }
    } else {
      WaitingStore(s, s', p, count);
    }
  }

  lemma FlowNumbers(rawId: RawIdOf, s: State)
    requires Flows(rawId, s)
    ensures s.seqNo == |s.log| && s.mark <= s.flushed <= s.next <= |s.log|
  {
  }

  lemma RecoverInv(rawId: RawIdOf, s: State, s': State, p: nat, count: nat)
    requires Inv(rawId, s) && Recover(s, s', p, count)
    ensures Inv(rawId, s') && s.stored <= s'.stored
  {
    hide Flows, InOrder, Going, EndOf, Sound;
    FlowNumbers(rawId, s);
    var b := Batch(s.seqNo, s.cursor, count, true);
    NumberedFlows(rawId, s, p, b);
    FlowsOn(rawId, Numbered(s, p, b), s');
    RecoverKeeps(s, s', p, count);
  }

  lemma ReadLengthInv(rawId: RawIdOf, s: State, s': State)
    requires Inv(rawId, s) && ReadLength(s, s')
    ensures Inv(rawId, s') && s.stored <= s'.stored
  {
    hide Flows, Going, EndOf, Sound;
    FlowsOn(rawId, s, s');
    ReadLengthKeeps(s, s');
  }

  lemma TurnKeeps(rawId: RawIdOf, s: State, s': State)
    requires Inv(rawId, s) && Turn(rawId, s, s')
    ensures Inv(rawId, s') && s.stored <= s'.stored
  {
    hide Flows, Inv, Look, Trim, ReadLength, Recover, Store, Send, Take, Emit, Receive, Write, Flush, Moved;
    assert Flows(rawId, s) by { InvFlows(rawId, s); }
    if Look(rawId, s, s') {
      LookKeeps(rawId, s, s');
      LookStores(rawId, s, s');
    } else if Trim(s, s') {
      TrimKeeps(rawId, s, s');
      TrimStores(s, s');
    } else if ReadLength(s, s') {
      ReadLengthInv(rawId, s, s');
    } else if p, n :| Recover(s, s', p, n) {
      RecoverInv(rawId, s, s', p, n);
    } else if p, n :| Store(s, s', p, n) {
      StoreInv(rawId, s, s', p, n);
    } else if p, cap :| Send(s, s', p, cap) {
      SendFlows(rawId, s, s', p, cap);
      MovedKeeps(rawId, s, s');
    } else if w :| Take(s, s', w) {
      TakeFlows(rawId, s, s', w);
      MovedKeeps(rawId, s, s');
    } else if w, lines, cap :| Emit(rawId, s, s', w, lines, cap) {
      EmitFlows(rawId, s, s', w, lines, cap);
      MovedKeeps(rawId, s, s');
    } else if Receive(s, s') {
      ReceiveFlows(rawId, s, s');
      MovedKeeps(rawId, s, s');
    } else if Write(s, s') {
      WriteFlows(rawId, s, s');
      MovedKeeps(rawId, s, s');
    } else {
      FlushKeeps(rawId, s, s');
    }
  }

  lemma InvFlows(rawId: RawIdOf, s: State)
    requires Inv(rawId, s)
    ensures Flows(rawId, s)
  {
  }

  lemma LookStores(rawId: RawIdOf, s: State, s': State)
    requires Look(rawId, s, s')
    ensures s'.stored == s.stored
  {
    hide CutOutput, WindowReaches, EndOf;
  }

  lemma TrimStores(s: State, s': State)
    requires Trim(s, s')
    ensures s'.stored == s.stored
  {
    hide EndOf;
  }

  // ----- Kills

  lemma {:induction false} NoneInFlight(no: nat)
    ensures QueueNos([], no) == 0 && OutNos([], no) == 0
  {
  }

  lemma EmptyFlows(rawId: RawIdOf, s: State, producers: nat, workers: nat)
    requires s.seqNo == s.next == s.flushed == s.mark == 0 && s.log == [] && s.queue == [] && s.out == [] && s.pending == map[]
    requires s.hands == seq(producers, _ => None) && s.work == seq(workers, _ => None)
    requires s.written == [] && s.buffer == [] && s.kept == s.file
    ensures Flows(rawId, s)
  {
    hide HandNos, QueueNos, OutNos, CarriesAt;
    forall no: nat ensures InFlight(s, no) == 0 {
      NoHands(producers, no);
      NoHands(workers, no);
      NoneInFlight(no);
    }
  }

  /** A kill at any byte, of any run, leaves what a run can begin with. */
  lemma KillKeeps(rawId: RawIdOf, s: State, s': State, d: nat, extra: nat, producers: nat, workers: nat)
    requires Inv(rawId, s) && Kill(s, s', d, extra, producers, workers)
    ensures Inv(rawId, s') && s.stored <= s'.stored
  {
    hide Flows, Sound, Clean, Going, Waiting;
    EmptyFlows(rawId, s', producers, workers);
    assert Waiting(s') by { FreshWaits(s'); }
    if !s'.glued {
      FlowNumbers(rawId, s);
      BatchesBelow(rawId, s);
      if Clean(s.file) {
        OutputSound(rawId, s);
        SoundPrefix(rawId, s'.file, Output(s), Limit(s));
        SoundMore(rawId, s'.file, Limit(s), s'.stored);
      } else {
        assert s'.file <= s.file;
        var bound := if s.tail.Settled? then s.stored else Reached(s);
        SoundPrefix(rawId, s'.file, s.file, bound);
        SoundMore(rawId, s'.file, bound, s'.stored);
      }
    }
  }

  lemma FreshWaits(s: State)
    requires s.tail.Unread? && s.log == [] && s.mark == s.flushed == 0 && s.due == None && s.found == s.stored
    requires !s.early && !s.unread && !s.blind
    ensures Waiting(s) && Reached(s) == s.stored
  {
  }

  lemma InitInv(rawId: RawIdOf, s: State, producers: nat, workers: nat)
    requires Init(s, producers, workers)
    ensures Inv(rawId, s)
  {
    hide Flows;
    EmptyFlows(rawId, s, producers, workers);
    assert After(s) == [];
    assert Sound(rawId, [], 0);
  }

  /** Over every run, whoever stored when and whatever was killed where. */
  lemma {:induction false} RunInv(rawId: RawIdOf, run: seq<State>, i: nat)
    requires Run(rawId, run) && i < |run|
    ensures Inv(rawId, run[i])
  {
    hide Inv, Turn, Kill, Init;
    if i == 0 {
      var p, w :| Init(run[0], p, w);
      InitInv(rawId, run[0], p, w);
    } else {
      RunInv(rawId, run, i - 1);
      assert Step(rawId, run[i - 1], run[i - 1 + 1]);
      if Turn(rawId, run[i - 1], run[i]) {
        TurnKeeps(rawId, run[i - 1], run[i]);
      } else {
        var d, extra, p, w :| Kill(run[i - 1], run[i], d, extra, p, w);
        KillKeeps(rawId, run[i - 1], run[i], d, extra, p, w);
      }
    }
  }
}
