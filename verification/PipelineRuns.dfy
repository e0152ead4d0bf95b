/** What the runs of the engine amount to: the output is exactly once and in order as long
    as nobody stores early, and otherwise exactly when it is out of order, repeats an id or
    lacks one. */
module PipelineRuns {
  import opened Bytes
  import opened Framing
  import opened OutputLines
  import opened FileLines
  import opened Pipeline

  lemma PrefixOfLinesCarried(rawId: RawIdOf, ls: seq<Line>, d: nat) returns (m: nat)
    requires Carries(rawId, 0, ls) && d <= |Concat(ls)|
    ensures m <= |ls| && |Concat(ls[..m])| <= d
    ensures Concat(ls)[..d][..|Concat(ls[..m])|] == Concat(ls[..m])
    ensures Unbroken(Concat(ls)[..d], |Concat(ls[..m])|, d)
  {
    hide Concat;
    forall i | 0 <= i < |ls| ensures IsLine(ls[i]) {
      assert CarriesAt(rawId, 0 + i, ls[i]);
    }
    m := PrefixOfLines(ls, d);
  }

  // ----- In sequence

  /** What has been written is in sequence exactly if its batches were in order. */
  lemma SequenceIffOrder(rawId: RawIdOf, s: State)
    requires Inv(rawId, s) && s.tail.Settled?
    ensures s.mark <= s.next <= |s.log|
    ensures Carries(rawId, s.base, s.written) <==> InOrder(s.log[s.mark..s.next], s.base)
    ensures Carries(rawId, s.base, s.written) ==> s.base + |s.written| == EndOf(s.log[s.mark..s.next], s.base)
  {
    hide AllKnown, InFlight, Ids, InOrder, Range, Carries, Repeats, Ordered, Covered, EndOf, Honest, Clean, Concat;
    var bs := s.log[s.mark..s.next];
    forall i | 0 <= i < |bs| ensures bs[i].count > 0 {
      assert bs[i] == After(s)[i];
      assert Within(s, After(s)[i]);
    }
    SpellsInSequence(rawId, Ids(bs), s.written, s.base);
    InOrderIds(bs, s.base);
  }

  /** Recovery is done, nothing is in hand, and the output thread has drained what it can. */
  ghost predicate Quiet(s: State) {
    && s.tail.Settled? && Through(s)
    && (forall p :: 0 <= p < |s.hands| ==> s.hands[p] == None)
    && s.queue == []
    && (forall w :: 0 <= w < |s.work| ==> s.work[w] == None)
    && s.out == []
    && s.next !in s.pending
  }

  lemma {:induction false} EmptyHands(hands: seq<Option<Batch>>, no: nat)
    requires forall p :: 0 <= p < |hands| ==> hands[p] == None
    ensures HandNos(hands, no) == 0
    decreases |hands|
  {
    if hands != [] {
      assert hands[0] == None;
      EmptyHands(hands[1..], no);
    }
  }

  /** No batch is stuck or lost, in order or not. */
  lemma QuietIsDrained(rawId: RawIdOf, s: State)
    requires Inv(rawId, s) && Quiet(s)
    ensures s.next == |s.log| && s.pending == map[] && s.mark <= s.next && s.log[s.mark..s.next] == After(s)
    ensures Spells(rawId, Ids(After(s)), s.written)
  {
    hide Known, Rendered, HandNos, Spells, Ids, Going, Honest, Concat;
    forall no: nat ensures InFlight(s, no) == if no in s.pending then 1 else 0 {
      EmptyHands(s.hands, no);
      EmptyHands(s.work, no);
    }
    assert InFlight(s, s.next) == 0;
    assert s.next == |s.log|;
    assert forall no :: no in s.pending ==> InFlight(s, no) == 1;
  }

  // ----- Without early batches

  /** A front of the lines of ids 0, 1, ..., none from `count` on. */
  ghost predicate Part(rawId: RawIdOf, data: seq<Byte>, count: nat) {
    exists ls :: PartOf(rawId, data, count, ls)
  }

  ghost predicate PartOf(rawId: RawIdOf, data: seq<Byte>, count: nat, ls: seq<Line>) {
    |ls| <= count && Carries(rawId, 0, ls) && data <= Concat(ls)
  }

  /** The output is in order, but for a torn end that recovery has yet to cut off. */
  ghost predicate Neat(rawId: RawIdOf, s: State) {
    if s.tail.Settled? then !s.early && Whole(rawId, s.kept, s.base)
    else
      && s.log == [] && Part(rawId, s.file, s.stored)
      && (s.tail.Torn? ==> s.tail.cut.resume.At? && Whole(rawId, s.tail.cut.data, s.tail.cut.resume.first))
  }

  lemma {:induction false} WholeOutput(rawId: RawIdOf, s: State) returns (ls: seq<Line>)
    requires Inv(rawId, s) && s.tail.Settled? && !s.early && Whole(rawId, s.kept, s.base)
    ensures |ls| == s.base + |s.written| == EndOf(s.log[s.mark..s.next], s.base) <= s.stored
    ensures Carries(rawId, 0, ls) && Concat(ls) == Output(s)
    ensures Carries(rawId, s.base, s.written)
  {
    hide AllKnown, InFlight, Ids, InOrder, Range, CarriesAt, Repeats, Concat, Spells, Honest, Covered, EndOf, Clean;
    SequenceIffOrder(rawId, s);
    InOrderPrefix(After(s), s.base, s.next - s.mark);
    assert After(s)[..s.next - s.mark] == s.log[s.mark..s.next];
    EndWithin(s);
    var kept :| |kept| == s.base && Carries(rawId, 0, kept) && Concat(kept) == s.kept;
    ls := Joined(rawId, kept, s.written);
  }

  lemma {:induction false} Joined(rawId: RawIdOf, front: seq<Line>, more: seq<Line>) returns (ls: seq<Line>)
    requires Carries(rawId, 0, front) && Carries(rawId, |front|, more)
    ensures ls == front + more && Carries(rawId, 0, ls) && Concat(ls) == Concat(front) + Concat(more)
  {
    hide CarriesAt, Concat;
    ls := front + more;
    ConcatAppend(front, more);
    forall i | 0 <= i < |ls| ensures CarriesAt(rawId, 0 + i, ls[i]) {
      if i < |front| {
        assert CarriesAt(rawId, 0 + i, front[i]);
      } else {
        assert CarriesAt(rawId, |front| + (i - |front|), more[i - |front|]);
      }
    }
  }

  lemma {:induction false} PartOutput(rawId: RawIdOf, s: State) returns (ls: seq<Line>)
    requires Inv(rawId, s) && Neat(rawId, s)
    ensures PartOf(rawId, Output(s), s.stored, ls)
    ensures s.tail.Settled? ==> Output(s) == Concat(ls)
  {
    if s.tail.Settled? {
      hide Carries, Inv, Concat, EndOf;
      ls := WholeOutput(rawId, s);
    } else {
      hide Carries, AllKnown, InFlight, Honest, Waiting;
      NoConcat();
      assert s.buffer == [] && Output(s) == s.file;
      ls :| PartOf(rawId, s.file, s.stored, ls);
    }
  }

  lemma {:induction false} LookNeat(rawId: RawIdOf, s: State, s': State)
    requires Inv(rawId, s) && Neat(rawId, s) && Look(rawId, s, s') && WindowReaches(s.file)
    ensures Neat(rawId, s')
  {
    hide Inv, CutOutput, WindowReaches, Concat, EndOf, CarriesAt;
    var ls :| PartOf(rawId, s.file, s.stored, ls);
    var d := |s.file|;
    assert s.file == Concat(ls)[..d];
    var m := PrefixOfLinesCarried(rawId, ls, d);
    CutKeepsWholeLines(rawId, ls, d, m);
    assert |ls[..m]| == m && Carries(rawId, 0, ls[..m]);
    assert Whole(rawId, Concat(ls[..m]), m);
  }

  lemma {:induction false} TrimNeat(rawId: RawIdOf, s: State, s': State)
    requires Inv(rawId, s) && Neat(rawId, s) && Trim(s, s')
    ensures Neat(rawId, s')
  {
    hide Flows, Concat, EndOf, Carries, Clean;
    FlowNumbers(rawId, s);
    assert s.file[..|s.tail.cut.data|] == s.tail.cut.data;
  }

  lemma {:induction false} KillNeat(rawId: RawIdOf, s: State, s': State, d: nat, extra: nat, producers: nat, workers: nat)
    requires Inv(rawId, s) && Neat(rawId, s) && Kill(s, s', d, extra, producers, workers)
    ensures Neat(rawId, s')
  {
    hide Inv, Concat, Carries;
    var ls := PartOutput(rawId, s);
    assert PartOf(rawId, s'.file, s'.stored, ls);
  }

  /** Nobody has stored before recovery was through, and the window has reached the start of
      the last line whenever recovery was to read it. */
  ghost predicate Calm(s: State) {
    !s.rash && (s.tail.Unread? ==> WindowReaches(s.file))
  }

  /** The other turns change neither what recovery found nor, as nobody stores early, the
      file under it. */
  lemma {:induction false} TurnNeat(rawId: RawIdOf, s: State, s': State)
    requires Inv(rawId, s) && Neat(rawId, s) && Turn(rawId, s, s') && Calm(s) && Inv(rawId, s') && Calm(s')
    ensures Neat(rawId, s')
  {
    hide Inv, Look, Trim, Turn, Carries, Part, Whole, WindowReaches;
    if Look(rawId, s, s') {
      assert s.tail.Unread? by { LooksOnce(rawId, s, s'); }
      LookNeat(rawId, s, s');
    } else if Trim(s, s') {
      TrimNeat(rawId, s, s');
    } else {
      TurnLeaves(rawId, s, s');
      CalmMeans(rawId, s');
      if !s.tail.Settled? {
        EmptyBuffer(rawId, s);
        PartMore(rawId, s.file, s.stored, s'.stored);
      }
    }
  }

  lemma LooksOnce(rawId: RawIdOf, s: State, s': State)
    requires Look(rawId, s, s')
    ensures s.tail.Unread?
  {
  }

  lemma {:induction false} PartMore(rawId: RawIdOf, data: seq<Byte>, count: nat, more: nat)
    requires Part(rawId, data, count) && count <= more
    ensures Part(rawId, data, more)
  {
    hide Concat, Carries;
    var ls :| PartOf(rawId, data, count, ls);
    assert PartOf(rawId, data, more, ls);
  }

  ghost predicate Leaves(s: State, s': State) {
    && s'.tail == s.tail && s'.kept == s.kept && s'.base == s.base && s.stored <= s'.stored
    && (s'.file == s.file || s'.file == Output(s))
  }

  lemma RecoverLeaves(s: State, s': State, p: nat, count: nat)
    requires Recover(s, s', p, count)
    ensures Leaves(s, s')
  {
  }

  lemma StoreLeaves(s: State, s': State, p: nat, count: nat)
    requires Store(s, s', p, count)
    ensures Leaves(s, s')
  {
  }

  lemma SendLeaves(s: State, s': State, p: nat, cap: nat)
    requires Send(s, s', p, cap)
    ensures Leaves(s, s')
  {
  }

  lemma TakeLeaves(s: State, s': State, w: nat)
    requires Take(s, s', w)
    ensures Leaves(s, s')
  {
  }

  lemma EmitLeaves(rawId: RawIdOf, s: State, s': State, w: nat, lines: seq<Line>, cap: nat)
    requires Emit(rawId, s, s', w, lines, cap)
    ensures Leaves(s, s')
  {
  }

  lemma OthersLeave(s: State, s': State)
    requires ReadLength(s, s') || Receive(s, s') || Write(s, s') || Flush(s, s')
    ensures Leaves(s, s')
  {
    hide Output;
  }

  lemma TurnLeaves(rawId: RawIdOf, s: State, s': State)
    requires Turn(rawId, s, s') && !Look(rawId, s, s') && !Trim(s, s')
    ensures Leaves(s, s')
  {
    hide Look, Trim, ReadLength, Recover, Store, Send, Take, Emit, Receive, Write, Flush, Output;
    if p, n :| Recover(s, s', p, n) {
      RecoverLeaves(s, s', p, n);
    } else if p, n :| Store(s, s', p, n) {
      StoreLeaves(s, s', p, n);
    } else if p, cap :| Send(s, s', p, cap) {
      SendLeaves(s, s', p, cap);
    } else if w :| Take(s, s', w) {
      TakeLeaves(s, s', w);
    } else if w, lines, cap :| Emit(rawId, s, s', w, lines, cap) {
      EmitLeaves(rawId, s, s', w, lines, cap);
    } else {
      OthersLeave(s, s');
    }
  }

  lemma CalmMeans(rawId: RawIdOf, s: State)
    requires Inv(rawId, s) && !s.rash
    ensures !s.early && (!s.tail.Settled? ==> s.log == [])
  {
    hide Flows, Honest;
  }

  lemma EmptyBuffer(rawId: RawIdOf, s: State)
    requires Inv(rawId, s) && s.log == []
    ensures s.buffer == [] && Output(s) == s.file
  {
    hide AllKnown, InFlight, Honest, Going, Waiting;
    NoConcat();
  }

  lemma {:induction false} RunNeat(rawId: RawIdOf, run: seq<State>, i: nat)
    requires Run(rawId, run) && i < |run| && forall j :: 0 <= j <= i ==> Calm(run[j])
    ensures Inv(rawId, run[i]) && Neat(rawId, run[i])
  {
    hide Inv, Turn, Kill, Neat;
    RunInv(rawId, run, i);
    if i == 0 {
      var p, w :| Init(run[0], p, w);
      InitNeat(rawId, run[0], p, w);
    } else {
      RunNeat(rawId, run, i - 1);
      assert Step(rawId, run[i - 1], run[i - 1 + 1]);
      if Turn(rawId, run[i - 1], run[i]) {
        assert Calm(run[i - 1]);
        TurnNeat(rawId, run[i - 1], run[i]);
      } else {
        var d, extra, p, w :| Kill(run[i - 1], run[i], d, extra, p, w);
        KillNeat(rawId, run[i - 1], run[i], d, extra, p, w);
      }
    }
  }

  lemma InitNeat(rawId: RawIdOf, s: State, producers: nat, workers: nat)
    requires Init(s, producers, workers)
    ensures Neat(rawId, s)
  {
    var none: seq<Line> := [];
    assert |none| == 0 && Carries(rawId, 0, none) && Concat(none) == [];
    assert Whole(rawId, s.kept, s.base);
  }

  /** Exactly once, under every schedule and any number of kills and restarts, as long as
      nobody stores before recovery is through: at every moment the output is the lines of
      ids 0, 1, ..., each once and in order, none past the store, and so is whatever prefix
      of it a kill may leave; a torn end, in either, stands only until recovery cuts it. */
  lemma ExactlyOnce(rawId: RawIdOf, run: seq<State>, i: nat, d: nat) returns (ls: seq<Line>, m: nat)
    requires Run(rawId, run) && i < |run| && d <= |Output(run[i])|
    requires forall j :: 0 <= j <= i ==> Calm(run[j])
    ensures Carries(rawId, 0, ls) && |ls| <= run[i].stored && Output(run[i]) <= Concat(ls)
    ensures run[i].tail.Settled? ==> Output(run[i]) == Concat(ls)
    ensures m <= |ls| && Concat(ls[..m]) <= Output(run[i])[..d]
    ensures Unbroken(Output(run[i])[..d], |Concat(ls[..m])|, d)
  {
    hide Inv, Run, Concat, CarriesAt, Neat, Output;
    RunNeat(rawId, run, i);
    ls := PartOutput(rawId, run[i]);
    m := PrefixOfLinesCarried(rawId, ls, d);
    assert Output(run[i])[..d] == Concat(ls)[..d];
  }

  /** Once every channel is empty and no batch is in hand, the reorder buffer is empty too
      and every stored record has its line. */
  lemma QuietMeansWritten(rawId: RawIdOf, run: seq<State>, i: nat) returns (ls: seq<Line>)
    requires Run(rawId, run) && i < |run| && Quiet(run[i])
    requires forall j :: 0 <= j <= i ==> Calm(run[j])
    ensures run[i].pending == map[]
    ensures |ls| == run[i].stored && Carries(rawId, 0, ls) && Concat(ls) == Output(run[i])
  {
    hide Flows, Bounded, Repeats, Covered, Honest, Run, Concat, Carries, InOrder, Whole, EndOf, Clean;
    RunNeat(rawId, run, i);
    QuietIsDrained(rawId, run[i]);
    ls := WholeOutput(rawId, run[i]);
  }

  // ----- Exactly when

  /** Order, exactly. Once a run is quiet, what it has written behind what recovery read is
      the lines of consecutive ids from where recovery went on if and only if nobody stored
      before recovery was through but for batches whose lines recovery found in the file. */
  lemma OrderExactly(rawId: RawIdOf, run: seq<State>, i: nat)
    requires Run(rawId, run) && i < |run| && Quiet(run[i])
    ensures Carries(rawId, run[i].base, run[i].written) <==> !run[i].early
  {
    hide Flows, Bounded, Repeats, Covered, Honest, Run, Carries, InOrder, EndOf, Clean;
    RunInv(rawId, run, i);
    QuietIsDrained(rawId, run[i]);
    SequenceIffOrder(rawId, run[i]);
  }

  /** Two different lines carry the same id. */
  ghost predicate Repeated(rawId: RawIdOf, ls: seq<Line>) {
    exists i, j, id :: 0 <= i < j < |ls| && CarriesAt(rawId, id, ls[i]) && CarriesAt(rawId, id, ls[j])
  }

  /** Duplicates, exactly. Once a run is quiet, it has written some id twice behind what
      recovery read if and only if somebody stored such a batch before recovery read the
      store's length: recovery numbered those records again. */
  lemma RepeatsExactly(rawId: RawIdOf, run: seq<State>, i: nat)
    requires Run(rawId, run) && i < |run| && Quiet(run[i])
    ensures Repeated(rawId, run[i].written) <==> run[i].unread
  {
    hide Run, Flows, Honest, Ordered, Covered, Ids, Spells, Repeats, Bounded, Repeated, Clean, Concat;
    var s := run[i];
    RunInv(rawId, run, i);
    QuietIsDrained(rawId, s);
    RepeatedIffIds(rawId, Ids(After(s)), s.written);
    if s.unread {
      OverlapOf(s);
      OverlapRepeats(After(s));
    } else {
      Distinct(s);
      ApartDistinct(After(s));
    }
  }

  ghost predicate SameTwice(ids: seq<nat>) {
    exists i, j :: 0 <= i < j < |ids| && ids[i] == ids[j]
  }

  lemma RepeatedIffIds(rawId: RawIdOf, ids: seq<nat>, ls: seq<Line>)
    requires Spells(rawId, ids, ls)
    ensures Repeated(rawId, ls) <==> SameTwice(ids)
  {
    if i, j, id :| 0 <= i < j < |ls| && CarriesAt(rawId, id, ls[i]) && CarriesAt(rawId, id, ls[j]) {
      assert CarriesAt(rawId, ids[i], ls[i]) && CarriesAt(rawId, ids[j], ls[j]);
      assert ids[i] == ids[j];
    }
    if i, j :| 0 <= i < j < |ids| && ids[i] == ids[j] {
      assert CarriesAt(rawId, ids[i], ls[i]) && CarriesAt(rawId, ids[j], ls[j]);
    }
  }

  /** Two batches share an id. */
  ghost predicate Overlap(bs: seq<Batch>) {
    exists a, b, id :: 0 <= a < b < |bs| && Holds(bs[a], id) && Holds(bs[b], id)
  }

  ghost predicate Disjoint(bs: seq<Batch>) {
    forall a, b, id :: 0 <= a < b < |bs| && Holds(bs[a], id) ==> !Holds(bs[b], id)
  }

  lemma OverlapOf(s: State)
    requires Bounded(s) && Repeats(s) && Through(s) && s.unread
    ensures Overlap(After(s))
  {
    var log := After(s);
    var e: nat :| Twice(s, e);
    var id := log[e].first;
    assert Within(s, log[e]);
    assert RecoveredId(log, id);
    var r :| 0 <= r < |log| && log[r].recovered && Holds(log[r], id);
    assert Holds(log[e], id);
    if r < e {
      assert Holds(log[r], id) && Holds(log[e], id);
    } else {
      assert Holds(log[e], id) && Holds(log[r], id);
    }
  }

  lemma Distinct(s: State)
    requires Bounded(s) && Repeats(s) && !s.unread
    ensures Disjoint(After(s))
  {
    var log := After(s);
    forall a, b, id | 0 <= a < b < |log| && Holds(log[a], id)
      ensures !Holds(log[b], id)
    {
      assert Within(s, log[a]) && Within(s, log[b]);
      if log[a].recovered == log[b].recovered {
        assert Before(log[a], log[b]);
      }
    }
  }

  /** Where an id of a batch stands among the ids of all. */
  lemma {:induction false} PlaceOf(bs: seq<Batch>, a: nat, id: nat) returns (i: nat)
    requires a < |bs| && Holds(bs[a], id)
    ensures |Ids(bs[..a])| <= i < |Ids(bs[..a + 1])| <= |Ids(bs)| && Ids(bs)[i] == id
  {
    hide Ids;
    assert bs[..a + 1] == bs[..a] + [bs[a]];
    IdsSnoc(bs[..a], bs[a]);
    i := |Ids(bs[..a])| + (id - bs[a].first);
    IdsPrefix(bs, a + 1);
  }

  lemma {:induction false} IdsPrefix(bs: seq<Batch>, n: nat)
    requires n <= |bs|
    ensures Ids(bs[..n]) <= Ids(bs)
    decreases |bs|
  {
    if n == |bs| {
      assert bs[..n] == bs;
    } else {
      var front := bs[..|bs| - 1];
      IdsPrefix(front, n);
      assert front[..n] == bs[..n];
    }
  }

  /** The batch an id comes from. */
  lemma {:induction false} BatchOf(bs: seq<Batch>, i: nat) returns (a: nat)
    requires i < |Ids(bs)|
    ensures a < |bs| && Holds(bs[a], Ids(bs)[i])
    ensures |Ids(bs[..a])| <= i && Ids(bs)[i] == bs[a].first + (i - |Ids(bs[..a])|)
    decreases |bs|
  {
    var front, last := bs[..|bs| - 1], bs[|bs| - 1];
    if i < |Ids(front)| {
      a := BatchOf(front, i);
      assert front[..a] == bs[..a];
    } else {
      a := |bs| - 1;
    }
  }

  lemma {:induction false} OverlapRepeats(bs: seq<Batch>)
    requires Overlap(bs)
    ensures SameTwice(Ids(bs))
  {
    hide Ids;
    var a, b, id :| 0 <= a < b < |bs| && Holds(bs[a], id) && Holds(bs[b], id);
    var i := PlaceOf(bs, a, id);
    var j := PlaceOf(bs, b, id);
    IdsPrefix(bs[..b], a + 1);
    assert bs[..b][..a + 1] == bs[..a + 1];
    assert Ids(bs)[i] == Ids(bs)[j];
  }

  lemma {:induction false} ApartDistinct(bs: seq<Batch>)
    requires Disjoint(bs)
    ensures !SameTwice(Ids(bs))
  {
    hide Ids;
    var ids := Ids(bs);
    forall i, j | 0 <= i < j < |ids|
      ensures ids[i] != ids[j]
    {
      var a := BatchOf(bs, i);
      var b := BatchOf(bs, j);
      if a < b {
        assert Holds(bs[a], ids[i]) && Holds(bs[b], ids[j]);
      } else if b < a {
        assert Holds(bs[b], ids[j]) && Holds(bs[a], ids[i]);
      }
    }
  }

  // ----- The whole output

  /** Once a run is quiet, batches in order from anywhere are in order from `base`. */
  lemma {:induction false} OrderFromBase(s: State, from: nat)
    requires Going(s) && Quiet(s) && InOrder(After(s), from) && After(s) != []
    ensures from == s.base && !s.early
  {
    hide EndOf, Clean, Covered;
    var log := After(s);
    FirstStarts(log, from);
    assert Within(s, log[0]);
    if from > s.base {
      if s.base < s.cursor {
        assert RecoveredId(log, s.base);
        var r :| 0 <= r < |log| && log[r].recovered && Holds(log[r], s.base);
        InOrderBounds(log, from, r);
      } else {
        NoneUnread(s);
        FirstStarts(log, s.base);
      }
    }
  }

  lemma NoneUnread(s: State)
    requires Bounded(s) && Repeats(s) && s.due.Some? && s.due.value <= s.base
    ensures !s.unread && !s.early
  {
    forall e: nat ensures !Twice(s, e) {
      if e < |After(s)| {
        assert Within(s, After(s)[e]);
      }
    }
  }

  lemma {:induction false} FirstStarts(log: seq<Batch>, from: nat)
    requires InOrder(log, from) && log != []
    ensures log[0].first == from
    decreases |log|
  {
    if |log| > 1 {
      FirstStarts(log[..|log| - 1], from);
    }
  }

  /** The output, exactly. Once a run is quiet, whatever happened in the runs before it, the
      output is the line of every stored record, once and in order, if and only if what
      recovery found of it was so up to the id it went on from, and no early batch came
      behind that. */
  lemma {:induction false} OutputExactly(rawId: RawIdOf, run: seq<State>, i: nat)
    requires Run(rawId, run) && i < |run| && Quiet(run[i]) && !run[i].blind
    ensures Whole(rawId, Output(run[i]), run[i].stored) <==> Whole(rawId, run[i].kept, run[i].base) && !run[i].early
  {
    hide Run, InOrder, EndOf, Flows, Honest, Bounded, Repeats, Covered, Whole, Clean;
    var s := run[i];
    RunInv(rawId, run, i);
    QuietIsDrained(rawId, s);
    if Whole(rawId, s.kept, s.base) && !s.early {
      var ls := WholeOutput(rawId, s);
      assert Whole(rawId, Output(s), s.stored) by { WholeIs(rawId, ls); }
    }
    if Whole(rawId, Output(s), s.stored) {
      WholeFront(rawId, s);
    }
  }

  lemma {:induction false} WholeIs(rawId: RawIdOf, ls: seq<Line>)
    requires Carries(rawId, 0, ls)
    ensures Whole(rawId, Concat(ls), |ls|)
  {
  }

  lemma {:induction false} WholeFront(rawId: RawIdOf, s: State)
    requires Inv(rawId, s) && Quiet(s) && !s.blind && Whole(rawId, Output(s), s.stored)
    ensures Whole(rawId, s.kept, s.base) && !s.early
  {
    hide InOrder, EndOf, AllKnown, InFlight, Ids, Honest, Covered, Repeats, Concat, Spells, CarriesAt, Clean;
    QuietIsDrained(rawId, s);
    SpelledLines(rawId, Ids(After(s)), s.written);
    var ls :| |ls| == s.stored && Carries(rawId, 0, ls) && Concat(ls) == Output(s);
    CarriedLines(rawId, 0, ls);
    var m := CleanFront(ls, s.kept, s.written);
    assert Carries(rawId, m, s.written) by {
      forall j | 0 <= j < |s.written| ensures CarriesAt(rawId, m + j, s.written[j]) {
        assert CarriesAt(rawId, 0 + (m + j), ls[m + j]);
      }
    }
    assert |ls[..m]| == m && Carries(rawId, 0, ls[..m]);
    assert Whole(rawId, s.kept, m);
    AfterFrom(rawId, s, m);
  }

  lemma {:induction false} CarriedLines(rawId: RawIdOf, from: nat, ls: seq<Line>)
    requires Carries(rawId, from, ls)
    ensures Lines(ls)
  {
    forall i | 0 <= i < |ls| ensures IsLine(ls[i]) {
      assert CarriesAt(rawId, from + i, ls[i]);
    }
  }

  /** Written in sequence from `m`, up to the last stored record: from `base`, then. */
  lemma {:induction false} AfterFrom(rawId: RawIdOf, s: State, m: nat)
    requires Inv(rawId, s) && Quiet(s) && Carries(rawId, m, s.written) && m + |s.written| == s.stored
    ensures m == s.base && !s.early
  {
    hide InOrder, EndOf, AllKnown, InFlight, Ids, Honest, Covered, Repeats, Concat, Carries, Spells, Clean, Range;
    QuietIsDrained(rawId, s);
    var log := After(s);
    forall j | 0 <= j < |log| ensures log[j].count > 0 {
      assert Within(s, log[j]);
    }
    SpellsInSequence(rawId, Ids(log), s.written, m);
    InOrderIds(log, m);
    if log == [] {
      NothingAfter(s);
      NoIds();
      assert s.written == [] by { SpellsLength(rawId, Ids(log), s.written); }
    } else {
      OrderFromBase(s, m);
    }
  }

  lemma NoIds()
    ensures Ids([]) == []
  {
  }

  lemma SpellsLength(rawId: RawIdOf, ids: seq<nat>, ls: seq<Line>)
    requires Spells(rawId, ids, ls)
    ensures |ids| == |ls|
  {
  }

  lemma NothingAfter(s: State)
    requires Going(s) && Quiet(s) && After(s) == []
    ensures !s.early && s.base == s.stored
  {
  }

  // ----- Lost lines

  /** Every record below has a complete line in the file. */
  ghost predicate NoneMissing(rawId: RawIdOf, data: seq<Byte>, count: nat) {
    forall id: nat :: id < count ==> HasLine(rawId, data, id)
  }

  /** Losses, exactly. Once a run is quiet, whatever happened in the runs before it, every
      stored record has its line if and only if, in what recovery found of the output, none
      was missing below the id it went on from. */
  lemma {:induction false} LossExactly(rawId: RawIdOf, run: seq<State>, i: nat)
    requires Run(rawId, run) && i < |run| && Quiet(run[i]) && !run[i].blind
    ensures NoneMissing(rawId, Output(run[i]), run[i].stored) <==> NoneMissing(rawId, run[i].kept, run[i].base)
  {
    hide Run, Inv, HasLine, Quiet;
    var s := run[i];
    RunInv(rawId, run, i);
    FoundOrWritten(rawId, s);
    assert s.base <= s.stored;
  }

  /** From `base` on every stored id was written; below it only what was found is there. */
  lemma {:induction false} FoundOrWritten(rawId: RawIdOf, s: State)
    requires Inv(rawId, s) && Quiet(s) && !s.blind
    ensures s.base <= s.stored
    ensures forall id: nat :: id < s.stored ==> (HasLine(rawId, Output(s), id) <==> id >= s.base || HasLine(rawId, s.kept, id))
  {
    hide Flows, Honest, Ordered, Concat, HasLine, Lines, Among, Clean, InOrder, EndOf;
    AmongFromBase(rawId, s);
    forall id: nat | id < s.stored
      ensures HasLine(rawId, Output(s), id) <==> id >= s.base || HasLine(rawId, s.kept, id)
    {
      HasLineJoined(rawId, s.kept, s.written, id);
    }
  }

  lemma {:induction false} IdsFromBase(s: State, id: nat)
    requires Going(s) && Quiet(s) && id < s.stored
    ensures id in Ids(After(s)) <==> id >= s.base
  {
    hide Ids, Ordered, Clean, InOrder, EndOf;
    var log := After(s);
    if id in Ids(log) {
      var i :| 0 <= i < |Ids(log)| && Ids(log)[i] == id;
      var a := BatchOf(log, i);
      assert Within(s, log[a]);
    }
    if id >= s.base {
      var a: nat := 0;
      if id < s.cursor {
        assert RecoveredId(log, id);
        var r :| 0 <= r < |log| && log[r].recovered && Holds(log[r], id);
        a := r;
      } else {
        assert StoredId(log, id);
        var r :| 0 <= r < |log| && Holds(log[r], id);
        a := r;
      }
      var i := PlaceOf(log, a, id);
    }
  }

  /** Duplicates in the whole output, exactly. Once a run is quiet, whatever happened in the
      runs before it, some id has two lines if and only if it had in what recovery found, or
      a line found there was of an id recovery went on to, or somebody stored before the
      length was read. */
  lemma {:induction false} DuplicatesExactly(rawId: RawIdOf, run: seq<State>, i: nat)
    requires Run(rawId, run) && i < |run| && Quiet(run[i]) && !run[i].blind
    ensures (exists id: nat :: HasTwo(rawId, Output(run[i]), id)) <==>
      || (exists id: nat :: HasTwo(rawId, run[i].kept, id))
      || (exists id: nat :: run[i].base <= id < run[i].stored && HasLine(rawId, run[i].kept, id))
      || run[i].unread
  {
    hide Run, Inv, HasLine, HasTwo, Quiet, Repeated, TwoAmong, Among;
    var s := run[i];
    RunInv(rawId, run, i);
    RepeatsExactly(rawId, run, i);
    RepeatedIsTwo(rawId, s);
    AmongFromBase(rawId, s);
    forall id: nat
      ensures HasTwo(rawId, Output(s), id)
         <==> HasTwo(rawId, s.kept, id) || TwoAmong(rawId, s.written, id) || (HasLine(rawId, s.kept, id) && s.base <= id < s.stored)
    {
      HasTwoJoined(rawId, s.kept, s.written, id);
    }
  }

  lemma {:induction false} AmongFromBase(rawId: RawIdOf, s: State)
    requires Inv(rawId, s) && Quiet(s) && !s.blind
    ensures Clean(s.kept) && Lines(s.written) && Output(s) == s.kept + Concat(s.written)
    ensures forall id: nat :: Among(rawId, s.written, id) <==> s.base <= id < s.stored
  {
    hide InOrder, EndOf, AllKnown, InFlight, Ids, Honest, Ordered, Concat, Spells, Lines, Among, Clean;
    QuietIsDrained(rawId, s);
    SpelledLines(rawId, Ids(After(s)), s.written);
    forall id: nat ensures Among(rawId, s.written, id) <==> s.base <= id < s.stored {
      if id < s.stored {
        IdsFromBase(s, id);
      } else {
        IdsStored(s, id);
      }
    }
  }

  lemma IdsStored(s: State, id: nat)
    requires Going(s)
    ensures id in Ids(After(s)) ==> id < s.stored
  {
    hide Ids, Ordered, Clean, InOrder, EndOf;
    if id in Ids(After(s)) {
      var i :| 0 <= i < |Ids(After(s))| && Ids(After(s))[i] == id;
      var a := BatchOf(After(s), i);
      assert Within(s, After(s)[a]);
    }
  }

  lemma RepeatedIsTwo(rawId: RawIdOf, s: State)
    requires Inv(rawId, s) && Quiet(s)
    ensures Repeated(rawId, s.written) <==> exists id: nat :: TwoAmong(rawId, s.written, id)
  {
    hide InOrder, EndOf, AllKnown, InFlight, Ids, Honest, Going, Concat, Clean;
    QuietIsDrained(rawId, s);
    var ids, ls := Ids(After(s)), s.written;
    if i, j, id :| 0 <= i < j < |ls| && CarriesAt(rawId, id, ls[i]) && CarriesAt(rawId, id, ls[j]) {
      assert ReadsAs(rawId, ls[i], id) && ReadsAs(rawId, ls[j], id);
      assert TwoAmong(rawId, ls, id);
    }
    if id: nat :| TwoAmong(rawId, ls, id) {
      var i, j :| 0 <= i < j < |ls| && ReadsAs(rawId, ls[i], id) && ReadsAs(rawId, ls[j], id);
      assert CarriesAt(rawId, ids[i], ls[i]) && CarriesAt(rawId, ids[j], ls[j]);
      assert CarriesAt(rawId, id, ls[i]) && CarriesAt(rawId, id, ls[j]);
    }
  }

  lemma {:induction false} LinesBehind(rawId: RawIdOf, kept: seq<Byte>, base: nat, ls: seq<Line>, e: nat, m: nat)
    requires Clean(kept) && Carries(rawId, base, ls) && CutOutput(rawId, kept) == Cut(kept, At(base))
    requires CutsInto(ls, e, m) && WindowReaches(kept + Concat(ls)[..e])
    requires NoneMissing(rawId, kept, base)
    ensures CutOutput(rawId, kept + Concat(ls)[..e]) == Cut(kept + Concat(ls[..m]), At(base + m))
    ensures NoneMissing(rawId, kept + Concat(ls[..m]), base + m)
  {
    hide Concat, CutOutput, WindowReaches, Clean, HasLine, CarriesAt, LastNewline, LastLineStart, Among;
    if m == 0 {
      NoConcat();
      assert ls[..0] == [] && kept + [] == kept;
      TornBehind(rawId, kept, base, Concat(ls)[..e]);
    } else {
      LastBehind(rawId, kept, base, ls, e, m);
      assert Carries(rawId, base, ls[..m]);
      CarriedLines(rawId, base, ls[..m]);
      forall id: nat | id < base + m ensures HasLine(rawId, kept + Concat(ls[..m]), id) {
        HasLineJoined(rawId, kept, ls[..m], id);
        if id >= base {
          CarriedAmong(rawId, base, ls[..m], id - base);
        }
      }
    }
  }

  lemma CarriedAmong(rawId: RawIdOf, base: nat, ls: seq<Line>, j: nat)
    requires Carries(rawId, base, ls) && j < |ls|
    ensures Among(rawId, ls, base + j)
  {
    assert CarriesAt(rawId, base + j, ls[j]);
  }

  lemma {:induction false} TornBehind(rawId: RawIdOf, kept: seq<Byte>, base: nat, torn: seq<Byte>)
    requires Clean(kept) && Unbroken(torn, 0, |torn|) && WindowReaches(kept + torn)
    requires CutOutput(rawId, kept) == Cut(kept, At(base))
    ensures CutOutput(rawId, kept + torn) == Cut(kept, At(base))
  {
    hide CutOutput, LastNewline;
    var data := kept + torn;
    assert forall i :: 0 <= i < |torn| ==> data[|kept| + i] == torn[i];
    if kept == [] {
      NoNewline(data);
      NoNewline(kept);
    } else {
      var nl := |kept| - 1;
      LastNewlineIs(data, nl);
      LastNewlineIs(kept, nl);
      assert data[..nl] == kept[..nl] && data[..nl + 1] == kept;
      assert LastLineStart(data) == LastLineStart(kept);
      var from := LastLineStart(kept).value;
      assert data[from..nl] == kept[from..nl];
    }
    assert WindowReaches(kept);
    CutInWindow(rawId, data);
    CutInWindow(rawId, kept);
  }

  lemma {:induction false} LastBehind(rawId: RawIdOf, kept: seq<Byte>, base: nat, ls: seq<Line>, e: nat, m: nat)
    requires Clean(kept) && Carries(rawId, base, ls) && CutsInto(ls, e, m) && m > 0
    requires WindowReaches(kept + Concat(ls)[..e])
    ensures CutOutput(rawId, kept + Concat(ls)[..e]) == Cut(kept + Concat(ls[..m]), At(base + m))
  {
    hide Concat, CutOutput, LastNewline, LastLineStart, Carries, WindowReaches, Clean;
    var data, whole := kept + Concat(ls)[..e], kept + Concat(ls[..m]);
    var start, line := |kept| + |Concat(ls[..m - 1])|, ls[m - 1];
    LastWhole(rawId, kept, base, ls, m);
    assert data[..|whole|] == whole;
    assert data[start..start + |line|] == whole[start..start + |line|];
    assert start > 0 ==> data[start - 1] == whole[start - 1];
    TornUnbroken(kept, Concat(ls)[..e], |Concat(ls[..m])|);
    LastLineStartIs(data, start, line);
    assert |data| <= WINDOW || |data| - start <= WINDOW by { assert WindowReaches(data); WindowMeans(data); }
    LastLineFound(rawId, data, start, line, base + (m - 1));
  }

  lemma WindowMeans(data: seq<Byte>)
    requires WindowReaches(data)
    ensures |data| <= WINDOW || (LastLineStart(data).Some? && |data| - LastLineStart(data).value <= WINDOW)
  {
  }

  lemma TornUnbroken(kept: seq<Byte>, more: seq<Byte>, from: nat)
    requires from <= |more| && Unbroken(more, from, |more|)
    ensures Unbroken(kept + more, |kept| + from, |kept + more|)
  {
  }

  lemma {:induction false} LastWhole(rawId: RawIdOf, kept: seq<Byte>, base: nat, ls: seq<Line>, m: nat)
    requires Clean(kept) && Carries(rawId, base, ls) && 0 < m <= |ls|
    ensures var whole, start, line := kept + Concat(ls[..m]), |kept| + |Concat(ls[..m - 1])|, ls[m - 1];
      && IsLine(line) && rawId(Body(line)) == Some(base + (m - 1)) && start + |line| == |whole|
      && whole[start..start + |line|] == line && (start > 0 ==> whole[start - 1] == LF)
  {
    hide Concat;
    var front, line := Concat(ls[..m - 1]), ls[m - 1];
    assert CarriesAt(rawId, base + (m - 1), line);
    LastOfPrefix(ls, m);
    if m > 1 {
      LastOfPrefix(ls, m - 1);
      assert CarriesAt(rawId, base + (m - 2), ls[m - 2]);
      assert front[|front| - 1] == LF;
    } else {
      NoConcat();
      assert ls[..0] == [];
    }
  }

  /** A kill on a run without an early batch loses nothing that was not lost before: if none
      was missing below the id that run went on from, none is below the id the next one
      does, wherever the cut fell behind what the run had found. */
  lemma {:induction false} KillLosesNothing(rawId: RawIdOf, s: State, d: nat)
    requires Inv(rawId, s) && s.tail.Settled? && !s.early && !s.blind && NoneMissing(rawId, s.kept, s.base)
    requires CutOutput(rawId, s.kept) == Cut(s.kept, At(s.base))
    requires |s.kept| <= d <= |Output(s)| && WindowReaches(Output(s)[..d])
    ensures var cut := CutOutput(rawId, Output(s)[..d]);
      cut.resume.At? && NoneMissing(rawId, cut.data, cut.resume.first)
  {
    hide Inv, HasLine, CutOutput, WindowReaches, Concat, Clean, Carries;
    WrittenOn(rawId, s);
    CarriedLines(rawId, s.base, s.written);
    assert Output(s)[..d] == s.kept + Concat(s.written)[..d - |s.kept|];
    var m := PrefixOfLines(s.written, d - |s.kept|);
    LinesBehind(rawId, s.kept, s.base, s.written, d - |s.kept|, m);
  }

  lemma WrittenOn(rawId: RawIdOf, s: State)
    requires Inv(rawId, s) && s.tail.Settled? && !s.early && !s.blind
    ensures Carries(rawId, s.base, s.written) && Clean(s.kept) && Output(s) == s.kept + Concat(s.written)
  {
    hide AllKnown, InFlight, Spells, Ids, InOrder, Honest, Repeats, Covered, EndOf, Concat, Carries, Clean;
    SequenceIffOrder(rawId, s);
    InOrderPrefix(After(s), s.base, s.next - s.mark);
    assert After(s)[..s.next - s.mark] == s.log[s.mark..s.next];
  }
}
