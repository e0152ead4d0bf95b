/** Runs in which a listener stores before recovery is through: what its batch does to the
    output depends on when its line reaches the file and when the engine is killed. */
module Listeners {
  import opened Bytes
  import opened Framing
  import opened OutputLines
  import opened FileLines
  import opened Pipeline
  import opened PipelineRuns

  // ----- Building runs

  lemma RunOn(rawId: RawIdOf, run: seq<State>, s': State) returns (more: seq<State>)
    requires Run(rawId, run) && Step(rawId, run[|run| - 1], s')
    ensures Run(rawId, more) && |more| > 0 && more[|more| - 1] == s'
  {
    hide Init, Turn, Kill;
    more := run + [s'];
    assert more[0] == run[0] && more[|run|] == s';
    forall i | 0 <= i < |more| - 1
      ensures Step(rawId, more[i], more[i + 1])
    {
      if i < |run| - 1 {
        assert Step(rawId, run[i], run[i + 1]);
      }
    }
    assert Run(rawId, more) by {
      var p, w :| Init(run[0], p, w);
      assert Init(more[0], p, w);
    }
  }

  lemma Onward(rawId: RawIdOf, run: seq<State>, s': State) returns (more: seq<State>)
    requires Run(rawId, run) && Turn(rawId, run[|run| - 1], s')
    ensures Run(rawId, more) && |more| > 0 && more[|more| - 1] == s'
  {
    hide Run, Turn, Kill;
    more := RunOn(rawId, run, s');
  }

  lemma RecoverOn(rawId: RawIdOf, run: seq<State>, s': State, p: nat, n: nat) returns (more: seq<State>)
    requires Run(rawId, run) && Recover(run[|run| - 1], s', p, n)
    ensures Run(rawId, more) && |more| > 0 && more[|more| - 1] == s'
  {
    hide Run, Kill, Look, Trim, ReadLength, Recover, Store, Send, Take, Emit, Receive, Write, Flush;
    more := Onward(rawId, run, s');
  }

  lemma StoreOn(rawId: RawIdOf, run: seq<State>, s': State, p: nat, n: nat) returns (more: seq<State>)
    requires Run(rawId, run) && Store(run[|run| - 1], s', p, n)
    ensures Run(rawId, more) && |more| > 0 && more[|more| - 1] == s'
  {
    hide Run, Kill, Look, Trim, ReadLength, Recover, Store, Send, Take, Emit, Receive, Write, Flush;
    more := Onward(rawId, run, s');
  }

  lemma SendOn(rawId: RawIdOf, run: seq<State>, s': State, p: nat, cap: nat) returns (more: seq<State>)
    requires Run(rawId, run) && Send(run[|run| - 1], s', p, cap)
    ensures Run(rawId, more) && |more| > 0 && more[|more| - 1] == s'
  {
    hide Run, Kill, Look, Trim, ReadLength, Recover, Store, Send, Take, Emit, Receive, Write, Flush;
    more := Onward(rawId, run, s');
  }

  lemma TakeOn(rawId: RawIdOf, run: seq<State>, s': State, w: nat) returns (more: seq<State>)
    requires Run(rawId, run) && Take(run[|run| - 1], s', w)
    ensures Run(rawId, more) && |more| > 0 && more[|more| - 1] == s'
  {
    hide Run, Kill, Look, Trim, ReadLength, Recover, Store, Send, Take, Emit, Receive, Write, Flush;
    more := Onward(rawId, run, s');
  }

  lemma EmitOn(rawId: RawIdOf, run: seq<State>, s': State, w: nat, ls: seq<Line>, cap: nat) returns (more: seq<State>)
    requires Run(rawId, run) && Emit(rawId, run[|run| - 1], s', w, ls, cap)
    ensures Run(rawId, more) && |more| > 0 && more[|more| - 1] == s'
  {
    hide Run, Kill, Look, Trim, ReadLength, Recover, Store, Send, Take, Emit, Receive, Write, Flush;
    more := Onward(rawId, run, s');
  }

  lemma OutputOn(rawId: RawIdOf, run: seq<State>, s': State) returns (more: seq<State>)
    requires Run(rawId, run) && (Receive(run[|run| - 1], s') || Write(run[|run| - 1], s') || Flush(run[|run| - 1], s'))
    ensures Run(rawId, more) && |more| > 0 && more[|more| - 1] == s'
  {
    hide Run, Kill, Look, Trim, ReadLength, Recover, Store, Send, Take, Emit, Receive, Write, Flush;
    more := Onward(rawId, run, s');
  }

  /** The engine is killed, with nothing torn in the file, and started again. */
  lemma Killed(rawId: RawIdOf, run: seq<State>, s: State, d: nat) returns (more: seq<State>, s': State)
    requires Run(rawId, run) && s == run[|run| - 1] && d <= |Output(s)| && Clean(s.file)
    ensures Run(rawId, more) && |more| > 0 && more[|more| - 1] == s'
    ensures s' == Restarted(s.stored, Output(s)[..d], 1, 1, s.glued)
  {
    hide Run, Turn, Output, Clean;
    s' := Restarted(s.stored, Output(s)[..d], 1, 1, s.glued);
    assert Kill(s, s', d, 0, 1, 1);
    more := RunOn(rawId, run, s');
  }

  /** Nothing in flight. */
  ghost predicate Idle(s: State) {
    && s.hands == [None] && s.work == [None] && s.queue == [] && s.out == [] && s.pending == map[]
    && s.next == s.seqNo && s.buffer == []
  }

  /** Recovery finds the output whole and reads this id from it. */
  lemma Looked(rawId: RawIdOf, run: seq<State>, s: State, first: nat) returns (more: seq<State>, s': State)
    requires Run(rawId, run) && s == run[|run| - 1]
    requires s.tail.Unread? && s.flushed == |s.log| && !s.glued
    requires WindowReaches(s.file) && CutOutput(rawId, s.file) == Cut(s.file, At(first))
    ensures Run(rawId, more) && |more| > 0 && more[|more| - 1] == s'
    ensures s' == s.(tail := Settled, mark := s.flushed, kept := s.file, written := s.buffer, base := first, cursor := first,
                     early := false, unread := false)
  {
    hide Run, Kill, CutOutput, WindowReaches, Trim, ReadLength, Recover, Store, Send, Take, Emit, Receive, Write, Flush, EndOf;
    s' := Settle(s, At(first));
    assert Look(rawId, s, s');
    more := Onward(rawId, run, s');
  }

  lemma Read(rawId: RawIdOf, run: seq<State>, s: State) returns (more: seq<State>, s': State)
    requires Run(rawId, run) && s == run[|run| - 1] && s.tail.Settled? && s.due == None
    ensures Run(rawId, more) && |more| > 0 && more[|more| - 1] == s' && s' == s.(due := Some(s.stored))
  {
    hide Run, Kill, Look, Trim, Recover, Store, Send, Take, Emit, Receive, Write, Flush;
    s' := s.(due := Some(s.stored));
    assert ReadLength(s, s');
    more := Onward(rawId, run, s');
  }

  /** The producer sends the batch in its hand. */
  lemma Sent(rawId: RawIdOf, run: seq<State>, s: State, b: Batch) returns (more: seq<State>, s': State)
    requires Run(rawId, run) && s == run[|run| - 1] && s.hands == [Some(b)] && s.queue == []
    ensures Run(rawId, more) && |more| > 0 && more[|more| - 1] == s' && s' == s.(hands := [None], queue := [b])
  {
    hide Run, Turn;
    s' := s.(hands := [None], queue := [b]);
    assert s.hands[0 := None] == [None] && s.queue + [b] == [b];
    more := SendOn(rawId, run, s', 0, 1);
  }

  /** What storing one record changes. */
  function AfterStore(s: State): State
    requires s.hands == [None]
  {
    var b := Batch(s.seqNo, s.stored, 1, false);
    Numbered(s, 0, b).(stored := s.stored + 1, rash := s.rash || !Through(s),
                       early := s.early || (s.tail.Settled? && !Through(s)),
                       unread := s.unread || (s.tail.Settled? && s.due == None))
  }

  /** A producer stores one record and sends its batch. */
  lemma Stored(rawId: RawIdOf, run: seq<State>, s: State) returns (more: seq<State>, s': State)
    requires Run(rawId, run) && s == run[|run| - 1] && s.hands == [None] && s.queue == []
    ensures Run(rawId, more) && |more| > 0 && more[|more| - 1] == s'
    ensures s' == AfterStore(s).(hands := [None], queue := [Batch(s.seqNo, s.stored, 1, false)])
  {
    hide Run, Turn, AfterStore;
    StoreFits(s);
    more := StoreOn(rawId, run, AfterStore(s), 0, 1);
    more, s' := Sent(rawId, more, AfterStore(s), Batch(s.seqNo, s.stored, 1, false));
  }

  lemma StoreFits(s: State)
    requires s.hands == [None]
    ensures Store(s, AfterStore(s), 0, 1)
    ensures AfterStore(s).hands == [Some(Batch(s.seqNo, s.stored, 1, false))] && AfterStore(s).queue == s.queue
  {
  }

  /** The batch in the queue is rendered, and its lines reach the output thread's buffer. */
  lemma Rendered(rawId: RawIdOf, run: seq<State>, s: State, b: Batch, ls: seq<Line>) returns (more: seq<State>, s': State)
    requires Run(rawId, run) && s == run[|run| - 1]
    requires s.queue == [b] && s.work == [None] && s.out == [] && s.pending == map[] && s.next == b.no
    requires |ls| == b.count && Carries(rawId, b.first, ls)
    ensures Run(rawId, more) && |more| > 0 && more[|more| - 1] == s'
    ensures s' == s.(queue := [], next := s.next + 1, buffer := s.buffer + ls, written := s.written + ls)
  {
    hide Run, Turn, Carries;
    var e := Emitted(b.no, b.first, ls);
    var a := s.(queue := [], work := [Some(b)]);
    assert [b][1..] == [] && s.work[0 := Some(b)] == a.work && a.work[0 := None] == [None];
    assert [] + [e] == [e] && [e][1..] == [] && map[][b.no := e] == map[b.no := e];
    more := TakeOn(rawId, run, a, 0);
    var c := a.(work := [None], out := [e]);
    more := EmitOn(rawId, more, c, 0, ls, 1);
    var f := c.(out := [], pending := map[b.no := e]);
    more := OutputOn(rawId, more, f);
    s' := f.(pending := map[], next := s.next + 1, buffer := s.buffer + ls, written := s.written + ls);
    assert f.pending - {b.no} == map[];
    more := OutputOn(rawId, more, s');
  }

  lemma Flushed(rawId: RawIdOf, run: seq<State>, s: State) returns (more: seq<State>, s': State)
    requires Run(rawId, run) && s == run[|run| - 1] && Clean(s.file)
    ensures Run(rawId, more) && |more| > 0 && more[|more| - 1] == s'
    ensures s' == s.(file := Output(s), buffer := [], flushed := s.next)
  {
    hide Run, Turn, Output, Clean;
    s' := s.(file := Output(s), buffer := [], flushed := s.next);
    more := OutputOn(rawId, run, s');
  }

  /** A producer stores a record, and its line goes all the way into the file. */
  lemma OneLine(rawId: RawIdOf, run: seq<State>, s: State, l: Line) returns (more: seq<State>, s': State)
    requires Run(rawId, run) && s == run[|run| - 1] && Idle(s) && Clean(s.file) && CarriesAt(rawId, s.stored, l)
    ensures Run(rawId, more) && |more| > 0 && more[|more| - 1] == s'
    ensures s' == s.(stored := s.stored + 1, seqNo := s.seqNo + 1, next := s.next + 1, flushed := s.next + 1,
                     log := s.log + [Batch(s.seqNo, s.stored, 1, false)], file := s.file + l, written := s.written + [l],
                     rash := s.rash || !Through(s), early := s.early || (s.tail.Settled? && !Through(s)),
                     unread := s.unread || (s.tail.Settled? && s.due == None))
  {
    hide Run, Clean, CarriesAt, Through, Concat;
    var a, b;
    more, a := Stored(rawId, run, s);
    assert Carries(rawId, s.stored, [l]);
    more, b := Rendered(rawId, more, a, Batch(s.seqNo, s.stored, 1, false), [l]);
    OneConcat(l);
    assert [] + [l] == [l];
    more, s' := Flushed(rawId, more, b);
  }

  lemma OneConcat(l: Line)
    ensures Concat([l]) == l
  {
    assert [l][1..] == [];
    assert l + [] == l;
  }

  lemma NothingCut(rawId: RawIdOf)
    ensures CutOutput(rawId, []) == Cut([], At(0)) && WindowReaches([]) && Clean([]) && Concat([]) == []
  {
  }

  /** A file of lines whose last is this one reads as its id. */
  lemma {:induction false} LastRead(rawId: RawIdOf, front: seq<Byte>, l: Line, id: nat)
    requires Clean(front) && CarriesAt(rawId, id, l) && |front| + |l| <= WINDOW
    ensures var data := front + l;
      CutOutput(rawId, data) == Cut(data, At(id + 1)) && WindowReaches(data) && Clean(data)
  {
    hide CutOutput, LastNewline;
    var data := front + l;
    assert data[|front|..|front| + |l|] == l && data[..|front| + |l|] == data;
    LastLineFound(rawId, data, |front|, l, id);
  }

  /** Record 0 is stored, and the engine is killed before its line is written. */
  lemma Lacking(rawId: RawIdOf) returns (run: seq<State>, s: State)
    ensures Run(rawId, run) && s == run[|run| - 1] && s == Restarted(1, [], 1, 1, false)
  {
    hide Run, Turn, Kill;
    NothingCut(rawId);
    var a := Restarted(0, [], 1, 1, false).(tail := Settled, due := Some(0));
    assert Init([a][0], 1, 1);
    assert Run(rawId, [a]) by { Alone(rawId, a); }
    var b;
    run, b := Stored(rawId, [a], a);
    assert Output(b) == [] && Output(b)[..0] == [];
    run, s := Killed(rawId, run, b, 0);
  }

  lemma Alone(rawId: RawIdOf, s: State)
    requires Init(s, 1, 1)
    ensures Run(rawId, [s])
  {
    assert Init([s][0], 1, 1);
  }

  // ----- What a listener can do

  /** Out of order, and twice. Before recovery reads the length a listener stores record 1;
      recovery numbers records 0 and 1 behind it, and the output is the lines of records 1,
      0 and 1. */
  lemma ListenerOvertakes(rawId: RawIdOf, l0: Line, l1: Line) returns (run: seq<State>)
    requires CarriesAt(rawId, 0, l0) && CarriesAt(rawId, 1, l1)
    ensures Run(rawId, run)
    ensures var s := run[|run| - 1];
      Quiet(s) && s.early && s.unread && s.base == 0 && s.stored == 2 && s.written == [l1, l0, l1] && Output(s) == l1 + l0 + l1
  {
    hide Run, CarriesAt, Turn, Kill, CutOutput, WindowReaches;
    NothingCut(rawId);
    var a, b, c, e, f;
    run, a := Lacking(rawId);
    run, b := Looked(rawId, run, a, 0);
    run, c := OneLine(rawId, run, b, l1);
    run, e := Read(rawId, run, c);
    run, f := RecoverBoth(rawId, run, e, l0, l1);
    assert [l1] + [l0, l1] == [l1, l0, l1];
    assert [] + l1 == l1;
  }

  lemma TwoLines(rawId: RawIdOf, l0: Line, l1: Line)
    requires CarriesAt(rawId, 0, l0) && CarriesAt(rawId, 1, l1)
    ensures Carries(rawId, 0, [l0, l1]) && Concat([l0, l1]) == l0 + l1
  {
    hide CarriesAt;
    assert [l0, l1][0] == l0 && [l0, l1][1] == l1 && [l0, l1][1..] == [l1];
    OneConcat(l1);
  }

  /** Recovery numbers records 0 and 1, and their lines are written. */
  lemma RecoverBoth(rawId: RawIdOf, run: seq<State>, s: State, l0: Line, l1: Line) returns (more: seq<State>, s': State)
    requires CarriesAt(rawId, 0, l0) && CarriesAt(rawId, 1, l1)
    requires Run(rawId, run) && s == run[|run| - 1] && Idle(s) && s.due == Some(2) && s.cursor == 0
    ensures Run(rawId, more) && |more| > 0 && more[|more| - 1] == s'
    ensures s' == s.(cursor := 2, seqNo := s.seqNo + 1, log := s.log + [Batch(s.seqNo, 0, 2, true)], next := s.next + 1,
                     buffer := [l0, l1], written := s.written + [l0, l1])
    ensures Output(s') == s.file + l0 + l1
  {
    hide Run, Turn, CarriesAt, Carries, Concat;
    var y := Batch(s.seqNo, 0, 2, true);
    var a := Numbered(s, 0, y).(cursor := 2);
    more := RecoverOn(rawId, run, a, 0, 2);
    var b;
    more, b := Sent(rawId, more, a, y);
    TwoLines(rawId, l0, l1);
    more, s' := Rendered(rawId, more, b, y, [l0, l1]);
    assert [] + [l0, l1] == [l0, l1];
    assert s.file + (l0 + l1) == s.file + l0 + l1;
  }

  /** Lost. The listener's line of record 1 is in the file before recovery reads it: recovery
      goes on at id 2, and record 0 never gets a line. Nothing is early, and what the run
      writes from there on is in order. */
  lemma ListenerHides(rawId: RawIdOf, l1: Line) returns (run: seq<State>)
    requires CarriesAt(rawId, 1, l1) && |l1| <= WINDOW
    ensures Run(rawId, run)
    ensures var s := run[|run| - 1];
      Quiet(s) && s.rash && !s.early && !s.blind && s.stored == 2 && s.base == 2 && Output(s) == l1
  {
    hide Run, CarriesAt, Turn, Kill, CutOutput, WindowReaches;
    NothingCut(rawId);
    LastRead(rawId, [], l1, 1);
    assert [] + l1 == l1;
    var a, b, c, e;
    run, a := Lacking(rawId);
    run, b := OneLine(rawId, run, a, l1);
    run, c := Looked(rawId, run, b, 2);
    run, e := Read(rawId, run, c);
    assert l1 + [] == l1;
  }

  /** Lost one kill later. The listener's line of record 1 is written ahead of record 0's,
      and a second kill falls between the two: the run after that goes on at id 2, with
      nobody storing early in it. */
  lemma SecondKillHides(rawId: RawIdOf, l1: Line) returns (run: seq<State>)
    requires CarriesAt(rawId, 1, l1) && |l1| <= WINDOW
    ensures Run(rawId, run)
    ensures var s := run[|run| - 1];
      Quiet(s) && !s.rash && !s.blind && s.stored == 2 && s.base == 2 && Output(s) == l1
  {
    hide Run, CarriesAt, Turn, Kill, CutOutput, WindowReaches;
    NothingCut(rawId);
    LastRead(rawId, [], l1, 1);
    assert [] + l1 == l1 && l1 + [] == l1 && l1[..|l1|] == l1;
    var a, b, c, e, f, g;
    run, a := Lacking(rawId);
    run, b := Looked(rawId, run, a, 0);
    run, c := OneLine(rawId, run, b, l1);
    run, e := Killed(rawId, run, c, |l1|);
    run, f := Looked(rawId, run, e, 2);
    run, g := Read(rawId, run, f);
  }

  /** Harmless. Record 0 has its line, and the listener's line of record 1 is in the file
      before recovery reads it: the output is in order, though the listener stored first. */
  lemma ListenerInTime(rawId: RawIdOf, l0: Line, l1: Line) returns (run: seq<State>)
    requires CarriesAt(rawId, 0, l0) && CarriesAt(rawId, 1, l1) && |l0| + |l1| <= WINDOW
    ensures Run(rawId, run)
    ensures var s := run[|run| - 1];
      Quiet(s) && s.rash && !s.early && !s.blind && s.stored == 2 && Output(s) == l0 + l1
  {
    hide Run, CarriesAt, Turn, Kill, CutOutput, WindowReaches, Clean;
    NothingCut(rawId);
    LastRead(rawId, [], l0, 0);
    assert [] + l0 == l0;
    LastRead(rawId, l0, l1, 1);
    assert l0 + [] == l0 && l0[..|l0|] == l0 && l0 + l1 + [] == l0 + l1;
    var a := Restarted(0, [], 1, 1, false).(tail := Settled, due := Some(0));
    Alone(rawId, a);
    var b, c, e, f, g;
    run, b := OneLine(rawId, [a], a, l0);
    run, c := Killed(rawId, run, b, |l0|);
    run, e := OneLine(rawId, run, c, l1);
    run, f := Looked(rawId, run, e, 2);
    run, g := Read(rawId, run, f);
  }
}
