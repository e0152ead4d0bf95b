/** The JSON Lines output as bytes: what a prefix of it holds, and what `recover_output`
    makes of the prefix a kill left. */
module OutputLines {
  import opened Bytes
  import opened Disk
  import opened Framing

  type Line = seq<Byte>

  /** Reading the raw id out of an emitted line, without its terminator. */
  type RawIdOf = seq<Byte> -> Option<nat>

  /** No terminator between two offsets. */
  predicate Unbroken(s: seq<Byte>, from: nat, to: nat)
    requires to <= |s|
  {
    forall i :: from <= i < to ==> s[i] != LF
  }

  ghost predicate IsLine(l: Line) {
    l != [] && l[|l| - 1] == LF && Unbroken(l, 0, |l| - 1)
  }

  function Body(l: Line): seq<Byte>
    requires l != []
  {
    l[..|l| - 1]
  }

  /** Lines of consecutive raw ids from `from` on, each once. */
  ghost predicate Carries(rawId: RawIdOf, from: nat, ls: seq<Line>) {
    forall i :: 0 <= i < |ls| ==> CarriesAt(rawId, from + i, ls[i])
  }

  ghost predicate CarriesAt(rawId: RawIdOf, id: nat, l: Line) {
    IsLine(l) && rawId(Body(l)) == Some(id)
  }

  lemma {:induction false} ConcatAppend(a: seq<Line>, b: seq<Line>)
    ensures Concat(a + b) == Concat(a) + Concat(b)
    decreases |a|
  {
    if a == [] {
      assert [] + b == b;
    } else {
      assert (a + b)[1..] == a[1..] + b;
      ConcatAppend(a[1..], b);
    }
  }

  /** A prefix of an output holds some number of whole lines and then part of the next. */
  lemma {:induction false} PrefixOfLines(ls: seq<Line>, d: nat) returns (m: nat)
    requires forall i :: 0 <= i < |ls| ==> IsLine(ls[i])
    requires d <= |Concat(ls)|
    ensures m <= |ls| && |Concat(ls[..m])| <= d
    ensures Concat(ls)[..d][..|Concat(ls[..m])|] == Concat(ls[..m])
    ensures Unbroken(Concat(ls)[..d], |Concat(ls[..m])|, d)
    ensures m < |ls| ==> d < |Concat(ls[..m])| + |ls[m]|
    decreases |ls|
  {
    hide Concat;
    if ls == [] {
      m := 0;
      NoConcat();
    } else {
      FirstLine(ls);
      if d < |ls[0]| {
        m := 0;
        NoConcat();
        assert ls[..0] == [];
        assert Concat(ls)[..d] == ls[0][..d];
      } else {
        m := PrefixOfLines(ls[1..], d - |ls[0]|);
        FirstOfPrefix(ls, m);
        ShiftPrefix(ls[0], Concat(ls[1..]), d - |ls[0]|, Concat(ls[1..][..m]));
        m := m + 1;
      }
    }
  }

  lemma NoConcat()
    ensures Concat([]) == []
  {
  }

  lemma {:induction false} FirstLine(ls: seq<Line>)
    requires ls != []
    ensures Concat(ls) == ls[0] + Concat(ls[1..])
  {
  }

  lemma FirstOfPrefix(ls: seq<Line>, m: nat)
    requires ls != [] && m < |ls|
    ensures Concat(ls[..m + 1]) == ls[0] + Concat(ls[1..][..m])
  {
    assert ls[..m + 1][1..] == ls[1..][..m];
  }

  lemma ShiftPrefix(a: seq<Byte>, s: seq<Byte>, d: nat, p: seq<Byte>)
    requires d <= |s| && |p| <= d && s[..d][..|p|] == p && Unbroken(s[..d], |p|, d)
    ensures (a + s)[..|a| + d][..|a| + |p|] == a + p
    ensures Unbroken((a + s)[..|a| + d], |a| + |p|, |a| + d)
  {
    var whole := (a + s)[..|a| + d];
    assert whole == a + s[..d];
  }

  // ----- recover_output

  const WINDOW := 0x10_0000

  /** `rposition(|b| b == '\n')`. */
  function LastNewline(s: seq<Byte>): (r: Option<nat>)
    ensures r.Some? ==> r.value < |s| && s[r.value] == LF && Unbroken(s, r.value + 1, |s|)
    ensures r.None? ==> Unbroken(s, 0, |s|)
  {
    if s == [] then None
    else if s[|s| - 1] == LF then Some(|s| - 1)
    else LastNewline(s[..|s| - 1])
  }

  /** Where the output goes on: at an id, or, when the tail tells nothing, after whatever
      the store holds. */
  datatype Resumption = Unknown | At(first: nat)

  datatype Cut = Cut(data: seq<Byte>, resume: Resumption)

  /** In the tail: where the last terminator is, and the id on the line it ends. */
  function ScanTail(rawId: RawIdOf, tail: seq<Byte>): (r: Option<(nat, Option<nat>)>)
    ensures r.Some? ==> r.value.0 < |tail|
  {
    match LastNewline(tail)
    case None => None
    case Some(nl) =>
      var start := match LastNewline(tail[..nl]) case None => 0 case Some(p) => p + 1;
      Some((nl, rawId(tail[start..nl])))
  }

  function Resumed(id: Option<nat>): Resumption {
    if id.Some? then At(id.value + 1) else Unknown
  }

  function TailLen(len: nat): (n: nat)
    ensures n <= len
  {
    if len <= WINDOW then len else WINDOW
  }

  /** What recovery keeps of the output and which id it emits next, from the last MiB. */
  function CutOutput(rawId: RawIdOf, data: seq<Byte>): (c: Cut)
    ensures c.data <= data
  {
    if data == [] then Cut(data, At(0))
    else
      var off := |data| - TailLen(|data|);
      match ScanTail(rawId, data[off..])
      case None => if off == 0 then Cut([], At(0)) else Cut(data, Unknown)
      case Some(found) => Cut(data[..off + found.0 + 1], Resumed(found.1))
  }

  /** The same over the file: a seek, one read, two searches from the back, one `set_len`. */
  method RecoverOutput(rawId: RawIdOf, f: File) returns (resume: Resumption)
    modifies f
    ensures Cut(f.data, resume) == CutOutput(rawId, old(f.data))
  {
    hide ScanTail;
    var len := |f.data|;
    if len == 0 {
      return At(0);
    }
    var tailLen := TailLen(len);
    f.Seek(len - tailLen);
    var read := f.ReadExact(tailLen);
    var tail := read.value;
    assert tail == f.data[len - tailLen..];
    var found := ScanTail(rawId, tail);
    if found == None {
      if tailLen == len {
        f.SetLen(0);
        return At(0);
      }
      return Unknown;
    }
    var nl := found.value.0;
    if nl + 1 != |tail| {
      f.SetLen(len - tailLen + nl + 1);
    }
    assert f.data == old(f.data)[..len - tailLen + nl + 1];
    resume := Resumed(found.value.1);
  }

  /** Where the last complete line starts. */
  function LastLineStart(data: seq<Byte>): (r: Option<nat>)
    ensures r.Some? ==> r.value < |data|
  {
    match LastNewline(data)
    case None => None
    case Some(nl) =>
      match LastNewline(data[..nl])
      case None => Some(0)
      case Some(p) => Some(p + 1)
  }

  /** The window reaches back to the start of the last complete line, or, when there is
      none, to the start of the file. */
  predicate WindowReaches(data: seq<Byte>) {
    |data| <= WINDOW || (LastLineStart(data).Some? && |data| - LastLineStart(data).value <= WINDOW)
  }

  lemma {:induction false} LastNewlineIs(s: seq<Byte>, i: nat)
    requires i < |s| && s[i] == LF && Unbroken(s, i + 1, |s|)
    ensures LastNewline(s) == Some(i)
  {
  }

  lemma {:induction false} NoNewline(s: seq<Byte>)
    requires Unbroken(s, 0, |s|)
    ensures LastNewline(s) == None
  {
  }

  /** The first `d` bytes of these lines are `m` whole lines and part of the next. */
  ghost predicate CutsInto(ls: seq<Line>, d: nat, m: nat) {
    && d <= |Concat(ls)| && m <= |ls| && |Concat(ls[..m])| <= d
    && Concat(ls)[..d][..|Concat(ls[..m])|] == Concat(ls[..m])
    && Unbroken(Concat(ls)[..d], |Concat(ls[..m])|, d)
  }

  /** Recovery of an output cut anywhere: it drops exactly the torn line and goes on at the
      first id whose line is not whole. */
  lemma {:induction false} CutKeepsWholeLines(rawId: RawIdOf, ls: seq<Line>, d: nat, m: nat)
    requires Carries(rawId, 0, ls) && CutsInto(ls, d, m)
    requires WindowReaches(Concat(ls)[..d])
    ensures CutOutput(rawId, Concat(ls)[..d]) == Cut(Concat(ls[..m]), At(m))
  {
    hide Concat, LastNewline;
    var data := Concat(ls)[..d];
    NoConcat();
    if m == 0 {
      assert ls[..0] == [];
      if data != [] {
        assert data[0..] == data;
        NoNewline(data);
      }
    } else {
      LastLine(rawId, ls, d, m);
      LastLineFound(rawId, data, |Concat(ls[..m - 1])|, ls[m - 1], m - 1);
    }
  }

  /** The window starts inside the last complete line, which ends at `end`, and what is left
      of the line there reads as this id. */
  predicate FragmentReads(rawId: RawIdOf, data: seq<Byte>, end: nat, id: int)
    requires end <= |data|
  {
    var off := |data| - TailLen(|data|);
    id >= 0 && off < end && rawId(data[off..end - 1]) == Some(id)
  }

  /** It does so exactly when the window reaches back to the start of the last complete line,
      or misses that start and the rest of the line still reads as its id. In every other
      case the engine goes on after whatever the store holds, or at another id. */
  lemma {:induction false} CutExactly(rawId: RawIdOf, ls: seq<Line>, d: nat, m: nat)
    requires Carries(rawId, 0, ls) && CutsInto(ls, d, m)
    ensures var data := Concat(ls)[..d];
      CutOutput(rawId, data) == Cut(Concat(ls[..m]), At(m))
      <==> WindowReaches(data) || FragmentReads(rawId, data, |Concat(ls[..m])|, m - 1)
  {
    hide Concat, LastNewline, CutOutput, FragmentReads, LastLineStart;
    var data, end := Concat(ls)[..d], |Concat(ls[..m])|;
    if WindowReaches(data) {
      CutKeepsWholeLines(rawId, ls, d, m);
    } else if m == 0 || end <= |data| - WINDOW {
      NoConcat();
      assert ls[..0] == [];
      TailSilent(rawId, data, end, m - 1);
    } else {
      LastLine(rawId, ls, d, m);
      TailFragment(rawId, data, |Concat(ls[..m - 1])|, ls[m - 1], m - 1);
    }
  }

  /** No terminator in the window: nothing is cut and nothing is learnt. */
  lemma TailSilent(rawId: RawIdOf, data: seq<Byte>, end: nat, id: int)
    requires end + WINDOW <= |data| && |data| > WINDOW && Unbroken(data, end, |data|)
    ensures CutOutput(rawId, data) == Cut(data, Unknown) && !FragmentReads(rawId, data, end, id)
  {
    hide LastNewline;
    NoNewline(data[|data| - WINDOW..]);
  }

  /** A line longer than the window by more than its terminator, cut just before that: the
      torn line stays, and no id is named. */
  lemma LongLineStops(rawId: RawIdOf, l: Line)
    requires IsLine(l) && |l| > WINDOW + 1
    ensures CutOutput(rawId, l[..|l| - 1]) == Cut(l[..|l| - 1], Unknown)
  {
    TailSilent(rawId, l[..|l| - 1], 0, 0);
  }

  /** Only the end of the last complete line in the window: the file is cut behind it, and
      what is left of it is read in its place. */
  lemma TailFragment(rawId: RawIdOf, data: seq<Byte>, start: nat, line: Line, id: nat)
    requires IsLine(line) && start + |line| <= |data| && data[start..start + |line|] == line
    requires Unbroken(data, start + |line|, |data|)
    requires start < |data| - WINDOW < start + |line|
    ensures var end := start + |line|;
      && (CutOutput(rawId, data) == Cut(data[..end], At(id + 1)) <==> FragmentReads(rawId, data, end, id))
      && CutOutput(rawId, data).data == data[..end]
  {
    hide LastNewline;
    var end, off := start + |line|, |data| - WINDOW;
    var tail := data[off..];
    LineAt(data, start, line, |line| - 1);
    BodyAt(data, start, line);
    assert tail[end - 1 - off] == LF;
    LastNewlineIs(tail, end - 1 - off);
    NoNewline(tail[..end - 1 - off]);
    assert tail[0..end - 1 - off] == data[off..end - 1];
  }

  lemma {:induction false} LastLine(rawId: RawIdOf, ls: seq<Line>, d: nat, m: nat)
    requires Carries(rawId, 0, ls) && CutsInto(ls, d, m) && m > 0
    ensures var data, start, line := Concat(ls)[..d], |Concat(ls[..m - 1])|, ls[m - 1];
      && CarriesAt(rawId, m - 1, line) && start + |line| == |Concat(ls[..m])|
      && data[start..start + |line|] == line && (start > 0 ==> data[start - 1] == LF)
      && LastLineStart(data) == Some(start)
  {
    hide Concat, LastNewline, LastLineStart;
    var data := Concat(ls)[..d];
    LastOfPrefix(ls, m);
    var line, start := ls[m - 1], |Concat(ls[..m - 1])|;
    assert CarriesAt(rawId, 0 + (m - 1), line);
    var whole := Concat(ls[..m]);
    assert data[start..start + |line|] == data[..|whole|][start..] == whole[start..] == line;
    if m > 1 {
      LastOfPrefix(ls, m - 1);
      assert CarriesAt(rawId, 0 + (m - 2), ls[m - 2]);
      assert data[start - 1] == data[..|whole|][start - 1] == whole[start - 1] == Concat(ls[..m - 1])[start - 1];
    } else {
      NoConcat();
      assert ls[..0] == [];
    }
    LastLineStartIs(data, start, line);
  }

  lemma LastLineStartIs(data: seq<Byte>, start: nat, line: Line)
    requires IsLine(line) && start + |line| <= |data| && data[start..start + |line|] == line
    requires start > 0 ==> data[start - 1] == LF
    requires Unbroken(data, start + |line|, |data|)
    ensures LastLineStart(data) == Some(start)
  {
    hide LastNewline;
    var nl := start + |line| - 1;
    LineAt(data, start, line, |line| - 1);
    LastNewlineIs(data, nl);
    BodyAt(data, start, line);
    if start > 0 {
      LastNewlineIs(data[..nl], start - 1);
    } else {
      NoNewline(data[..nl]);
    }
  }

  lemma LastOfPrefix(ls: seq<Line>, m: nat)
    requires 0 < m <= |ls|
    ensures Concat(ls[..m]) == Concat(ls[..m - 1]) + ls[m - 1]
  {
    assert ls[..m] == ls[..m - 1] + [ls[m - 1]];
    ConcatAppend(ls[..m - 1], [ls[m - 1]]);
    assert Concat([ls[m - 1]]) == ls[m - 1] + Concat([]);
  }

  /** A tail that reaches back to the start of the last complete line yields its id. */
  lemma ScanFinds(rawId: RawIdOf, tail: seq<Byte>, at: nat, line: Line, id: nat)
    requires IsLine(line) && rawId(Body(line)) == Some(id)
    requires at + |line| <= |tail| && tail[at..at + |line|] == line
    requires at > 0 ==> tail[at - 1] == LF
    requires Unbroken(tail, at + |line|, |tail|)
    ensures ScanTail(rawId, tail) == Some((at + |line| - 1, Some(id)))
  {
    hide LastNewline;
    var nl := at + |line| - 1;
    assert tail[nl] == line[|line| - 1] by { LineAt(tail, at, line, |line| - 1); }
    LastNewlineIs(tail, nl);
    BodyAt(tail, at, line);
    if at > 0 {
      LastNewlineIs(tail[..nl], at - 1);
    } else {
      NoNewline(tail[..nl]);
    }
  }

  lemma LineAt(s: seq<Byte>, at: nat, line: Line, i: nat)
    requires at + |line| <= |s| && s[at..at + |line|] == line && i < |line|
    ensures s[at + i] == line[i]
  {
    assert s[at + i] == s[at..at + |line|][i];
  }

  lemma BodyAt(s: seq<Byte>, at: nat, line: Line)
    requires IsLine(line) && at + |line| <= |s| && s[at..at + |line|] == line
    ensures s[at..at + |line| - 1] == Body(line)
    ensures Unbroken(s[..at + |line| - 1], at, at + |line| - 1)
  {
    forall i | at <= i < at + |line| - 1 ensures s[i] == line[i - at] && s[i] != LF {
      LineAt(s, at, line, i - at);
    }
  }

  /** The window finds the last complete line, of id `id`, wherever the file was cut. */
  lemma LastLineFound(rawId: RawIdOf, data: seq<Byte>, start: nat, line: Line, id: nat)
    requires IsLine(line) && rawId(Body(line)) == Some(id)
    requires start + |line| <= |data| && data[start..start + |line|] == line
    requires start > 0 ==> data[start - 1] == LF
    requires Unbroken(data, start + |line|, |data|)
    requires |data| <= WINDOW || |data| - start <= WINDOW
    ensures CutOutput(rawId, data) == Cut(data[..start + |line|], At(id + 1))
  {
    hide ScanTail, IsLine;
    var off := |data| - TailLen(|data|);
    var tail := data[off..];
    assert tail == data[off..|data|];
    SliceOfSlice(data, off, |data|, start - off, start - off + |line|);
    ScanFinds(rawId, tail, start - off, line, id);
  }
}
