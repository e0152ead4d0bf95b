/** The complete lines of an output file, as positions in its bytes: what joining, cutting
    and repairing the file does to them. */
module FileLines {
  import opened Bytes
  import opened Framing
  import opened OutputLines

  /** The bytes from `a` to the terminator at `b` are a complete line. */
  predicate LineIn(data: seq<Byte>, a: nat, b: nat) {
    a <= b < |data| && data[b] == LF && (a == 0 || data[a - 1] == LF) && Unbroken(data, a, b)
  }

  predicate ReadsAt(rawId: RawIdOf, data: seq<Byte>, a: nat, b: nat, id: nat) {
    LineIn(data, a, b) && rawId(data[a..b]) == Some(id)
  }

  /** Some complete line reads as this id. */
  ghost predicate HasLine(rawId: RawIdOf, data: seq<Byte>, id: nat) {
    exists a: nat, b: nat :: ReadsAt(rawId, data, a, b, id)
  }

  /** No complete line reads as an id from `bound` on. */
  ghost predicate Sound(rawId: RawIdOf, data: seq<Byte>, bound: nat) {
    forall a: nat, b: nat, id: nat :: ReadsAt(rawId, data, a, b, id) ==> id < bound
  }

  /** Nothing torn stands at the end. */
  predicate Clean(data: seq<Byte>) {
    data == [] || data[|data| - 1] == LF
  }

  ghost predicate Lines(ls: seq<Line>) {
    forall i :: 0 <= i < |ls| ==> IsLine(ls[i])
  }

  lemma LineInPrefix(p: seq<Byte>, data: seq<Byte>, a: nat, b: nat)
    requires p <= data && b < |p|
    ensures LineIn(p, a, b) <==> LineIn(data, a, b)
    ensures a <= b ==> p[a..b] == data[a..b]
  {
    assert forall i :: 0 <= i < |p| ==> p[i] == data[i];
  }

  lemma LineInJoined(p: seq<Byte>, q: seq<Byte>, a: nat, b: nat)
    requires Clean(p) && LineIn(p + q, a, b) && b >= |p|
    ensures a >= |p| && LineIn(q, a - |p|, b - |p|) && (p + q)[a..b] == q[a - |p|..b - |p|]
  {
    assert forall i :: 0 <= i < |q| ==> q[i] == (p + q)[|p| + i];
    assert p != [] ==> (p + q)[|p| - 1] == LF;
  }

  lemma LineInLater(p: seq<Byte>, q: seq<Byte>, a: nat, b: nat)
    requires Clean(p) && LineIn(q, a, b)
    ensures LineIn(p + q, |p| + a, |p| + b) && (p + q)[|p| + a..|p| + b] == q[a..b]
  {
    assert forall i :: 0 <= i < |q| ==> q[i] == (p + q)[|p| + i];
  }

  lemma OnlyLine(l: Line, a: nat, b: nat)
    requires IsLine(l) && LineIn(l, a, b)
    ensures a == 0 && b == |l| - 1 && l[a..b] == Body(l)
  {
    assert b >= |l| - 1;
    assert a == 0;
  }

  /** A complete line of lines laid end to end is one of them. */
  lemma {:induction false} LineOfConcat(ls: seq<Line>, a: nat, b: nat) returns (j: nat)
    requires Lines(ls) && LineIn(Concat(ls), a, b)
    ensures j < |ls| && Concat(ls)[a..b] == Body(ls[j]) && b + 1 == |Concat(ls[..j + 1])|
    decreases |ls|
  {
    hide Concat, LineIn;
    if ls == [] {
      NoConcat();
      NoLine(a, b);
    } else {
      OutputLines.FirstLine(ls);
      var rest := Concat(ls[1..]);
      if b < |ls[0]| {
        LineInPrefix(ls[0], ls[0] + rest, a, b);
        OnlyLine(ls[0], a, b);
        j := 0;
        FirstOfPrefix(ls, 0);
        NoConcat();
      } else {
        LineInJoined(ls[0], rest, a, b);
        var k := LineOfConcat(ls[1..], a - |ls[0]|, b - |ls[0]|);
        j := k + 1;
        FirstOfPrefix(ls, k + 1);
      }
    }
  }

  lemma NoLine(a: nat, b: nat)
    ensures !LineIn([], a, b)
  {
  }

  lemma {:induction false} LineStands(ls: seq<Line>, j: nat) returns (a: nat, b: nat)
    requires Lines(ls) && j < |ls|
    ensures LineIn(Concat(ls), a, b) && Concat(ls)[a..b] == Body(ls[j]) && b + 1 == |Concat(ls[..j + 1])|
    decreases |ls|
  {
    hide Concat, LineIn;
    OutputLines.FirstLine(ls);
    var rest := Concat(ls[1..]);
    if j == 0 {
      a, b := 0, |ls[0]| - 1;
      WholeLine(ls[0]);
      LineInPrefix(ls[0], ls[0] + rest, a, b);
      FirstOfPrefix(ls, 0);
      NoConcat();
    } else {
      var c, d := LineStands(ls[1..], j - 1);
      LineInLater(ls[0], rest, c, d);
      a, b := |ls[0]| + c, |ls[0]| + d;
      FirstOfPrefix(ls, j);
    }
  }

  lemma WholeLine(l: Line)
    requires IsLine(l)
    ensures LineIn(l, 0, |l| - 1) && l[0..|l| - 1] == Body(l) && Clean(l)
  {
  }

  ghost predicate Among(rawId: RawIdOf, ls: seq<Line>, id: nat) {
    exists j :: 0 <= j < |ls| && ls[j] != [] && rawId(Body(ls[j])) == Some(id)
  }

  /** Behind a file that ends cleanly, written lines add just their own ids. */
  lemma {:induction false} HasLineJoined(rawId: RawIdOf, p: seq<Byte>, ls: seq<Line>, id: nat)
    requires Clean(p) && Lines(ls)
    ensures HasLine(rawId, p + Concat(ls), id) <==> HasLine(rawId, p, id) || Among(rawId, ls, id)
  {
    hide Concat, Clean;
    var q := Concat(ls);
    if HasLine(rawId, p + q, id) {
      var a: nat, b: nat :| ReadsAt(rawId, p + q, a, b, id);
      JoinedReads(rawId, p, ls, a, b, id);
    }
    if HasLine(rawId, p, id) {
      var a: nat, b: nat :| ReadsAt(rawId, p, a, b, id);
      PrefixReads(rawId, p, p + q, a, b, id);
    }
    if j :| 0 <= j < |ls| && rawId(Body(ls[j])) == Some(id) {
      var a, b := LineStands(ls, j);
      LineInLater(p, q, a, b);
      assert ReadsAt(rawId, p + q, |p| + a, |p| + b, id);
    }
  }

  lemma PrefixReads(rawId: RawIdOf, p: seq<Byte>, data: seq<Byte>, a: nat, b: nat, id: nat)
    requires p <= data && b < |p|
    ensures ReadsAt(rawId, p, a, b, id) <==> ReadsAt(rawId, data, a, b, id)
  {
    LineInPrefix(p, data, a, b);
  }

  lemma {:induction false} JoinedReads(rawId: RawIdOf, p: seq<Byte>, ls: seq<Line>, a: nat, b: nat, id: nat)
    requires Clean(p) && Lines(ls) && ReadsAt(rawId, p + Concat(ls), a, b, id)
    ensures ReadsAt(rawId, p, a, b, id) || Among(rawId, ls, id)
  {
    hide Concat, LineIn, Clean;
    var q := Concat(ls);
    if b < |p| {
      PrefixReads(rawId, p, p + q, a, b, id);
    } else {
      LineInJoined(p, q, a, b);
      var j := LineOfConcat(ls, a - |p|, b - |p|);
      assert rawId(Body(ls[j])) == Some(id);
    }
  }

  lemma {:induction false} SoundJoined(rawId: RawIdOf, p: seq<Byte>, ls: seq<Line>, bound: nat)
    requires Clean(p) && Lines(ls) && Sound(rawId, p, bound)
    requires forall id: nat :: Among(rawId, ls, id) ==> id < bound
    ensures Sound(rawId, p + Concat(ls), bound)
  {
    hide Concat, ReadsAt, Clean;
    forall a: nat, b: nat, id: nat | ReadsAt(rawId, p + Concat(ls), a, b, id) ensures id < bound {
      JoinedReads(rawId, p, ls, a, b, id);
    }
  }

  lemma {:induction false} SoundPrefix(rawId: RawIdOf, p: seq<Byte>, data: seq<Byte>, bound: nat)
    requires p <= data && Sound(rawId, data, bound)
    ensures Sound(rawId, p, bound)
  {
    forall a: nat, b: nat, id: nat | ReadsAt(rawId, p, a, b, id) ensures id < bound {
      PrefixReads(rawId, p, data, a, b, id);
    }
  }

  // ----- Ids that stand twice

  /** Two complete lines read as this id. */
  ghost predicate HasTwo(rawId: RawIdOf, data: seq<Byte>, id: nat) {
    exists a: nat, b: nat, c: nat, d: nat :: b < d && ReadsAt(rawId, data, a, b, id) && ReadsAt(rawId, data, c, d, id)
  }

  ghost predicate TwoAmong(rawId: RawIdOf, ls: seq<Line>, id: nat) {
    exists i, j :: 0 <= i < j < |ls| && ReadsAs(rawId, ls[i], id) && ReadsAs(rawId, ls[j], id)
  }

  predicate ReadsAs(rawId: RawIdOf, l: Line, id: nat) {
    l != [] && rawId(Body(l)) == Some(id)
  }

  lemma {:induction false} ConcatGrows(ls: seq<Line>, i: nat, j: nat)
    requires Lines(ls) && i < j <= |ls|
    ensures |Concat(ls[..i])| < |Concat(ls[..j])|
  {
    hide Concat;
    LastOfPrefix(ls, j);
    if i < j - 1 {
      ConcatGrows(ls, i, j - 1);
    }
  }

  lemma {:induction false} TwoOfConcat(rawId: RawIdOf, ls: seq<Line>, a: nat, b: nat, c: nat, d: nat, id: nat)
    requires Lines(ls) && b < d && ReadsAt(rawId, Concat(ls), a, b, id) && ReadsAt(rawId, Concat(ls), c, d, id)
    ensures TwoAmong(rawId, ls, id)
  {
    hide Concat, LineIn;
    var i := LineOfConcat(ls, a, b);
    var j := LineOfConcat(ls, c, d);
    if j < i {
      ConcatGrows(ls, j + 1, i + 1);
    }
    assert ReadsAs(rawId, ls[i], id) && ReadsAs(rawId, ls[j], id);
  }

  /** Behind a file that ends cleanly, an id stands twice if it does in the file, or among
      the written lines, or once in both. */
  lemma {:induction false} HasTwoJoined(rawId: RawIdOf, p: seq<Byte>, ls: seq<Line>, id: nat)
    requires Clean(p) && Lines(ls)
    ensures HasTwo(rawId, p + Concat(ls), id)
       <==> HasTwo(rawId, p, id) || TwoAmong(rawId, ls, id) || (HasLine(rawId, p, id) && Among(rawId, ls, id))
  {
    hide Concat, LineIn, Clean, ReadsAt, HasLine, Among, TwoAmong;
    if HasTwo(rawId, p + Concat(ls), id) {
      TwoSplit(rawId, p, ls, id);
    }
    if HasTwo(rawId, p, id) || TwoAmong(rawId, ls, id) || (HasLine(rawId, p, id) && Among(rawId, ls, id)) {
      TwoStand(rawId, p, ls, id);
    }
  }

  lemma {:induction false} TwoSplit(rawId: RawIdOf, p: seq<Byte>, ls: seq<Line>, id: nat)
    requires Clean(p) && Lines(ls) && HasTwo(rawId, p + Concat(ls), id)
    ensures HasTwo(rawId, p, id) || TwoAmong(rawId, ls, id) || (HasLine(rawId, p, id) && Among(rawId, ls, id))
  {
    hide Concat, ReadsAt, Clean, TwoAmong, Among, Lines;
    var q := Concat(ls);
    var a: nat, b: nat, c: nat, d: nat :| b < d && ReadsAt(rawId, p + q, a, b, id) && ReadsAt(rawId, p + q, c, d, id);
    SplitReads(rawId, p, q, a, b, id);
    SplitReads(rawId, p, q, c, d, id);
    if d >= |p| {
      if b < |p| {
        AmongAt(rawId, ls, c - |p|, d - |p|, id);
      } else {
        TwoOfConcat(rawId, ls, a - |p|, b - |p|, c - |p|, d - |p|, id);
      }
    }
  }

  lemma SplitReads(rawId: RawIdOf, p: seq<Byte>, q: seq<Byte>, a: nat, b: nat, id: nat)
    requires Clean(p) && ReadsAt(rawId, p + q, a, b, id)
    ensures if b < |p| then ReadsAt(rawId, p, a, b, id) else a >= |p| && ReadsAt(rawId, q, a - |p|, b - |p|, id)
  {
    hide LineIn, Clean;
    if b < |p| {
      PrefixReads(rawId, p, p + q, a, b, id);
    } else {
      LineInJoined(p, q, a, b);
    }
  }

  lemma {:induction false} AmongAt(rawId: RawIdOf, ls: seq<Line>, a: nat, b: nat, id: nat)
    requires Lines(ls) && ReadsAt(rawId, Concat(ls), a, b, id)
    ensures Among(rawId, ls, id)
  {
    hide Concat, LineIn;
    var j := LineOfConcat(ls, a, b);
    assert rawId(Body(ls[j])) == Some(id);
  }

  lemma {:induction false} LineBehind(rawId: RawIdOf, p: seq<Byte>, ls: seq<Line>, j: nat, id: nat) returns (a: nat, b: nat)
    requires Clean(p) && Lines(ls) && j < |ls| && ReadsAs(rawId, ls[j], id)
    ensures ReadsAt(rawId, p + Concat(ls), a, b, id) && b + 1 == |p| + |Concat(ls[..j + 1])| && b >= |p|
  {
    hide Concat, LineIn, Clean;
    var c, d := LineStands(ls, j);
    LineInLater(p, Concat(ls), c, d);
    a, b := |p| + c, |p| + d;
  }

  lemma {:induction false} TwoStand(rawId: RawIdOf, p: seq<Byte>, ls: seq<Line>, id: nat)
    requires Clean(p) && Lines(ls)
    requires HasTwo(rawId, p, id) || TwoAmong(rawId, ls, id) || (HasLine(rawId, p, id) && Among(rawId, ls, id))
    ensures HasTwo(rawId, p + Concat(ls), id)
  {
    hide Concat, Clean, Unbroken;
    var q := Concat(ls);
    if a: nat, b: nat, c: nat, d: nat :| b < d && ReadsAt(rawId, p, a, b, id) && ReadsAt(rawId, p, c, d, id) {
      PrefixReads(rawId, p, p + q, a, b, id);
      PrefixReads(rawId, p, p + q, c, d, id);
    } else if i, j :| 0 <= i < j < |ls| && ReadsAs(rawId, ls[i], id) && ReadsAs(rawId, ls[j], id) {
      var a, b := LineBehind(rawId, p, ls, i, id);
      var c, d := LineBehind(rawId, p, ls, j, id);
      ConcatGrows(ls, i + 1, j + 1);
    } else {
      var a: nat, b: nat :| ReadsAt(rawId, p, a, b, id);
      var j :| 0 <= j < |ls| && ls[j] != [] && rawId(Body(ls[j])) == Some(id);
      PrefixReads(rawId, p, p + q, a, b, id);
      assert ReadsAs(rawId, ls[j], id);
      var c, d := LineBehind(rawId, p, ls, j, id);
    }
  }

  // ----- Which lines a file is made of

  /** The lines of a file can be told apart in one way only. */
  lemma {:induction false} SplitUnique(xs: seq<Line>, ys: seq<Line>)
    requires Lines(xs) && Lines(ys) && Concat(xs) == Concat(ys)
    ensures xs == ys
    decreases |xs|
  {
    hide Concat;
    NoConcat();
    if xs != [] { OutputLines.FirstLine(xs); }
    if ys != [] { OutputLines.FirstLine(ys); }
    if xs != [] && ys != [] {
      var x, y, data := xs[0], ys[0], Concat(xs);
      SameFirst(x, y, data);
      assert data[|x|..] == Concat(xs[1..]) && data[|x|..] == Concat(ys[1..]);
      SplitUnique(xs[1..], ys[1..]);
      assert xs == [x] + xs[1..] && ys == [y] + ys[1..];
    }
  }

  lemma SameFirst(x: Line, y: Line, data: seq<Byte>)
    requires IsLine(x) && IsLine(y) && x <= data && y <= data
    ensures x == y
  {
    assert data[|x| - 1] == x[|x| - 1] && data[|y| - 1] == y[|y| - 1];
    assert forall i :: 0 <= i < |x| ==> x[i] == data[i];
    assert forall i :: 0 <= i < |y| ==> y[i] == data[i];
    assert |x| == |y|;
  }

  /** A clean front of a file is its first lines, and the rest is the others. */
  lemma {:induction false} CleanFront(ls: seq<Line>, p: seq<Byte>, more: seq<Line>) returns (m: nat)
    requires Lines(ls) && Lines(more) && Clean(p) && p + Concat(more) == Concat(ls)
    ensures m <= |ls| && p == Concat(ls[..m]) && more == ls[m..]
  {
    hide Concat;
    var data := Concat(ls);
    m := PrefixOfLines(ls, |p|);
    var front := Concat(ls[..m]);
    assert data[..|p|] == p;
    assert |front| == |p|;
    assert ls == ls[..m] + ls[m..];
    ConcatAppend(ls[..m], ls[m..]);
    assert data[|p|..] == Concat(ls[m..]) && data[|p|..] == Concat(more);
    SplitUnique(more, ls[m..]);
  }

  // ----- What the repair reads

  /** A repair that names an id leaves nothing torn. */
  lemma CutIsClean(rawId: RawIdOf, data: seq<Byte>)
    ensures CutOutput(rawId, data).resume.At? ==> Clean(CutOutput(rawId, data).data)
    ensures CutOutput(rawId, data).data <= data
  {
    hide LastNewline;
    var off := |data| - TailLen(|data|);
    if data != [] && ScanTail(rawId, data[off..]).Some? {
      var nl := ScanTail(rawId, data[off..]).value.0;
      assert data[off..][nl] == data[off + nl];
    }
  }

  /** With the last line in the window, the id it goes on at is behind that of a complete
      line of the file, or 0. */
  lemma {:induction false} CutReads(rawId: RawIdOf, data: seq<Byte>)
    requires WindowReaches(data) && CutOutput(rawId, data).resume.At?
    ensures var first := CutOutput(rawId, data).resume.first;
      first == 0 || HasLine(rawId, data, first - 1)
  {
    hide LastNewline;
    var off := |data| - TailLen(|data|);
    var tail := data[off..];
    if data != [] && ScanTail(rawId, tail).Some? {
      var nl := LastNewline(tail).value;
      var start := match LastNewline(tail[..nl]) case None => 0 case Some(p) => p + 1;
      assert tail[start..nl] == data[off + start..off + nl];
      TailLine(data, off, nl, start);
      assert ReadsAt(rawId, data, off + start, off + nl, CutOutput(rawId, data).resume.first - 1);
    }
  }

  lemma {:induction false} TailLine(data: seq<Byte>, off: nat, nl: nat, start: nat)
    requires WindowReaches(data) && off == |data| - TailLen(|data|) && nl < |data| - off
    requires LastNewline(data[off..]) == Some(nl)
    requires start == match LastNewline(data[off..][..nl]) case None => 0 case Some(p) => p + 1
    ensures LineIn(data, off + start, off + nl)
  {
    hide LastNewline, LastLineStart;
    var tail := data[off..];
    assert forall i :: 0 <= i < |tail| ==> tail[i] == data[off + i];
    if start > 0 || off == 0 {
      assert forall i :: start <= i < nl ==> tail[i] == tail[..nl][i];
    } else {
      LastLineIn(data, off, nl);
    }
  }

  /** The last line starts in the window, so with no other terminator there it starts just
      where the window does. */
  lemma {:induction false} LastLineIn(data: seq<Byte>, off: nat, nl: nat)
    requires 0 < off <= |data| && LastLineStart(data).Some? && off <= LastLineStart(data).value
    requires nl < |data| - off && LastNewline(data[off..]) == Some(nl) && LastNewline(data[off..][..nl]) == None
    ensures LineIn(data, off, off + nl)
  {
    hide LastNewline;
    var tail, from := data[off..], LastLineStart(data).value;
    assert forall i :: 0 <= i < |tail| ==> tail[i] == data[off + i];
    LastNewlineIs(data, off + nl);
    assert forall i :: 0 <= i < nl ==> tail[i] == tail[..nl][i];
    assert LastNewline(data[..off + nl]) == Some(from - 1);
    assert data[from - 1] == LF;
    assert from - 1 < off;
  }

  /** The repair of a file whose last line is in the window, in one piece: it keeps the
      complete lines and reads the last. */
  lemma {:induction false} CutInWindow(rawId: RawIdOf, data: seq<Byte>)
    requires WindowReaches(data)
    ensures CutOutput(rawId, data) == match LastNewline(data)
      case None => Cut([], At(0))
      case Some(nl) => Cut(data[..nl + 1], Resumed(rawId(data[LastLineStart(data).value..nl])))
  {
    hide LastNewline, ScanTail, LastLineStart;
    var off := |data| - TailLen(|data|);
    LastStartIs(data);
    match LastNewline(data)
    case None =>
      assert off == 0 && data[off..] == data;
      ScansNothing(rawId, data);
    case Some(nl) =>
      Scans(rawId, data, off, nl);
  }

  lemma {:induction false} LastStartIs(data: seq<Byte>)
    ensures LastLineStart(data).Some? <==> LastNewline(data).Some?
    ensures LastNewline(data).Some? ==> LastLineStart(data).value <= LastNewline(data).value
  {
    hide LastNewline;
  }

  lemma {:induction false} ScansNothing(rawId: RawIdOf, tail: seq<Byte>)
    requires LastNewline(tail) == None
    ensures ScanTail(rawId, tail) == None
  {
    hide LastNewline;
  }

  lemma {:induction false} Scans(rawId: RawIdOf, data: seq<Byte>, off: nat, nl: nat)
    requires LastNewline(data) == Some(nl) && off <= LastLineStart(data).value <= nl
    ensures ScanTail(rawId, data[off..]) == Some((nl - off, rawId(data[LastLineStart(data).value..nl])))
  {
    hide LastNewline;
    var tail, from := data[off..], LastLineStart(data).value;
    TailNewline(data, off, nl);
    assert tail[from - off..nl - off] == data[from..nl];
    if from > off {
      assert tail[..nl - off] == data[..nl][off..];
      TailNewline(data[..nl], off, from - 1);
    } else {
      NoNewline(tail[..nl - off]);
    }
  }

  lemma {:induction false} TailNewline(data: seq<Byte>, off: nat, nl: nat)
    requires LastNewline(data) == Some(nl) && off <= nl
    ensures LastNewline(data[off..]) == Some(nl - off)
  {
    hide LastNewline;
    LastNewlineIs(data[off..], nl - off);
  }
}
