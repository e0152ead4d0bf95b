/** Reads of the output by raw id: a binary search over byte offsets of a file whose lines
    have any length. */
module OutFile {
  import opened Bytes
  import opened Disk
  import opened Framing
  import opened OutputLines

  /** The raw id an emitted line carries, read from the line with its terminator. */
  type LineId = Line -> Option<nat>

  /** Where line `i` starts; where the last line ends for `i == |ls|`. */
  function Offset(ls: seq<Line>, i: nat): nat
    requires i <= |ls|
  {
    |Concat(ls[..i])|
  }

  ghost predicate AllLines(ls: seq<Line>) {
    forall i :: 0 <= i < |ls| ==> IsLine(ls[i])
  }

  lemma OffsetNext(ls: seq<Line>, i: nat)
    requires i < |ls|
    ensures Offset(ls, i + 1) == Offset(ls, i) + |ls[i]|
  {
    hide Concat;
    LastOfPrefix(ls, i + 1);
  }

  lemma {:induction false} OffsetsGrow(ls: seq<Line>, i: nat, j: nat)
    requires AllLines(ls) && i <= j <= |ls|
    ensures Offset(ls, i) + (j - i) <= Offset(ls, j)
    decreases j - i
  {
    hide Concat;
    if i < j {
      OffsetsGrow(ls, i, j - 1);
      OffsetNext(ls, j - 1);
      assert IsLine(ls[j - 1]);
    }
  }

  lemma {:induction false} OffsetEnds(ls: seq<Line>)
    ensures Offset(ls, 0) == 0 && Offset(ls, |ls|) == |Concat(ls)|
  {
    assert ls[..0] == [] && ls[..|ls|] == ls;
  }

  /** Line `i` stands at its offset. */
  lemma {:induction false} LineStands(ls: seq<Line>, i: nat)
    requires i < |ls|
    ensures Offset(ls, i) + |ls[i]| <= |Concat(ls)|
    ensures Concat(ls)[Offset(ls, i)..Offset(ls, i) + |ls[i]|] == ls[i]
  {
    hide Concat;
    LastOfPrefix(ls, i + 1);
    ConcatAppend(ls[..i + 1], ls[i + 1..]);
    assert ls == ls[..i + 1] + ls[i + 1..];
    var p := Concat(ls[..i + 1]);
    assert Concat(ls)[..|p|] == p;
    assert p[Offset(ls, i)..] == ls[i];
  }

  // ----- The search, as the scan it replaces

  /** Every line carries an id, and ids never decrease. */
  ghost predicate Ordered(lineId: LineId, ls: seq<Line>) {
    && (forall i :: 0 <= i < |ls| ==> lineId(ls[i]).Some?)
    && (forall i, j :: 0 <= i < j < |ls| ==> IdAt(lineId, ls, i) <= IdAt(lineId, ls, j))
  }

  function IdAt(lineId: LineId, ls: seq<Line>, i: nat): nat
    requires i < |ls|
  {
    match lineId(ls[i]) case Some(id) => id case None => 0
  }

  /** The id of a line with its terminator, from the id of its body. */
  function IdOfLine(rawId: RawIdOf): LineId {
    (l: Line) => if l == [] then None else rawId(Body(l))
  }

  /** The lines the engine emits are in the order the search needs, and every id below
      their number is found. */
  lemma EmittedIsOrdered(rawId: RawIdOf, ls: seq<Line>, id: nat)
    requires Carries(rawId, 0, ls)
    ensures AllLines(ls) && Ordered(IdOfLine(rawId), ls)
    ensures id < |ls| <==> exists i :: 0 <= i < |ls| && IdOfLine(rawId)(ls[i]) == Some(id)
  {
    forall i | 0 <= i < |ls|
      ensures IsLine(ls[i]) && IdOfLine(rawId)(ls[i]) == Some(i)
    {
      assert CarriesAt(rawId, 0 + i, ls[i]);
    }
    if id < |ls| {
      assert IdOfLine(rawId)(ls[id]) == Some(id);
    }
  }

  predicate AtLeast(lineId: LineId, l: Line, id: nat) {
    lineId(l).Some? && lineId(l).value >= id
  }

  /** The linear scan: the first line whose id is at least `id`, or the end. */
  function FirstAtLeast(lineId: LineId, ls: seq<Line>, id: nat, from: nat): (k: nat)
    requires from <= |ls|
    ensures from <= k <= |ls|
    ensures forall i :: from <= i < k ==> !AtLeast(lineId, ls[i], id)
    ensures k < |ls| ==> AtLeast(lineId, ls[k], id)
    decreases |ls| - from
  {
    if from < |ls| && !AtLeast(lineId, ls[from], id) then FirstAtLeast(lineId, ls, id, from + 1) else from
  }

  /** What the two bounds of the binary search mean. */
  ghost predicate Bracketed(lineId: LineId, ls: seq<Line>, id: nat, a: nat, b: nat) {
    && a <= b <= |ls|
    && (Ordered(lineId, ls) ==>
      && (forall i :: 0 <= i < a ==> !AtLeast(lineId, ls[i], id))
      && (forall i :: b <= i < |ls| ==> AtLeast(lineId, ls[i], id)))
  }

  lemma NarrowsDown(lineId: LineId, ls: seq<Line>, id: nat, a: nat, b: nat, c: nat)
    requires Bracketed(lineId, ls, id, a, b) && a <= c < b
    ensures AtLeast(lineId, ls[c], id) ==> Bracketed(lineId, ls, id, a, c)
    ensures !AtLeast(lineId, ls[c], id) ==> Bracketed(lineId, ls, id, c + 1, b)
  {
    if Ordered(lineId, ls) {
      forall i | 0 <= i < |ls| && i != c
        ensures i < c && AtLeast(lineId, ls[i], id) ==> AtLeast(lineId, ls[c], id)
        ensures c < i && AtLeast(lineId, ls[c], id) ==> AtLeast(lineId, ls[i], id)
      {
        assert i < c ==> IdAt(lineId, ls, i) <= IdAt(lineId, ls, c);
        assert c < i ==> IdAt(lineId, ls, c) <= IdAt(lineId, ls, i);
      }
    }
  }

  // ----- Opening at the last terminator

  /** One past the last terminator, searched back in chunks of 64 KiB. */
  method LastTerminator(f: File, disk: nat) returns (r: nat)
    requires disk == |f.data|
    modifies f`pos
    ensures r <= |f.data| && Unbroken(f.data, r, |f.data|)
    ensures r > 0 ==> f.data[r - 1] == LF
  {
    hide LastNewline;
    var end: nat := disk;
    while end > 0
      invariant end <= |f.data| && Unbroken(f.data, end, |f.data|)
    {
      var start: nat := if end <= 0x1_0000 then 0 else end - 0x1_0000;
      f.Seek(start);
      var read := f.ReadExact(end - start);
      var found := LastNewline(read.value);
      ChunkIs(f.data, start, end);
      if found.Some? {
        return start + found.value + 1;
      }
      end := start;
    }
    r := 0;
  }

  lemma ChunkIs(data: seq<Byte>, start: nat, end: nat)
    requires start <= end <= |data|
    ensures forall i :: start <= i < end ==> data[i] == data[start..end][i - start]
  {
  }

  /** Bytes that end with a terminator, or are none, are lines and nothing else. */
  lemma {:induction false} SplitLinesAreLines(s: seq<Byte>)
    requires s != [] ==> s[|s| - 1] == LF
    ensures AllLines(SplitLines(s)) && Concat(SplitLines(s)) == s
    decreases |s|
  {
    hide Newline, SplitLines;
    if s == [] {
      NoLines();
    } else {
      var n := NewlineExists(s);
      SplitFirst(s);
      SplitLinesAreLines(s[n + 1..]);
      var rest := SplitLines(s[n + 1..]);
      assert SplitLines(s)[1..] == rest;
      assert s == s[..n + 1] + s[n + 1..];
      forall i | 0 <= i < |SplitLines(s)| ensures IsLine(SplitLines(s)[i]) {
        if i > 0 {
          assert IsLine(rest[i - 1]);
        }
      }
    }
  }

  lemma {:induction false} SplitFirst(s: seq<Byte>)
    requires Newline(s).Some?
    ensures SplitLines(s) == [s[..Newline(s).value + 1]] + SplitLines(s[Newline(s).value + 1..])
  {
    hide Newline;
  }

  lemma NewlineExists(s: seq<Byte>) returns (n: nat)
    requires s != [] && s[|s| - 1] == LF
    ensures Newline(s) == Some(n) && n < |s| && IsLine(s[..n + 1])
  {
    hide Newline;
    var r := Newline(s);
    n := r.value;
  }

  // ----- Offsets and lines

  lemma {:induction false} LineInside(ls: seq<Line>, i: nat)
    requires AllLines(ls) && i < |ls|
    ensures Offset(ls, i) + |ls[i]| == Offset(ls, i + 1) <= |Concat(ls)|
    ensures |ls[i]| > 0
  {
    hide Concat;
    OffsetNext(ls, i);
    LineStands(ls, i);
    assert IsLine(ls[i]);
  }

  /** From a line start the next terminator is that line's own. */
  lemma {:induction false} FirstNewlineOfLine(data: seq<Byte>, len: nat, ls: seq<Line>, i: nat)
    requires AllLines(ls) && len == |Concat(ls)| <= |data| && data[..len] == Concat(ls) && i < |ls|
    ensures var at := Offset(ls, i);
      && at + |ls[i]| <= len
      && Newline(data[at..]) == Some(|ls[i]| - 1) && data[at..at + |ls[i]|] == ls[i]
  {
    hide Concat, Newline, Offset;
    var at := Offset(ls, i);
    LineStands(ls, i);
    SliceOfSlice(data, 0, len, at, at + |ls[i]|);
    assert data[0..len] == data[..len];
    assert IsLine(ls[i]);
    NewlineOfLine(data[at..], ls[i]);
  }

  lemma {:induction false} NewlineOfLine(s: seq<Byte>, l: Line)
    requires IsLine(l) && |l| <= |s| && s[..|l|] == l
    ensures Newline(s) == Some(|l| - 1)
  {
    hide Newline;
    assert forall i :: 0 <= i < |l| ==> s[i] == s[..|l|][i] == l[i];
  }

  function Min(a: nat, b: nat): nat {
    if a <= b then a else b
  }

  /** Line `c` is the first to start at or after `at`; past the last line, none does. */
  ghost predicate IsNextStart(ls: seq<Line>, at: nat, c: nat)
    requires c <= |ls|
  {
    && (c < |ls| ==> at <= Offset(ls, c))
    && (forall i :: 0 <= i < c ==> Offset(ls, i) < at)
  }

  lemma {:induction false} LastStart(ls: seq<Line>, at: nat)
    requires AllLines(ls) && at >= |Concat(ls)|
    ensures IsNextStart(ls, at, |ls|)
  {
    hide Concat;
    forall i | 0 <= i < |ls| ensures Offset(ls, i) < at {
      LineInside(ls, i);
    }
  }

  /** The line that holds byte `at - 1` ends where the next line starts. */
  lemma {:induction false} StartFrom(ls: seq<Line>, at: nat, i: nat) returns (c: nat)
    requires AllLines(ls) && 0 < at <= |Concat(ls)| && i < |ls| && Offset(ls, i) < at
    ensures i < c <= |ls| && Offset(ls, c - 1) < at <= Offset(ls, c)
    decreases |ls| - i
  {
    hide Concat;
    LineInside(ls, i);
    if at <= Offset(ls, i + 1) {
      c := i + 1;
    } else {
      OffsetEnds(ls);
      c := StartFrom(ls, at, i + 1);
    }
  }

  lemma StartAfter(data: seq<Byte>, len: nat, ls: seq<Line>, at: nat) returns (c: nat)
    requires AllLines(ls) && len == |Concat(ls)| <= |data| && data[..len] == Concat(ls)
    requires 0 < at < len
    ensures 0 < c <= |ls| && IsNextStart(ls, at, c)
    ensures at <= Offset(ls, c) <= len && data[Offset(ls, c) - 1] == LF
    ensures Unbroken(data, at - 1, Offset(ls, c) - 1)
  {
    hide Concat, Offset;
    OffsetEnds(ls);
    c := StartFrom(ls, at, 0);
    var l, from := ls[c - 1], Offset(ls, c - 1);
    LineInside(ls, c - 1);
    FirstNewlineOfLine(data, len, ls, c - 1);
    assert IsLine(l);
    LineAt(data, from, l, |l| - 1);
    forall i | at - 1 <= i < Offset(ls, c) - 1 ensures data[i] != LF {
      LineAt(data, from, l, i - from);
    }
    forall i | 0 <= i < c ensures Offset(ls, i) < at {
      OffsetsGrow(ls, i, c - 1);
    }
  }

  /** A chunk read before the terminator at `nl` holds it or stays short of it. */
  lemma {:induction false} NewlineInChunk(data: seq<Byte>, from: nat, buf: seq<Byte>, nl: nat)
    requires from <= nl < |data| && data[nl] == LF && Unbroken(data, from, nl)
    requires from + |buf| <= |data| && buf == data[from..from + |buf|]
    ensures Newline(buf) == (if nl < from + |buf| then Some(nl - from) else None)
    ensures from + |buf| <= nl ==> Unbroken(data, from, from + |buf|)
  {
    hide Newline;
    assert forall i :: 0 <= i < |buf| ==> buf[i] == data[from + i];
    if nl < from + |buf| {
      var l := data[from..nl + 1];
      assert IsLine(l);
      assert buf[..|l|] == l;
      NewlineOfLine(buf, l);
    }
  }

  lemma OffsetsDistinct(ls: seq<Line>, i: nat, j: nat)
    requires AllLines(ls) && i <= |ls| && j <= |ls|
    ensures Offset(ls, i) == Offset(ls, j) <==> i == j
  {
    hide Offset;
    if i <= j {
      OffsetsGrow(ls, i, j);
    } else {
      OffsetsGrow(ls, j, i);
    }
  }

  // ----- Brackets

  lemma WholeBracket(lineId: LineId, ls: seq<Line>, id: nat)
    ensures Bracketed(lineId, ls, id, 0, |ls|)
  {
  }

  /** The probe lands within the bracket, or past it. */
  lemma StartsInOrder(ls: seq<Line>, a: nat, b: nat, c: nat, mid: nat, lo: nat, hi: nat)
    requires AllLines(ls) && a <= b <= |ls| && c <= |ls| && IsNextStart(ls, mid, c)
    requires lo == Offset(ls, a) && hi == Offset(ls, b) && lo <= mid < hi
    ensures a <= c <= b && (Offset(ls, c) < hi <==> c < b)
  {
    hide Concat;
    if c < a {
      OffsetsGrow(ls, c, a);
    }
    if b < c {
      OffsetsGrow(ls, b, c);
    } else {
      OffsetsGrow(ls, c, b);
    }
  }

  lemma {:induction false} FoundByBracket(lineId: LineId, ls: seq<Line>, id: nat, k: nat)
    requires k <= |ls|
    requires Bracketed(lineId, ls, id, k, k)
    ensures Ordered(lineId, ls) ==> FirstAtLeast(lineId, ls, id, 0) == k
  {
    var first := FirstAtLeast(lineId, ls, id, 0);
    assert first < |ls| ==> AtLeast(lineId, ls[first], id);
    assert Ordered(lineId, ls) && k < |ls| ==> AtLeast(lineId, ls[k], id);
  }

  /** If any line carries the id, the first at least as large does. */
  lemma {:induction false} FoundIsFirst(lineId: LineId, ls: seq<Line>, id: nat, i: nat)
    requires Ordered(lineId, ls) && i < |ls| && lineId(ls[i]) == Some(id)
    ensures var k := FirstAtLeast(lineId, ls, id, 0); k < |ls| && lineId(ls[k]) == Some(id)
  {
    var k := FirstAtLeast(lineId, ls, id, 0);
    assert AtLeast(lineId, ls[i], id);
    assert k <= i;
    assert IdAt(lineId, ls, k) <= IdAt(lineId, ls, i) || k == i;
  }

  // ----- The reader

  class Output {
    const file: File
    const len: nat

    /** The complete lines of the snapshot. */
    ghost const lines: seq<Line>

    ghost predicate Valid()
      reads this, file
    {
      && AllLines(lines) && len == |Concat(lines)| <= |file.data|
      && file.data[..len] == Concat(lines)
    }

    /** Opens a snapshot: the bytes on disk cut to the last terminator. */
    constructor (f: File)
      modifies f`pos
      ensures file == f && Valid()
      ensures Unbroken(f.data, len, |f.data|)
    {
      var end := LastTerminator(f, |f.data|);
      file := f;
      len := end;
      lines := SplitLines(f.data[..end]);
      SplitLinesAreLines(f.data[..end]);
    }

    /** The line that starts at `at`, with its terminator. */
    method LineAt(at: nat) returns (r: Option<Line>)
      requires Valid()
      modifies file`pos
      ensures at >= len ==> r == None
      ensures forall i :: 0 <= i < |lines| && Offset(lines, i) == at ==> r == Some(lines[i])
    {
      hide Concat, Newline, Offset;
      if at >= len {
        forall i | 0 <= i < |lines| ensures Offset(lines, i) != at { LineInside(lines, i); }
        return None;
      }
      file.Seek(at);
      var line := ReadUntilNewline();
      forall i | 0 <= i < |lines| && Offset(lines, i) == at ensures line == lines[i] && at + |line| <= len {
        LineInside(lines, i);
        FirstNewlineOfLine(file.data, len, lines, i);
      }
      r := if line != [] && line[|line| - 1] == LF && at + |line| <= len then Some(line) else None;
      forall i | 0 <= i < |lines| && Offset(lines, i) == at ensures r == Some(lines[i]) {
        assert IsLine(lines[i]);
      }
    }

    /** `read_until(b'\\n')` from the cursor. */
    method ReadUntilNewline() returns (line: seq<Byte>)
      requires file.pos <= |file.data|
      modifies file`pos
      ensures line == match Newline(file.data[old(file.pos)..])
                      case None => file.data[old(file.pos)..]
                      case Some(i) => file.data[old(file.pos)..old(file.pos) + i + 1]
    {
      var from := file.pos;
      var n := Newline(file.data[from..]);
      var count := if n.Some? then n.value + 1 else |file.data| - from;
      var read := file.ReadExact(count);
      line := read.value;
      assert file.data[from..|file.data|] == file.data[from..];
    }

    /** The first line start at or after `at`, or `len`: skips in chunks to the next
        terminator from the byte before. */
    method NextStart(at: nat) returns (s: nat)
      requires Valid()
      modifies file`pos
      ensures exists c :: 0 <= c <= |lines| && s == Offset(lines, c) && IsNextStart(lines, at, c)
    {
      hide Concat, Newline, Offset;
      OffsetEnds(lines);
      if at == 0 {
        assert IsNextStart(lines, at, 0);
        return 0;
      }
      if at >= len {
        LastStart(lines, at);
        return len;
      }
      ghost var c := StartAfter(file.data, len, lines, at);
      file.Seek(at - 1);
      var skipped := 0;
      while true
        invariant file.pos == at - 1 + skipped < Offset(lines, c) <= len
        invariant Unbroken(file.data, at - 1, at - 1 + skipped)
        decreases len - skipped
      {
        var buf := file.Read(0x4000);
        var i := Newline(buf);
        NewlineInChunk(file.data, at - 1 + skipped, buf, Offset(lines, c) - 1);
        if i.Some? {
          s := Min(at - 1 + skipped + i.value + 1, len);
          return;
        }
        skipped := skipped + |buf|;
      }
    }

    /** Offset of the first line whose id is at least `id`; `len` when no line is. */
    method LowerBound(lineId: LineId, id: nat) returns (r: nat)
      requires Valid()
      modifies file`pos
      ensures Ordered(lineId, lines) ==> r == Offset(lines, FirstAtLeast(lineId, lines, id, 0))
      ensures exists k :: 0 <= k <= |lines| && r == Offset(lines, k)
    {
      hide Concat, Offset, AtLeast, FirstAtLeast, Bracketed;
      OffsetEnds(lines);
      WholeBracket(lineId, lines, id);
      var lo, hi := 0, len;
      ghost var a: nat, b: nat := 0, |lines|;
      while lo < hi
        invariant Valid()
        invariant Bracketed(lineId, lines, id, a, b) && a <= b <= |lines|
        invariant lo == Offset(lines, a) && hi == Offset(lines, b)
        decreases b - a
      {
        var mid := lo + (hi - lo) / 2;
        var s := NextStart(mid);
        ghost var c: nat :| c <= |lines| && s == Offset(lines, c) && IsNextStart(lines, mid, c);
        StartsInOrder(lines, a, b, c, mid, lo, hi);
        if s >= hi {
          r := Walk(lineId, id, lo, hi, a, b);
          return;
        }
        var line := LineAt(s);
        OffsetNext(lines, c);
        assert IsLine(lines[c]);
        NarrowsDown(lineId, lines, id, a, b, c);
        match line {
          case Some(l) =>
            if AtLeast(lineId, l, id) {
              hi, b := s, c;
            } else {
              lo, a := s + |l|, c + 1;
            }
          case None => hi, b := s, c;
        }
      }
      if a < b {
        OffsetsGrow(lines, a, b);
      }
      FoundByBracket(lineId, lines, id, a);
      r := lo;
    }

    /** No line starts in the upper half: walk the lines from `lo` on. */
    method Walk(lineId: LineId, id: nat, lo: nat, hi: nat, ghost a: nat, ghost b: nat) returns (r: nat)
      requires Valid() && Bracketed(lineId, lines, id, a, b) && a <= b <= |lines|
      requires lo == Offset(lines, a) && hi == Offset(lines, b) && lo < hi
      modifies file`pos
      ensures Ordered(lineId, lines) ==> r == Offset(lines, FirstAtLeast(lineId, lines, id, 0))
      ensures exists k :: 0 <= k <= |lines| && r == Offset(lines, k)
    {
      hide Concat, Offset, AtLeast, FirstAtLeast, Bracketed;
      var at := lo;
      ghost var j := a;
      while at < hi
        invariant Valid() && a <= j <= b && at == Offset(lines, j)
        invariant Bracketed(lineId, lines, id, j, b)
        decreases b - j
      {
        if j == b {
          assert false;
        }
        var line := LineAt(at);
        OffsetNext(lines, j);
        assert IsLine(lines[j]);
        NarrowsDown(lineId, lines, id, j, b, j);
        match line {
          case None => break;
          case Some(l) =>
            if AtLeast(lineId, l, id) {
              FoundByBracket(lineId, lines, id, j);
              return at;
            }
            at, j := at + |l|, j + 1;
        }
      }
      if j < b {
        OffsetsGrow(lines, j, b);
      }
      FoundByBracket(lineId, lines, id, b);
      r := hi;
    }

    /** The line with exactly this id, without its terminator. */
    method Find(lineId: LineId, id: nat) returns (r: Option<seq<Byte>>)
      requires Valid()
      modifies file`pos
      ensures Ordered(lineId, lines) ==>
        && (r.Some? <==> exists i :: 0 <= i < |lines| && lineId(lines[i]) == Some(id))
        && (r.Some? ==> exists i :: 0 <= i < |lines| && lineId(lines[i]) == Some(id) && lines[i] == r.value + [LF])
    {
      hide Concat, Offset, FirstAtLeast;
      var at := LowerBound(lineId, id);
      ghost var k :| 0 <= k <= |lines| && at == Offset(lines, k);
      OffsetEnds(lines);
      var line := LineAt(at);
      if Ordered(lineId, lines) {
        OffsetsDistinct(lines, k, FirstAtLeast(lineId, lines, id, 0));
        forall i | 0 <= i < |lines| && lineId(lines[i]) == Some(id)
          ensures k < |lines| && lineId(lines[k]) == Some(id)
        {
          FoundIsFirst(lineId, lines, id, i);
        }
      }
      match line {
        case Some(l) =>
          if lineId(l) == Some(id) {
            assert IsLine(lines[k]);
            assert l == l[..|l| - 1] + [LF];
            return Some(l[..|l| - 1]);
          }
          r := None;
        case None => r := None;
      }
    }
  }
}
