/** Lossless event framing: an event is a line and every following line that begins with a
    blank or a terminator. */
module Framing {
  import opened Bytes

  const CR: Byte := 0x0D

  predicate IsContinuation(first: Byte) {
    IsBlank(first) || first == CR || first == LF
  }

  /** A space, a tab, a carriage return or a line feed continues an event. */
  lemma Continuations(first: Byte)
    ensures IsContinuation(first) <==> first as char in {' ', '\t', '\r', '\n'}
  {
  }

  /** `memchr(b'\n', s)`. */
  function Newline(s: seq<Byte>): (r: Option<nat>)
    ensures r.Some? ==> r.value < |s| && s[r.value] == LF && forall i :: 0 <= i < r.value ==> s[i] != LF
    ensures r.None? ==> forall i :: 0 <= i < |s| ==> s[i] != LF
  {
    if s == [] then None
    else if s[0] == LF then Some(0)
    else match Newline(s[1..])
      case None => None
      case Some(i) => Some(i + 1)
  }

  /** Length of the first line of `s` with its terminator; `None` while it is incomplete and
      more bytes may arrive. */
  function LineLen(s: seq<Byte>, eof: bool): (r: Option<nat>)
    ensures r.Some? ==> r.value <= |s| && (s != [] ==> r.value > 0)
    ensures eof ==> r.Some?
  {
    match Newline(s)
    case Some(i) => Some(i + 1)
    case None => if eof then Some(|s|) else None
  }

  predicate NoneBelow(s: seq<Byte>, n: nat)
    requires n <= |s|
  {
    forall i :: 0 <= i < n ==> s[i] != LF
  }

  /** The line ends at the first terminator, or with an input that has none and is complete. */
  lemma LineIff(s: seq<Byte>, eof: bool, n: nat)
    ensures LineLen(s, eof) == Some(n)
       <==> (0 < n <= |s| && s[n - 1] == LF && NoneBelow(s, n - 1)) || (eof && n == |s| && NoneBelow(s, n))
  {
    match Newline(s)
    case None =>
    case Some(i) =>
      assert n - 1 <= |s| && i < n - 1 ==> !NoneBelow(s, n - 1);
  }

  /** The event that holds the first `n` bytes of `s`, as whole lines, extended by every
      continuation line; `None` while its end cannot be decided. */
  function Extended(s: seq<Byte>, n: nat, eof: bool): (r: Option<nat>)
    requires n <= |s|
    ensures r.Some? ==> n <= r.value <= |s|
    ensures eof ==> r.Some?
    decreases |s| - n
  {
    if n == |s| then (if eof then Some(n) else None)
    else if !IsContinuation(s[n]) then Some(n)
    else match LineLen(s[n..], eof)
      case None => None
      case Some(len) => Extended(s, n + len, eof)
  }

  function EventLen(s: seq<Byte>, eof: bool): (r: Option<nat>)
    ensures r.Some? ==> 0 < r.value <= |s|
    ensures eof && s != [] ==> r.Some?
  {
    if s == [] then None
    else match LineLen(s, eof)
      case None => None
      case Some(len) => Extended(s, len, eof)
  }

  function Events(s: seq<Byte>, eof: bool): seq<seq<Byte>> {
    match EventLen(s, eof)
    case None => []
    case Some(n) => [s[..n]] + Events(s[n..], eof)
  }

  function Rest(s: seq<Byte>, eof: bool): seq<Byte> {
    match EventLen(s, eof)
    case None => s
    case Some(n) => Rest(s[n..], eof)
  }

  /** The iterator over one buffer. */
  class Framer {
    const buf: seq<Byte>
    const eof: bool
    var pos: nat

    constructor (buf: seq<Byte>, eof: bool)
      ensures this.buf == buf && this.eof == eof && pos == 0
    {
      this.buf, this.eof, pos := buf, eof, 0;
    }

    /** The bytes not yet framed. */
    function Remainder(): seq<Byte>
      reads this
      requires pos <= |buf|
    {
      buf[pos..]
    }

    method LineEnd(from: nat) returns (r: Option<nat>)
      requires from <= |buf|
      ensures r == match LineLen(buf[from..], eof) case None => None case Some(len) => Some(from + len)
    {
      match Newline(buf[from..]) {
        case Some(i) => r := Some(from + i + 1);
        case None => r := if eof then Some(|buf|) else None;
      }
    }

    /** The next event, as a range of the buffer. */
    method Next() returns (r: Option<(nat, nat)>)
      requires pos <= |buf|
      modifies this
      ensures pos <= |buf|
      ensures match EventLen(old(Remainder()), eof)
        case None => r == None && pos == old(pos)
        case Some(n) => pos == old(pos) + n && r == Some((old(pos), pos))
    {
      hide Newline, LineLen, Extended, IsContinuation;
      var start := pos;
      ghost var s := Remainder();
      if start >= |buf| {
        return None;
      }
      var line := LineEnd(start);
      if line == None {
        return None;
      }
      var end := line.value;
      while true
        invariant start < end <= |buf| && pos == start
        invariant EventLen(s, eof) == Extended(s, end - start, eof)
        decreases |buf| - end
      {
        ExtendedFrom(buf, start, end, eof);
        if end >= |buf| {
          if eof {
            break;
          }
          return None;
        }
        if !IsContinuation(buf[end]) {
          break;
        }
        line := LineEnd(end);
        if line == None {
          return None;
        }
        end := line.value;
      }
      pos := end;
      r := Some((start, end));
    }
  }

  lemma RestOfRest(bytes: seq<Byte>, start: nat, at: nat)
    requires start <= at <= |bytes|
    ensures bytes[start..][at - start..] == bytes[at..]
  {
  }

  /** One turn of the framer's loop, by places of the buffer. */
  lemma {:induction false} ExtendedFrom(buf: seq<Byte>, start: nat, end: nat, eof: bool)
    requires start <= end <= |buf|
    ensures Extended(buf[start..], end - start, eof) ==
      if end == |buf| then (if eof then Some(end - start) else None)
      else if !IsContinuation(buf[end]) then Some(end - start)
      else match LineLen(buf[end..], eof)
        case None => None
        case Some(len) => Extended(buf[start..], end + len - start, eof)
  {
    hide LineLen, IsContinuation;
    RestOfRest(buf, start, end);
  }

  /** What a caller that exhausts the iterator holds: the events, and a remainder to carry. */
  method Drain(framer: Framer) returns (events: seq<seq<Byte>>)
    requires framer.pos <= |framer.buf|
    modifies framer
    ensures framer.pos <= |framer.buf|
    ensures events == Events(old(framer.Remainder()), framer.eof)
    ensures framer.Remainder() == Rest(old(framer.Remainder()), framer.eof)
  {
    hide EventLen, Events, Rest;
    ghost var s := framer.Remainder();
    events := [];
    while true
      invariant framer.pos <= |framer.buf|
      invariant events + Events(framer.Remainder(), framer.eof) == Events(s, framer.eof)
      invariant Rest(framer.Remainder(), framer.eof) == Rest(s, framer.eof)
      decreases |framer.buf| - framer.pos
    {
      ghost var t := framer.Remainder();
      var next := framer.Next();
      if next == None {
        NoEvents(t, framer.eof);
        return;
      }
      FirstEvent(t, framer.eof);
      var (start, end) := next.value;
      assert t[..end - start] == framer.buf[start..end] && t[end - start..] == framer.Remainder();
      events := events + [framer.buf[start..end]];
    }
  }

  // ----- Nothing is lost

  function Concat(parts: seq<seq<Byte>>): seq<Byte> {
    if parts == [] then [] else parts[0] + Concat(parts[1..])
  }

  lemma {:induction false} ConcatCons(x: seq<Byte>, ys: seq<seq<Byte>>, rest: seq<Byte>)
    ensures Concat([x] + ys) + rest == x + (Concat(ys) + rest)
  {
    assert ([x] + ys)[1..] == ys;
  }

  lemma {:induction false} Lossless(s: seq<Byte>, eof: bool)
    ensures Concat(Events(s, eof)) + Rest(s, eof) == s
    ensures eof ==> Rest(s, eof) == []
    decreases |s|
  {
    hide EventLen, Concat, Events, Rest;
    match EventLen(s, eof)
    case None => NoEvents(s, eof);
    case Some(n) =>
      FirstEvent(s, eof);
      Lossless(s[n..], eof);
      ConcatCons(s[..n], Events(s[n..], eof), Rest(s[n..], eof));
      assert s == s[..n] + s[n..];
  }

  lemma {:induction false} FirstEvent(s: seq<Byte>, eof: bool)
    requires EventLen(s, eof).Some?
    ensures var n := EventLen(s, eof).value;
      Events(s, eof) == [s[..n]] + Events(s[n..], eof) && Rest(s, eof) == Rest(s[n..], eof)
  {
    hide EventLen;
  }

  lemma {:induction false} NoEvents(s: seq<Byte>, eof: bool)
    requires EventLen(s, eof) == None
    ensures Events(s, eof) == [] && Rest(s, eof) == s && Concat([]) + s == s && (eof ==> s == [])
  {
    assert [] + s == s;
  }

  // ----- Chunks

  lemma {:induction false} NewlineStays(a: seq<Byte>, b: seq<Byte>)
    requires Newline(a).Some?
    ensures Newline(a + b) == Newline(a)
  {
    if a[0] != LF {
      NewlineStays(a[1..], b);
      assert (a + b)[1..] == a[1..] + b;
    }
  }

  lemma LineStays(a: seq<Byte>, b: seq<Byte>, eof: bool)
    requires LineLen(a, false).Some?
    ensures LineLen(a + b, eof) == LineLen(a, false)
  {
    NewlineStays(a, b);
  }

  lemma {:induction false} ExtendedStays(a: seq<Byte>, b: seq<Byte>, n: nat, eof: bool)
    requires n <= |a| && Extended(a, n, false).Some?
    ensures Extended(a + b, n, eof) == Extended(a, n, false)
    decreases |a| - n
  {
    hide LineLen, IsContinuation;
    if IsContinuation(a[n]) {
      assert (a + b)[n..] == a[n..] + b;
      LineStays(a[n..], b, eof);
      ExtendedStays(a, b, n + LineLen(a[n..], false).value, eof);
    }
  }

  /** An event whose end was decided is not changed by bytes that arrive later. */
  lemma EventStays(a: seq<Byte>, b: seq<Byte>, eof: bool)
    requires EventLen(a, false).Some?
    ensures EventLen(a + b, eof) == EventLen(a, false)
  {
    LineStays(a, b, eof);
    ExtendedStays(a, b, LineLen(a, false).value, eof);
  }

  /** Framing a chunk, carrying the remainder and going on yields what framing the whole
      yields. */
  lemma {:induction false} OneSplit(a: seq<Byte>, b: seq<Byte>, eof: bool)
    ensures Events(a + b, eof) == Events(a, false) + Events(Rest(a, false) + b, eof)
    ensures Rest(a + b, eof) == Rest(Rest(a, false) + b, eof)
    decreases |a|
  {
    hide EventLen;
    match EventLen(a, false)
    case None =>
    case Some(n) =>
      EventStays(a, b, eof);
      OneSplit(a[n..], b, eof);
      assert (a + b)[..n] == a[..n] && (a + b)[n..] == a[n..] + b;
  }

  /** The events of a stream that arrives in chunks, the last of them final. */
  function Streamed(carry: seq<Byte>, chunks: seq<seq<Byte>>): seq<seq<Byte>>
    decreases |chunks|
  {
    if chunks == [] then Events(carry, true)
    else Events(carry + chunks[0], false) + Streamed(Rest(carry + chunks[0], false), chunks[1..])
  }

  lemma {:induction false} ChunkingIrrelevant(carry: seq<Byte>, chunks: seq<seq<Byte>>)
    ensures Streamed(carry, chunks) == Events(carry + Concat(chunks), true)
    decreases |chunks|
  {
    hide Events, Rest;
    if chunks == [] {
      assert carry + [] == carry;
    } else {
      var head := carry + chunks[0];
      ChunkingIrrelevant(Rest(head, false), chunks[1..]);
      OneSplit(head, Concat(chunks[1..]), true);
      assert carry + Concat(chunks) == head + Concat(chunks[1..]);
    }
  }

  // ----- The reference framer

  /** `split_physical_lines`: after every LF, and once more for an unterminated end. */
  function SplitLines(data: seq<Byte>): seq<seq<Byte>> {
    match Newline(data)
    case Some(i) => [data[..i + 1]] + SplitLines(data[i + 1..])
    case None => if data == [] then [] else [data]
  }

  /** `group_events`, with the event under construction. */
  function Grouped(cur: Option<seq<Byte>>, lines: seq<seq<Byte>>): seq<seq<Byte>>
    decreases |lines|
  {
    var done := if cur.Some? then [cur.value] else [];
    if lines == [] then done
    else if cur.Some? && lines[0] != [] && IsContinuation(lines[0][0]) then Grouped(Some(cur.value + lines[0]), lines[1..])
    else done + Grouped(Some(lines[0]), lines[1..])
  }

  lemma {:induction false} FirstLine(s: seq<Byte>)
    requires s != []
    ensures var n := LineLen(s, true).value;
      SplitLines(s) == [s[..n]] + SplitLines(s[n..]) && 0 < n <= |s| && s[..n][0] == s[0]
  {
    if Newline(s) == None {
      assert s[..|s|] == s && s[|s|..] == [];
      assert SplitLines([]) == [];
    }
  }

  lemma {:induction false} GroupedExtends(s: seq<Byte>, n: nat)
    requires n <= |s|
    ensures var e := Extended(s, n, true).value;
      Grouped(Some(s[..n]), SplitLines(s[n..])) == [s[..e]] + Grouped(None, SplitLines(s[e..]))
    decreases |s| - n
  {
    hide Newline, LineLen, SplitLines;
    var t := s[n..];
    if t == [] {
      NoLines();
    } else {
      FirstLine(t);
      var len := LineLen(t, true).value;
      assert t[len..] == s[n + len..];
      if IsContinuation(s[n]) {
        GroupedExtends(s, n + len);
        assert s[..n] + t[..len] == s[..n + len];
      }
      assert SplitLines(t)[1..] == SplitLines(t[len..]);
    }
  }

  lemma NoLines()
    ensures SplitLines([]) == []
  {
  }

  /** Framing a whole input is splitting it into lines and grouping the continuations. */
  lemma {:induction false} MatchesReference(s: seq<Byte>)
    ensures Events(s, true) == Grouped(None, SplitLines(s))
    decreases |s|
  {
    hide Newline, LineLen, SplitLines, Extended;
    if s == [] {
      NoLines();
    } else {
      FirstLine(s);
      var len := LineLen(s, true).value;
      GroupedExtends(s, len);
      assert SplitLines(s)[1..] == SplitLines(s[len..]);
      var n := EventLen(s, true).value;
      MatchesReference(s[n..]);
    }
  }
}
