/** CEF records: header fields set apart by pipes, then `key=value` pairs whose keys are
    found backwards from each `=`. Printing with `\`, `|` and `=` escaped is undone by the
    parser, up to blanks at the end of every value but the last. */
module Cef {
  import opened Bytes

  type Text = seq<Byte>

  const PIPE: Byte := 124
  const EQUALS: Byte := 61

  predicate IsKeyByte(b: Byte) {
    IsDigit(b) || 65 <= b <= 90 || 97 <= b <= 122 || b in [95, 46, 45]
  }

  function Ascii(s: string): (t: Text)
    ensures |t| == |s|
  {
    seq(|s|, i requires 0 <= i < |s| => s[i] as int % 256)
  }

  const CEF_HEADER: seq<Text> := [
    Ascii("cef_version"), Ascii("device_vendor"), Ascii("device_product"), Ascii("device_version"),
    Ascii("signature_id"), Ascii("name"), Ascii("cef_severity")]

  const TAG: Text := Ascii("CEF:")

  /** ASCII letters and digits, the underscore, the dot and the hyphen make a key. */
  lemma KeyBytes(b: Byte)
    ensures var c := b as char;
      IsKeyByte(b) <==> 'a' <= c <= 'z' || 'A' <= c <= 'Z' || '0' <= c <= '9' || c == '_' || c == '.' || c == '-'
  {
  }

  datatype Field = Field(name: Text, value: Text)

  datatype Result = InvalidCef | Ok(fields: seq<Field>)

  // ----- Escapes

  function Unescaped(b: Byte): Byte {
    if b == 110 then 10 else if b == 114 then 13 else b
  }

  function Unescape(raw: Text): Text {
    if raw == [] then []
    else if raw[0] == BACKSLASH && |raw| > 1 then [Unescaped(raw[1])] + Unescape(raw[2..])
    else [raw[0]] + Unescape(raw[1..])
  }

  lemma {:induction false} NoEscapes(raw: Text)
    requires BACKSLASH !in raw
    ensures Unescape(raw) == raw
  {
    if raw != [] {
      assert raw == [raw[0]] + raw[1..];
      NoEscapes(raw[1..]);
    }
  }

  lemma Push<T>(out: seq<T>, x: T, rest: seq<T>)
    ensures (out + [x]) + rest == out + ([x] + rest)
  {
  }

  method UnescapeIfNeeded(raw: Text) returns (v: Text)
    ensures v == Unescape(raw)
  {
    hide Unescape;
    if BACKSLASH !in raw {
      NoEscapes(raw);
      return raw;
    }
    v := UnescapeAll(raw);
  }

  method UnescapeAll(raw: Text) returns (v: Text)
    ensures v == Unescape(raw)
  {
    hide Unescape;
    v := [];
    var i := 0;
    UnescapeNext(raw, |raw|);
    assert raw[0..] == raw;
    while i < |raw|
      invariant 0 <= i <= |raw| && v + Unescape(raw[i..]) == Unescape(raw)
    {
      UnescapeNext(raw, i);
      var b := raw[i];
      if raw[i] == BACKSLASH && i + 1 < |raw| {
        b := Unescaped(raw[i + 1]);
        i := i + 2;
      } else {
        i := i + 1;
      }
      Push(v, b, Unescape(raw[i..]));
      v := v + [b];
    }
  }

  lemma UnescapeNext(raw: Text, i: nat)
    requires i <= |raw|
    ensures Unescape(raw[i..]) ==
      if i == |raw| then []
      else if raw[i] == BACKSLASH && i + 1 < |raw| then [Unescaped(raw[i + 1])] + Unescape(raw[i + 2..])
      else [raw[i]] + Unescape(raw[i + 1..])
  {
    if i < |raw| {
      assert raw[i..][1..] == raw[i + 1..];
    }
    if i + 1 < |raw| {
      assert raw[i..][2..] == raw[i + 2..];
    }
  }

  predicate NeedsEscape(b: Byte) {
    b == BACKSLASH || b == PIPE || b == EQUALS
  }

  /** A backslash before each of those; a line feed as `\n`, a carriage return as `\r`. */
  function EscapedByte(b: Byte): Text {
    if NeedsEscape(b) then [BACKSLASH, b]
    else if b == 10 then Ascii("\\n")
    else if b == 13 then Ascii("\\r")
    else [b]
  }

  function Escape(v: Text): Text {
    if v == [] then [] else EscapedByte(v[0]) + Escape(v[1..])
  }

  lemma {:induction false} EscapeRoundTrip(v: Text)
    ensures Unescape(Escape(v)) == v
  {
    if v != [] {
      EscapeRoundTrip(v[1..]);
      UnescapeOne(v[0], Escape(v[1..]));
      assert v == [v[0]] + v[1..];
    }
  }

  lemma {:induction false} UnescapeOne(b: Byte, rest: Text)
    ensures Unescape(EscapedByte(b) + rest) == [b] + Unescape(rest)
  {
    assert (EscapedByte(b) + rest)[|EscapedByte(b)|..] == rest;
  }

  lemma {:induction false} EscapeConcat(a: Text, b: Text)
    ensures Escape(a + b) == Escape(a) + Escape(b)
  {
    if a == [] {
      assert a + b == b;
    } else {
      hide Escape, EscapedByte;
      EscapeConcat(a[1..], b);
      EscapeFirst(a);
      EscapeFirst(a + b);
      assert (a + b)[1..] == a[1..] + b;
      Append(EscapedByte(a[0]), Escape(a[1..]), Escape(b));
    }
  }

  /** Blanks and key bytes need no escape. */
  lemma {:induction false} PlainEscapes(v: Text)
    requires forall i :: 0 <= i < |v| ==> EscapedByte(v[i]) == [v[i]]
    ensures Escape(v) == v
  {
    if v != [] {
      assert v == [v[0]] + v[1..];
      PlainEscapes(v[1..]);
    }
  }

  // ----- The header

  type Range = (nat, nat)

  /** The splitter's loop: where it stands, where the piece began, how many pieces are left
      to find. The last takes the rest, and a backslash at the very end may step over it. */
  function Pieces(text: Text, i: nat, start: nat, left: nat): seq<Range>
    decreases if i < |text| then |text| - i else 0
  {
    if i < |text| && left > 1 then
      if text[i] == BACKSLASH then Pieces(text, i + 2, start, left)
      else if text[i] == PIPE then [(start, i)] + Pieces(text, i + 1, i + 1, left - 1)
      else Pieces(text, i + 1, start, left)
    else [(if start < |text| then start else |text|, |text|)]
  }

  lemma {:induction false} PiecesInside(text: Text, i: nat, start: nat, left: nat)
    requires start <= i && start <= |text|
    ensures forall k :: 0 <= k < |Pieces(text, i, start, left)| ==>
      Pieces(text, i, start, left)[k].0 <= Pieces(text, i, start, left)[k].1 <= |text|
    decreases if i < |text| then |text| - i else 0
  {
    if i < |text| && left > 1 {
      if text[i] == BACKSLASH {
        PiecesInside(text, i + 2, start, left);
      } else if text[i] == PIPE {
        PiecesInside(text, i + 1, i + 1, left - 1);
      } else {
        PiecesInside(text, i + 1, start, left);
      }
    }
  }

  method SplitPipes(text: Text, max: nat) returns (parts: seq<Range>)
    requires max > 0
    ensures parts == Pieces(text, 0, 0, max)
    ensures forall k :: 0 <= k < |parts| ==> parts[k].0 <= parts[k].1 <= |text|
  {
    parts := [];
    var start: nat, i: nat := 0, 0;
    while i < |text| && |parts| + 1 < max
      invariant start <= i && start <= |text| && |parts| < max
      invariant parts + Pieces(text, i, start, max - |parts|) == Pieces(text, 0, 0, max)
      decreases if i < |text| then |text| - i else 0
    {
      if text[i] == BACKSLASH {
        i := i + 2;
      } else if text[i] == PIPE {
        parts := parts + [(start, i)];
        start := i + 1;
        i := i + 1;
      } else {
        i := i + 1;
      }
    }
    parts := parts + [(if start < |text| then start else |text|, |text|)];
    PiecesInside(text, 0, 0, max);
  }

  // ----- The extension

  function KeyStart(ext: Text, i: nat): (k: nat)
    requires i <= |ext|
    ensures k <= i && (forall j :: k <= j < i ==> IsKeyByte(ext[j])) && (k > 0 ==> !IsKeyByte(ext[k - 1]))
  {
    if i > 0 && IsKeyByte(ext[i - 1]) then KeyStart(ext, i - 1) else i
  }

  /** Where keys start and end, from `i` on: at every unescaped `=` with a key before it. */
  function Marks(ext: Text, i: nat): (s: seq<Range>)
    ensures forall k :: 0 <= k < |s| ==> s[k].0 < s[k].1 < |ext|
    decreases if i < |ext| then |ext| - i else 0
  {
    if i >= |ext| then []
    else if ext[i] == BACKSLASH then Marks(ext, i + 2)
    else if ext[i] == EQUALS then
      var k := KeyStart(ext, i);
      if k < i && (k == 0 || IsBlank(ext[k - 1])) then [(k, i)] + Marks(ext, i + 1) else Marks(ext, i + 1)
    else Marks(ext, i + 1)
  }

  /** Without the blanks at its end. */
  function Trimmed(v: Text): (t: Text)
    ensures t <= v
  {
    if v != [] && IsBlank(v[|v| - 1]) then Trimmed(v[..|v| - 1]) else v
  }

  /** The raw value after a mark: it runs to the next key, without the blanks before it;
      the last runs to the end. */
  function RawValue(ext: Text, marks: seq<Range>, x: nat): Text
    requires x < |marks| && forall k :: 0 <= k < |marks| ==> marks[k].0 < marks[k].1 < |ext|
  {
    var eq := marks[x].1;
    if x + 1 == |marks| then ext[eq + 1..]
    else if marks[x + 1].0 > eq then Trimmed(ext[eq + 1..marks[x + 1].0])
    else []
  }

  /** The fields at the marks from `x` on. */
  function Between(ext: Text, marks: seq<Range>, x: nat): seq<Field>
    requires x <= |marks| && forall k :: 0 <= k < |marks| ==> marks[k].0 < marks[k].1 < |ext|
    decreases |marks| - x
  {
    if x == |marks| then []
    else [Field(ext[marks[x].0..marks[x].1], Unescape(RawValue(ext, marks, x)))] + Between(ext, marks, x + 1)
  }

  /** The mark an unescaped `=` makes, if any. */
  function MarkAt(ext: Text, i: nat): seq<Range>
    requires i < |ext|
  {
    var k := KeyStart(ext, i);
    if ext[i] == EQUALS && k < i && (k == 0 || IsBlank(ext[k - 1])) then [(k, i)] else []
  }

  lemma MarksNext(ext: Text, i: nat)
    requires i < |ext|
    ensures Marks(ext, i) == if ext[i] == BACKSLASH then Marks(ext, i + 2) else MarkAt(ext, i) + Marks(ext, i + 1)
  {
    hide KeyStart;
  }

  method FindMarks(ext: Text) returns (eqs: seq<Range>)
    ensures eqs == Marks(ext, 0)
  {
    hide Marks, MarkAt;
    eqs := [];
    var i: nat := 0;
    while i < |ext|
      invariant eqs + Marks(ext, i) == Marks(ext, 0)
      decreases if i < |ext| then |ext| - i else 0
    {
      MarksNext(ext, i);
      if ext[i] == BACKSLASH {
        i := i + 2;
      } else {
        var mark := FindKey(ext, i);
        Append(eqs, mark, Marks(ext, i + 1));
        eqs := eqs + mark;
        i := i + 1;
      }
    }
    NoMarks(ext, i);
  }

  lemma Append<T>(a: seq<T>, b: seq<T>, c: seq<T>)
    ensures (a + b) + c == a + (b + c)
  {
  }

  /** The backward scan from an `=`. */
  method FindKey(ext: Text, i: nat) returns (mark: seq<Range>)
    requires i < |ext|
    ensures mark == MarkAt(ext, i)
  {
    if ext[i] != EQUALS {
      return [];
    }
    var k := i;
    while k > 0 && IsKeyByte(ext[k - 1])
      invariant 0 <= k <= i && KeyStart(ext, k) == KeyStart(ext, i)
    {
      k := k - 1;
    }
    return if k < i && (k == 0 || IsBlank(ext[k - 1])) then [(k, i)] else [];
  }

  lemma {:induction false} NoMarks(ext: Text, i: nat)
    requires i >= |ext|
    ensures Marks(ext, i) == []
  {
  }

  method ExtensionPairs(ext: Text) returns (out: seq<Field>)
    ensures out == Between(ext, Marks(ext, 0), 0)
  {
    hide Marks, Unescape, RawValue;
    var eqs := FindMarks(ext);
    out := [];
    var x := 0;
    while x < |eqs|
      invariant 0 <= x <= |eqs| && out + Between(ext, eqs, x) == Between(ext, eqs, 0)
    {
      var raw := ValueAt(ext, eqs, x);
      var value := UnescapeIfNeeded(raw);
      var field := Field(ext[eqs[x].0..eqs[x].1], value);
      Push(out, field, Between(ext, eqs, x + 1));
      out := out + [field];
      x := x + 1;
    }
  }

  method ValueAt(ext: Text, eqs: seq<Range>, x: nat) returns (raw: Text)
    requires x < |eqs| && forall k :: 0 <= k < |eqs| ==> eqs[k].0 < eqs[k].1 < |ext|
    ensures raw == RawValue(ext, eqs, x)
  {
    hide Trimmed;
    var vs := eqs[x].1 + 1;
    var ve := |ext|;
    if x + 1 < |eqs| {
      ve := ValueEnd(ext, vs, eqs[x + 1].0);
    }
    raw := ext[vs..ve];
  }

  method ValueEnd(ext: Text, vs: nat, next: nat) returns (e: nat)
    requires vs <= |ext| && next <= |ext|
    ensures vs <= e <= |ext|
    ensures ext[vs..e] == if next >= vs then Trimmed(ext[vs..next]) else []
  {
    e := next;
    while e > vs && IsBlank(ext[e - 1])
      invariant e <= next && (next >= vs ==> vs <= e && Trimmed(ext[vs..e]) == Trimmed(ext[vs..next]))
      invariant next < vs ==> e == next
    {
      assert ext[vs..e][..e - vs - 1] == ext[vs..e - 1];
      e := e - 1;
    }
    if e < vs {
      e := vs;
    }
  }

  // ----- Which bytes are marks and which are cuts

  /** The backslashes right before `i`. */
  function Slashes(text: Text, i: nat): nat
    requires i <= |text|
  {
    if i > 0 && text[i - 1] == BACKSLASH then 1 + Slashes(text, i - 1) else 0
  }

  /** No backslash escapes what stands at `i`: those before it pair off. */
  predicate Bare(text: Text, i: nat)
    requires i <= |text|
  {
    Slashes(text, i) % 2 == 0
  }

  /** A bare `=` with a key before it, from the start or a blank on. */
  predicate IsMark(ext: Text, k: nat, i: nat) {
    && k < i < |ext| && ext[i] == EQUALS && Bare(ext, i)
    && (forall j :: k <= j < i ==> IsKeyByte(ext[j])) && (k == 0 || IsBlank(ext[k - 1]))
  }

  /** The marks are exactly those. */
  lemma {:induction false} MarksExactly(ext: Text, k: nat, i: nat)
    ensures (k, i) in Marks(ext, 0) <==> IsMark(ext, k, i)
  {
    MarksFrom(ext, 0, k, i);
  }

  lemma {:induction false} MarksFrom(ext: Text, from: nat, k: nat, i: nat)
    requires from <= |ext| && Bare(ext, from)
    ensures (k, i) in Marks(ext, from) <==> i >= from && IsMark(ext, k, i)
    decreases |ext| - from
  {
    hide Marks, MarkAt, IsMark;
    if from == |ext| {
      NoMarks(ext, from);
      NoMarkBeyond(ext, k, i);
    } else {
      MarksNext(ext, from);
      if ext[from] == BACKSLASH {
        Skipped(ext, from, k);
        if from + 1 < |ext| {
          MarksFrom(ext, from + 2, k, i);
        } else {
          NoMarks(ext, from + 2);
          NoMarkBeyond(ext, k, i);
        }
      } else {
        MarkIs(ext, from, k, i);
        MarksFrom(ext, from + 1, k, i);
      }
    }
  }

  lemma NoMarkBeyond(ext: Text, k: nat, i: nat)
    ensures i >= |ext| ==> !IsMark(ext, k, i)
  {
  }

  /** A backslash and what it escapes make no mark. */
  lemma Skipped(ext: Text, i: nat, k: nat)
    requires i < |ext| && ext[i] == BACKSLASH && Bare(ext, i)
    ensures !IsMark(ext, k, i) && !IsMark(ext, k, i + 1) && (i + 1 < |ext| ==> Bare(ext, i + 2))
  {
  }

  lemma MarkIs(ext: Text, at: nat, k: nat, i: nat)
    requires at < |ext| && Bare(ext, at) && ext[at] != BACKSLASH
    ensures (k, i) in MarkAt(ext, at) <==> i == at && IsMark(ext, k, i)
    ensures Bare(ext, at + 1)
  {
  }

  predicate IsCut(text: Text, i: nat) {
    i < |text| && text[i] == PIPE && Bare(text, i)
  }

  /** The pieces lie end to end with one bare pipe between two of them and none inside any
      but the last, which has some only if there were too many. */
  ghost predicate CutAtPipes(text: Text, start: nat, left: nat, p: seq<Range>) {
    && 0 < |p| <= left && p[0].0 == start && p[|p| - 1].1 == |text|
    && (forall k :: 0 <= k < |p| - 1 ==> IsCut(text, p[k].1) && p[k + 1].0 == p[k].1 + 1)
    && (forall k, j: nat :: 0 <= k < |p| && (k < |p| - 1 || |p| < left) && p[k].0 <= j < p[k].1 ==> !IsCut(text, j))
  }

  lemma {:induction false} PiecesExactly(text: Text, max: nat)
    requires max > 0
    ensures CutAtPipes(text, 0, max, Pieces(text, 0, 0, max))
  {
    PiecesFrom(text, 0, 0, max);
  }

  lemma {:induction false} PiecesFrom(text: Text, i: nat, start: nat, left: nat)
    requires start <= i <= |text| && left > 0 && Bare(text, i)
    requires forall j: nat :: start <= j < i ==> !IsCut(text, j)
    ensures CutAtPipes(text, start, left, Pieces(text, i, start, left))
    decreases |text| - i
  {
    hide Bare;
    if i < |text| && left > 1 {
      if text[i] == BACKSLASH {
        SkippedCut(text, i);
        if i + 1 < |text| {
          PiecesFrom(text, i + 2, start, left);
        }
      } else {
        NextBare(text, i);
        if text[i] == PIPE {
          PiecesFrom(text, i + 1, i + 1, left - 1);
          CutMore(text, start, i, left, Pieces(text, i + 1, i + 1, left - 1));
        } else {
          PiecesFrom(text, i + 1, start, left);
        }
      }
    }
  }

  lemma SkippedCut(text: Text, i: nat)
    requires i < |text| && text[i] == BACKSLASH && Bare(text, i)
    ensures !IsCut(text, i) && !IsCut(text, i + 1) && (i + 1 < |text| ==> Bare(text, i + 2))
  {
  }

  lemma NextBare(text: Text, i: nat)
    requires i < |text| && text[i] != BACKSLASH
    ensures Bare(text, i + 1)
  {
  }

  lemma CutMore(text: Text, start: nat, i: nat, left: nat, p: seq<Range>)
    requires left > 1 && start <= i && IsCut(text, i) && CutAtPipes(text, i + 1, left - 1, p)
    requires forall j: nat :: start <= j < i ==> !IsCut(text, j)
    ensures CutAtPipes(text, start, left, [(start, i)] + p)
  {
    hide IsCut;
    var q: seq<Range> := [(start, i)] + p;
    assert q[|q| - 1] == p[|p| - 1];
    forall k | 0 <= k < |q| - 1 ensures IsCut(text, q[k].1) && q[k + 1].0 == q[k].1 + 1 {
      if k > 0 {
        assert q[k] == p[k - 1] && q[k + 1] == p[k];
      }
    }
    forall k, j: nat | 0 <= k < |q| && (k < |q| - 1 || |q| < left) && q[k].0 <= j < q[k].1 ensures !IsCut(text, j) {
      if k > 0 {
        assert q[k] == p[k - 1];
      }
    }
  }

  // ----- The record

  predicate TagAt(text: Text, i: nat) {
    i + 4 <= |text| && text[i..i + 4] == TAG
  }

  /** `memmem::find`: the least offset from `i` on at which the tag stands, if it does. */
  function FindTag(text: Text, i: nat): (r: Option<nat>)
    requires i <= |text|
    ensures r.Some? ==> TagAt(text, r.value) && i <= r.value && forall j: nat :: i <= j < r.value ==> !TagAt(text, j)
    ensures r.None? ==> forall j: nat :: i <= j ==> !TagAt(text, j)
    decreases |text| - i
  {
    if TagAt(text, i) then Some(i) else if i == |text| then None else FindTag(text, i + 1)
  }

  /** The header values under their names. */
  function Headers(body: Text, parts: seq<Range>, k: nat): seq<Field>
    requires k <= 7 && |parts| >= 7 && forall j :: 0 <= j < |parts| ==> parts[j].0 <= parts[j].1 <= |body|
  {
    if k == 0 then []
    else Headers(body, parts, k - 1) + [Field(CEF_HEADER[k - 1], Unescape(body[parts[k - 1].0..parts[k - 1].1]))]
  }

  function Parsed(text: Text): Result {
    match FindTag(text, 0)
    case None => InvalidCef
    case Some(start) =>
      var body := text[start + 4..];
      var parts := Pieces(body, 0, 0, 8);
      PiecesInside(body, 0, 0, 8);
      if |parts| < 8 then InvalidCef
      else
        var ext := body[parts[7].0..parts[7].1];
        Ok(Headers(body, parts, 7) + Between(ext, Marks(ext, 0), 0))
  }

  method ApplyCef(text: Text) returns (r: Result)
    ensures r == Parsed(text)
  {
    hide Marks, Between, Unescape, Pieces, FindTag;
    var found := FindTag(text, 0);
    if found.None? {
      return InvalidCef;
    }
    var body := text[found.value + 4..];
    var parts := SplitPipes(body, 8);
    if |parts| < 8 {
      return InvalidCef;
    }
    var out: seq<Field> := [];
    var k := 0;
    while k < 7
      invariant 0 <= k <= 7 && out == Headers(body, parts, k)
    {
      var value := UnescapeIfNeeded(body[parts[k].0..parts[k].1]);
      out := out + [Field(CEF_HEADER[k], value)];
      k := k + 1;
    }
    var pairs := ExtensionPairs(body[parts[7].0..parts[7].1]);
    return Ok(out + pairs);
  }

  // ----- Printing, and reading it back

  predicate LegalKey(k: Text) {
    k != [] && forall i :: 0 <= i < |k| ==> IsKeyByte(k[i])
  }

  function PrintedPair(f: Field): Text {
    f.name + [EQUALS] + Escape(f.value)
  }

  function PrintedExt(fields: seq<Field>): Text {
    if fields == [] then []
    else if |fields| == 1 then PrintedPair(fields[0])
    else PrintedPair(fields[0]) + [SPACE] + PrintedExt(fields[1..])
  }

  function PrintedHeader(hs: seq<Text>): Text {
    if hs == [] then [] else Escape(hs[0]) + [PIPE] + PrintedHeader(hs[1..])
  }

  function Printed(hs: seq<Text>, fields: seq<Field>): Text {
    TAG + (PrintedHeader(hs) + PrintedExt(fields))
  }

  /** Where a text stands in another. */
  predicate Stands(text: Text, i: nat, part: Text) {
    i + |part| <= |text| && text[i..i + |part|] == part
  }

  lemma StandsSplit(text: Text, i: nat, a: Text, b: Text)
    requires Stands(text, i, a + b)
    ensures Stands(text, i, a) && Stands(text, i + |a|, b)
  {
    var s := text[i..i + |a + b|];
    assert s[..|a|] == a && s[|a|..] == b;
    assert text[i..i + |a|] == s[..|a|] && text[i + |a|..i + |a| + |b|] == s[|a|..];
  }

  lemma StandsFirst(text: Text, i: nat, part: Text)
    requires Stands(text, i, part) && part != []
    ensures text[i] == part[0] && (|part| > 1 ==> text[i + 1] == part[1])
  {
    assert text[i] == text[i..i + |part|][0];
    if |part| > 1 {
      assert text[i + 1] == text[i..i + |part|][1];
    }
  }

  lemma {:induction false} EscapeFirst(v: Text)
    requires v != []
    ensures Escape(v) == EscapedByte(v[0]) + Escape(v[1..])
    ensures |Escape(v)| == |EscapedByte(v[0])| + |Escape(v[1..])|
  {
  }

  /** An escaped byte is a backslash and one more, or a byte that needs no escape. */
  lemma EscapedStands(text: Text, i: nat, b: Byte)
    requires Stands(text, i, EscapedByte(b))
    ensures i < |text|
    ensures if text[i] == BACKSLASH then |EscapedByte(b)| == 2
      else |EscapedByte(b)| == 1 && text[i] != EQUALS && text[i] != PIPE
  {
    StandsFirst(text, i, EscapedByte(b));
  }

  lemma MarksOne(ext: Text, i: nat, b: Byte)
    requires Stands(ext, i, EscapedByte(b))
    ensures Marks(ext, i) == Marks(ext, i + |EscapedByte(b)|)
  {
    hide Marks, EscapedByte, Stands, KeyStart;
    EscapedStands(ext, i, b);
    MarksNext(ext, i);
  }

  lemma PiecesOne(text: Text, i: nat, start: nat, left: nat, b: Byte)
    requires Stands(text, i, EscapedByte(b)) && left > 1
    ensures Pieces(text, i, start, left) == Pieces(text, i + |EscapedByte(b)|, start, left)
  {
    hide EscapedByte, Stands;
    EscapedStands(text, i, b);
  }

  /** No `=` of an escaped text is seen. */
  lemma {:induction false} MarksSkip(ext: Text, i: nat, v: Text)
    requires Stands(ext, i, Escape(v))
    ensures Marks(ext, i) == Marks(ext, i + |Escape(v)|)
    decreases |v|
  {
    hide Marks, Escape, Stands, EscapedByte;
    if v == [] {
      NothingEscaped();
    } else {
      EscapeFirst(v);
      StandsSplit(ext, i, EscapedByte(v[0]), Escape(v[1..]));
      MarksOne(ext, i, v[0]);
      MarksSkip(ext, i + |EscapedByte(v[0])|, v[1..]);
    }
  }

  lemma NothingEscaped()
    ensures Escape([]) == []
  {
  }

  lemma StandsInside(text: Text, i: nat, part: Text)
    requires Stands(text, i, part)
    ensures i + |part| <= |text|
  {
  }

  /** Nor any pipe. */
  lemma {:induction false} PiecesSkip(text: Text, i: nat, start: nat, left: nat, v: Text)
    requires Stands(text, i, Escape(v)) && left > 1
    ensures Pieces(text, i, start, left) == Pieces(text, i + |Escape(v)|, start, left)
    decreases |v|
  {
    hide Escape, Stands, EscapedByte, Pieces;
    if v == [] {
      NothingEscaped();
    } else {
      EscapeFirst(v);
      StandsSplit(text, i, EscapedByte(v[0]), Escape(v[1..]));
      PiecesOne(text, i, start, left, v[0]);
      PiecesSkip(text, i + |EscapedByte(v[0])|, start, left, v[1..]);
    }
  }

  // ----- The extension

  function MarksOf(fields: seq<Field>, base: nat): (s: seq<Range>)
    ensures |s| == |fields|
  {
    if fields == [] then []
    else [(base, base + |fields[0].name|)] + MarksOf(fields[1..], base + |PrintedPair(fields[0])| + 1)
  }

  lemma FirstMark(fields: seq<Field>, base: nat)
    ensures fields == [] ==> MarksOf(fields, base) == []
    ensures fields != [] ==>
      var f := fields[0];
      MarksOf(fields, base) == [(base, base + |f.name|)] + MarksOf(fields[1..], base + |PrintedPair(f)| + 1)
  {
  }

  lemma {:induction false} KeyStands(ext: Text, base: nat, k: Text)
    requires LegalKey(k) && Stands(ext, base, k) && (base > 0 ==> ext[base - 1] == SPACE)
    ensures base + |k| <= |ext| && KeyStart(ext, base + |k|) == base
  {
    forall j | base <= j < base + |k|
      ensures IsKeyByte(ext[j])
    {
      assert ext[j] == ext[base..base + |k|][j - base];
    }
    KeyStartIs(ext, base, base + |k|);
  }

  lemma {:induction false} KeyStartIs(ext: Text, base: nat, i: nat)
    requires base <= i <= |ext| && (forall j :: base <= j < i ==> IsKeyByte(ext[j])) && (base > 0 ==> !IsKeyByte(ext[base - 1]))
    ensures KeyStart(ext, i) == base
  {
    if base < i {
      KeyStartIs(ext, base, i - 1);
    }
  }

  lemma {:induction false} KeysArePlain(k: Text)
    requires LegalKey(k)
    ensures Escape(k) == k
  {
    PlainEscapes(k);
  }

  lemma {:induction false} KeyMarks(ext: Text, base: nat, k: Text)
    requires LegalKey(k) && Stands(ext, base, k) && (base > 0 ==> base <= |ext| && ext[base - 1] == SPACE)
    requires base + |k| < |ext| && ext[base + |k|] == EQUALS
    ensures Marks(ext, base + |k|) == [(base, base + |k|)] + Marks(ext, base + |k| + 1)
  {
    hide Marks, Stands, KeyStart, LegalKey, MarkAt, IsKeyByte;
    KeyStands(ext, base, k);
    NotEmpty(k);
    MarkBehind(ext, base, base + |k|);
    MarksNext(ext, base + |k|);
  }

  lemma {:induction false} MarkBehind(ext: Text, base: nat, i: nat)
    requires base < i < |ext| && ext[i] == EQUALS && KeyStart(ext, i) == base && (base > 0 ==> ext[base - 1] == SPACE)
    ensures MarkAt(ext, i) == [(base, i)]
  {
    hide KeyStart, IsKeyByte;
  }

  /** One printed pair makes one mark, at its key. */
  lemma {:induction false} PairMarks(ext: Text, base: nat, f: Field)
    requires LegalKey(f.name) && Stands(ext, base, PrintedPair(f)) && (base > 0 ==> base <= |ext| && ext[base - 1] == SPACE)
    ensures Marks(ext, base) == [(base, base + |f.name|)] + Marks(ext, base + |PrintedPair(f)|)
    ensures Stands(ext, base, f.name) && Stands(ext, base + |f.name| + 1, Escape(f.value))
  {
    hide Marks, Escape, Stands, LegalKey, PrintedPair;
    PairIs(f);
    StandsSplit(ext, base, f.name, [EQUALS] + Escape(f.value));
    StandsSplit(ext, base + |f.name|, [EQUALS], Escape(f.value));
    StandsFirst(ext, base + |f.name|, [EQUALS]);
    StandsInside(ext, base + |f.name|, [EQUALS]);
    KeysArePlain(f.name);
    MarksSkip(ext, base, f.name);
    KeyMarks(ext, base, f.name);
    MarksSkip(ext, base + |f.name| + 1, f.value);
  }

  lemma PairIs(f: Field)
    ensures PrintedPair(f) == f.name + ([EQUALS] + Escape(f.value))
    ensures |PrintedPair(f)| == |f.name| + 1 + |Escape(f.value)|
  {
    hide Escape;
  }

  lemma NotEmpty(k: Text)
    requires LegalKey(k)
    ensures |k| > 0
  {
  }

  ghost predicate LegalFields(fields: seq<Field>) {
    forall k :: 0 <= k < |fields| ==> LegalKey(fields[k].name)
  }

  lemma LegalSplits(fields: seq<Field>)
    requires LegalFields(fields) && fields != []
    ensures LegalKey(fields[0].name) && LegalFields(fields[1..])
  {
  }

  /** What comes back: each value but the last without the blanks at its end. */
  function Back(fields: seq<Field>): seq<Field> {
    if fields == [] then []
    else [if |fields| == 1 then fields[0] else fields[0].(value := Trimmed(fields[0].value))] + Back(fields[1..])
  }

  lemma {:induction false} TrimEscape(v: Text)
    ensures Trimmed(Escape(v)) == Escape(Trimmed(v))
  {
    hide EscapedByte, Escape;
    if v == [] {
      NothingEscaped();
    } else {
      var front, b := v[..|v| - 1], v[|v| - 1];
      assert v == front + [b];
      EscapeConcat(front, [b]);
      EscapeByte(b);
      EscapedEnds(b);
      if IsBlank(b) {
        TrimEscape(front);
        assert (Escape(front) + [b])[..|Escape(front)|] == Escape(front);
      }
    }
  }

  lemma {:induction false} EscapeByte(b: Byte)
    ensures Escape([b]) == EscapedByte(b)
  {
    hide EscapedByte;
    assert [b][1..] == [];
    assert EscapedByte(b) + [] == EscapedByte(b);
  }

  lemma EscapedEnds(b: Byte)
    ensures IsBlank(b) ==> EscapedByte(b) == [b]
    ensures !IsBlank(b) ==> EscapedByte(b) != [] && !IsBlank(EscapedByte(b)[|EscapedByte(b)| - 1])
  {
  }

  /** The raw value before the next key reads as the trimmed value. */
  lemma {:induction false} ReadsTrimmed(v: Text)
    ensures Unescape(Trimmed(Escape(v) + [SPACE])) == Trimmed(v)
  {
    hide Unescape, Escape;
    assert (Escape(v) + [SPACE])[..|Escape(v)|] == Escape(v);
    TrimEscape(v);
    EscapeRoundTrip(Trimmed(v));
  }

  /** The marks of a printed extension, from a pair on. */
  lemma {:induction false} ExtMarks(ext: Text, base: nat, fields: seq<Field>)
    requires base <= |ext| && ext[base..] == PrintedExt(fields) && LegalFields(fields)
    requires base > 0 ==> ext[base - 1] == SPACE
    ensures Marks(ext, base) == MarksOf(fields, base)
    decreases |fields|
  {
    hide Marks, MarksOf, PrintedPair, LegalFields, LegalKey, PrintedExt, Stands, KeyStart, Escape;
    if fields == [] {
      NoExt();
      NoMarks(ext, base);
      FirstMark(fields, base);
    } else {
      LegalSplits(fields);
      FirstMark(fields, base);
      var next := base + |PrintedPair(fields[0])| + 1;
      ExtSplits(ext, base, fields);
      PairMarks(ext, base, fields[0]);
      if |fields| == 1 {
        NoMarks(ext, base + |PrintedPair(fields[0])|);
        FirstMark(fields[1..], next);
      } else {
        SpaceMarksNothing(ext, next - 1);
        ExtMarks(ext, next, fields[1..]);
      }
    }
  }

  lemma SpaceMarksNothing(ext: Text, i: nat)
    requires i < |ext| && ext[i] == SPACE
    ensures Marks(ext, i) == Marks(ext, i + 1)
  {
  }

  lemma NoExt()
    ensures PrintedExt([]) == []
  {
  }

  lemma {:induction false} ExtSplits(ext: Text, base: nat, fields: seq<Field>)
    requires base <= |ext| && ext[base..] == PrintedExt(fields) && fields != []
    ensures Stands(ext, base, PrintedPair(fields[0]))
    ensures |fields| == 1 ==> base + |PrintedPair(fields[0])| == |ext|
    ensures |fields| > 1 ==>
      var next := base + |PrintedPair(fields[0])| + 1;
      next <= |ext| && ext[next - 1] == SPACE && ext[next..] == PrintedExt(fields[1..])
  {
    hide PrintedPair;
    var p := PrintedPair(fields[0]);
    var s := ext[base..];
    assert s[..|p|] == p;
    assert ext[base..base + |p|] == s[..|p|];
    if |fields| > 1 {
      assert s == p + [SPACE] + PrintedExt(fields[1..]);
      assert s[|p|] == SPACE && s[|p| + 1..] == PrintedExt(fields[1..]);
      assert ext[base + |p| + 1..] == s[|p| + 1..];
    }
  }

  /** The fields between those marks. */
  lemma {:induction false} ExtFields(ext: Text, base: nat, fields: seq<Field>, marks: seq<Range>, x: nat)
    requires base <= |ext| && ext[base..] == PrintedExt(fields) && LegalFields(fields)
    requires base > 0 ==> ext[base - 1] == SPACE
    requires forall k :: 0 <= k < |marks| ==> marks[k].0 < marks[k].1 < |ext|
    requires x <= |marks| && marks[x..] == MarksOf(fields, base)
    ensures Between(ext, marks, x) == Back(fields)
    decreases |fields|
  {
    hide PrintedPair, LegalKey, RawValue, Trimmed, Unescape, PrintedExt, Stands, KeyStart, Marks, Escape;
    if fields != [] {
      var f := fields[0];
      ExtSplits(ext, base, fields);
      PairMarks(ext, base, f);
      OneField(ext, base, fields, marks, x);
      if |fields| > 1 {
        assert marks[x + 1..] == marks[x..][1..];
        ExtFields(ext, base + |PrintedPair(f)| + 1, fields[1..], marks, x + 1);
      } else {
        assert fields[1..] == [];
      }
    }
  }

  lemma {:induction false} OneField(ext: Text, base: nat, fields: seq<Field>, marks: seq<Range>, x: nat)
    requires base <= |ext| && ext[base..] == PrintedExt(fields) && fields != []
    requires Stands(ext, base, fields[0].name) && Stands(ext, base + |fields[0].name| + 1, Escape(fields[0].value))
    requires forall k :: 0 <= k < |marks| ==> marks[k].0 < marks[k].1 < |ext|
    requires x <= |marks| && marks[x..] == MarksOf(fields, base)
    ensures x < |marks| && ext[marks[x].0..marks[x].1] == fields[0].name
    ensures Unescape(RawValue(ext, marks, x)) == if |fields| == 1 then fields[0].value else Trimmed(fields[0].value)
  {
    hide Trimmed, Unescape, Escape, PrintedExt, PrintedPair, MarksOf;
    var f := fields[0];
    ExtSplits(ext, base, fields);
    FirstMark(fields, base);
    assert marks[x] == marks[x..][0] == (base, base + |f.name|);
    var vs := base + |f.name| + 1;
    PairIs(f);
    if |fields| == 1 {
      assert ext[vs..] == Escape(f.value);
      EscapeRoundTrip(f.value);
    } else {
      var next := vs + |Escape(f.value)| + 1;
      FirstMark(fields[1..], next);
      assert marks[x + 1] == marks[x..][1] == MarksOf(fields[1..], next)[0];
      assert ext[vs..next] == Escape(f.value) + [SPACE];
      ReadsTrimmed(f.value);
    }
  }

  // ----- The header

  function Ranges(hs: seq<Text>, i: nat): (s: seq<Range>)
    ensures |s| == |hs|
  {
    if hs == [] then [] else [(i, i + |Escape(hs[0])|)] + Ranges(hs[1..], i + |Escape(hs[0])| + 1)
  }

  lemma {:induction false} HeaderPieces(body: Text, i: nat, hs: seq<Text>)
    requires Stands(body, i, PrintedHeader(hs))
    ensures Pieces(body, i, i, |hs| + 1) == Ranges(hs, i) + [(i + |PrintedHeader(hs)|, |body|)]
    decreases |hs|
  {
    hide Escape, Pieces, Stands, PrintedHeader, Ranges;
    if hs == [] {
      NoHeader();
      StandsInside(body, i, PrintedHeader(hs));
      LastPiece(body, i);
    } else {
      var e := Escape(hs[0]);
      HeaderSplits(body, i, hs);
      PiecesSkip(body, i, i, |hs| + 1, hs[0]);
      PipeCuts(body, i + |e|, i, |hs| + 1);
      HeaderPieces(body, i + |e| + 1, hs[1..]);
      RangesFirst(hs, i);
      var first: seq<Range> := [(i, i + |e|)];
      Append(first, Ranges(hs[1..], i + |e| + 1), [(i + |PrintedHeader(hs)|, |body|)]);
    }
  }

  /** The ranges hold the escaped header values. */
  lemma {:induction false} RangesRead(body: Text, i: nat, hs: seq<Text>, k: nat)
    requires Stands(body, i, PrintedHeader(hs)) && k < |hs|
    ensures var r := Ranges(hs, i)[k];
      r.0 <= r.1 <= |body| && body[r.0..r.1] == Escape(hs[k])
    decreases |hs|
  {
    hide Escape, Stands, PrintedHeader;
    HeaderSplits(body, i, hs);
    if k > 0 {
      RangesRead(body, i + |Escape(hs[0])| + 1, hs[1..], k - 1);
    }
  }

  lemma {:induction false} RangesFirst(hs: seq<Text>, i: nat)
    requires hs != []
    ensures Ranges(hs, i) == [(i, i + |Escape(hs[0])|)] + Ranges(hs[1..], i + |Escape(hs[0])| + 1)
  {
    hide Escape;
  }

  lemma NoHeader()
    ensures PrintedHeader([]) == [] && forall i: nat :: Ranges([], i) == []
  {
  }

  lemma {:induction false} LastPiece(body: Text, i: nat)
    requires i <= |body|
    ensures Pieces(body, i, i, 1) == [(i, |body|)]
  {
  }

  lemma PipeCuts(body: Text, i: nat, start: nat, left: nat)
    requires i < |body| && body[i] == PIPE && left > 1
    ensures Pieces(body, i, start, left) == [(start, i)] + Pieces(body, i + 1, i + 1, left - 1)
  {
  }

  lemma {:induction false} HeaderSplits(body: Text, i: nat, hs: seq<Text>)
    requires hs != [] && Stands(body, i, PrintedHeader(hs))
    ensures var e := Escape(hs[0]);
      && Stands(body, i, e) && i + |e| < |body| && body[i..i + |e|] == e && body[i + |e|] == PIPE
      && Stands(body, i + |e| + 1, PrintedHeader(hs[1..])) && |PrintedHeader(hs)| == |e| + 1 + |PrintedHeader(hs[1..])|
  {
    hide Escape, PrintedHeader, Stands;
    var e := Escape(hs[0]);
    HeaderFirst(hs);
    StandsSplit(body, i, e, [PIPE] + PrintedHeader(hs[1..]));
    StandsSplit(body, i + |e|, [PIPE], PrintedHeader(hs[1..]));
    StandsFirst(body, i + |e|, [PIPE]);
    StandsInside(body, i + |e|, [PIPE]);
    StandsIs(body, i, e);
  }

  lemma StandsIs(text: Text, i: nat, part: Text)
    requires Stands(text, i, part) && i + |part| <= |text|
    ensures text[i..i + |part|] == part
  {
  }

  lemma {:induction false} HeaderFirst(hs: seq<Text>)
    requires hs != []
    ensures PrintedHeader(hs) == Escape(hs[0]) + ([PIPE] + PrintedHeader(hs[1..]))
  {
    hide Escape;
  }

  function HeaderFields(hs: seq<Text>, k: nat): seq<Field>
    requires k <= 7 <= |hs|
  {
    if k == 0 then [] else HeaderFields(hs, k - 1) + [Field(CEF_HEADER[k - 1], hs[k - 1])]
  }

  lemma {:induction false} HeadersRead(body: Text, parts: seq<Range>, hs: seq<Text>, k: nat)
    requires k <= 7 && |hs| == 7 && |parts| >= 7 && forall j :: 0 <= j < |parts| ==> parts[j].0 <= parts[j].1 <= |body|
    requires forall j :: 0 <= j < 7 ==> body[parts[j].0..parts[j].1] == Escape(hs[j])
    ensures Headers(body, parts, k) == HeaderFields(hs, k)
  {
    if k > 0 {
      HeadersRead(body, parts, hs, k - 1);
      EscapeRoundTrip(hs[k - 1]);
    }
  }

  /** What stands before the record, a syslog header say, starts no tag of its own. */
  ghost predicate NoTag(prefix: Text) {
    forall j: nat :: j < |prefix| ==> !TagAt(prefix + TAG, j)
  }

  lemma {:induction false} TagBehind(prefix: Text, rest: Text)
    requires NoTag(prefix)
    ensures FindTag(prefix + (TAG + rest), 0) == Some(|prefix|)
  {
    hide FindTag, TagAt;
    var text := prefix + (TAG + rest);
    forall j: nat | j <= |prefix| ensures TagAt(text, j) <==> j == |prefix| {
      TagInFront(prefix, TAG, rest, j);
    }
    assert TagAt(text, |prefix|);
  }

  lemma TagInFront(prefix: Text, tag: Text, rest: Text, j: nat)
    requires tag == TAG && j <= |prefix|
    ensures TagAt(prefix + (tag + rest), j) <==> TagAt(prefix + tag, j)
    ensures TagAt(prefix + tag, |prefix|)
  {
    assert (prefix + (tag + rest))[j..j + 4] == (prefix + tag)[j..j + 4];
    assert (prefix + tag)[|prefix|..|prefix| + 4] == tag;
  }

  /** A record is refused exactly if it has no tag or fewer than eight pieces behind it. */
  lemma {:induction false} RefusedExactly(text: Text)
    ensures Parsed(text) == InvalidCef <==>
      || (forall j: nat :: !TagAt(text, j))
      || |Pieces(text[FindTag(text, 0).value + 4..], 0, 0, 8)| < 8
  {
    hide FindTag, Pieces, Marks, Between, Headers, TagAt;
  }

  /** Printing any seven header values and any fields with legal keys behind any prefix
      without a tag, and parsing the record: everything comes back in order, but for the
      blanks at the end of every value that another field follows. */
  lemma {:induction false} PrintedParses(prefix: Text, hs: seq<Text>, fields: seq<Field>)
    requires NoTag(prefix) && |hs| == 7 && LegalFields(fields)
    ensures Parsed(prefix + Printed(hs, fields)) == Ok(HeaderFields(hs, 7) + Back(fields))
  {
    hide Marks, Pieces, Between, Headers, HeaderFields, Escape, LegalKey, PrintedHeader, PrintedExt, FindTag;
    var text := prefix + Printed(hs, fields);
    var header, ext := PrintedHeader(hs), PrintedExt(fields);
    var body := header + ext;
    TagBehind(prefix, body);
    assert text[|prefix| + 4..] == body && body[0..0 + |header|] == header;
    HeaderPieces(body, 0, hs);
    var parts := Pieces(body, 0, 0, 8);
    PiecesInside(body, 0, 0, 8);
    forall j | 0 <= j < 7
      ensures parts[j] == Ranges(hs, 0)[j] && body[parts[j].0..parts[j].1] == Escape(hs[j])
    {
      RangesRead(body, 0, hs, j);
    }
    HeadersRead(body, parts, hs, 7);
    assert body[parts[7].0..parts[7].1] == ext && ext[0..] == ext;
    ExtMarks(ext, 0, fields);
    assert Marks(ext, 0)[0..] == MarksOf(fields, 0);
    ExtFields(ext, 0, fields, Marks(ext, 0), 0);
  }

  predicate EndsBlank(v: Text) {
    v != [] && IsBlank(v[|v| - 1])
  }

  lemma {:induction false} BackIsSame(fields: seq<Field>)
    ensures Back(fields) == fields <==> forall k :: 0 <= k < |fields| - 1 ==> !EndsBlank(fields[k].value)
  {
    if fields != [] {
      BackIsSame(fields[1..]);
      assert fields == [fields[0]] + fields[1..];
      TrimShortens(fields[0].value);
      assert Back(fields) == fields <==> Back(fields)[0] == fields[0] && Back(fields[1..]) == fields[1..] by {
        assert Back(fields)[1..] == Back(fields[1..]);
      }
    }
  }

  lemma {:induction false} TrimShortens(v: Text)
    ensures Trimmed(v) == v <==> !EndsBlank(v)
  {
  }

  /** Exactly the fields come back exactly if no value that another field follows ends in a
      blank. */
  lemma {:induction false} RoundTrip(prefix: Text, hs: seq<Text>, fields: seq<Field>)
    requires NoTag(prefix) && |hs| == 7 && LegalFields(fields)
    ensures Parsed(prefix + Printed(hs, fields)) == Ok(HeaderFields(hs, 7) + fields) <==>
      forall k :: 0 <= k < |fields| - 1 ==> !EndsBlank(fields[k].value)
  {
    hide Parsed, HeaderFields, Back, LegalKey, Printed;
    PrintedParses(prefix, hs, fields);
    BackIsSame(fields);
    var h := HeaderFields(hs, 7);
    assert (h + Back(fields))[|h|..] == Back(fields) && (h + fields)[|h|..] == fields;
  }
}
