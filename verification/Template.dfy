/** Templates and the `{name:type}` pattern language: escaped braces, typed slots, and
    optional groups. Printing and parsing undo each other on exactly the templates parsing
    can produce. */
module Template {
  datatype SlotKind = Int | Float | Word | Text | Rest | Ip | Ipv4 | Ipv6 | Port | Hex | Mac | Timestamp | Quoted

  const ALL: seq<SlotKind> :=
    [Int, Float, Word, Text, Rest, Ip, Ipv4, Ipv6, Port, Hex, Mac, Timestamp, Quoted]

  function Name(k: SlotKind): string {
    match k
    case Int => "int"
    case Float => "float"
    case Word => "word"
    case Text => "text"
    case Rest => "rest"
    case Ip => "ip"
    case Ipv4 => "ipv4"
    case Ipv6 => "ipv6"
    case Port => "port"
    case Hex => "hex"
    case Mac => "mac"
    case Timestamp => "timestamp"
    case Quoted => "quoted"
  }

  datatype Found = NotFound | Kind(kind: SlotKind)

  function FindFrom(s: string, i: nat): Found
    decreases |ALL| - i
  {
    if i >= |ALL| then NotFound else if Name(ALL[i]) == s then Kind(ALL[i]) else FindFrom(s, i + 1)
  }

  function FromName(s: string): Found {
    FindFrom(s, 0)
  }

  lemma NamesDiffer(a: SlotKind, b: SlotKind)
    requires Name(a) == Name(b)
    ensures a == b
  {
    assert |Name(a)| == |Name(b)| && Name(a)[0] == Name(b)[0];
    assert Name(a)[|Name(a)| - 1] == Name(b)[|Name(b)| - 1];
  }

  function Index(k: SlotKind): (i: nat)
    ensures i < |ALL| && ALL[i] == k
  {
    match k
    case Int => 0
    case Float => 1
    case Word => 2
    case Text => 3
    case Rest => 4
    case Ip => 5
    case Ipv4 => 6
    case Ipv6 => 7
    case Port => 8
    case Hex => 9
    case Mac => 10
    case Timestamp => 11
    case Quoted => 12
  }

  /** A name finds the type it is the name of, and nothing else. */
  lemma {:induction false} FindFromFinds(s: string, i: nat)
    requires i <= |ALL|
    ensures FindFrom(s, i).Kind? ==> Name(FindFrom(s, i).kind) == s
    ensures forall k :: Name(k) == s && Index(k) >= i ==> FindFrom(s, i) == Kind(k)
    decreases |ALL| - i
  {
    hide Name;
    if i < |ALL| {
      FindFromFinds(s, i + 1);
      forall k | Name(k) == s && Index(k) >= i
        ensures FindFrom(s, i) == Kind(k)
      {
        if Name(ALL[i]) == s {
          NamesDiffer(k, ALL[i]);
        } else {
          assert Index(k) != i;
        }
      }
    }
  }

  lemma FromNameInverts(k: SlotKind)
    ensures FromName(Name(k)) == Kind(k)
  {
    hide Name, FindFrom;
    FindFromFinds(Name(k), 0);
  }

  datatype Token =
    | Const(text: string)
    | Slot(name: string, kind: SlotKind)
    | Optional(inner: seq<Token>)

  // ----- Printing

  function Escaped(text: string): string {
    if text == "" then ""
    else (if text[0] == '{' then "{{" else if text[0] == '}' then "}}" else [text[0]]) + Escaped(text[1..])
  }

  function SlotText(name: string, kind: SlotKind): string {
    "{" + name + ":" + Name(kind) + "}"
  }

  function Printed(tokens: seq<Token>): string {
    if tokens == [] then ""
    else PrintedToken(tokens[0]) + Printed(tokens[1..])
  }

  function PrintedToken(t: Token): string {
    match t
    case Const(text) => Escaped(text)
    case Slot(name, kind) => SlotText(name, kind)
    case Optional(inner) => "{?" + Printed(inner) + "}"
  }

  lemma PrintedNext(tokens: seq<Token>, i: nat)
    requires i < |tokens|
    ensures Printed(tokens[i..]) == PrintedToken(tokens[i]) + Printed(tokens[i + 1..])
  {
    hide Escaped, SlotText;
    assert tokens[i..][1..] == tokens[i + 1..];
  }

  /** The printer appends to a text it is handed. */
  method WriteTokens(tokens: seq<Token>, out: string) returns (r: string)
    ensures r == out + Printed(tokens)
    decreases tokens
  {
    hide Printed, Escaped;
    NothingPrinted();
    r := out;
    var i := 0;
    assert tokens[0..] == tokens;
    while i < |tokens|
      invariant 0 <= i <= |tokens|
      invariant r + Printed(tokens[i..]) == out + Printed(tokens)
    {
      PrintedNext(tokens, i);
      ghost var was, rest := r, Printed(tokens[i + 1..]);
      match tokens[i] {
        case Const(text) =>
          r := WriteConst(text, r);
        case Slot(name, kind) =>
          r := r + SlotText(name, kind);
        case Optional(inner) =>
          r := WriteTokens(inner, r + "{?");
          r := r + "}";
      }
      assert r == was + PrintedToken(tokens[i]);
      assert r + rest == was + (PrintedToken(tokens[i]) + rest);
      i := i + 1;
    }
    assert tokens[|tokens|..] == [];
  }

  method WriteConst(text: string, out: string) returns (r: string)
    ensures r == out + Escaped(text)
  {
    r := out;
    var i := 0;
    while i < |text|
      invariant 0 <= i <= |text|
      invariant r + Escaped(text[i..]) == out + Escaped(text)
    {
      assert text[i..][1..] == text[i + 1..];
      match text[i] {
        case '{' => r := r + "{{";
        case '}' => r := r + "}}";
        case c => r := r + [c];
      }
      i := i + 1;
    }
  }

  // ----- Parsing

  datatype Error =
    | NestedGroup
    | EmptyGroup
    | UnterminatedSlot(body: string)
    | UnknownType(name: string, kind: string)
    | BadName(name: string)
    | Stray
    | UnterminatedGroup

  datatype Parsed = Err(error: Error) | Ok(tokens: seq<Token>, rest: string)

  function Flushed(tokens: seq<Token>, constant: string): seq<Token> {
    if constant == "" then tokens else tokens + [Const(constant)]
  }

  predicate NameChar(c: char) {
    'a' <= c <= 'z' || 'A' <= c <= 'Z' || '0' <= c <= '9' || c == '_'
  }

  predicate LegalName(name: string) {
    name != "" && forall i :: 0 <= i < |name| ==> NameChar(name[i])
  }

  /** The first place of a character, or the length. */
  function First(s: string, c: char): (i: nat)
    ensures i <= |s| && (i < |s| ==> s[i] == c) && forall k :: 0 <= k < i ==> s[k] != c
  {
    if s == "" || s[0] == c then 0 else First(s[1..], c) + 1
  }

  datatype SlotResult = SlotErr(error: Error) | SlotOk(name: string, kind: SlotKind)

  /** What stands between the braces: a name, and after the first `:` a type. */
  function ReadSlot(body: string): SlotResult {
    var colon := First(body, ':');
    var name := body[..colon];
    var kind := if colon < |body| then FromName(body[colon + 1..]) else Kind(Text);
    if kind.NotFound? then SlotErr(UnknownType(name, body[colon + 1..]))
    else if !LegalName(name) then SlotErr(BadName(name))
    else SlotOk(name, kind.kind)
  }

  /** The parser's loop from a state on: the characters left, the constant being gathered
      and the tokens so far. */
  function Parse(s: string, inGroup: bool, constant: string, tokens: seq<Token>): (r: Parsed)
    ensures r.Ok? ==> |r.rest| <= |s| && (inGroup ==> |r.rest| < |s|)
    decreases |s|
  {
    if s == "" then
      if inGroup then Err(UnterminatedGroup) else Ok(Flushed(tokens, constant), "")
    else if "{{" <= s then Parse(s[2..], inGroup, constant + "{", tokens)
    else if "}}" <= s then Parse(s[2..], inGroup, constant + "}", tokens)
    else if "{?" <= s then
      if inGroup then Err(NestedGroup)
      else
        match Parse(s[2..], true, "", [])
        case Err(e) => Err(e)
        case Ok(inner, rest) =>
          if inner == [] then Err(EmptyGroup)
          else Parse(rest, false, "", Flushed(tokens, constant) + [Optional(inner)])
    else if s[0] == '{' then
      var end := First(s[1..], '}');
      if end == |s| - 1 then Err(UnterminatedSlot(s[1..]))
      else
        match ReadSlot(s[1..end + 1])
        case SlotErr(e) => Err(e)
        case SlotOk(name, kind) =>
          Parse(s[end + 2..], inGroup, "", Flushed(tokens, constant) + [Slot(name, kind)])
    else if s[0] == '}' then
      if inGroup then Ok(Flushed(tokens, constant), s[1..]) else Err(Stray)
    else Parse(s[1..], inGroup, constant + [s[0]], tokens)
  }

  /** One step of the loop. */
  lemma {:induction false} ParseStep(s: string, inGroup: bool, constant: string, tokens: seq<Token>)
    ensures s == "" && inGroup ==> Parse(s, inGroup, constant, tokens) == Err(UnterminatedGroup)
    ensures s == "" && !inGroup ==> Parse(s, inGroup, constant, tokens) == Ok(Flushed(tokens, constant), "")
    ensures |s| >= 2 && s[0] == '{' && s[1] == '{' ==>
      Parse(s, inGroup, constant, tokens) == Parse(s[2..], inGroup, constant + "{", tokens)
    ensures |s| >= 2 && s[0] == '}' && s[1] == '}' ==>
      Parse(s, inGroup, constant, tokens) == Parse(s[2..], inGroup, constant + "}", tokens)
    ensures |s| >= 2 && s[0] == '{' && s[1] == '?' && inGroup ==>
      Parse(s, inGroup, constant, tokens) == Err(NestedGroup)
    ensures |s| >= 2 && s[0] == '{' && s[1] == '?' && !inGroup ==>
      var inner := Parse(s[2..], true, "", []);
      Parse(s, inGroup, constant, tokens) ==
      if inner.Err? then inner
      else if inner.tokens == [] then Err(EmptyGroup)
      else Parse(inner.rest, false, "", Flushed(tokens, constant) + [Optional(inner.tokens)])
    ensures |s| >= 1 && s[0] == '{' && !(|s| >= 2 && (s[1] == '{' || s[1] == '?')) ==>
      var end := First(s[1..], '}');
      Parse(s, inGroup, constant, tokens) ==
      if end == |s| - 1 then Err(UnterminatedSlot(s[1..]))
      else
        var slot := ReadSlot(s[1..end + 1]);
        if slot.SlotErr? then Err(slot.error)
        else Parse(s[end + 2..], inGroup, "", Flushed(tokens, constant) + [Slot(slot.name, slot.kind)])
    ensures |s| >= 1 && s[0] == '}' && !(|s| >= 2 && s[1] == '}') ==>
      Parse(s, inGroup, constant, tokens) == if inGroup then Ok(Flushed(tokens, constant), s[1..]) else Err(Stray)
    ensures |s| >= 1 && s[0] != '{' && s[0] != '}' ==>
      Parse(s, inGroup, constant, tokens) == Parse(s[1..], inGroup, constant + [s[0]], tokens)
  {
    hide ReadSlot, Flushed;
  }

  /** The parser; `chars` is what an iterator over the pattern has left. */
  method ParseTokens(chars: string, inGroup: bool) returns (r: Parsed)
    ensures r == Parse(chars, inGroup, "", [])
    decreases |chars|
  {
    hide Parse, ReadSlot, LegalName, Flushed;
    var constant, tokens, rest := "", [], chars;
    while rest != ""
      invariant |rest| <= |chars|
      invariant Parse(chars, inGroup, "", []) == Parse(rest, inGroup, constant, tokens)
      decreases |rest|
    {
      ParseStep(rest, inGroup, constant, tokens);
      var c := rest[0];
      ghost var left := rest;
      rest := rest[1..];
      if c == '{' && rest != "" && rest[0] == '{' {
        rest := rest[1..];
        constant := constant + "{";
        assert rest == left[2..];
      } else if c == '}' && rest != "" && rest[0] == '}' {
        rest := rest[1..];
        constant := constant + "}";
        assert rest == left[2..];
      } else if c == '{' && rest != "" && rest[0] == '?' {
        rest := rest[1..];
        assert rest == left[2..];
        if inGroup {
          return Err(NestedGroup);
        }
        tokens, constant := Flushed(tokens, constant), "";
        var inner := ParseTokens(rest, true);
        if inner.Err? {
          return inner;
        }
        if inner.tokens == [] {
          return Err(EmptyGroup);
        }
        tokens := tokens + [Optional(inner.tokens)];
        rest := inner.rest;
      } else if c == '{' {
        var body, ended := ReadBody(rest);
        if !ended {
          assert body == rest;
          return Err(UnterminatedSlot(body));
        }
        assert rest[|body| + 1..] == left[|body| + 2..];
        assert left[1..|body| + 1] == body;
        rest := rest[|body| + 1..];
        var slot := ReadSlot(body);
        if slot.SlotErr? {
          return Err(slot.error);
        }
        tokens, constant := Flushed(tokens, constant) + [Slot(slot.name, slot.kind)], "";
      } else if c == '}' {
        if inGroup {
          return Ok(Flushed(tokens, constant), rest);
        }
        return Err(Stray);
      } else {
        constant := constant + [c];
      }
    }
    ParseStep(rest, inGroup, constant, tokens);
    if inGroup {
      return Err(UnterminatedGroup);
    }
    return Ok(Flushed(tokens, constant), "");
  }

  /** Everything before the next `}`; without one, everything. */
  method ReadBody(chars: string) returns (body: string, ended: bool)
    ensures body == chars[..First(chars, '}')]
    ensures ended <==> First(chars, '}') < |chars|
  {
    var i := 0;
    while i < |chars| && chars[i] != '}'
      invariant 0 <= i <= First(chars, '}')
    {
      i := i + 1;
    }
    return chars[..i], i < |chars|;
  }

  function FromPattern(pattern: string): Parsed {
    Parse(pattern, false, "", [])
  }

  // ----- Templates that print and parse

  /** No constant is split in two, and after a group no constant starts with a brace that
      closes: `{?a}` and `}}` would read as a literal brace inside the group. */
  predicate Follows(before: Token, t: Token) {
    t.Const? ==> !before.Const? && (before.Optional? && t.text != "" ==> t.text[0] != '}')
  }

  /** Constants are not empty, names are legal, groups are not empty and do not nest. */
  predicate TokenOk(t: Token, inGroup: bool)
    decreases t
  {
    match t
    case Const(text) => text != ""
    case Slot(name, _) => LegalName(name)
    case Optional(inner) => !inGroup && inner != [] && WellFormed(inner, true)
  }

  predicate WellFormed(tokens: seq<Token>, inGroup: bool)
    decreases tokens
  {
    tokens == [] ||
    (TokenOk(tokens[0], inGroup) && (|tokens| > 1 ==> Follows(tokens[0], tokens[1])) && WellFormed(tokens[1..], inGroup))
  }

  /** A doubled brace reads as one, whatever comes next; so does any other character. */
  lemma {:induction false} CharReads(c: char, more: string, inGroup: bool, constant: string, tokens: seq<Token>)
    ensures var s := (if c == '{' then "{{" else if c == '}' then "}}" else [c]) + more;
      Parse(s, inGroup, constant, tokens) == Parse(more, inGroup, constant + [c], tokens)
  {
    hide Parse;
    var s := (if c == '{' then "{{" else if c == '}' then "}}" else [c]) + more;
    ParseStep(s, inGroup, constant, tokens);
    if c == '{' || c == '}' {
      assert s[2..] == more;
    } else {
      assert s[1..] == more;
    }
  }

  /** Reading an escaped constant gathers it, whatever comes next. */
  lemma {:induction false} EscapedReads(text: string, more: string, inGroup: bool, constant: string, tokens: seq<Token>)
    ensures Parse(Escaped(text) + more, inGroup, constant, tokens) == Parse(more, inGroup, constant + text, tokens)
    decreases |text|
  {
    hide Parse;
    if text == "" {
      assert Escaped(text) + more == more && constant + text == constant;
    } else {
      CharReads(text[0], Escaped(text[1..]) + more, inGroup, constant, tokens);
      EscapedReads(text[1..], more, inGroup, constant + [text[0]], tokens);
      assert constant + [text[0]] + text[1..] == constant + text;
      var first := if text[0] == '{' then "{{" else if text[0] == '}' then "}}" else [text[0]];
      assert Escaped(text) + more == first + (Escaped(text[1..]) + more);
    }
  }

  lemma {:induction false} FirstOf(s: string, c: char, i: nat)
    requires i <= |s| && (i < |s| ==> s[i] == c) && forall k :: 0 <= k < i ==> s[k] != c
    ensures First(s, c) == i
  {
  }

  lemma NameIsPlain(k: SlotKind)
    ensures forall i :: 0 <= i < |Name(k)| ==> NameChar(Name(k)[i])
  {
  }

  lemma SlotBody(name: string, kind: SlotKind)
    requires LegalName(name)
    ensures ReadSlot(name + ":" + Name(kind)) == SlotOk(name, kind)
  {
    hide Name, FromName;
    var body := name + ":" + Name(kind);
    FirstOf(body, ':', |name|);
    FromNameInverts(kind);
    assert body[..|name|] == name && body[|name| + 1..] == Name(kind);
  }

  lemma {:induction false} SlotReads(name: string, kind: SlotKind, more: string, inGroup: bool, constant: string, tokens: seq<Token>)
    requires LegalName(name)
    ensures Parse(SlotText(name, kind) + more, inGroup, constant, tokens) ==
      Parse(more, inGroup, "", Flushed(tokens, constant) + [Slot(name, kind)])
  {
    hide Parse, ReadSlot, Name, Flushed;
    var body := name + ":" + Name(kind);
    var s := SlotText(name, kind) + more;
    NameIsPlain(kind);
    SlotBody(name, kind);
    ParseStep(s, inGroup, constant, tokens);
    assert s[1..] == body + "}" + more;
    assert forall i :: 0 <= i < |body| ==> body[i] != '}';
    FirstOf(s[1..], '}', |body|);
    assert s[1..|body| + 1] == body && s[|body| + 2..] == more;
  }

  /** What a printed token starts with. */
  lemma {:induction false} Starts(tokens: seq<Token>)
    requires tokens != [] && WellFormed(tokens, false)
    ensures Printed(tokens) != ""
    ensures !tokens[0].Const? ==> Printed(tokens)[0] == '{'
    ensures tokens[0].Const? && tokens[0].text != "" ==> Printed(tokens)[0] == tokens[0].text[0]
  {
  }

  lemma {:induction false} AfterGroup(tokens: seq<Token>)
    requires tokens != [] && WellFormed(tokens, false) && tokens[0].Optional?
    ensures Printed(tokens[1..]) == "" || Printed(tokens[1..])[0] != '}'
  {
    hide Printed;
    NothingPrinted();
    if tokens[1..] != [] {
      Starts(tokens[1..]);
      Inside(tokens, false);
      Inside(tokens[1..], false);
      assert tokens[1..][0] == tokens[1] && Follows(tokens[0], tokens[1]);
    } else {
      assert tokens[1..] == [];
    }
  }

  lemma NothingPrinted()
    ensures Printed([]) == ""
  {
  }

  lemma {:induction false} PrintedFirst(tokens: seq<Token>, post: string)
    requires tokens != []
    ensures Printed(tokens) + post == PrintedToken(tokens[0]) + (Printed(tokens[1..]) + post)
  {
    hide Escaped, SlotText;
  }

  lemma {:induction false} GroupReads(inner: seq<Token>, tail: string, constant: string, tokens: seq<Token>)
    requires inner != [] && Parse(Printed(inner) + "}" + tail, true, "", []) == Ok(inner, tail)
    ensures Parse(PrintedToken(Optional(inner)) + tail, false, constant, tokens) ==
      Parse(tail, false, "", Flushed(tokens, constant) + [Optional(inner)])
  {
    hide Parse, Flushed, Printed;
    var s := PrintedToken(Optional(inner)) + tail;
    ParseStep(s, false, constant, tokens);
    assert s[2..] == Printed(inner) + "}" + tail;
  }

  lemma {:induction false} EndReads(more: string, inGroup: bool, constant: string, tokens: seq<Token>)
    requires if inGroup then more == "" || more[0] != '}' else more == ""
    ensures Parse(Closing(inGroup, more), inGroup, constant, tokens) == Ok(Flushed(tokens, constant), more)
  {
    hide Parse, Flushed;
    ParseStep(Closing(inGroup, more), inGroup, constant, tokens);
    if inGroup {
      assert ("}" + more)[1..] == more;
    }
  }

  /** What stands after the tokens: inside a group the brace that closes it. */
  function Closing(inGroup: bool, more: string): string {
    if inGroup then "}" + more else ""
  }

  lemma {:induction false} Inside(ts: seq<Token>, inGroup: bool)
    requires ts != [] && WellFormed(ts, inGroup)
    ensures TokenOk(ts[0], inGroup) && WellFormed(ts[1..], inGroup)
    ensures ts[0].Const? && ts[1..] != [] ==> !ts[1..][0].Const?
  {
  }

  /** Reading printed tokens gives them back, after what was gathered before. Inside a
      group the closing brace stands next, and no other brace that closes after it. */
  lemma {:induction false} PrintedReads(ts: seq<Token>, more: string, inGroup: bool, constant: string, tokens: seq<Token>)
    requires WellFormed(ts, inGroup) && (constant != "" && ts != [] ==> !ts[0].Const?)
    requires if inGroup then more == "" || more[0] != '}' else more == ""
    ensures Parse(Printed(ts) + Closing(inGroup, more), inGroup, constant, tokens) == Ok(Flushed(tokens, constant) + ts, more)
    decreases ts
  {
    hide Parse, Escaped, SlotText, LegalName, Flushed, WellFormed, Printed, Closing;
    var before := Flushed(tokens, constant);
    if ts == [] {
      NothingPrinted();
      assert Printed(ts) + Closing(inGroup, more) == Closing(inGroup, more) && before + ts == before;
      EndReads(more, inGroup, constant, tokens);
    } else {
      var tail := Printed(ts[1..]) + Closing(inGroup, more);
      Inside(ts, inGroup);
      PrintedFirst(ts, Closing(inGroup, more));
      FlushedNone(before + [ts[0]]);
      assert before + ts == (before + [ts[0]]) + ts[1..];
      match ts[0] {
        case Const(text) =>
          EscapedReads(text, tail, inGroup, constant, tokens);
          assert constant + text == text;
          PrintedReads(ts[1..], more, inGroup, text, tokens);
          FlushedConst(tokens, text);
        case Slot(name, kind) =>
          SlotReads(name, kind, tail, inGroup, constant, tokens);
          PrintedReads(ts[1..], more, inGroup, "", before + [ts[0]]);
        case Optional(inner) =>
          AfterGroup(ts);
          FlushedNone([]);
          assert [] + inner == inner;
          assert tail == Printed(ts[1..]) by { NoClosing(more); }
          PrintedReads(inner, tail, true, "", []);
          assert Printed(inner) + Closing(true, tail) == Printed(inner) + "}" + tail by { GroupCloses(tail); }
          GroupReads(inner, tail, constant, tokens);
          PrintedReads(ts[1..], more, false, "", before + [ts[0]]);
      }
    }
  }

  lemma NoClosing(more: string)
    ensures Closing(false, more) == ""
  {
  }

  lemma GroupCloses(more: string)
    ensures Closing(true, more) == "}" + more
  {
  }

  lemma FlushedNone(tokens: seq<Token>)
    ensures Flushed(tokens, "") == tokens
  {
  }

  lemma FlushedConst(tokens: seq<Token>, text: string)
    requires text != ""
    ensures Flushed(tokens, text) == tokens + [Const(text)] && Flushed(tokens, "") == tokens
  {
  }

  // ----- What parsing can produce

  lemma {:induction false} WellFormedSnoc(tokens: seq<Token>, t: Token, inGroup: bool)
    requires WellFormed(tokens, inGroup) && TokenOk(t, inGroup)
    requires tokens != [] ==> Follows(tokens[|tokens| - 1], t)
    ensures WellFormed(tokens + [t], inGroup)
    decreases |tokens|
  {
    hide TokenOk, Follows;
    if tokens == [] {
      assert (tokens + [t])[1..] == [];
    } else {
      WellFormedSnoc(tokens[1..], t, inGroup);
      assert (tokens + [t])[1..] == tokens[1..] + [t];
    }
  }

  /** The parser's loop invariant: the tokens so far are well formed and end in no
      constant, and what is read after a group does not start with a closing brace. */
  predicate Reading(s: string, inGroup: bool, constant: string, tokens: seq<Token>) {
    && WellFormed(tokens, inGroup)
    && (tokens != [] ==>
      var last := tokens[|tokens| - 1];
      !last.Const? && (last.Optional? ==>
        if constant == "" then s == "" || s[0] != '}' else constant[0] != '}'))
  }

  lemma {:induction false} FlushedOk(s: string, inGroup: bool, constant: string, tokens: seq<Token>)
    requires Reading(s, inGroup, constant, tokens)
    ensures WellFormed(Flushed(tokens, constant), inGroup)
  {
    if constant != "" {
      WellFormedSnoc(tokens, Const(constant), inGroup);
    }
  }

  lemma {:induction false} PushedOk(s: string, inGroup: bool, constant: string, tokens: seq<Token>, t: Token, rest: string)
    requires Reading(s, inGroup, constant, tokens)
    requires !t.Const? && TokenOk(t, inGroup) && (t.Optional? ==> rest == "" || rest[0] != '}')
    ensures Reading(rest, inGroup, "", Flushed(tokens, constant) + [t])
  {
    hide WellFormed, TokenOk;
    FlushedOk(s, inGroup, constant, tokens);
    WellFormedSnoc(Flushed(tokens, constant), t, inGroup);
  }

  /** Every parse result is well formed; a group leaves no closing brace right after it. */
  lemma {:induction false} ParsedIsWellFormed(s: string, inGroup: bool, constant: string, tokens: seq<Token>)
    requires Reading(s, inGroup, constant, tokens)
    ensures var r := Parse(s, inGroup, constant, tokens);
      r.Ok? ==>
        && WellFormed(r.tokens, inGroup)
        && (if inGroup then r.rest == "" || r.rest[0] != '}' else r.rest == "")
    decreases |s|
  {
    hide Parse, WellFormed, ReadSlot, Flushed;
    ParseStep(s, inGroup, constant, tokens);
    FlushedOk(s, inGroup, constant, tokens);
    if s == "" {
    } else if |s| >= 2 && (s[0] == '{' || s[0] == '}') && s[0] == s[1] {
      ParsedIsWellFormed(s[2..], inGroup, constant + [s[0]], tokens);
    } else if |s| >= 2 && s[0] == '{' && s[1] == '?' {
      if !inGroup {
        NothingReadYet(s[2..]);
        ParsedIsWellFormed(s[2..], true, "", []);
        var inner := Parse(s[2..], true, "", []);
        if inner.Ok? && inner.tokens != [] {
          PushedOk(s, inGroup, constant, tokens, Optional(inner.tokens), inner.rest);
          Shorter(s, inner);
          ParsedIsWellFormed(inner.rest, false, "", Flushed(tokens, constant) + [Optional(inner.tokens)]);
        }
      }
    } else if s[0] == '{' {
      var end := First(s[1..], '}');
      if end < |s| - 1 {
        var slot := ReadSlot(s[1..end + 1]);
        if slot.SlotOk? {
          ReadSlotIsLegal(s[1..end + 1]);
          PushedOk(s, inGroup, constant, tokens, Slot(slot.name, slot.kind), s[end + 2..]);
          ParsedIsWellFormed(s[end + 2..], inGroup, "", Flushed(tokens, constant) + [Slot(slot.name, slot.kind)]);
        }
      }
    } else if s[0] != '}' {
      ParsedIsWellFormed(s[1..], inGroup, constant + [s[0]], tokens);
    }
  }

  lemma NothingReadYet(s: string)
    ensures Reading(s, true, "", []) && Reading(s, false, "", [])
  {
  }

  lemma Shorter(s: string, inner: Parsed)
    requires |s| >= 2 && inner == Parse(s[2..], true, "", []) && inner.Ok?
    ensures |inner.rest| < |s|
  {
    hide Parse;
  }

  lemma ReadSlotIsLegal(body: string)
    requires ReadSlot(body).SlotOk?
    ensures LegalName(ReadSlot(body).name)
  {
    hide FromName;
  }

  // ----- The two directions

  /** `from_pattern(to_pattern(t)) == t`, exactly for the well-formed templates. */
  lemma {:induction false} RoundTrip(tokens: seq<Token>)
    ensures FromPattern(Printed(tokens)) == Ok(tokens, "") <==> WellFormed(tokens, false)
  {
    hide Parse, WellFormed;
    if WellFormed(tokens, false) {
      PrintedReads(tokens, "", false, "", []);
      NoClosing("");
      FlushedNone([]);
      assert Printed(tokens) + "" == Printed(tokens) && [] + tokens == tokens;
    } else {
      NothingReadYet(Printed(tokens));
      ParsedIsWellFormed(Printed(tokens), false, "", []);
    }
  }

  /** Whatever text a template came from, printing and parsing it again changes nothing. */
  lemma ParsedRoundTrips(pattern: string)
    requires FromPattern(pattern).Ok?
    ensures FromPattern(Printed(FromPattern(pattern).tokens)) == Ok(FromPattern(pattern).tokens, "")
  {
    hide Parse, WellFormed, Printed;
    NothingReadYet(pattern);
    ParsedIsWellFormed(pattern, false, "", []);
    RoundTrip(FromPattern(pattern).tokens);
  }

  // ----- And nothing else is read

  /** The text writes these tokens: constants with their braces doubled, slots with a type,
      or without one if it is `text`, groups around what writes theirs. */
  ghost predicate Spells(s: string, ts: seq<Token>)
    decreases ts, 1
  {
    if ts == [] then s == "" else exists k: nat :: SpellsTo(s, ts, k)
  }

  /** The first token as far as `k`, the others behind it. */
  ghost predicate SpellsTo(s: string, ts: seq<Token>, k: nat)
    requires ts != []
    decreases ts, 0
  {
    && k <= |s| && Spells(s[k..], ts[1..])
    && match ts[0]
       case Const(text) => s[..k] == Escaped(text)
       case Slot(name, kind) => s[..k] == SlotText(name, kind) || (kind == Text && s[..k] == "{" + name + "}")
       case Optional(inner) => 3 <= k && s[0] == '{' && s[1] == '?' && s[k - 1] == '}' && Spells(s[2..k - 1], inner)
  }

  lemma {:induction false} SpellsConst(text: string, rest: string, ts: seq<Token>)
    requires Spells(rest, ts)
    ensures Spells(Escaped(text) + rest, [Const(text)] + ts)
  {
    hide Escaped, Spells;
    var k, s, all := |Escaped(text)|, Escaped(text) + rest, [Const(text)] + ts;
    assert s[..k] == Escaped(text) && s[k..] == rest && all[1..] == ts;
    assert SpellsTo(s, all, k);
    SpellsIf(s, all, k);
  }

  lemma {:induction false} SpellsIf(s: string, ts: seq<Token>, k: nat)
    requires ts != [] && SpellsTo(s, ts, k)
    ensures Spells(s, ts)
  {
    hide SpellsTo;
  }

  lemma {:induction false} SpellsSlot(body: string, name: string, kind: SlotKind, rest: string, ts: seq<Token>)
    requires Spells(rest, ts) && ReadSlot(body) == SlotOk(name, kind)
    ensures Spells("{" + body + "}" + rest, [Slot(name, kind)] + ts)
  {
    hide Name, FindFrom, Spells;
    var x, all := "{" + body + "}", [Slot(name, kind)] + ts;
    var s, colon := x + rest, First(body, ':');
    FindFromFinds(body[if colon < |body| then colon + 1 else |body|..], 0);
    if colon < |body| {
      assert body == name + ":" + Name(kind);
      assert x == SlotText(name, kind);
    } else {
      assert body == name && kind == Text;
    }
    assert s[..|x|] == x && s[|x|..] == rest && all[1..] == ts;
    assert SpellsTo(s, all, |x|);
    SpellsIf(s, all, |x|);
  }

  lemma {:induction false} SpellsGroup(v: string, inner: seq<Token>, rest: string, ts: seq<Token>)
    requires Spells(rest, ts) && Spells(v, inner)
    ensures Spells("{?" + v + "}" + rest, [Optional(inner)] + ts)
  {
    hide Spells;
    var x, all := "{?" + v + "}", [Optional(inner)] + ts;
    var s, k := x + rest, |x|;
    assert s[k..] == rest && s[2..k - 1] == v && s[k - 1] == '}' && all[1..] == ts;
    assert SpellsTo(s, all, k);
    SpellsIf(s, all, k);
  }

  /** The constant gathered so far, if there is one, comes first. */
  lemma {:induction false} SpellsFlushed(constant: string, rest: string, ts: seq<Token>)
    requires Spells(rest, ts)
    ensures Spells(Escaped(constant) + rest, Flushed([], constant) + ts)
  {
    hide Spells;
    if constant == "" {
      assert "" + rest == rest && [] + ts == ts;
    } else {
      SpellsConst(constant, rest, ts);
      assert Flushed([], constant) == [Const(constant)];
    }
  }

  lemma {:induction false} EscapedSnoc(text: string, c: char)
    ensures Escaped(text + [c]) == Escaped(text) + Escaped([c])
    ensures Escaped([c]) == if c == '{' then "{{" else if c == '}' then "}}" else [c]
  {
    assert [c][1..] == "";
    if text == "" {
      assert text + [c] == [c];
    } else {
      EscapedSnoc(text[1..], c);
      assert (text + [c])[1..] == text[1..] + [c];
    }
  }

  lemma FlushedFirst(tokens: seq<Token>, constant: string)
    ensures Flushed(tokens, constant) == tokens + Flushed([], constant)
  {
  }

  lemma SpellsNothing()
    ensures Spells("", [])
  {
  }

  /** A slot or a group behind the constant gathered so far. */
  lemma {:induction false} Pushed(constant: string, tokens: seq<Token>, u: string, t: Token, more: seq<Token>) returns (add: seq<Token>)
    requires Spells(u, [t] + more)
    ensures Spells(Escaped(constant) + u, add) && tokens + add == Flushed(tokens, constant) + [t] + more
  {
    hide Spells, Escaped, Flushed;
    add := Flushed([], constant) + ([t] + more);
    SpellsFlushed(constant, u, [t] + more);
    FlushedFirst(tokens, constant);
  }

  /** One more character of a constant, single or doubled. */
  lemma {:induction false} OneMore(s: string, k: nat, constant: string, v: string, tail: string, add: seq<Token>) returns (u: string)
    requires 0 < k <= |s| && s[k..] == v + tail && s[..k] == Escaped([s[0]]) && Spells(Escaped(constant + [s[0]]) + v, add)
    ensures s == u + tail && Spells(Escaped(constant) + u, add)
  {
    hide Spells, Escaped;
    u := s[..k] + v;
    assert s == s[..k] + s[k..];
    EscapedSnoc(constant, s[0]);
    assert Escaped(constant) + u == Escaped(constant + [s[0]]) + v;
  }

  lemma {:induction false} DoubledIs(s: string)
    ensures |s| >= 2 && (s[0] == '{' || s[0] == '}') && s[0] == s[1] ==> s[..2] == Escaped([s[0]])
    ensures |s| >= 1 && s[0] != '{' && s[0] != '}' ==> s[..1] == Escaped([s[0]])
  {
    if |s| >= 1 {
      EscapedSnoc("", s[0]);
    }
  }

  lemma {:induction false} SlotOn(s: string, v: string, tail: string, more: seq<Token>, constant: string, tokens: seq<Token>)
    returns (u: string, add: seq<Token>)
    requires |s| >= 1 && s[0] == '{' && First(s[1..], '}') < |s| - 1
    requires var end := First(s[1..], '}');
      && ReadSlot(s[1..end + 1]).SlotOk? && s[end + 2..] == v + tail && Spells(v, more)
    ensures var slot := ReadSlot(s[1..First(s[1..], '}') + 1]);
      && s == u + tail && Spells(Escaped(constant) + u, add)
      && tokens + add == Flushed(tokens, constant) + [Slot(slot.name, slot.kind)] + more
  {
    hide Spells, Escaped, ReadSlot, Flushed;
    var end := First(s[1..], '}');
    var body := s[1..end + 1];
    var slot := ReadSlot(body);
    SpellsSlot(body, slot.name, slot.kind, v, more);
    u := "{" + body + "}" + v;
    add := Pushed(constant, tokens, u, Slot(slot.name, slot.kind), more);
    assert s[1..][end] == '}';
    assert s == "{" + body + "}" + s[end + 2..];
  }

  lemma {:induction false} GroupOn(s: string, w: string, g: seq<Token>, rest: string, v: string, more: seq<Token>, constant: string, tokens: seq<Token>)
    returns (u: string, add: seq<Token>)
    requires |s| >= 2 && s[0] == '{' && s[1] == '?' && s[2..] == w + "}" + rest && rest == v
    requires Spells(w, g) && Spells(v, more)
    ensures s == u && Spells(Escaped(constant) + u, add) && tokens + add == Flushed(tokens, constant) + [Optional(g)] + more
  {
    hide Spells, Escaped, Flushed;
    SpellsGroup(w, g, v, more);
    u := "{?" + w + "}" + v;
    add := Pushed(constant, tokens, u, Optional(g), more);
    assert s == "{?" + s[2..];
  }

  lemma {:induction false} Ends(constant: string, tokens: seq<Token>) returns (add: seq<Token>)
    ensures Spells(Escaped(constant) + "", add) && tokens + add == Flushed(tokens, constant)
  {
    hide Spells, Escaped, Flushed;
    SpellsNothing();
    SpellsFlushed(constant, "", []);
    FlushedFirst(tokens, constant);
    add := Flushed([], constant) + [];
    assert add == Flushed([], constant);
  }

  /** Whatever is accepted was written so: what is read from here on, `u`, writes, behind the
      constant gathered so far, the tokens it adds. */
  lemma {:induction false} ParsedIsSpelled(s: string, inGroup: bool, constant: string, tokens: seq<Token>) returns (u: string, add: seq<Token>)
    requires Parse(s, inGroup, constant, tokens).Ok?
    ensures var r := Parse(s, inGroup, constant, tokens);
      && r.tokens == tokens + add && Spells(Escaped(constant) + u, add)
      && s == u + ((if inGroup then "}" else "") + r.rest) && (!inGroup ==> r.rest == "")
    decreases |s|
  {
    hide Parse, ReadSlot, Flushed, Spells, Escaped;
    ParseStep(s, inGroup, constant, tokens);
    var tail := (if inGroup then "}" else "") + Parse(s, inGroup, constant, tokens).rest;
    if s == "" || (s[0] == '}' && !(|s| >= 2 && s[1] == '}')) {
      u := "";
      add := Ends(constant, tokens);
      assert s == "" || s == "}" + s[1..];
    } else if |s| >= 2 && (s[0] == '{' || s[0] == '}') && s[0] == s[1] {
      var v;
      v, add := ParsedIsSpelled(s[2..], inGroup, constant + [s[0]], tokens);
      DoubledIs(s);
      u := OneMore(s, 2, constant, v, tail, add);
    } else if |s| >= 2 && s[0] == '{' && s[1] == '?' {
      var inner := Parse(s[2..], true, "", []);
      var w, g := ParsedIsSpelled(s[2..], true, "", []);
      NothingGathered(w, g);
      Shorter(s, inner);
      var v, more := ParsedIsSpelled(inner.rest, false, "", Flushed(tokens, constant) + [Optional(inner.tokens)]);
      NothingGathered(v, more);
      u, add := GroupOn(s, w, g, inner.rest, v, more, constant, tokens);
    } else if s[0] == '{' {
      var end := First(s[1..], '}');
      var slot := ReadSlot(s[1..end + 1]);
      var v, more := ParsedIsSpelled(s[end + 2..], inGroup, "", Flushed(tokens, constant) + [Slot(slot.name, slot.kind)]);
      NothingGathered(v, more);
      u, add := SlotOn(s, v, tail, more, constant, tokens);
    } else {
      var v;
      v, add := ParsedIsSpelled(s[1..], inGroup, constant + [s[0]], tokens);
      DoubledIs(s);
      u := OneMore(s, 1, constant, v, tail, add);
    }
  }

  lemma NothingGathered(v: string, ts: seq<Token>)
    ensures Escaped("") + v == v && [] + ts == ts
  {
  }

  /** A text that is accepted writes, in one of the ways there are, just the tokens it is
      read as. */
  lemma {:induction false} AcceptedIsSpelled(pattern: string)
    requires FromPattern(pattern).Ok?
    ensures Spells(pattern, FromPattern(pattern).tokens)
  {
    hide Parse, Spells, Escaped;
    var u, add := ParsedIsSpelled(pattern, false, "", []);
    NothingGathered(u, add);
    assert u + ("" + "") == u;
  }

  /** A slot without a type holds text. */
  lemma {:induction false} UntypedIsText(name: string)
    requires LegalName(name)
    ensures Parse("{" + name + "}", false, "", []) == Ok([Slot(name, Text)], "")
  {
    hide Parse, FromName;
    var s := "{" + name + "}";
    var body := s[1..];
    assert s[0] == '{' && s[1] == name[0] && NameChar(name[0]);
    ParseStep(s, false, "", []);
    FirstOf(body, '}', |name|);
    assert s[1..|name| + 1] == name && s[|name| + 2..] == "";
    FirstOf(name, ':', |name|);
    assert name[..|name|] == name;
    assert ReadSlot(name) == SlotOk(name, Text);
    assert Flushed([], "") + [Slot(name, Text)] == [Slot(name, Text)];
    ParseStep("", false, "", [Slot(name, Text)]);
  }

  /** A template of legal parts that does not come back: the closing brace of the group and
      the two of the constant are read as a literal brace and the end of the group. */
  lemma GroupBeforeBrace()
    ensures var t := [Optional([Const("a")]), Const("}b")];
      && Printed(t) == "{?a}}}b"
      && FromPattern(Printed(t)) == Ok([Optional([Const("a}")]), Const("b")], "")
  {
    hide WellFormed, Parse;
    var t, back := [Optional([Const("a")]), Const("}b")], [Optional([Const("a}")]), Const("b")];
    SmallPrints();
    assert t[1..] == [Const("}b")] && back[1..] == [Const("b")];
    SmallIsWellFormed();
    RoundTrip(back);
  }

  lemma SmallPrints()
    ensures Printed([Optional([Const("a")]), Const("}b")]) == "{?a}}}b"
    ensures Printed([Optional([Const("a}")]), Const("b")]) == "{?a}}}b"
  {
    hide Printed;
    assert Escaped("a") == "a" && Escaped("b") == "b" by {
      assert "a"[1..] == "" && "b"[1..] == "";
    }
    assert Escaped("}b") == "}}b" && Escaped("a}") == "a}}" by {
      assert "}b"[1..] == "b" && "a}"[1..] == "}" && "}"[1..] == "";
    }
    PrintedOne(Const("a"));
    PrintedOne(Const("a}"));
    PrintedTwo(Optional([Const("a")]), Const("}b"));
    PrintedTwo(Optional([Const("a}")]), Const("b"));
  }

  lemma {:induction false} PrintedOne(t: Token)
    ensures Printed([t]) == PrintedToken(t)
  {
    assert [t][1..] == [];
  }

  lemma {:induction false} PrintedTwo(t: Token, u: Token)
    ensures Printed([t, u]) == PrintedToken(t) + PrintedToken(u)
  {
    PrintedOne(u);
    assert [t, u][1..] == [u];
  }

  lemma SmallIsWellFormed()
    ensures WellFormed([Optional([Const("a}")]), Const("b")], false)
  {
    var inner, last := [Const("a}")], [Const("b")];
    assert inner[1..] == [] && last[1..] == [];
    assert WellFormed(inner, true) && WellFormed(last, false);
    assert [Optional(inner), Const("b")][1..] == last;
  }
}
