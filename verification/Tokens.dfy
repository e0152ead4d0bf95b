/** The tokenizer of the inference engine: blanks, chains of hex pairs, bracketed values,
    typed atoms, quoted strings, words and single marks, losing nothing of the line. */
module Tokens {
  import opened Bytes
  import T = Template

  datatype Kind = Space | Punct | Word | Quoted | Chain | Atom(atom: T.SlotKind) {
    predicate IsVariable() {
      Quoted? || Chain? || Atom?
    }
  }

  datatype Tok = Tok(kind: Kind, text: seq<Byte>)

  const QUOTE: Byte := 34
  const COLON: Byte := 58
  const BRACE: Byte := 123

  predicate IsLetter(b: Byte) {
    65 <= b <= 90 || 97 <= b <= 122
  }

  predicate IsHexDigit(b: Byte) {
    IsDigit(b) || 65 <= b <= 70 || 97 <= b <= 102
  }

  predicate IsWordByte(b: Byte) {
    IsDigit(b) || IsLetter(b) || b == 95 || b >= 0x80
  }

  /** The marks and classes by their characters; a byte of a longer UTF-8 sequence is a
      word byte. */
  lemma Classes(b: Byte)
    ensures var c := b as char;
      && (b == QUOTE <==> c == '"') && (b == COLON <==> c == ':') && (b == BRACE <==> c == '{')
      && (IsLetter(b) <==> 'a' <= c <= 'z' || 'A' <= c <= 'Z')
      && (IsHexDigit(b) <==> '0' <= c <= '9' || 'a' <= c <= 'f' || 'A' <= c <= 'F')
      && (IsWordByte(b) <==> '0' <= c <= '9' || 'a' <= c <= 'z' || 'A' <= c <= 'Z' || c == '_' || b >= 128)
      && (Closer(b) == Some(')' as int) <==> c == '(') && (Closer(b) == Some(']' as int) <==> c == '[')
      && (Closer(b) == None <==> c != '(' && c != '[')
  {
  }

  predicate Blank(text: seq<Byte>) {
    forall i :: 0 <= i < |text| ==> IsBlank(text[i])
  }

  /** What the regexes find at a position: a typed atom and how far it reaches. */
  type AtomAt = (seq<Byte>, nat) -> Option<(T.SlotKind, nat)>

  /** All that is assumed of them: an atom is not empty and ends on the line. */
  ghost predicate Bounded(atomAt: AtomAt) {
    forall body: seq<Byte>, i: nat :: i < |body| && atomAt(body, i).Some? ==> 0 < atomAt(body, i).value.1 <= |body| - i
  }

  // ----- The scanners

  /** `hh:hh:...` at `i`: pairs of hex digits set apart by colons, perhaps with one colon
      left over. */
  predicate HexPairs(body: seq<Byte>, i: nat, len: nat) {
    && i + len <= |body| && len % 3 != 1
    && forall k :: 0 <= k < len ==> if k % 3 == 2 then body[i + k] == COLON else IsHexDigit(body[i + k])
  }

  /** Two hex digits with no word byte behind them. */
  predicate PairAt(body: seq<Byte>, j: nat) {
    j + 2 <= |body| && IsHexDigit(body[j]) && IsHexDigit(body[j + 1]) && (j + 2 == |body| || !IsWordByte(body[j + 2]))
  }

  /** `groups` such pairs from `i` on, one colon between any two. */
  predicate Pairs(body: seq<Byte>, i: nat, groups: nat) {
    forall k: nat :: k < groups ==> PairAt(body, i + 3 * k) && (k > 0 ==> body[i + 3 * k - 1] == COLON)
  }

  /** A colon before `j` and a hex digit at it. */
  predicate GoesOn(body: seq<Byte>, j: nat) {
    0 < j < |body| && body[j - 1] == COLON && IsHexDigit(body[j])
  }

  /** How far the longest run of pairs reaches: over all `groups` of them, and over a colon
      behind them if a hex digit follows it. */
  predicate Reaches(body: seq<Byte>, i: nat, groups: nat, len: nat) {
    && Pairs(body, i, groups) && !Pairs(body, i, groups + 1)
    && len == if GoesOn(body, i + 3 * groups) then 3 * groups else 3 * groups - 1
  }

  lemma NoPairsYet(body: seq<Byte>, i: nat)
    ensures Pairs(body, i, 0)
  {
  }

  lemma OnePair(body: seq<Byte>, i: nat, groups: nat)
    requires Pairs(body, i, groups) && PairAt(body, i + 3 * groups) && (groups > 0 ==> body[i + 3 * groups - 1] == COLON)
    ensures Pairs(body, i, groups + 1)
  {
    hide PairAt;
  }

  lemma LastPair(body: seq<Byte>, i: nat, groups: nat)
    requires !PairAt(body, i + 3 * groups) || (groups > 0 && body[i + 3 * groups - 1] != COLON)
    ensures !Pairs(body, i, groups + 1)
  {
    hide PairAt;
    var last := groups;
    assert last < groups + 1;
  }

  /** More pairs are some pairs. */
  lemma SomePairs(body: seq<Byte>, i: nat, groups: nat)
    requires Pairs(body, i, groups) && !Pairs(body, i, groups + 1)
    ensures groups >= 7 <==> Pairs(body, i, 7)
  {
    hide PairAt;
  }

  lemma PairsAreHex(body: seq<Byte>, i: nat, groups: nat, len: nat)
    requires groups > 0 && Reaches(body, i, groups, len)
    ensures HexPairs(body, i, len)
  {
    assert PairAt(body, i + 3 * (groups - 1));
    forall k | 0 <= k < len ensures if k % 3 == 2 then body[i + k] == COLON else IsHexDigit(body[i + k]) {
      assert PairAt(body, i + 3 * (k / 3));
      if k % 3 == 2 && k + 1 < 3 * groups {
        assert PairAt(body, i + 3 * (k / 3 + 1));
      }
    }
  }

  method HexChain(body: seq<Byte>, i: nat) returns (r: Option<nat>)
    requires i <= |body|
    ensures r.Some? <==> (i == 0 || body[i - 1] != COLON) && Pairs(body, i, 7)
    ensures r.Some? ==> Reaches(body, i, (r.value + 1) / 3, r.value)
    ensures r.Some? ==> HexPairs(body, i, r.value) && r.value >= 20
  {
    hide IsHexDigit, IsWordByte, HexPairs, Pairs;
    if i > 0 && body[i - 1] == COLON {
      return None;
    }
    NoPairsYet(body, i);
    var j: nat, groups: nat := i, 0;
    while true
      invariant i <= j <= |body| && j - i == 3 * groups
      invariant Pairs(body, i, groups) && (groups > 0 ==> GoesOn(body, j))
      decreases |body| - j
    {
      if j + 2 <= |body| && IsHexDigit(body[j]) && IsHexDigit(body[j + 1]) && (j + 2 == |body| || !IsWordByte(body[j + 2])) {
        OnePair(body, i, groups);
        groups := groups + 1;
        j := j + 2;
      } else {
        LastPair(body, i, groups);
        break;
      }
      if j < |body| && body[j] == COLON && j + 1 < |body| && IsHexDigit(body[j + 1]) {
        j := j + 1;
      } else {
        LastPair(body, i, groups);
        break;
      }
    }
    SomePairs(body, i, groups);
    if groups >= 7 {
      PairsAreHex(body, i, groups, j - i);
    }
    return if groups >= 7 then Some(j - i) else None;
  }

  function Closer(b: Byte): Option<Byte> {
    if b == 40 then Some(41) else if b == 91 then Some(93) else None
  }

  predicate Inner(b: Byte, close: Byte) {
    b != close && !IsBlank(b) && b != 40 && b != 91 && b != QUOTE
  }

  /** `(...)` or `[...]` at `i`, of length `len`, holding a letter and no blank, opening
      bracket or quote. */
  ghost predicate Bracketed(body: seq<Byte>, i: nat, len: nat) {
    && len >= 3 && i + len <= |body| && Closer(body[i]).Some?
    && body[i + len - 1] == Closer(body[i]).value
    && (forall k :: i < k < i + len - 1 ==> Inner(body[k], Closer(body[i]).value))
    && exists k :: i < k < i + len - 1 && IsLetter(body[k])
  }

  /** Inside a group stands anything but its end, a blank, an opening bracket and a quote. */
  lemma InnerIs(b: Byte, close: Byte)
    ensures Inner(b, close) <==> b != close && b as char !in {' ', '\t', '(', '[', '"'}
  {
  }

  method BracketGroup(body: seq<Byte>, i: nat) returns (r: Option<nat>)
    requires i < |body|
    ensures r.Some? ==> Bracketed(body, i, r.value)
    ensures r.None? ==> forall len: nat :: !Bracketed(body, i, len)
  {
    if Closer(body[i]).None? {
      return None;
    }
    var close := Closer(body[i]).value;
    var j, letter := i + 1, false;
    while j < |body|
      invariant i < j <= |body|
      invariant forall k :: i < k < j ==> Inner(body[k], close)
      invariant letter <==> exists k :: i < k < j && IsLetter(body[k])
    {
      var b := body[j];
      if b == close {
        return if letter && j > i + 1 then Some(j + 1 - i) else None;
      }
      if IsBlank(b) || b == 40 || b == 91 || b == QUOTE {
        return None;
      }
      letter := letter || IsLetter(b);
      j := j + 1;
    }
    return None;
  }

  /** The backslashes that stand right before `q` and after `start`. */
  function Slashes(body: seq<Byte>, start: nat, q: nat): nat
    requires start < q <= |body|
  {
    if q - 1 > start && body[q - 1] == BACKSLASH then 1 + Slashes(body, start, q - 1) else 0
  }

  /** A quote after `start` that no backslash escapes: the backslashes before it pair off. */
  predicate Closes(body: seq<Byte>, start: nat, q: nat) {
    start < q < |body| && body[q] == QUOTE && Slashes(body, start, q) % 2 == 0
  }

  method QuotedEnd(body: seq<Byte>, start: nat) returns (r: Option<nat>)
    requires start < |body|
    ensures r.Some? ==> r.value > 0 && Closes(body, start, r.value - 1) && forall q: nat :: q < r.value - 1 ==> !Closes(body, start, q)
    ensures r.None? ==> forall q: nat :: !Closes(body, start, q)
  {
    var j := start + 1;
    while j < |body|
      invariant start < j
      invariant j <= |body| ==> Slashes(body, start, j) % 2 == 0
      invariant forall q: nat :: q < j ==> !Closes(body, start, q)
    {
      if body[j] == BACKSLASH {
        j := j + 2;
      } else if body[j] == QUOTE {
        return Some(j + 1);
      } else {
        j := j + 1;
      }
    }
    return None;
  }

  // ----- The tokenizer

  function Join(toks: seq<Tok>): seq<Byte> {
    if toks == [] then [] else Join(toks[..|toks| - 1]) + toks[|toks| - 1].text
  }

  lemma {:induction false} JoinSnoc(toks: seq<Tok>, t: Tok)
    ensures Join(toks + [t]) == Join(toks) + t.text
  {
    assert (toks + [t])[..|toks|] == toks;
  }

  /** What the text of each kind of token looks like. Blanks make up the space tokens and
      start no other. */
  predicate TokOk(t: Tok) {
    && t.text != [] && (t.kind == Space <==> IsBlank(t.text[0]))
    && match t.kind
       case Space => Blank(t.text)
       case Punct => |t.text| == 1 && !IsWordByte(t.text[0])
       case Quoted => |t.text| >= 2 && t.text[0] == QUOTE && t.text[|t.text| - 1] == QUOTE
       case Chain => |t.text| >= 20 && HexPairs(t.text, 0, |t.text|)
       case Word => IsWordByte(t.text[0]) || t.text[0] == QUOTE || Closer(t.text[0]).Some?
       case Atom(_) => true
  }

  ghost predicate Tokenized(toks: seq<Tok>) {
    forall k :: 0 <= k < |toks| ==> TokOk(toks[k])
  }

  /** Cutting one more piece off the line. */
  lemma {:induction false} Cut(body: seq<Byte>, toks: seq<Tok>, kind: Kind, i: nat, j: nat)
    requires i < j <= |body| && Join(toks) == body[..i] && Tokenized(toks)
    requires TokOk(Tok(kind, body[i..j]))
    ensures Join(toks + [Tok(kind, body[i..j])]) == body[..j]
    ensures Tokenized(toks + [Tok(kind, body[i..j])])
  {
    hide TokOk, Join;
    JoinSnoc(toks, Tok(kind, body[i..j]));
    assert body[..j] == body[..i] + body[i..j];
  }

  // ----- Which token stands at an offset

  /** From `i` to `j` all bytes are blanks, and the next is not. */
  predicate BlanksTo(body: seq<Byte>, i: nat, j: nat) {
    i < j <= |body| && (forall k :: i <= k < j ==> IsBlank(body[k])) && (j < |body| ==> !IsBlank(body[j]))
  }

  /** Word bytes, and single dots and dashes between two of them, as far as they go. */
  predicate WordTo(body: seq<Byte>, i: nat, j: nat) {
    && i < j <= |body| && (j < |body| ==> !IsWordByte(body[j]))
    && !(j + 1 < |body| && body[j] in [46, 45] && IsWordByte(body[j + 1]))
    && forall k :: i <= k < j && !IsWordByte(body[k]) ==> body[k] in [46, 45] && k + 1 < j && IsWordByte(body[k + 1])
  }

  /** A chain of hex pairs starts here. */
  predicate ChainAt(body: seq<Byte>, i: nat) {
    i < |body| && (i == 0 || body[i - 1] != COLON) && Pairs(body, i, 7)
  }

  ghost predicate GroupAt(body: seq<Byte>, i: nat) {
    exists len: nat :: Bracketed(body, i, len)
  }

  ghost predicate QuotedAt(body: seq<Byte>, i: nat) {
    i < |body| && body[i] == QUOTE && exists q: nat :: Closes(body, i, q)
  }

  ghost predicate FirstClose(body: seq<Byte>, i: nat, q: nat) {
    Closes(body, i, q) && forall p: nat :: p < q ==> !Closes(body, i, p)
  }

  /** The token at `i` and where it ends, in the order in which the kinds are tried: blanks,
      a chain, a bracketed group, a typed atom, a quoted string (a word if it is a key of a
      JSON object), a word, a single mark. */
  ghost predicate StandsAt(body: seq<Byte>, atomAt: AtomAt, i: nat, kind: Kind, j: nat) {
    && i < j <= |body|
    && if IsBlank(body[i]) then kind == Space && BlanksTo(body, i, j)
       else if ChainAt(body, i) then kind == Chain && Reaches(body, i, (j - i + 1) / 3, j - i)
       else if GroupAt(body, i) then kind == Word && Bracketed(body, i, j - i)
       else if atomAt(body, i).Some? then kind == Atom(atomAt(body, i).value.0) && j == i + atomAt(body, i).value.1
       else if QuotedAt(body, i) then
         FirstClose(body, i, j - 1) && kind == if body[0] == BRACE && j < |body| && body[j] == COLON then Word else Quoted
       else if IsWordByte(body[i]) then kind == Word && WordTo(body, i, j)
       else kind == Punct && j == i + 1
  }

  lemma ReachesOnce(body: seq<Byte>, i: nat, g: nat, len: nat, g': nat, len': nat)
    requires Reaches(body, i, g, len) && Reaches(body, i, g', len')
    ensures g == g' && len == len'
  {
    hide PairAt, GoesOn;
  }

  lemma WordOnce(body: seq<Byte>, i: nat, j: nat, j': nat)
    requires WordTo(body, i, j) && WordTo(body, i, j')
    ensures j == j'
  {
    hide IsWordByte;
  }

  lemma BracketOnce(body: seq<Byte>, i: nat, len: nat, len': nat)
    requires Bracketed(body, i, len) && Bracketed(body, i, len')
    ensures len == len'
  {
    hide IsLetter, IsBlank;
  }

  /** Exactly one token stands at each offset. */
  lemma StandsOnce(body: seq<Byte>, atomAt: AtomAt, i: nat, kind: Kind, j: nat, kind': Kind, j': nat)
    requires StandsAt(body, atomAt, i, kind, j) && StandsAt(body, atomAt, i, kind', j')
    ensures kind == kind' && j == j'
  {
    hide ChainAt, GroupAt, QuotedAt, Reaches, Bracketed, WordTo, Closes, IsWordByte;
    if IsBlank(body[i]) {
    } else if ChainAt(body, i) {
      ReachesOnce(body, i, (j - i + 1) / 3, j - i, (j' - i + 1) / 3, j' - i);
    } else if GroupAt(body, i) {
      BracketOnce(body, i, j - i, j' - i);
    } else if atomAt(body, i).Some? {
    } else if QuotedAt(body, i) {
    } else if IsWordByte(body[i]) {
      WordOnce(body, i, j, j');
    }
  }

  /** The tokens of a line: put together they are the line, and each is what stands there. */
  ghost predicate TokensOf(body: seq<Byte>, atomAt: AtomAt, toks: seq<Tok>) {
    Join(toks) == body && StandingUpTo(body, atomAt, toks)
  }

  ghost predicate StandingUpTo(body: seq<Byte>, atomAt: AtomAt, toks: seq<Tok>) {
    forall k :: 0 <= k < |toks| ==> StandsAt(body, atomAt, |Join(toks[..k])|, toks[k].kind, |Join(toks[..k + 1])|)
  }

  /** A line has one list of tokens. */
  lemma {:induction false} TokensOnce(body: seq<Byte>, atomAt: AtomAt, a: seq<Tok>, b: seq<Tok>)
    requires TokensOf(body, atomAt, a) && TokensOf(body, atomAt, b)
    ensures a == b
  {
    hide StandsAt, Join;
    if |a| <= |b| {
      SameTokens(body, atomAt, a, b, |a|);
      AllOfLine(body, atomAt, a, b);
    } else {
      SameTokens(body, atomAt, b, a, |b|);
      AllOfLine(body, atomAt, b, a);
    }
  }

  lemma {:induction false} AllOfLine(body: seq<Byte>, atomAt: AtomAt, a: seq<Tok>, b: seq<Tok>)
    requires TokensOf(body, atomAt, a) && TokensOf(body, atomAt, b) && |a| <= |b| && a == b[..|a|]
    ensures a == b
  {
    hide Join;
    if |a| < |b| {
      assert b[..|a|] == a;
      Advances(body, atomAt, b, |a|);
    }
  }

  lemma {:induction false} Advances(body: seq<Byte>, atomAt: AtomAt, toks: seq<Tok>, k: nat)
    requires TokensOf(body, atomAt, toks) && k < |toks|
    ensures |Join(toks[..k])| < |body|
  {
    hide Join;
    assert StandsAt(body, atomAt, |Join(toks[..k])|, toks[k].kind, |Join(toks[..k + 1])|);
  }

  lemma {:induction false} SameTokens(body: seq<Byte>, atomAt: AtomAt, a: seq<Tok>, b: seq<Tok>, n: nat)
    requires TokensOf(body, atomAt, a) && TokensOf(body, atomAt, b) && n <= |a| && n <= |b|
    ensures a[..n] == b[..n]
    decreases n
  {
    hide StandsAt, Join;
    if n > 0 {
      SameTokens(body, atomAt, a, b, n - 1);
      var at := |Join(a[..n - 1])|;
      assert StandsAt(body, atomAt, at, a[n - 1].kind, |Join(a[..n])|);
      assert StandsAt(body, atomAt, at, b[n - 1].kind, |Join(b[..n])|);
      StandsOnce(body, atomAt, at, a[n - 1].kind, |Join(a[..n])|, b[n - 1].kind, |Join(b[..n])|);
      TextAt(a, n - 1);
      TextAt(b, n - 1);
      assert a[..n] == a[..n - 1] + [a[n - 1]] && b[..n] == b[..n - 1] + [b[n - 1]];
    }
  }

  /** A token's text is where its place says. */
  lemma {:induction false} TextAt(toks: seq<Tok>, k: nat)
    requires k < |toks|
    ensures |Join(toks[..k])| <= |Join(toks[..k + 1])| <= |Join(toks)|
    ensures Join(toks)[|Join(toks[..k])|..|Join(toks[..k + 1])|] == toks[k].text
    decreases |toks|
  {
    hide Join;
    var front, last := toks[..|toks| - 1], toks[|toks| - 1];
    assert toks == front + [last];
    JoinSnoc(front, last);
    if k == |front| {
      assert toks[..k + 1] == toks;
    } else {
      TextAt(front, k);
      assert front[..k] == toks[..k] && front[..k + 1] == toks[..k + 1];
      var a, b := |Join(toks[..k])|, |Join(toks[..k + 1])|;
      assert Join(toks)[a..b] == Join(front)[a..b];
    }
  }

  /** One token at `i`: where it ends and its kind. */
  method NextToken(body: seq<Byte>, i: nat, json: bool, atomAt: AtomAt) returns (kind: Kind, j: nat)
    requires i < |body| && Bounded(atomAt) && (json <==> body[0] == BRACE)
    ensures StandsAt(body, atomAt, i, kind, j) && TokOk(Tok(kind, body[i..j]))
  {
    hide Reaches, Pairs, Closes, IsWordByte, WordTo, HexPairs;
    var b := body[i];
    if IsBlank(b) {
      j := i;
      while j < |body| && IsBlank(body[j])
        invariant i <= j <= |body| && forall k :: i <= k < j ==> IsBlank(body[k])
      {
        j := j + 1;
      }
      return Space, j;
    }
    var chain := HexChain(body, i);
    if chain.Some? {
      ChainOk(body, i, chain.value);
      return Chain, i + chain.value;
    }
    var bracket := BracketGroup(body, i);
    if bracket.Some? {
      return Word, i + bracket.value;
    }
    var atom := atomAt(body, i);
    if atom.Some? {
      return Atom(atom.value.0), i + atom.value.1;
    }
    if b == QUOTE {
      var end := QuotedEnd(body, i);
      if end.Some? {
        QuotedOk(body, i, end.value);
        return if json && end.value < |body| && body[end.value] == COLON then Word else Quoted, end.value;
      }
    }
    if IsWordByte(b) {
      j := WordEnd(body, i);
      WordsEnd(body, i, j);
      return Word, j;
    }
    return Punct, i + 1;
  }

  /** A dot or a dash between two word bytes does not end the word. */
  method WordEnd(body: seq<Byte>, i: nat) returns (j: nat)
    requires i < |body| && IsWordByte(body[i])
    ensures WordTo(body, i, j)
  {
    j := i + 1;
    while true
      invariant i < j <= |body|
      invariant forall k :: i <= k < j && !IsWordByte(body[k]) ==>
        body[k] in [46, 45] && k + 1 < |body| && k + 1 <= j && IsWordByte(body[k + 1])
      decreases |body| - j
    {
      while j < |body| && IsWordByte(body[j])
        invariant i < j <= |body|
        invariant forall k :: i <= k < j && !IsWordByte(body[k]) ==>
          body[k] in [46, 45] && k + 1 < |body| && k + 1 <= j && IsWordByte(body[k + 1])
      {
        j := j + 1;
      }
      if j + 1 < |body| && body[j] in [46, 45] && IsWordByte(body[j + 1]) {
        j := j + 1;
        continue;
      }
      break;
    }
  }

  /** The tokens put together are the line, and no two runs of blanks stand side by side. */
  method Tokenize(body: seq<Byte>, atomAt: AtomAt) returns (toks: seq<Tok>)
    requires Bounded(atomAt)
    ensures TokensOf(body, atomAt, toks) && Tokenized(toks)
  {
    hide Join, TokOk, Bounded, StandsAt;
    toks := [];
    var json := body != [] && body[0] == BRACE;
    var i := 0;
    NothingJoined();
    while i < |body|
      invariant 0 <= i <= |body| && Join(toks) == body[..i] && Tokenized(toks)
      invariant StandingUpTo(body, atomAt, toks)
    {
      var kind, j := NextToken(body, i, json, atomAt);
      StandsInside(body, atomAt, i, kind, j);
      Cut(body, toks, kind, i, j);
      StandsMore(body, atomAt, toks, Tok(kind, body[i..j]));
      toks := toks + [Tok(kind, body[i..j])];
      i := j;
    }
    assert body[..|body|] == body;
  }

  lemma NothingJoined()
    ensures Join([]) == []
  {
  }

  lemma StandsInside(body: seq<Byte>, atomAt: AtomAt, i: nat, kind: Kind, j: nat)
    requires StandsAt(body, atomAt, i, kind, j)
    ensures i < j <= |body|
  {
  }

  lemma {:induction false} StandsMore(body: seq<Byte>, atomAt: AtomAt, toks: seq<Tok>, t: Tok)
    requires StandingUpTo(body, atomAt, toks)
    requires StandsAt(body, atomAt, |Join(toks)|, t.kind, |Join(toks + [t])|)
    ensures StandingUpTo(body, atomAt, toks + [t])
  {
    hide StandsAt, Join;
    var more := toks + [t];
    forall k | 0 <= k < |more|
      ensures StandsAt(body, atomAt, |Join(more[..k])|, more[k].kind, |Join(more[..k + 1])|)
    {
      if k < |toks| {
        assert more[..k] == toks[..k] && more[..k + 1] == toks[..k + 1];
      } else {
        assert more[..k] == toks && more[..k + 1] == more;
      }
    }
  }

  lemma ChainOk(body: seq<Byte>, i: nat, len: nat)
    requires HexPairs(body, i, len) && len >= 20
    ensures i + len <= |body| && HexPairs(body[i..i + len], 0, len) && !IsBlank(body[i])
  {
    var first := 0;
    assert first % 3 != 2 && IsHexDigit(body[i + first]);
    var t := body[i..i + len];
    forall k | 0 <= k < len ensures if k % 3 == 2 then t[0 + k] == COLON else IsHexDigit(t[0 + k]) {
      assert t[0 + k] == body[i + k];
    }
  }

  lemma QuotedOk(body: seq<Byte>, i: nat, end: nat)
    requires end > 0 && i < |body| && body[i] == QUOTE && Closes(body, i, end - 1)
    ensures i < end <= |body| && TokOk(Tok(Quoted, body[i..end])) && TokOk(Tok(Word, body[i..end]))
  {
    var t := body[i..end];
    assert t[0] == body[i] && t[|t| - 1] == body[end - 1];
  }

  lemma WordsEnd(body: seq<Byte>, i: nat, j: nat)
    requires WordTo(body, i, j)
    ensures i < j <= |body|
  {
  }

  /** No two runs of blanks stand side by side. */
  lemma {:induction false} BlanksApart(body: seq<Byte>, atomAt: AtomAt, toks: seq<Tok>, k: nat)
    requires TokensOf(body, atomAt, toks) && 0 < k < |toks| && toks[k - 1].kind == Space
    ensures toks[k].kind != Space
  {
    hide Join;
    assert StandsAt(body, atomAt, |Join(toks[..k - 1])|, toks[k - 1].kind, |Join(toks[..k - 1 + 1])|);
    assert StandsAt(body, atomAt, |Join(toks[..k])|, toks[k].kind, |Join(toks[..k + 1])|);
  }
}
