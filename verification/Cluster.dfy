/** From member lines to columns: every line is aligned onto the columns so far, and what
    lies between two matches is inserted, kept, substituted or collapsed. Whatever branch is
    taken, every member's line can be read back from the columns, up to blanks. */
module Cluster {
  import opened Bytes
  import opened Tokens
  import opened Columns
  import A = Align

  // ----- Regions

  /** How many of the columns have a value for the member, and the kind of the last. */
  function Parts(pc: seq<Col>, n: nat, x: nat): nat
    requires Wide(pc, n) && x < n
  {
    if pc == [] then 0 else Parts(pc[..|pc| - 1], n, x) + if pc[|pc| - 1].present[x] then 1 else 0
  }

  function LastKind(pc: seq<Col>, n: nat, x: nat): Kind
    requires Wide(pc, n) && x < n
  {
    if pc == [] then Word
    else if pc[|pc| - 1].present[x] then pc[|pc| - 1].KindFor(x)
    else LastKind(pc[..|pc| - 1], n, x)
  }

  /** A single value keeps its kind; several together, or any in the later passes, are text. */
  function JoinedKind(pc: seq<Col>, n: nat, x: nat, typed: bool): Kind
    requires Wide(pc, n) && x < n
  {
    if typed && Parts(pc, n, x) == 1 then LastKind(pc, n, x) else Word
  }

  /** What columns show for one member, gathered into one value; absent if none has any. */
  ghost predicate GatheredFor(pc: seq<Col>, n: nat, present: seq<bool>, values: seq<Value>, typed: bool, x: nat)
    requires Wide(pc, n) && |present| == n && x < n
  {
    && (present[x] <==> Parts(pc, n, x) > 0)
    && if present[x] then Find(values, x) == Some(Value(x, JoinedKind(pc, n, x, typed), Render(pc, n, x)))
       else Render(pc, n, x) == []
  }

  ghost predicate Gathered(pc: seq<Col>, n: nat, present: seq<bool>, values: seq<Value>, typed: bool, upto: nat)
    requires Wide(pc, n)
  {
    && |present| == n && upto <= n
    && (forall x: nat :: x < upto ==> GatheredFor(pc, n, present, values, typed, x))
    && (forall x: nat :: upto <= x < n ==> !present[x])
    && (forall k :: 0 <= k < |values| ==> values[k].member < upto && present[values[k].member])
    && (!typed ==> forall k :: 0 <= k < |values| ==> values[k].kind == Word)
  }

  lemma {:induction false} GatheredNext(pc: seq<Col>, n: nat, present: seq<bool>, values: seq<Value>, typed: bool, i: nat)
    requires Wide(pc, n) && Gathered(pc, n, present, values, typed, i) && i < n
    requires Parts(pc, n, i) == 0 ==> Render(pc, n, i) == []
    ensures Parts(pc, n, i) > 0 ==>
      Gathered(pc, n, present[i := true], values + [Value(i, JoinedKind(pc, n, i, typed), Render(pc, n, i))], typed, i + 1)
    ensures Parts(pc, n, i) == 0 ==> Gathered(pc, n, present, values, typed, i + 1)
  {
    hide Render, Find, Parts, LastKind;
    FindNone(values, i);
    var any := Parts(pc, n, i) > 0;
    var v := Value(i, JoinedKind(pc, n, i, typed), Render(pc, n, i));
    var present', values' := present[i := any], values + [v];
    forall x: nat | x < i + 1
      ensures any ==> GatheredFor(pc, n, present', values', typed, x)
      ensures !any ==> GatheredFor(pc, n, present, values, typed, x)
    {
      FindAppend(values, v, x);
      if x < i {
        assert GatheredFor(pc, n, present, values, typed, x);
      }
    }
    assert forall j :: 0 <= j < |values| ==> values'[j] == values[j];
    assert any ==> Gathered(pc, n, present', values', typed, i + 1);
  }

  lemma {:induction false} PartsNext(pc: seq<Col>, n: nat, x: nat, k: nat)
    requires Wide(pc, n) && x < n && k < |pc|
    ensures Wide(pc[..k], n) && Wide(pc[..k + 1], n)
    ensures Render(pc[..k + 1], n, x) == Render(pc[..k], n, x) + Shown(pc[k], x)
    ensures Parts(pc[..k + 1], n, x) == Parts(pc[..k], n, x) + if pc[k].present[x] then 1 else 0
    ensures LastKind(pc[..k + 1], n, x) == if pc[k].present[x] then pc[k].KindFor(x) else LastKind(pc[..k], n, x)
  {
    hide Shown, Render;
    assert pc[..k + 1] == pc[..k] + [pc[k]];
    assert pc[..k + 1][..k] == pc[..k];
    RenderOne(pc[k], n, x);
    RenderConcat(pc[..k], [pc[k]], n, x);
  }

  /** One member's part of a region: the values joined, how many, and the kind of the last. */
  method JoinFor(pc: seq<Col>, n: nat, i: nat) returns (joined: seq<Byte>, parts: nat, kind: Kind)
    requires Wide(pc, n) && i < n
    ensures joined == Render(pc, n, i) && parts == Parts(pc, n, i) && kind == LastKind(pc, n, i)
    ensures parts == 0 ==> joined == []
  {
    hide Render, Parts, LastKind;
    joined, parts, kind := [], 0, Word;
    var k := 0;
    EmptyRender(n, i);
    assert pc[..0] == [];
    while k < |pc|
      invariant 0 <= k <= |pc| && Wide(pc[..k], n)
      invariant joined == Render(pc[..k], n, i) && parts == Parts(pc[..k], n, i) && kind == LastKind(pc[..k], n, i)
      invariant parts == 0 ==> joined == []
    {
      PartsNext(pc, n, i, k);
      var v := pc[k].ValueFor(i);
      if v.Some? {
        joined := joined + v.value;
        parts := parts + 1;
        kind := pc[k].KindFor(i);
      }
      k := k + 1;
    }
    assert pc[..|pc|] == pc;
  }

  lemma {:induction false} EmptyRender(n: nat, x: nat)
    requires x < n
    ensures Wide([], n) && Render([], n, x) == [] && Parts([], n, x) == 0 && LastKind([], n, x) == Word
  {
  }

  /** A region of the columns for all members; in the later passes every value is free text. */
  method Gather(pc: seq<Col>, n: nat, typed: bool) returns (present: seq<bool>, values: seq<Value>)
    requires Wide(pc, n)
    ensures Gathered(pc, n, present, values, typed, n)
  {
    hide Render, Parts, LastKind;
    present, values := seq(n, _ => false), [];
    var i := 0;
    while i < n
      invariant 0 <= i <= n && Gathered(pc, n, present, values, typed, i)
    {
      var joined, parts, kind := JoinFor(pc, n, i);
      var k := if typed && parts == 1 then kind else Word;
      GatheredNext(pc, n, present, values, typed, i);
      if parts > 0 {
        present := present[i := true];
        values := values + [Value(i, k, joined)];
      }
      i := i + 1;
    }
  }

  function Region(text: seq<Byte>, present: seq<bool>, values: seq<Value>, optional: bool): Col {
    Col(Word, text, present, true, true, values, optional)
  }

  /** A region reads for every member what its columns read. */
  lemma {:induction false} RegionShows(pc: seq<Col>, n: nat, present: seq<bool>, values: seq<Value>, typed: bool, text: seq<Byte>, optional: bool, x: nat)
    requires Wide(pc, n) && Gathered(pc, n, present, values, typed, n) && x < n
    ensures Shown(Region(text, present, values, optional), x) == Render(pc, n, x)
  {
    hide Render;
    assert GatheredFor(pc, n, present, values, typed, x);
  }

  /** In a region each member's value is of the kind it had if one column alone gave it, and
      free text if more did. */
  lemma {:induction false} RegionKinds(pc: seq<Col>, n: nat, present: seq<bool>, values: seq<Value>, x: nat, k: nat)
    requires Wide(pc, n) && Gathered(pc, n, present, values, true, n) && x < n && k < |pc| && pc[k].present[x]
    ensures present[x] && Find(values, x).Some?
    ensures (forall q :: 0 <= q < |pc| && q != k ==> !pc[q].present[x]) ==> Find(values, x).value.kind == pc[k].KindFor(x)
    ensures forall q :: 0 <= q < |pc| && q != k && pc[q].present[x] ==> Find(values, x).value.kind == Word
  {
    hide Render, Find, LastKind, Parts;
    assert GatheredFor(pc, n, present, values, true, x);
    PartsOne(pc, n, x, k);
    forall q | 0 <= q < |pc| && q != k && pc[q].present[x] ensures Parts(pc, n, x) >= 2 {
      PartsTwo(pc, n, x, if q < k then q else k, if q < k then k else q);
    }
  }

  lemma {:induction false} PartsOne(pc: seq<Col>, n: nat, x: nat, k: nat)
    requires Wide(pc, n) && x < n && k < |pc| && pc[k].present[x]
    ensures Parts(pc, n, x) >= 1
    ensures (forall q :: 0 <= q < |pc| && q != k ==> !pc[q].present[x]) ==>
      Parts(pc, n, x) == 1 && LastKind(pc, n, x) == pc[k].KindFor(x)
    decreases |pc|
  {
    var front := pc[..|pc| - 1];
    if k < |front| {
      PartsOne(front, n, x, k);
    } else if forall q :: 0 <= q < |pc| && q != k ==> !pc[q].present[x] {
      PartsNone(front, n, x);
    }
  }

  lemma {:induction false} PartsNone(pc: seq<Col>, n: nat, x: nat)
    requires Wide(pc, n) && x < n && forall q :: 0 <= q < |pc| ==> !pc[q].present[x]
    ensures Parts(pc, n, x) == 0
  {
    if pc != [] {
      PartsNone(pc[..|pc| - 1], n, x);
    }
  }

  lemma {:induction false} PartsTwo(pc: seq<Col>, n: nat, x: nat, a: nat, b: nat)
    requires Wide(pc, n) && x < n && a < b < |pc| && pc[a].present[x] && pc[b].present[x]
    ensures Parts(pc, n, x) >= 2
    decreases |pc|
  {
    var front := pc[..|pc| - 1];
    if b < |front| {
      PartsTwo(front, n, x, a, b);
    } else {
      PartsOne(front, n, x, a);
    }
  }

  lemma {:induction false} FoldedRegion(pc: seq<Col>, mt: seq<Tok>, m: nat, n: nat, present: seq<bool>, values: seq<Value>, text: seq<Byte>, k: Kind)
    requires m < n && ColsOk(pc, n, m) && Wide(pc, n) && Gathered(pc, n, present, values, true, n)
    ensures Folded(pc, mt, [Region(text, present[m := true], values + [Value(m, k, Join(mt))], false)], m, n)
  {
    hide Render, Join, Erased, Find, Parts, LastKind;
    var c := Region(text, present, values, false);
    var c' := c.Take(m, k, Join(mt), true);
    AbsentAfter(pc, n, m, present, values);
    forall x: nat | x < n
      ensures Render([c'], n, x) == if x == m then Join(mt) else Render(pc, n, x)
    {
      RegionShows(pc, n, present, values, true, text, false, x);
      TakeShows(c, m, n, k, Join(mt), true, x);
      RenderOne(c', n, x);
    }
    TakeShows(c, m, n, k, Join(mt), true, m);
  }

  /** No later member is in a region of columns it is absent from. */
  lemma AbsentAfter(pc: seq<Col>, n: nat, m: nat, present: seq<bool>, values: seq<Value>)
    requires m < n && ColsOk(pc, n, m) && Wide(pc, n) && Gathered(pc, n, present, values, true, n)
    ensures ColOk(Region([], present, values, false), n, m)
  {
    hide Render, Find;
    forall x: nat | m <= x < n
      ensures !present[x]
    {
      assert GatheredFor(pc, n, present, values, true, x);
      NoParts(pc, m, n, x);
    }
  }

  lemma {:induction false} NoParts(pc: seq<Col>, m: nat, n: nat, x: nat)
    requires ColsOk(pc, n, m) && Wide(pc, n) && m <= x < n
    ensures Parts(pc, n, x) == 0
  {
    if pc != [] {
      NoParts(pc[..|pc| - 1], m, n, x);
    }
  }

  // ----- Between two matches

  /** The first token that is not a run of blanks, or the length. */
  function FirstWord(mt: seq<Tok>): (f: nat)
    ensures f <= |mt| && (f < |mt| ==> mt[f].kind != Space) && forall k :: 0 <= k < f ==> mt[k].kind == Space
  {
    if mt == [] || mt[0].kind != Space then 0 else FirstWord(mt[1..]) + 1
  }

  function Words(mt: seq<Tok>): nat {
    if mt == [] then 0 else (if mt[0].kind == Space then 0 else 1) + Words(mt[1..])
  }

  function FirstCol(pc: seq<Col>): (f: nat)
    ensures f <= |pc| && (f < |pc| ==> pc[f].kind != Space) && forall k :: 0 <= k < f ==> pc[k].kind == Space
  {
    if pc == [] || pc[0].kind != Space then 0 else FirstCol(pc[1..]) + 1
  }

  lemma {:induction false} NoWords(mt: seq<Tok>)
    requires Words(mt) == 0 && Tokenized(mt)
    ensures Blank(Join(mt))
  {
    if mt != [] {
      NoWords(mt[1..]);
      JoinConcat([mt[0]], mt[1..]);
      JoinOne(mt[0]);
      assert [mt[0]] + mt[1..] == mt;
    }
  }

  /** A single word among blanks reads, without blanks, as the word. */
  lemma {:induction false} OneWord(mt: seq<Tok>)
    requires Words(mt) == 1 && Tokenized(mt)
    ensures FirstWord(mt) < |mt| && Erased(mt[FirstWord(mt)].text) == Erased(Join(mt))
  {
    hide Join, Erased, TokOk;
    assert [mt[0]] + mt[1..] == mt;
    JoinConcat([mt[0]], mt[1..]);
    JoinOne(mt[0]);
    ErasedConcat(mt[0].text, Join(mt[1..]));
    if mt[0].kind == Space {
      OneWord(mt[1..]);
      SpaceIsBlank(mt[0]);
      ErasedBlank(mt[0].text);
    } else {
      NoWords(mt[1..]);
      ErasedBlank(Join(mt[1..]));
    }
  }

  lemma SpaceIsBlank(t: Tok)
    requires TokOk(t) && t.kind == Space
    ensures Blank(t.text)
  {
  }

  function NewCols(mt: seq<Tok>, m: nat, n: nat): seq<Col> {
    if mt == [] then [] else NewCols(mt[..|mt| - 1], m, n) + [FromTok(mt[|mt| - 1], m, n)]
  }

  /** New columns, present for this member alone, read as its tokens. */
  lemma {:induction false} FoldedNews(mt: seq<Tok>, m: nat, n: nat)
    requires m < n && Tokenized(mt)
    ensures Folded([], mt, NewCols(mt, m, n), m, n)
  {
    hide Folded, FromTok, TokOk;
    if mt == [] {
      FoldedNothing(m, n);
    } else {
      var z := mt[..|mt| - 1];
      FoldedNews(z, m, n);
      FoldedNew(mt[|mt| - 1], m, n);
      FoldedConcat([], z, NewCols(z, m, n), [], [mt[|mt| - 1]], [FromTok(mt[|mt| - 1], m, n)], m, n);
      var none: seq<Col> := [];
      assert z + [mt[|mt| - 1]] == mt && none + none == none;
    }
  }

  /** One column against a run: its first word is the substitution, the rest is new. */
  lemma {:induction false} FoldedFirst(c: Col, mt: seq<Tok>, f: nat, m: nat, n: nat)
    requires m < n && ColOk(c, n, m) && Tokenized(mt) && f < |mt|
    ensures |c.present| == n
    ensures Folded([c], mt, NewCols(mt[..f], m, n) + [c.Take(m, mt[f].kind, mt[f].text, true)] + NewCols(mt[f + 1..], m, n), m, n)
  {
    hide Folded, TokOk, Join, Erased, ColOk;
    OkWidth(c, n, m);
    var c' := c.Take(m, mt[f].kind, mt[f].text, true);
    var before, after := NewCols(mt[..f], m, n), NewCols(mt[f + 1..], m, n);
    FoldedNews(mt[..f], m, n);
    FoldedNews(mt[f + 1..], m, n);
    JoinOne(mt[f]);
    FoldedTake(c, [mt[f]], m, n, mt[f].kind, mt[f].text, true);
    FoldedConcat([], mt[..f], before, [c], [mt[f]], [c'], m, n);
    FoldedConcat([] + [c], mt[..f] + [mt[f]], before + [c'], [], mt[f + 1..], after, m, n);
    assert [] + [c] + [] == [c] && mt[..f] + [mt[f]] + mt[f + 1..] == mt;
  }

  /** A run against one word: one column takes it, the others are absent. */
  lemma {:induction false} FoldedMirror(pc: seq<Col>, mt: seq<Tok>, f: nat, k: Kind, t: seq<Byte>, m: nat, n: nat)
    requires m < n && ColsOk(pc, n, m) && f < |pc| && Erased(t) == Erased(Join(mt))
    ensures |pc[f].present| == n
    ensures Folded(pc, mt, pc[f := pc[f].Take(m, k, t, true)], m, n)
  {
    hide Folded, Erased, ColOk;
    OkWidth(pc[f], n, m);
    var c' := pc[f].Take(m, k, t, true);
    NothingJoined();
    FoldedAbsent(pc[..f], [], m, n);
    FoldedAbsent(pc[f + 1..], [], m, n);
    FoldedTake(pc[f], mt, m, n, k, t, true);
    FoldedConcat(pc[..f], [], pc[..f], [pc[f]], mt, [c'], m, n);
    FoldedConcat(pc[..f] + [pc[f]], [] + mt, pc[..f] + [c'], pc[f + 1..], [], pc[f + 1..], m, n);
    assert pc[..f] + [pc[f]] + pc[f + 1..] == pc && [] + mt + [] == mt;
    assert pc[..f] + [c'] + pc[f + 1..] == pc[f := c'];
  }

  function WordOr0(mt: seq<Tok>): (f: nat)
    requires mt != []
    ensures f < |mt|
  {
    if FirstWord(mt) < |mt| then FirstWord(mt) else 0
  }

  function ColOr0(pc: seq<Col>): (f: nat)
    requires pc != []
    ensures f < |pc|
  {
    if FirstCol(pc) < |pc| then FirstCol(pc) else 0
  }

  /** One free-text column in place of many: what each member had there, and the new run. */
  ghost predicate IsRegion(pc: seq<Col>, mt: seq<Tok>, m: nat, n: nat, c: Col)
    requires Wide(pc, n) && pc != [] && m < n
  {
    exists present, values ::
      && Gathered(pc, n, present, values, true, n)
      && c == Region(pc[0].text, present[m := true], values + [Value(m, if |mt| == 1 then mt[0].kind else Word, Join(mt))], false)
  }

  /** Which columns a gap becomes, branch by branch. */
  ghost predicate Outcome(pc: seq<Col>, mt: seq<Tok>, m: nat, n: nat, out: seq<Col>)
    requires Wide(pc, n) && m < n
  {
    if pc == [] then out == NewCols(mt, m, n)
    else if mt == [] then out == pc
    else if |pc| == 1 && pc[0].region then out == [pc[0].Take(m, Word, Join(mt), false)]
    else if WordForWord(pc, mt) then
      |out| == |pc| && forall k :: 0 <= k < |pc| ==> out[k] == pc[k].Take(m, mt[k].kind, mt[k].text, true)
    else if |pc| == 1 then
      var f := WordOr0(mt);
      out == NewCols(mt[..f], m, n) + [pc[0].Take(m, mt[f].kind, mt[f].text, true)] + NewCols(mt[f + 1..], m, n)
    else if Words(mt) == 1 then
      var f, w := ColOr0(pc), WordOr0(mt);
      out == pc[f := pc[f].Take(m, mt[w].kind, mt[w].text, true)]
    else |out| == 1 && IsRegion(pc, mt, m, n, out[0])
  }

  /** A differently shaped run. */
  method Collapse(pc: seq<Col>, mt: seq<Tok>, m: nat, n: nat) returns (out: seq<Col>)
    requires m < n && ColsOk(pc, n, m) && Tokenized(mt) && pc != [] && mt != []
    requires !(|pc| == 1 && pc[0].region) && !WordForWord(pc, mt)
    ensures Folded(pc, mt, out, m, n)
    ensures Wide(pc, n) && Outcome(pc, mt, m, n, out)
  {
    hide Folded, ColOk, TokOk, Join, Erased, Gathered, Wide, NewCols;
    OkIsWide(pc, n, m);
    WidthOf(pc, n);
    if |pc| == 1 {
      var c := pc[0];
      var f := FirstWord(mt);
      f := if f < |mt| then f else 0;
      FoldedFirst(c, mt, f, m, n);
      assert pc == [c];
      out := NewCols(mt[..f], m, n) + [c.Take(m, mt[f].kind, mt[f].text, true)] + NewCols(mt[f + 1..], m, n);
      return;
    }
    if Words(mt) == 1 {
      OneWord(mt);
      var tok := mt[FirstWord(mt)];
      var first := FirstCol(pc);
      first := if first < |pc| then first else 0;
      FoldedMirror(pc, mt, first, tok.kind, tok.text, m, n);
      out := [];
      var k := 0;
      while k < |pc|
        invariant 0 <= k <= |pc| && out == pc[first := pc[first].Take(m, tok.kind, tok.text, true)][..k]
      {
        out := out + [if k == first then pc[k].Take(m, tok.kind, tok.text, true) else pc[k]];
        k := k + 1;
      }
      assert out == pc[first := pc[first].Take(m, tok.kind, tok.text, true)];
      return;
    }
    var present, values := Gather(pc, n, true);
    var kind := if |mt| == 1 then mt[0].kind else Word;
    FoldedRegion(pc, mt, m, n, present, values, pc[0].text, kind);
    WideOf(pc, n, present, values);
    out := [Region(pc[0].text, present[m := true], values + [Value(m, kind, Join(mt))], false)];
    assert IsRegion(pc, mt, m, n, out[0]);
  }

  lemma WidthOf(pc: seq<Col>, n: nat)
    requires Wide(pc, n)
    ensures forall k :: 0 <= k < |pc| ==> |pc[k].present| == n
  {
  }

  lemma WideOf(pc: seq<Col>, n: nat, present: seq<bool>, values: seq<Value>)
    requires Wide(pc, n) && Gathered(pc, n, present, values, true, n)
    ensures |present| == n
  {
  }

  lemma {:induction false} NoNews(m: nat, n: nat)
    ensures NewCols([], m, n) == []
  {
  }

  predicate WordForWord(pc: seq<Col>, mt: seq<Tok>) {
    |pc| == |mt| && forall k :: 0 <= k < |pc| ==> pc[k].kind != Space && mt[k].kind != Space
  }

  /** One gap between two matches: pivot columns against the member's tokens. */
  method Gap(pc: seq<Col>, mt: seq<Tok>, m: nat, n: nat) returns (out: seq<Col>)
    requires m < n && ColsOk(pc, n, m) && Tokenized(mt)
    ensures Folded(pc, mt, out, m, n)
    ensures Wide(pc, n) && Outcome(pc, mt, m, n, out)
  {
    hide Folded, ColOk, TokOk, Join, Erased, NewCols, Wide, IsRegion;
    NothingJoined();
    OkIsWide(pc, n, m);
    WidthOf(pc, n);
    NoNews(m, n);
    if pc == [] && mt == [] {
      FoldedNothing(m, n);
      out := [];
    } else if pc == [] {
      FoldedNews(mt, m, n);
      out := NewCols(mt, m, n);
    } else if mt == [] {
      FoldedAbsent(pc, mt, m, n);
      out := pc;
    } else if |pc| == 1 && pc[0].region {
      OkWidth(pc[0], n, m);
      FoldedTake(pc[0], mt, m, n, Word, Join(mt), false);
      assert pc == [pc[0]];
      out := [pc[0].Take(m, Word, Join(mt), false)];
    } else if WordForWord(pc, mt) {
      out := [];
      var k := 0;
      FoldedNothing(m, n);
      while k < |pc|
        invariant 0 <= k <= |pc| && Folded(pc[..k], mt[..k], out, m, n)
        invariant |out| == k && forall x :: 0 <= x < k ==> out[x] == pc[x].Take(m, mt[x].kind, mt[x].text, true)
      {
        OkWidth(pc[k], n, m);
        JoinOne(mt[k]);
        FoldedTake(pc[k], [mt[k]], m, n, mt[k].kind, mt[k].text, true);
        FoldedConcat(pc[..k], mt[..k], out, [pc[k]], [mt[k]], [pc[k].Take(m, mt[k].kind, mt[k].text, true)], m, n);
        assert pc[..k] + [pc[k]] == pc[..k + 1] && mt[..k] + [mt[k]] == mt[..k + 1];
        out := out + [pc[k].Take(m, mt[k].kind, mt[k].text, true)];
        k := k + 1;
      }
      assert pc[..|pc|] == pc && mt[..|pc|] == mt;
    } else {
      out := Collapse(pc, mt, m, n);
    }
  }

  // ----- One member onto the columns

  function Pairing(cols: seq<Col>, toks: seq<Tok>): A.Problem {
    A.Problem(|cols|, |toks|,
              (i: nat, j: nat) => if i < |cols| && j < |toks| then cols[i].Weight(toks[j]) else 0,
              (i: nat, j: nat) => i < |cols| && j < |toks| && cols[i].kind != Space && !cols[i].region && toks[j].kind != Space)
  }

  /** A column and a token match as they weigh, and may stand for each other unless one is
      blank or the column a region. */
  lemma PairingMeans(cols: seq<Col>, toks: seq<Tok>, i: nat, j: nat)
    requires i < |cols| && j < |toks|
    ensures var p := Pairing(cols, toks);
      && p.n == |cols| && p.m == |toks| && p.weight(i, j) == cols[i].Weight(toks[j])
      && (p.subst(i, j) <==> !(cols[i].kind == Space || cols[i].region || toks[j].kind == Space))
  {
  }

  /** The columns not yet consumed. */
  predicate Left(cols: seq<Col>, left: seq<Option<Col>>, from: nat) {
    |left| == |cols| && forall k :: 0 <= k < |cols| ==> left[k] == if k < from then None else Some(cols[k])
  }

  /** Taking a stretch of columns out; each is still there to be taken. */
  method TakeRange(cols: seq<Col>, left: seq<Option<Col>>, from: nat, to: nat) returns (pc: seq<Col>, rest: seq<Option<Col>>)
    requires from <= to <= |cols| && Left(cols, left, from)
    ensures pc == cols[from..to] && Left(cols, rest, to)
  {
    pc, rest := [], left;
    var i := from;
    while i < to
      invariant from <= i <= to && pc == cols[from..i] && Left(cols, rest, i)
    {
      pc := pc + [rest[i].value];
      rest := rest[i := None];
      i := i + 1;
    }
  }

  /** The matches: in range, strictly increasing on both sides, and of some weight. */
  ghost predicate Matches(cols: seq<Col>, toks: seq<Tok>, pairs: seq<(nat, nat)>) {
    && (forall a :: 0 <= a < |pairs| ==> pairs[a].0 < |cols| && pairs[a].1 < |toks| && cols[pairs[a].0].Weight(toks[pairs[a].1]) > 0)
    && A.Increasing(pairs)
  }

  method Match(cols: seq<Col>, toks: seq<Tok>) returns (pairs: seq<(nat, nat)>)
    ensures Matches(cols, toks, pairs) && A.MatchesOfBest(Pairing(cols, toks), pairs)
  {
    hide A.Pairs, A.Chosen, A.Increasing, A.MatchesOfBest;
    pairs := A.Align(Pairing(cols, toks));
    A.AlignPromise(Pairing(cols, toks));
  }

  /** The step of the fold at one match: the gap before it, then the match. */
  lemma FoldedStep(cols: seq<Col>, toks: seq<Tok>, pi: nat, mj: nat, i: nat, j: nat, out: seq<Col>, between: seq<Col>, m: nat, n: nat)
    requires pi <= i < |cols| && mj <= j < |toks| && m < n
    requires Folded(cols[..pi], toks[..mj], out, m, n)
    requires Folded(cols[pi..i], toks[mj..j], between, m, n)
    requires ColOk(cols[i], n, m) && TokOk(toks[j]) && cols[i].Weight(toks[j]) > 0
    ensures |cols[i].present| == n
    ensures Folded(cols[..i + 1], toks[..j + 1], out + between + [Matched(cols[i], toks[j], m)], m, n)
  {
    hide Folded, ColOk, TokOk;
    FoldedConcat(cols[..pi], toks[..mj], out, cols[pi..i], toks[mj..j], between, m, n);
    OkWidth(cols[i], n, m);
    FoldedMatch(cols[i], toks[j], m, n);
    FoldedConcat(cols[..pi] + cols[pi..i], toks[..mj] + toks[mj..j], out + between, [cols[i]], [toks[j]], [Matched(cols[i], toks[j], m)], m, n);
    assert cols[..pi] + cols[pi..i] + [cols[i]] == cols[..i + 1] && toks[..mj] + toks[mj..j] + [toks[j]] == toks[..j + 1];
  }

  lemma NextPair(pairs: seq<(nat, nat)>, k: nat)
    requires A.Increasing(pairs) && k + 1 < |pairs|
    ensures pairs[k].0 < pairs[k + 1].0 && pairs[k].1 < pairs[k + 1].1
  {
  }

  // ----- Where the matches stand

  /** A matched column: present for the member too, otherwise as it was, the token recorded
      if it is a slot. */
  predicate IsMatch(c: Col, t: Tok, m: nat, out: Col)
    requires m < |c.present|
  {
    && out.kind == c.kind && out.text == c.text && out.variable == c.variable && out.region == c.region
    && out.optional == c.optional && out.present == c.present[m := true]
    && out.values == if c.variable || c.region || c.kind.IsVariable() then c.values + [Value(m, t.kind, t.text)] else c.values
  }

  /** Where the stretch before the `k`-th match begins: in the columns, in the tokens, and in
      what comes out. */
  function After(pairs: seq<(nat, nat)>, k: nat): (nat, nat)
    requires k <= |pairs|
  {
    if k == 0 then (0, 0) else (pairs[k - 1].0 + 1, pairs[k - 1].1 + 1)
  }

  function Begin(at: seq<nat>, k: nat): nat
    requires k <= |at|
  {
    if k == 0 then 0 else at[k - 1] + 1
  }

  /** The `k`-th match stands at `at[k]`, and before it what the gap becomes. */
  ghost predicate PlacedAt(cols: seq<Col>, toks: seq<Tok>, pairs: seq<(nat, nat)>, at: seq<nat>, out: seq<Col>, m: nat, n: nat, k: nat)
    requires Wide(cols, n) && m < n && k < |pairs| && k < |at|
  {
    var (pi, mj) := After(pairs, k);
    var (i, j) := pairs[k];
    && pi <= i < |cols| && mj <= j < |toks| && Begin(at, k) <= at[k] < |out|
    && IsMatch(cols[i], toks[j], m, out[at[k]])
    && Outcome(cols[pi..i], toks[mj..j], m, n, out[Begin(at, k)..at[k]])
  }

  /** What the gap behind the last match becomes ends it. */
  ghost predicate PlacedLast(cols: seq<Col>, toks: seq<Tok>, pairs: seq<(nat, nat)>, at: seq<nat>, out: seq<Col>, m: nat, n: nat)
    requires Wide(cols, n) && m < n && |at| == |pairs|
  {
    var (pi, mj) := After(pairs, |pairs|);
    pi <= |cols| && mj <= |toks| && Begin(at, |at|) <= |out| && Outcome(cols[pi..], toks[mj..], m, n, out[Begin(at, |at|)..])
  }

  /** The columns follow the matches of a best alignment: each match at its place, in order,
      and between two of them, and at both ends, what the gaps become. */
  ghost predicate Follows(cols: seq<Col>, toks: seq<Tok>, pairs: seq<(nat, nat)>, at: seq<nat>, out: seq<Col>, m: nat, n: nat) {
    && Wide(cols, n) && m < n && |at| == |pairs| && A.MatchesOfBest(Pairing(cols, toks), pairs)
    && (forall k :: 0 <= k < |pairs| ==> PlacedAt(cols, toks, pairs, at, out, m, n, k))
    && PlacedLast(cols, toks, pairs, at, out, m, n)
  }

  lemma MatchedIs(c: Col, t: Tok, m: nat)
    requires m < |c.present|
    ensures IsMatch(c, t, m, Matched(c, t, m))
  {
  }

  /** Placing one more match behind a gap leaves the earlier ones where they stand. */
  lemma PlacedMore(cols: seq<Col>, toks: seq<Tok>, pairs: seq<(nat, nat)>, at: seq<nat>, out: seq<Col>, between: seq<Col>, c: Col, m: nat, n: nat)
    requires Wide(cols, n) && m < n && |at| < |pairs| && Begin(at, |at|) == |out|
    requires forall a :: 0 <= a < |at| ==> PlacedAt(cols, toks, pairs, at, out, m, n, a)
    requires var (pi, mj) := After(pairs, |at|);
      var (i, j) := pairs[|at|];
      pi <= i < |cols| && mj <= j < |toks| && IsMatch(cols[i], toks[j], m, c) && Outcome(cols[pi..i], toks[mj..j], m, n, between)
    ensures var at', out' := at + [|out| + |between|], out + between + [c];
      && Begin(at', |at'|) == |out'|
      && forall a :: 0 <= a < |at'| ==> PlacedAt(cols, toks, pairs, at', out', m, n, a)
  {
    hide IsMatch, Outcome;
    var at', out' := at + [|out| + |between|], out + between + [c];
    forall a | 0 <= a < |at'| ensures PlacedAt(cols, toks, pairs, at', out', m, n, a) {
      if a < |at| {
        assert PlacedAt(cols, toks, pairs, at, out, m, n, a);
        assert Begin(at', a) == Begin(at, a) && at'[a] == at[a];
        assert out'[Begin(at, a)..at[a]] == out[Begin(at, a)..at[a]];
      } else {
        assert out'[|out|..|out| + |between|] == between;
      }
    }
  }

  lemma PlacedEnd(cols: seq<Col>, toks: seq<Tok>, pairs: seq<(nat, nat)>, at: seq<nat>, out: seq<Col>, last: seq<Col>, m: nat, n: nat)
    requires Wide(cols, n) && m < n && |at| == |pairs| && Begin(at, |at|) == |out|
    requires forall a :: 0 <= a < |at| ==> PlacedAt(cols, toks, pairs, at, out, m, n, a)
    requires A.MatchesOfBest(Pairing(cols, toks), pairs)
    requires var (pi, mj) := After(pairs, |pairs|);
      pi <= |cols| && mj <= |toks| && Outcome(cols[pi..], toks[mj..], m, n, last)
    ensures Follows(cols, toks, pairs, at, out + last, m, n)
  {
    hide IsMatch, Outcome, A.MatchesOfBest;
    var out' := out + last;
    forall a | 0 <= a < |at| ensures PlacedAt(cols, toks, pairs, at, out', m, n, a) {
      assert PlacedAt(cols, toks, pairs, at, out, m, n, a);
      assert out'[Begin(at, a)..at[a]] == out[Begin(at, a)..at[a]];
    }
    assert out'[|out|..] == last;
  }

  /** What has come out after `k` matches: everything up to the last is folded in and in
      its place. */
  ghost predicate Partly(cols: seq<Col>, toks: seq<Tok>, pairs: seq<(nat, nat)>, at: seq<nat>, out: seq<Col>, m: nat, n: nat) {
    && Wide(cols, n) && m < n && |at| <= |pairs| && Begin(at, |at|) == |out|
    && (forall a :: 0 <= a < |at| ==> PlacedAt(cols, toks, pairs, at, out, m, n, a))
    && var (pi, mj) := After(pairs, |at|);
      && pi <= |cols| && mj <= |toks| && (|at| < |pairs| ==> pi <= pairs[|at|].0 && mj <= pairs[|at|].1)
      && Folded(cols[..pi], toks[..mj], out, m, n)
  }

  lemma NoneYet(cols: seq<Col>, toks: seq<Tok>, pairs: seq<(nat, nat)>, m: nat, n: nat)
    requires Wide(cols, n) && m < n
    ensures Partly(cols, toks, pairs, [], [], m, n)
  {
    hide Folded;
    FoldedNothing(m, n);
    assert cols[..0] == [] && toks[..0] == [];
  }

  lemma OneMore(cols: seq<Col>, toks: seq<Tok>, pairs: seq<(nat, nat)>, at: seq<nat>, out: seq<Col>, between: seq<Col>, m: nat, n: nat)
    requires ColsOk(cols, n, m) && Tokenized(toks) && Matches(cols, toks, pairs)
    requires Partly(cols, toks, pairs, at, out, m, n) && |at| < |pairs|
    requires var (pi, mj) := After(pairs, |at|);
      var (i, j) := pairs[|at|];
      && Folded(cols[pi..i], toks[mj..j], between, m, n) && Outcome(cols[pi..i], toks[mj..j], m, n, between)
    ensures var (i, j) := pairs[|at|];
      && |cols[i].present| == n
      && Partly(cols, toks, pairs, at + [|out| + |between|], out + between + [Matched(cols[i], toks[j], m)], m, n)
  {
    hide Folded, ColOk, TokOk, Matched, IsMatch, Outcome, PlacedAt, A.Increasing;
    var k := |at|;
    var (pi, mj) := After(pairs, k);
    var (i, j) := pairs[k];
    FoldedStep(cols, toks, pi, mj, i, j, out, between, m, n);
    MatchedIs(cols[i], toks[j], m);
    PlacedMore(cols, toks, pairs, at, out, between, Matched(cols[i], toks[j], m), m, n);
    if k + 1 < |pairs| {
      NextPair(pairs, k);
    }
  }

  lemma NoMore(cols: seq<Col>, toks: seq<Tok>, pairs: seq<(nat, nat)>, at: seq<nat>, out: seq<Col>, last: seq<Col>, m: nat, n: nat)
    requires Partly(cols, toks, pairs, at, out, m, n) && |at| == |pairs| && A.MatchesOfBest(Pairing(cols, toks), pairs)
    requires var (pi, mj) := After(pairs, |at|);
      Folded(cols[pi..], toks[mj..], last, m, n) && Outcome(cols[pi..], toks[mj..], m, n, last)
    ensures Folded(cols, toks, out + last, m, n) && Follows(cols, toks, pairs, at, out + last, m, n)
  {
    hide Folded, Outcome, PlacedAt, Pairing, A.MatchesOfBest, Follows;
    var (pi, mj) := After(pairs, |at|);
    FoldedConcat(cols[..pi], toks[..mj], out, cols[pi..], toks[mj..], last, m, n);
    assert cols[..pi] + cols[pi..] == cols && toks[..mj] + toks[mj..] == toks;
    PlacedEnd(cols, toks, pairs, at, out, last, m, n);
  }

  lemma PartlyWhere(cols: seq<Col>, toks: seq<Tok>, pairs: seq<(nat, nat)>, at: seq<nat>, out: seq<Col>, m: nat, n: nat)
    requires Partly(cols, toks, pairs, at, out, m, n)
    ensures var (pi, mj) := After(pairs, |at|);
      pi <= |cols| && mj <= |toks| && (|at| < |pairs| ==> pi <= pairs[|at|].0 && mj <= pairs[|at|].1)
  {
    hide Folded, PlacedAt;
  }

  /** Aligns a member's tokens onto the columns. */
  method AlignMember(cols: seq<Col>, toks: seq<Tok>, m: nat, n: nat) returns (out: seq<Col>)
    requires m < n && ColsOk(cols, n, m) && Tokenized(toks)
    ensures Folded(cols, toks, out, m, n)
    ensures exists pairs, at :: Follows(cols, toks, pairs, at, out, m, n)
  {
    hide Folded, ColOk, TokOk, Matched, Outcome, Pairing, Follows, Partly, A.MatchesOfBest, A.Increasing, Wide;
    OkIsWide(cols, n, m);
    var pairs := Match(cols, toks);
    var left := seq(|cols|, k requires 0 <= k < |cols| => Some(cols[k]));
    out := [];
    ghost var at: seq<nat> := [];
    var pi, mj := 0, 0;
    NoneYet(cols, toks, pairs, m, n);
    var k := 0;
    while k < |pairs|
      invariant 0 <= k <= |pairs| && k == |at| && (pi, mj) == After(pairs, k)
      invariant pi <= |cols| && Left(cols, left, pi)
      invariant Partly(cols, toks, pairs, at, out, m, n)
    {
      PartlyWhere(cols, toks, pairs, at, out, m, n);
      var (i, j) := pairs[k];
      var pc;
      pc, left := TakeRange(cols, left, pi, i);
      var between := Gap(pc, toks[mj..j], m, n);
      var c := left[i].value;
      left := left[i := None];
      OneMore(cols, toks, pairs, at, out, between, m, n);
      at := at + [|out| + |between|];
      out := out + between + [Matched(c, toks[j], m)];
      pi, mj := i + 1, j + 1;
      k := k + 1;
    }
    PartlyWhere(cols, toks, pairs, at, out, m, n);
    var pc;
    pc, left := TakeRange(cols, left, pi, |cols|);
    assert pc == cols[pi..];
    var last := Gap(pc, toks[mj..], m, n);
    NoMore(cols, toks, pairs, at, out, last, m, n);
    out := out + last;
  }

  // ----- Equal lines

  /** One constant or typed column for each token, no slot opened, present for the first `m`
      members; a typed one has the value of each of them. */
  ghost predicate Plain(cols: seq<Col>, toks: seq<Tok>, m: nat) {
    |cols| == |toks| && forall k :: 0 <= k < |cols| ==> PlainCol(cols[k], toks[k], m)
  }

  predicate PlainCol(c: Col, t: Tok, m: nat) {
    && c.kind == t.kind && c.text == t.text && !c.variable && !c.region && !c.optional
    && m <= |c.present| && (forall x :: 0 <= x < m ==> c.present[x])
    && c.values == if t.kind.Quoted? || t.kind.Chain? || t.kind.Atom? then Repeated(t, m) else []
  }

  function Repeated(t: Tok, m: nat): seq<Value> {
    if m == 0 then [] else Repeated(t, m - 1) + [Value(m - 1, t.kind, t.text)]
  }

  lemma PlainWeighs(c: Col, t: Tok, m: nat, u: Tok)
    requires PlainCol(c, t, m)
    ensures 0 < c.Weight(t) && c.Weight(u) <= c.Weight(t)
  {
  }

  lemma {:induction false} PlainIsDiagonal(cols: seq<Col>, toks: seq<Tok>, m: nat)
    requires Plain(cols, toks, m)
    ensures A.Diagonal(Pairing(cols, toks))
  {
    hide PlainCol;
    forall i, j | 0 <= i < |cols| && 0 <= j < |toks|
      ensures 0 < cols[i].Weight(toks[i]) && cols[i].Weight(toks[j]) <= cols[i].Weight(toks[i])
    {
      PlainWeighs(cols[i], toks[i], m, toks[j]);
    }
  }

  /** Between tokens that all match at their own places there is nothing. */
  lemma {:induction false} NothingBetween(pairs: seq<(nat, nat)>, cols: seq<Col>, toks: seq<Tok>, k: nat, m: nat, n: nat, gap: seq<Col>)
    requires |cols| == |toks| && pairs == A.Same(|cols|, 0) && k <= |pairs| && Wide(cols, n) && m < n
    requires var (pi, mj) := After(pairs, k);
      pi <= k && mj <= k && Outcome(cols[pi..k], toks[mj..k], m, n, gap)
    ensures After(pairs, k) == (k, k) && gap == []
  {
    hide NewCols, IsRegion;
    assert k > 0 ==> pairs[k - 1] == (k - 1, k - 1);
    assert After(pairs, k) == (k, k);
    assert cols[k..k] == [] && toks[k..k] == [];
    assert gap == NewCols([], m, n);
    NoNews(m, n);
  }

  lemma {:induction false} SameLine(cols: seq<Col>, toks: seq<Tok>, pairs: seq<(nat, nat)>, at: seq<nat>, out: seq<Col>, m: nat, n: nat)
    requires Plain(cols, toks, m) && Follows(cols, toks, pairs, at, out, m, n)
    ensures Plain(out, toks, m + 1)
  {
    hide PlainCol, Outcome, IsMatch, Pairing, A.MatchesOfBest, A.Diagonal;
    PlainIsDiagonal(cols, toks, m);
    PairingSize(cols, toks);
    A.DiagonalWins(Pairing(cols, toks), pairs);
    SamePlaces(cols, toks, pairs, at, out, m, n, |pairs|);
    assert cols[After(pairs, |pairs|).0..] == cols[After(pairs, |pairs|).0..|cols|];
    assert toks[After(pairs, |pairs|).1..] == toks[After(pairs, |pairs|).1..|toks|];
    NothingBetween(pairs, cols, toks, |pairs|, m, n, out[Begin(at, |at|)..]);
    forall k | 0 <= k < |out| ensures PlainCol(out[k], toks[k], m + 1) {
      SamePlaces(cols, toks, pairs, at, out, m, n, k);
      assert PlacedAt(cols, toks, pairs, at, out, m, n, k);
      PlainMatch(cols[k], toks[k], m, out[k]);
    }
  }

  lemma PairingSize(cols: seq<Col>, toks: seq<Tok>)
    ensures Pairing(cols, toks).n == |cols| && Pairing(cols, toks).m == |toks|
  {
  }

  lemma PlainMatch(c: Col, t: Tok, m: nat, out: Col)
    requires PlainCol(c, t, m) && m < |c.present| && IsMatch(c, t, m, out)
    ensures PlainCol(out, t, m + 1)
  {
    assert Repeated(t, m + 1) == Repeated(t, m) + [Value(m, t.kind, t.text)];
  }

  /** The matches stand one behind the other from the start. */
  lemma {:induction false} SamePlaces(cols: seq<Col>, toks: seq<Tok>, pairs: seq<(nat, nat)>, at: seq<nat>, out: seq<Col>, m: nat, n: nat, k: nat)
    requires |cols| == |toks| && pairs == A.Same(|cols|, 0) && Follows(cols, toks, pairs, at, out, m, n) && k <= |pairs|
    ensures Begin(at, k) == k && (k < |pairs| ==> at[k] == k)
    decreases k
  {
    hide IsMatch, Outcome, A.MatchesOfBest, Pairing;
    if k > 0 {
      SamePlaces(cols, toks, pairs, at, out, m, n, k - 1);
    }
    if k < |pairs| {
      assert PlacedAt(cols, toks, pairs, at, out, m, n, k);
      NothingBetween(pairs, cols, toks, k, m, n, out[Begin(at, k)..at[k]]);
    }
  }

  lemma {:induction false} NewCol(mt: seq<Tok>, m: nat, n: nat, k: nat)
    requires k < |mt|
    ensures |NewCols(mt, m, n)| == |mt| && NewCols(mt, m, n)[k] == FromTok(mt[k], m, n)
    decreases |mt|
  {
    NewColsLength(mt, m, n);
    if k < |mt| - 1 {
      NewCol(mt[..|mt| - 1], m, n, k);
      NewColsLength(mt[..|mt| - 1], m, n);
    } else {
      NewColsLength(mt[..|mt| - 1], m, n);
    }
  }

  lemma {:induction false} NewColsLength(mt: seq<Tok>, m: nat, n: nat)
    ensures |NewCols(mt, m, n)| == |mt|
  {
    if mt != [] {
      NewColsLength(mt[..|mt| - 1], m, n);
    }
  }

  /** The columns of the first line are plain. */
  lemma {:induction false} FirstIsPlain(toks: seq<Tok>, n: nat)
    requires n > 0
    ensures Plain(NewCols(toks, 0, n), toks, 1)
  {
    hide NewCols;
    NewColsLength(toks, 0, n);
    forall k | 0 <= k < |toks| ensures PlainCol(NewCols(toks, 0, n)[k], toks[k], 1) {
      NewCol(toks, 0, n, k);
      assert Repeated(toks[k], 1) == Repeated(toks[k], 0) + [Value(0, toks[k].kind, toks[k].text)];
    }
  }

  /** All members have the tokens of the first. */
  ghost predicate AllSame(members: seq<seq<Tok>>, upto: nat) {
    upto <= |members| && forall k :: 0 < k < upto ==> members[k] == members[0]
  }

  /** Every column onto the first line's: each member's line can be read back. Equal lines
      have one column for each token, and none of them a slot but typed ones. */
  method Consensus(members: seq<seq<Tok>>) returns (cols: seq<Col>)
    requires members != [] && forall k :: 0 <= k < |members| ==> Tokenized(members[k])
    ensures ColsOk(cols, |members|, |members|) && Wide(cols, |members|)
    ensures forall m: nat :: m < |members| ==> ReadsAs(cols, |members|, m, members[m])
    ensures AllSame(members, |members|) ==> Plain(cols, members[0], |members|)
  {
    hide Folded, ColOk, ReadsAs, Plain, Follows;
    var n := |members|;
    cols := NewCols(members[0], 0, n);
    FoldedNews(members[0], 0, n);
    Reads([], members[0], cols, 0, n);
    FirstIsPlain(members[0], n);
    var m := 1;
    while m < n
      invariant 1 <= m <= n && ColsOk(cols, n, m) && Wide(cols, n)
      invariant forall x: nat :: x < m ==> ReadsAs(cols, n, x, members[x])
      invariant AllSame(members, m) ==> Plain(cols, members[0], m)
    {
      var was := cols;
      cols := AlignMember(was, members[m], m, n);
      Reads(was, members[m], cols, m, n);
      if AllSame(members, m + 1) {
        ghost var pairs, at :| Follows(was, members[m], pairs, at, cols, m, n);
        SameLine(was, members[m], pairs, at, cols, m, n);
      }
      forall x: nat | x <= m
        ensures Wide(cols, n) && ReadsAs(cols, n, x, members[x])
      {
        if x < m {
          StillReads(was, members[m], cols, m, n, x, members[x]);
        }
      }
      m := m + 1;
    }
  }

  /** The member's line, up to blanks. */
  ghost predicate ReadsAs(cols: seq<Col>, n: nat, m: nat, line: seq<Tok>)
    requires Wide(cols, n) && m < n
  {
    Erased(Render(cols, n, m)) == Erased(Join(line))
  }

  lemma Reads(pc: seq<Col>, mt: seq<Tok>, out: seq<Col>, m: nat, n: nat)
    requires Folded(pc, mt, out, m, n)
    ensures m < n && Wide(out, n) && ColsOk(out, n, m + 1) && ReadsAs(out, n, m, mt)
  {
  }

  lemma StillReads(pc: seq<Col>, mt: seq<Tok>, out: seq<Col>, m: nat, n: nat, x: nat, line: seq<Tok>)
    requires Folded(pc, mt, out, m, n) && x < n && x != m && Wide(pc, n) && ReadsAs(pc, n, x, line)
    ensures Wide(out, n) && ReadsAs(out, n, x, line)
  {
    hide Erased, Join, Render, ColsOk;
    FoldedParts(pc, mt, out, m, n, x);
  }

  /** No line loses text: what the tokenizer cuts and the alignment folds, the columns read
      back, for every line of the cluster, up to spaces and tabs. */
  method ColumnsOf(lines: seq<seq<Byte>>, atomAt: AtomAt) returns (cols: seq<Col>)
    requires lines != [] && Bounded(atomAt)
    ensures Wide(cols, |lines|)
    ensures forall m: nat :: m < |lines| ==> Erased(Render(cols, |lines|, m)) == Erased(lines[m])
    ensures (forall k :: 0 <= k < |lines| ==> lines[k] == lines[0]) ==>
      exists toks :: TokensOf(lines[0], atomAt, toks) && Plain(cols, toks, |lines|)
  {
    hide Join, Erased, Render, ColOk, Bounded, Tokenized, Plain, StandingUpTo;
    var members := [];
    var k := 0;
    while k < |lines|
      invariant 0 <= k <= |lines| && |members| == k
      invariant forall i :: 0 <= i < k ==> Tokenized(members[i]) && TokensOf(lines[i], atomAt, members[i])
    {
      var toks := Tokenize(lines[k], atomAt);
      members := members + [toks];
      k := k + 1;
    }
    cols := Consensus(members);
    forall m: nat | m < |lines|
      ensures Erased(Render(cols, |lines|, m)) == Erased(lines[m])
    {
      assert ReadsAs(cols, |members|, m, members[m]);
    }
    if forall k :: 0 <= k < |lines| ==> lines[k] == lines[0] {
      forall k | 0 < k < |members| ensures members[k] == members[0] {
        TokensOnce(lines[0], atomAt, members[k], members[0]);
      }
      assert TokensOf(lines[0], atomAt, members[0]) && Plain(cols, members[0], |lines|);
    }
  }
}
