/** Columns of a cluster: what each member line has there, and what aligning one more
    token run with them may do without losing a member's text. */
module Columns {
  import opened Bytes
  import opened Tokens

  datatype Value = Value(member: nat, kind: Kind, text: seq<Byte>)

  datatype Col = Col(kind: Kind, text: seq<Byte>, present: seq<bool>, variable: bool, region: bool, values: seq<Value>, optional: bool) {
    predicate IsSlot() {
      variable || region || kind.IsVariable()
    }

    /** The first value recorded for a member. */
    function Recorded(m: nat): Option<Value> {
      Find(values, m)
    }

    function ValueFor(m: nat): Option<seq<Byte>>
      requires m < |present|
    {
      if !present[m] then None
      else match Recorded(m)
        case Some(v) => Some(v.text)
        case None => Some(text)
    }

    function KindFor(m: nat): Kind {
      match Recorded(m)
      case Some(v) => v.kind
      case None => kind
    }

    /** 0: no match; 1: a slot that takes a token of its family; 2: a typed match; 3: an
        exact constant. */
    function Weight(t: Tok): nat {
      if region then 0
      else if variable then
        if kind.Space? || t.kind.Space? then 0
        else if kind.Atom? && t.kind.Atom? then 1
        else if kind.Atom? || t.kind.Atom? then 0
        else if kind.Chain? && t.kind.Chain? then 1
        else if kind.Chain? || t.kind.Chain? then 0
        else 1
      else if !SameShape(kind, text, t.kind, t.text) then 0
      else if kind.Word? || kind.Punct? then 3
      else if kind.Space? then 1
      else 2
    }

    /** One more value for a member; `slot` tells whether the column becomes a slot. */
    function Take(m: nat, k: Kind, t: seq<Byte>, slot: bool): Col
      requires m < |present|
    {
      this.(variable := variable || slot, present := present[m := true], values := values + [Value(m, k, t)])
    }
  }

  predicate IpLike(k: T.SlotKind) {
    k.Ip? || k.Ipv4? || k.Ipv6?
  }

  predicate NumLike(k: T.SlotKind) {
    k.Int? || k.Float? || k.Port?
  }

  predicate SameShape(a: Kind, at: seq<Byte>, b: Kind, bt: seq<Byte>) {
    match (a, b)
    case (Space, Space) => true
    case (Quoted, Quoted) => true
    case (Chain, Chain) => true
    case (Word, Word) => at == bt
    case (Punct, Punct) => at == bt
    case (Atom(x), Atom(y)) => x == y || (IpLike(x) && IpLike(y)) || (NumLike(x) && NumLike(y))
    case _ => false
  }

  /** What weighs how much: a constant of the same text 3, a typed token of one family 2,
      blanks 1; against a slot that stands for different words, a token of its family 1;
      against a region nothing, and blanks match only blanks. */
  lemma WeightMeans(c: Col, t: Tok)
    ensures c.Weight(t) > 0 ==> !c.region && (c.kind == Space <==> t.kind == Space)
    ensures c.Weight(t) == 3 <==> !c.region && !c.variable && c.kind == t.kind && (c.kind == Word || c.kind == Punct) && c.text == t.text
    ensures c.Weight(t) == 2 <==> !c.region && !c.variable && c.kind != Space && c.kind.IsVariable() && OneFamily(c.kind, t.kind)
    ensures c.Weight(t) == 1 <==>
      || (!c.region && !c.variable && c.kind == Space && t.kind == Space)
      || (!c.region && c.variable && c.kind != Space && t.kind != Space && (c.kind.Atom? <==> t.kind.Atom?)
          && (!c.kind.Atom? ==> (c.kind == Chain <==> t.kind == Chain)))
    ensures c.Weight(t) <= 3
  {
  }

  /** Both quoted, both chains, or atoms of one type, or both addresses, or both numbers. */
  predicate OneFamily(a: Kind, b: Kind) {
    || (a == Quoted && b == Quoted) || (a == Chain && b == Chain)
    || (a.Atom? && b.Atom? && (a.atom == b.atom || {a.atom, b.atom} <= {T.Ip, T.Ipv4, T.Ipv6} || {a.atom, b.atom} <= {T.Int, T.Float, T.Port}))
  }

  function Find(values: seq<Value>, m: nat): Option<Value> {
    if values == [] then None else if values[0].member == m then Some(values[0]) else Find(values[1..], m)
  }

  lemma {:induction false} FindAppend(values: seq<Value>, v: Value, m: nat)
    ensures Find(values + [v], m) == if Find(values, m).Some? then Find(values, m) else if v.member == m then Some(v) else None
  {
    if values == [] {
      assert (values + [v])[1..] == [];
    } else {
      FindAppend(values[1..], v, m);
      assert (values + [v])[1..] == values[1..] + [v];
    }
  }

  lemma {:induction false} FindNone(values: seq<Value>, m: nat)
    requires forall k :: 0 <= k < |values| ==> values[k].member != m
    ensures Find(values, m).None?
  {
    if values != [] {
      FindNone(values[1..], m);
    }
  }

  function FromTok(t: Tok, m: nat, n: nat): Col {
    Col(t.kind, t.text, seq(n, x => x == m), false, false, if t.kind.IsVariable() then [Value(m, t.kind, t.text)] else [], false)
  }

  // ----- What a member's line reads

  /** What a column shows for a member; a member it is absent for shows nothing. */
  function Shown(c: Col, m: nat): seq<Byte>
    requires m < |c.present|
  {
    match c.ValueFor(m)
    case Some(v) => v
    case None => []
  }

  predicate Wide(cols: seq<Col>, n: nat) {
    forall k :: 0 <= k < |cols| ==> |cols[k].present| == n
  }

  function Render(cols: seq<Col>, n: nat, m: nat): seq<Byte>
    requires Wide(cols, n) && m < n
  {
    if cols == [] then [] else Shown(cols[0], m) + Render(cols[1..], n, m)
  }

  lemma {:induction false} RenderConcat(a: seq<Col>, b: seq<Col>, n: nat, m: nat)
    requires Wide(a, n) && Wide(b, n) && m < n
    ensures Wide(a + b, n) && Render(a + b, n, m) == Render(a, n, m) + Render(b, n, m)
  {
    hide Shown;
    if a == [] {
      assert a + b == b;
    } else {
      RenderConcat(a[1..], b, n, m);
      assert (a + b)[1..] == a[1..] + b;
      assert Shown(a[0], m) + Render(a[1..], n, m) + Render(b, n, m) == Shown(a[0], m) + (Render(a[1..], n, m) + Render(b, n, m));
    }
  }

  /** A text without its spaces and tabs. */
  function Erased(text: seq<Byte>): seq<Byte> {
    if text == [] then [] else (if IsBlank(text[0]) then [] else [text[0]]) + Erased(text[1..])
  }

  lemma {:induction false} ErasedConcat(a: seq<Byte>, b: seq<Byte>)
    ensures Erased(a + b) == Erased(a) + Erased(b)
  {
    if a == [] {
      assert a + b == b;
    } else {
      ErasedConcat(a[1..], b);
      assert (a + b)[1..] == a[1..] + b;
      var first := if IsBlank(a[0]) then [] else [a[0]];
      assert first + Erased(a[1..]) + Erased(b) == first + (Erased(a[1..]) + Erased(b));
    }
  }

  lemma {:induction false} ErasedBlank(a: seq<Byte>)
    requires Blank(a)
    ensures Erased(a) == []
  {
    if a != [] {
      ErasedBlank(a[1..]);
    }
  }

  lemma {:induction false} JoinConcat(a: seq<Tok>, b: seq<Tok>)
    ensures Join(a + b) == Join(a) + Join(b)
  {
    if b == [] {
      assert a + b == a;
    } else {
      var z := b[..|b| - 1];
      JoinConcat(a, z);
      assert (a + b)[..|a + b| - 1] == a + z;
      assert Join(a) + (Join(z) + b[|b| - 1].text) == Join(a) + Join(z) + b[|b| - 1].text;
    }
  }

  lemma JoinOne(t: Tok)
    ensures Join([t]) == t.text && Join([]) == []
  {
    assert [t][..0] == [];
  }

  // ----- Folding a member in

  /** A column after the first `m` of `n` members: nothing is said of later ones, and a
      column of blanks holds blanks. */
  predicate ColOk(c: Col, n: nat, m: nat) {
    && |c.present| == n
    && (forall x :: m <= x < n ==> !c.present[x])
    && (forall k :: 0 <= k < |c.values| ==> c.values[k].member < m)
    && (c.kind == Space ==> Blank(c.text))
  }

  ghost predicate ColsOk(cols: seq<Col>, n: nat, m: nat) {
    forall k :: 0 <= k < |cols| ==> ColOk(cols[k], n, m)
  }

  ghost predicate Same(pc: seq<Col>, out: seq<Col>, n: nat, x: nat)
    requires Wide(pc, n) && Wide(out, n)
  {
    x < n ==> Render(out, n, x) == Render(pc, n, x)
  }

  /** `out` is `pc` with the tokens of member `m` folded in: every other member still reads
      exactly what it read, and `m` reads its tokens, up to blanks. */
  ghost predicate Folded(pc: seq<Col>, mt: seq<Tok>, out: seq<Col>, m: nat, n: nat) {
    && m < n && ColsOk(pc, n, m) && ColsOk(out, n, m + 1) && Wide(pc, n) && Wide(out, n)
    && (forall x: nat :: x != m ==> Same(pc, out, n, x))
    && Erased(Render(out, n, m)) == Erased(Join(mt))
  }

  lemma OkIsWide(cols: seq<Col>, n: nat, m: nat)
    requires ColsOk(cols, n, m)
    ensures Wide(cols, n)
  {
  }

  lemma {:induction false} FoldedParts(pc: seq<Col>, mt: seq<Tok>, out: seq<Col>, m: nat, n: nat, x: nat)
    requires Folded(pc, mt, out, m, n) && x < n
    ensures Wide(pc, n) && Wide(out, n)
    ensures x != m ==> Render(out, n, x) == Render(pc, n, x)
    ensures x == m ==> Erased(Render(out, n, m)) == Erased(Join(mt))
  {
    hide Render, Join, Erased, ColsOk, Wide;
    assert x != m ==> Same(pc, out, n, x);
  }

  lemma FoldedConcat(pc: seq<Col>, mt: seq<Tok>, out: seq<Col>, pc': seq<Col>, mt': seq<Tok>, out': seq<Col>, m: nat, n: nat)
    requires Folded(pc, mt, out, m, n) && Folded(pc', mt', out', m, n)
    ensures Folded(pc + pc', mt + mt', out + out', m, n)
  {
    hide Render, Join, Erased, ColOk;
    assert Wide(pc + pc', n) && Wide(out + out', n);
    forall x: nat | x != m
      ensures Same(pc + pc', out + out', n, x)
    {
      if x < n {
        FoldedParts(pc, mt, out, m, n, x);
        FoldedParts(pc', mt', out', m, n, x);
        RenderConcat(pc, pc', n, x);
        RenderConcat(out, out', n, x);
      }
    }
    RenderConcat(out, out', n, m);
    ErasedConcat(Render(out, n, m), Render(out', n, m));
    JoinConcat(mt, mt');
    ErasedConcat(Join(mt), Join(mt'));
  }

  // ----- The pieces a fold is made of

  lemma {:induction false} RenderOne(c: Col, n: nat, x: nat)
    requires |c.present| == n && x < n
    ensures Wide([c], n) && Render([c], n, x) == Shown(c, x)
    ensures Wide([], n) && Render([], n, x) == []
  {
    hide Shown;
    assert [c][1..] == [];
    assert Shown(c, x) + [] == Shown(c, x);
  }

  lemma FoldedNothing(m: nat, n: nat)
    requires m < n
    ensures Folded([], [], [], m, n)
  {
  }

  /** Columns the member lacks stay, absent for it; tokens that are all blanks may go. */
  lemma {:induction false} FoldedAbsent(pc: seq<Col>, mt: seq<Tok>, m: nat, n: nat)
    requires m < n && ColsOk(pc, n, m) && Blank(Join(mt))
    ensures Folded(pc, mt, pc, m, n)
  {
    hide Join, Blank, Erased;
    ErasedBlank(Join(mt));
    AbsentReadsNothing(pc, m, n);
    ErasedNothing();
  }

  lemma ErasedNothing()
    ensures Erased([]) == []
  {
  }

  lemma {:induction false} AbsentReadsNothing(pc: seq<Col>, m: nat, n: nat)
    requires m < n && ColsOk(pc, n, m)
    ensures Wide(pc, n) && Render(pc, n, m) == []
  {
    if pc != [] {
      AbsentReadsNothing(pc[1..], m, n);
    }
  }

  lemma FoldedNew(t: Tok, m: nat, n: nat)
    requires m < n && TokOk(t)
    ensures Folded([], [t], [FromTok(t, m, n)], m, n)
  {
    hide Render, Join, Erased;
    var c := FromTok(t, m, n);
    JoinOne(t);
    forall x: nat | x < n
      ensures Render([c], n, x) == if x == m then t.text else []
      ensures Render([], n, x) == []
    {
      RenderOne(c, n, x);
    }
  }

  /** One more value changes what the column shows for its member alone. */
  lemma TakeShows(c: Col, m: nat, n: nat, k: Kind, t: seq<Byte>, slot: bool, x: nat)
    requires m < n && ColOk(c, n, m) && x < n
    ensures Shown(c.Take(m, k, t, slot), x) == if x == m then t else Shown(c, x)
    ensures ColOk(c.Take(m, k, t, slot), n, m + 1)
  {
    FindAppend(c.values, Value(m, k, t), x);
    if x == m {
      FindNone(c.values, m);
    }
  }

  /** Taking a value records it behind the others and marks the member; it makes the column a
      slot if it is to, and changes nothing else. */
  lemma TakeChanges(c: Col, m: nat, k: Kind, t: seq<Byte>, slot: bool)
    requires m < |c.present|
    ensures var c' := c.Take(m, k, t, slot);
      && c'.values == c.values + [Value(m, k, t)] && c'.present == c.present[m := true]
      && (c'.variable <==> c.variable || slot) && (slot ==> c'.IsSlot())
      && (c'.kind, c'.text, c'.region, c'.optional) == (c.kind, c.text, c.region, c.optional)
  {
  }

  /** A substitution, a value of a slot, or a run put into a region. */
  lemma {:induction false} FoldedTake(c: Col, mt: seq<Tok>, m: nat, n: nat, k: Kind, t: seq<Byte>, slot: bool)
    requires m < n && ColOk(c, n, m) && Erased(t) == Erased(Join(mt))
    ensures Folded([c], mt, [c.Take(m, k, t, slot)], m, n)
  {
    hide Render, Join, Erased, Shown, ColOk, Find;
    OkWidth(c, n, m);
    var c' := c.Take(m, k, t, slot);
    forall x: nat | x < n
      ensures |c.present| == |c'.present| == n
      ensures Render([c'], n, x) == if x == m then t else Render([c], n, x)
    {
      OkWidth(c, n, m);
      TakeShows(c, m, n, k, t, slot, x);
      RenderOne(c, n, x);
      RenderOne(c', n, x);
    }
    TakeShows(c, m, n, k, t, slot, m);
  }

  lemma OkWidth(c: Col, n: nat, m: nat)
    requires ColOk(c, n, m)
    ensures |c.present| == n
  {
  }

  /** A match: a slot records the token; a constant already reads the same, or, for runs of
      blanks, the same up to blanks. */
  function Matched(c: Col, t: Tok, m: nat): Col
    requires m < |c.present|
  {
    var c' := c.(present := c.present[m := true]);
    if c'.IsSlot() then c'.(values := c'.values + [Value(m, t.kind, t.text)]) else c'
  }

  lemma FoldedMatch(c: Col, t: Tok, m: nat, n: nat)
    requires m < n && ColOk(c, n, m) && TokOk(t) && c.Weight(t) > 0
    ensures Folded([c], [t], [Matched(c, t, m)], m, n)
  {
    hide Render, Join, Erased;
    JoinOne(t);
    if c.IsSlot() {
      FoldedTake(c, [t], m, n, t.kind, t.text, false);
      assert Matched(c, t, m) == c.Take(m, t.kind, t.text, false);
    } else {
      var c' := Matched(c, t, m);
      FindNone(c.values, m);
      MatchErases(c, t);
      forall x: nat | x < n
        ensures Render([c'], n, x) == if x == m then c.text else Render([c], n, x)
      {
        RenderOne(c, n, x);
        RenderOne(c', n, x);
      }
    }
  }

  lemma MatchErases(c: Col, t: Tok)
    requires c.Weight(t) > 0 && !c.IsSlot() && TokOk(t) && (c.kind == Space ==> Blank(c.text))
    ensures Erased(c.text) == Erased(t.text)
  {
    if c.kind == Space {
      ErasedBlank(c.text);
      ErasedBlank(t.text);
    }
  }
}
