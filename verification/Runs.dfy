/** The two passes that collapse runs of free-text columns after the alignment: they change
    no member's text by a single byte, and swallow no anchor. */
module Runs {
  import opened Tokens
  import opened Columns
  import Cluster

  predicate Typed(k: Kind) {
    k.Atom? || k.Quoted? || k.Chain?
  }

  predicate IsWordishSlot(c: Col) {
    c.IsSlot() && !Typed(c.kind) && forall k :: 0 <= k < |c.values| ==> !Typed(c.values[k].kind)
  }

  predicate IsAnchor(c: Col) {
    || (!c.IsSlot() && !c.optional && c.kind != Space)
    || Typed(c.kind)
    || exists k :: 0 <= k < |c.values| && Typed(c.values[k].kind)
  }

  /** A column that ever held a typed value, or is a required constant other than blanks, is
      an anchor; a slot that never did is a free-text slot; the two exclude each other. */
  lemma Sorts(c: Col)
    ensures var typed := Typed(c.kind) || exists k :: 0 <= k < |c.values| && Typed(c.values[k].kind);
      && (IsWordishSlot(c) <==> c.IsSlot() && !typed)
      && (IsAnchor(c) <==> typed || (!c.IsSlot() && !c.optional && c.kind != Space))
      && !(IsWordishSlot(c) && IsAnchor(c))
    ensures Typed(c.kind) <==> c.kind !in {Space, Punct, Word}
  {
  }

  /** Blanks that are no slot. */
  predicate IsSpace(c: Col) {
    c.kind == Space && !c.IsSlot()
  }

  predicate AtEdge(c: Col) {
    c.kind == Space && !c.optional && !c.IsSlot()
  }

  function Filter(cols: seq<Col>, f: Col -> bool): seq<Col> {
    if cols == [] then [] else Filter(cols[..|cols| - 1], f) + if f(cols[|cols| - 1]) then [cols[|cols| - 1]] else []
  }

  lemma {:induction false} FilterConcat(a: seq<Col>, b: seq<Col>, f: Col -> bool)
    ensures Filter(a + b, f) == Filter(a, f) + Filter(b, f)
  {
    if b == [] {
      assert a + b == a;
    } else {
      var z := b[..|b| - 1];
      FilterConcat(a, z, f);
      assert (a + b)[..|a + b| - 1] == a + z;
      var last := if f(b[|b| - 1]) then [b[|b| - 1]] else [];
      assert Filter(a, f) + Filter(z, f) + last == Filter(a, f) + (Filter(z, f) + last);
    }
  }

  lemma {:induction false} FilterNone(a: seq<Col>, f: Col -> bool)
    requires forall k :: 0 <= k < |a| ==> !f(a[k])
    ensures Filter(a, f) == []
  {
    if a != [] {
      FilterNone(a[..|a| - 1], f);
    }
  }

  /** Every member still reads what it read, byte for byte. */
  ghost predicate Unchanged(cols: seq<Col>, out: seq<Col>, n: nat)
    requires Wide(cols, n)
  {
    Wide(out, n) && forall m: nat :: Same(cols, out, n, m)
  }

  /** One slot of free text in place of the run: what each member had there, joined; optional
      if some member had nothing. */
  ghost predicate IsTextSlot(run: seq<Col>, n: nat, c: Col)
    requires Wide(run, n) && run != []
  {
    exists present, values ::
      && Cluster.Gathered(run, n, present, values, false, n)
      && c == Cluster.Region(run[0].text, present, values, exists m :: 0 <= m < n && !present[m])
  }

  /** A run of columns, `a` to `b`, put into one text slot. */
  method CollapseRun(cols: seq<Col>, a: nat, b: nat, n: nat) returns (out: seq<Col>)
    requires Wide(cols, n) && a < b <= |cols|
    ensures Unchanged(cols, out, n)
    ensures |out| == |cols| - (b - a) + 1
    ensures out[..a] == cols[..a] && out[a + 1..] == cols[b..]
    ensures !IsAnchor(out[a]) && IsWordishSlot(out[a]) && out[a].kind == Word && out[a].IsSlot()
    ensures IsTextSlot(cols[a..b], n, out[a])
  {
    hide Render;
    var run := cols[a..b];
    var present, values := Cluster.Gather(run, n, false);
    var optional := exists m :: 0 <= m < |present| && !present[m];
    var slot := Cluster.Region(run[0].text, present, values, optional);
    out := cols[..a] + [slot] + cols[b..];
    forall m: nat
      ensures Same(cols, out, n, m)
    {
      if m < n {
        Cluster.RegionShows(run, n, present, values, false, run[0].text, optional, m);
        RunReads(cols, a, b, slot, n, m);
      }
    }
  }

  lemma {:induction false} RunReads(cols: seq<Col>, a: nat, b: nat, slot: Col, n: nat, m: nat)
    requires Wide(cols, n) && a < b <= |cols| && m < n && |slot.present| == n
    requires Wide(cols[a..b], n) && Shown(slot, m) == Render(cols[a..b], n, m)
    ensures Wide(cols[..a] + [slot] + cols[b..], n)
    ensures Render(cols[..a] + [slot] + cols[b..], n, m) == Render(cols, n, m)
  {
    hide Render, Shown;
    RenderOne(slot, n, m);
    RenderConcat(cols[..a], [slot], n, m);
    RenderConcat(cols[..a] + [slot], cols[b..], n, m);
    RenderConcat(cols[..a], cols[a..b], n, m);
    RenderConcat(cols[..a] + cols[a..b], cols[b..], n, m);
    assert cols[..a] + cols[a..b] + cols[b..] == cols;
  }

  lemma StillUnchanged(cols: seq<Col>, mid: seq<Col>, out: seq<Col>, n: nat)
    requires Wide(cols, n) && Unchanged(cols, mid, n) && Unchanged(mid, out, n)
    ensures Unchanged(cols, out, n)
  {
    hide Render, Wide;
    forall m: nat
      ensures Wide(out, n) && Same(cols, out, n, m)
    {
      assert Same(cols, mid, n, m) && Same(mid, out, n, m);
    }
  }

  /** A run without a column of interest may go. */
  lemma {:induction false} FilterRun(cols: seq<Col>, out: seq<Col>, a: nat, b: nat, f: Col -> bool)
    requires a < b <= |cols| && |out| == |cols| - (b - a) + 1
    requires out[..a] == cols[..a] && out[a + 1..] == cols[b..] && !f(out[a])
    requires forall k :: a <= k < b ==> !f(cols[k])
    ensures Filter(out, f) == Filter(cols, f)
  {
    hide Filter;
    FilterNone(cols[a..b], f);
    FilterNone([out[a]], f);
    FilterConcat(cols[..a], cols[a..b], f);
    FilterConcat(cols[..a] + cols[a..b], cols[b..], f);
    FilterConcat(cols[..a], [out[a]], f);
    FilterConcat(cols[..a] + [out[a]], cols[b..], f);
    assert cols[..a] + cols[a..b] + cols[b..] == cols;
    assert cols[..a] + [out[a]] + cols[b..] == out;
  }

  /** How many of the columns are of a sort. */
  function Count(cols: seq<Col>, f: Col -> bool): nat {
    |Filter(cols, f)|
  }

  /** All the columns between two anchors, or an anchor and an end. */
  ghost predicate Stretch(cols: seq<Col>, i: nat, j: nat) {
    && i <= j <= |cols| && Starts(cols, i) && (j < |cols| ==> IsAnchor(cols[j]))
    && forall k :: i <= k < j ==> !IsAnchor(cols[k])
  }

  predicate Starts(cols: seq<Col>, i: nat) {
    i == 0 || (i <= |cols| && IsAnchor(cols[i - 1]))
  }

  /** A stretch without the required blanks at both edges, which keep the anchors apart. */
  function LeftEdge(cols: seq<Col>, i: nat, j: nat): (a: nat)
    requires i <= j <= |cols|
    ensures i <= a <= j && forall k :: i <= k < a ==> AtEdge(cols[k])
    decreases j - i
  {
    if i < j && AtEdge(cols[i]) then LeftEdge(cols, i + 1, j) else i
  }

  function RightEdge(cols: seq<Col>, a: nat, j: nat): (b: nat)
    requires a <= j <= |cols|
    ensures a <= b <= j && forall k :: b <= k < j ==> AtEdge(cols[k])
  {
    if a < j && AtEdge(cols[j - 1]) then RightEdge(cols, a, j - 1) else j
  }

  predicate IsMark(c: Col) {
    c.optional && !c.IsSlot() && c.kind == Punct
  }

  predicate IsKeyword(c: Col) {
    c.optional && !c.IsSlot() && c.kind == Word
  }

  /** Two free-text slots, or one beside two optional marks with no optional keyword. */
  predicate Messy(run: seq<Col>) {
    || Count(run, IsWordishSlot) >= 2
    || (Count(run, IsWordishSlot) >= 1 && Count(run, IsMark) >= 2 && !exists k :: 0 <= k < |run| && IsKeyword(run[k]))
  }

  predicate MessyStretch(cols: seq<Col>, i: nat, j: nat)
    requires i <= j <= |cols|
  {
    var a := LeftEdge(cols, i, j);
    Messy(cols[a..RightEdge(cols, a, j)])
  }

  /** No stretch that begins before `upto` is messy. */
  ghost predicate Tidy(cols: seq<Col>, upto: nat) {
    forall i: nat, j: nat :: i < upto && Stretch(cols, i, j) ==> !MessyStretch(cols, i, j)
  }

  /** What is left of a stretch are blanks at its edge. */
  ghost predicate OnlyEdges(cols: seq<Col>, i: nat) {
    forall j: nat :: i <= j < |cols| && (forall k :: i <= k <= j ==> !IsAnchor(cols[k])) ==> AtEdge(cols[j])
  }

  /** Between two anchors, a messy stretch of optional and free-text columns becomes one slot,
      and no other does. */
  method CollapseMessyRuns(cols: seq<Col>, n: nat) returns (out: seq<Col>)
    requires Wide(cols, n)
    ensures Unchanged(cols, out, n)
    ensures Filter(out, IsAnchor) == Filter(cols, IsAnchor)
    ensures Tidy(out, |out| + 1)
    ensures Tidy(cols, |cols| + 1) ==> out == cols
  {
    hide Filter, IsAnchor, IsWordishSlot, Unchanged, AtEdge, Messy, Tidy, OnlyEdges, Stretch, LeftEdge, RightEdge, IsMark, IsKeyword, Starts;
    NothingChanged(cols, n);
    out := cols;
    var i: nat := 0;
    TidyStart(cols);
    while i < |out|
      invariant Wide(out, n) && Unchanged(cols, out, n)
      invariant Filter(out, IsAnchor) == Filter(cols, IsAnchor)
      invariant i <= |out| && Tidy(out, i) && (Starts(out, i) || OnlyEdges(out, i))
      invariant Tidy(cols, |cols| + 1) ==> out == cols
      decreases if i < |out| then |out| - i else 0
    {
      if IsAnchor(out[i]) {
        TidyAnchor(out, i);
        i := i + 1;
        continue;
      }
      var j, a, b := Trim(out, i);
      var wordish := Count(out[a..b], IsWordishSlot);
      var optional := Count(out[a..b], IsMark);
      var keyword := exists k :: a <= k < b && IsKeyword(out[k]);
      MessyIs(out, a, b, wordish, optional, keyword);
      if wordish >= 2 || (wordish >= 1 && optional >= 2 && !keyword) {
        EmptyCount(out[a..b], IsWordishSlot);
        StartsHere(out, i, j, a, b);
        NotTidy(out, i, j);
        var next := CollapseRun(out, a, b, n);
        FilterRun(out, next, a, b, IsAnchor);
        StillUnchanged(cols, out, next, n);
        WideNow(out, next, n);
        SlotIsNoEdge(next[a]);
        TidyCollapsed(out, next, i, j, a, b);
        out := next;
        i := a + 1;
      } else {
        NotMessyStretch(out, i, j, a, b);
        TidyOn(out, i, j);
        i := if j > i + 1 then j else i + 1;
      }
    }
    TidyEnd(out);
  }

  /** How far the columns go to the next anchor, and what is left of them without the
      required blanks at both edges. */
  method Trim(cols: seq<Col>, i: nat) returns (j: nat, a: nat, b: nat)
    requires i < |cols| && !IsAnchor(cols[i])
    ensures i < j <= |cols| && (forall k :: i <= k < j ==> !IsAnchor(cols[k])) && (j < |cols| ==> IsAnchor(cols[j]))
    ensures a == LeftEdge(cols, i, j) && b == RightEdge(cols, a, j)
  {
    hide IsAnchor, AtEdge;
    j := i;
    while j < |cols| && !IsAnchor(cols[j])
      invariant i <= j <= |cols| && forall k :: i <= k < j ==> !IsAnchor(cols[k])
    {
      j := j + 1;
    }
    a, b := i, j;
    while a < b && AtEdge(cols[a])
      invariant i <= a <= b && LeftEdge(cols, a, j) == LeftEdge(cols, i, j)
    {
      a := a + 1;
    }
    while b > a && AtEdge(cols[b - 1])
      invariant a <= b <= j && RightEdge(cols, a, b) == RightEdge(cols, a, j)
    {
      b := b - 1;
    }
  }

  lemma TidyStart(cols: seq<Col>)
    ensures Tidy(cols, 0) && Starts(cols, 0)
  {
  }

  lemma {:induction false} NotMessy(run: seq<Col>)
    requires |run| <= 1
    ensures !Messy(run)
  {
    CountWithin(run, IsWordishSlot);
    CountWithin(run, IsMark);
  }

  lemma {:induction false} CountWithin(run: seq<Col>, f: Col -> bool)
    ensures Count(run, f) <= |run|
  {
    if run != [] {
      CountWithin(run[..|run| - 1], f);
    }
  }

  lemma NothingMessy(cols: seq<Col>, i: nat)
    requires i <= |cols|
    ensures !MessyStretch(cols, i, i)
  {
    assert cols[i..i] == [];
    NotMessy([]);
  }

  /** An anchor ends a stretch and begins the next. */
  lemma {:induction false} TidyAnchor(cols: seq<Col>, i: nat)
    requires i < |cols| && IsAnchor(cols[i]) && Tidy(cols, i)
    ensures Tidy(cols, i + 1) && Starts(cols, i + 1)
  {
    hide IsAnchor, AtEdge, Messy;
    forall s: nat, e: nat | s < i + 1 && Stretch(cols, s, e) ensures !MessyStretch(cols, s, e) {
      if s == i {
        assert e == i;
        NothingMessy(cols, i);
      }
    }
  }

  lemma MessyIs(cols: seq<Col>, a: nat, b: nat, wordish: nat, optional: nat, keyword: bool)
    requires a <= b <= |cols| && wordish == Count(cols[a..b], IsWordishSlot) && optional == Count(cols[a..b], IsMark)
    requires keyword <==> exists k :: a <= k < b && IsKeyword(cols[k])
    ensures Messy(cols[a..b]) <==> wordish >= 2 || (wordish >= 1 && optional >= 2 && !keyword)
  {
    hide IsKeyword, Count;
    var run := cols[a..b];
    assert forall k :: 0 <= k < |run| ==> run[k] == cols[a + k];
    if k :| a <= k < b && IsKeyword(cols[k]) {
      assert IsKeyword(run[k - a]);
    }
  }

  /** Blanks at an edge alone are not messy, so the stretch begins here. */
  lemma {:induction false} StartsHere(cols: seq<Col>, i: nat, j: nat, a: nat, b: nat)
    requires i < j <= |cols| && (forall k :: i <= k < j ==> !IsAnchor(cols[k])) && (j < |cols| ==> IsAnchor(cols[j]))
    requires a == LeftEdge(cols, i, j) && b == RightEdge(cols, a, j) && Messy(cols[a..b])
    requires Starts(cols, i) || OnlyEdges(cols, i)
    ensures Starts(cols, i) && Stretch(cols, i, j) && MessyStretch(cols, i, j)
  {
    hide IsAnchor, AtEdge, Messy;
    if !Starts(cols, i) {
      assert forall k :: i <= k < j ==> AtEdge(cols[k]);
      AllEdges(cols, i, j);
      assert cols[j..j] == [];
      NotMessy([]);
    }
  }

  lemma {:induction false} AllEdges(cols: seq<Col>, i: nat, j: nat)
    requires i <= j <= |cols| && forall k :: i <= k < j ==> AtEdge(cols[k])
    ensures LeftEdge(cols, i, j) == j
    decreases j - i
  {
    hide AtEdge;
    if i < j {
      AllEdges(cols, i + 1, j);
    }
  }

  lemma {:induction false} NotMessyStretch(cols: seq<Col>, i: nat, j: nat, a: nat, b: nat)
    requires i <= j <= |cols| && a == LeftEdge(cols, i, j) && b == RightEdge(cols, a, j) && !Messy(cols[a..b])
    ensures !MessyStretch(cols, i, j)
  {
    hide Messy;
  }

  lemma NotTidy(cols: seq<Col>, i: nat, j: nat)
    requires Stretch(cols, i, j) && MessyStretch(cols, i, j)
    ensures !Tidy(cols, |cols| + 1)
  {
    hide MessyStretch;
  }

  /** A stretch that is not messy stays. */
  lemma {:induction false} TidyOn(cols: seq<Col>, i: nat, j: nat)
    requires i < j <= |cols| && (forall k :: i <= k < j ==> !IsAnchor(cols[k])) && (j < |cols| ==> IsAnchor(cols[j]))
    requires !MessyStretch(cols, i, j) && Tidy(cols, i)
    ensures Tidy(cols, j) && OnlyEdges(cols, j)
  {
    hide IsAnchor, AtEdge, MessyStretch;
    forall s: nat, e: nat | s < j && Stretch(cols, s, e) ensures !MessyStretch(cols, s, e) {
      if s >= i {
        assert s == i;
        assert e == j;
      }
    }
  }

  /** The slot that a messy stretch became makes it tidy. */
  lemma {:induction false} TidyCollapsed(cols: seq<Col>, out: seq<Col>, i: nat, j: nat, a: nat, b: nat)
    requires Stretch(cols, i, j) && i < j && Tidy(cols, i) && a < b
    requires a == LeftEdge(cols, i, j) && b == RightEdge(cols, a, j)
    requires |out| == |cols| - (b - a) + 1 && out[..a] == cols[..a] && out[a + 1..] == cols[b..]
    requires !IsAnchor(out[a]) && IsWordishSlot(out[a]) && out[a].IsSlot() && !AtEdge(out[a])
    ensures a + 1 <= |out| && Tidy(out, a + 1) && OnlyEdges(out, a + 1)
  {
    hide IsAnchor, AtEdge, Messy, IsWordishSlot;
    var end := j - (b - a) + 1;
    SameAround(cols, out, a, b);
    forall s: nat, e: nat | s < a + 1 && Stretch(out, s, e) ensures !MessyStretch(out, s, e) {
      if s < i {
        assert Starts(cols, s);
        assert e < i by { EndsBefore(cols, out, i, a, s, e); }
        assert Stretch(cols, s, e);
        SameEdges(cols, out, s, e, a);
      } else {
        assert s == i by { StartsOnce(cols, out, i, j, a, s); }
        assert e == end by { EndsOnce(out, i, e, end); }
        OneSlot(out, i, end, a);
      }
    }
    assert end < |out| ==> IsAnchor(out[end]);
    forall q: nat | a + 1 <= q < |out| && (forall k :: a + 1 <= k <= q ==> !IsAnchor(out[k])) ensures AtEdge(out[q]) {
      assert q < end;
      assert out[q] == cols[q + (b - a) - 1];
    }
  }

  lemma SlotIsNoEdge(c: Col)
    requires c.kind == Word
    ensures !AtEdge(c)
  {
  }

  lemma SameAround(cols: seq<Col>, out: seq<Col>, a: nat, b: nat)
    requires a < b <= |cols| && |out| == |cols| - (b - a) + 1 && out[..a] == cols[..a] && out[a + 1..] == cols[b..]
    ensures forall k :: 0 <= k < a ==> out[k] == cols[k]
    ensures forall k :: a < k < |out| ==> out[k] == cols[k + (b - a) - 1]
  {
    assert forall k :: 0 <= k < a ==> out[k] == out[..a][k] && cols[k] == cols[..a][k];
    assert forall k :: a < k < |out| ==> out[k] == out[a + 1..][k - a - 1] && cols[k + (b - a) - 1] == cols[b..][k - a - 1];
  }

  lemma EndsBefore(cols: seq<Col>, out: seq<Col>, i: nat, a: nat, s: nat, e: nat)
    requires i > 0 && i <= a && i <= |cols| && a < |out| && IsAnchor(cols[i - 1]) && s < i && Stretch(out, s, e)
    requires forall k :: 0 <= k < a ==> k < |cols| && out[k] == cols[k]
    ensures e < i
  {
    hide IsAnchor;
    assert out[i - 1] == cols[i - 1];
  }

  lemma StartsOnce(cols: seq<Col>, out: seq<Col>, i: nat, j: nat, a: nat, s: nat)
    requires Stretch(cols, i, j) && i <= a < j && i <= s <= a && a < |out| && Starts(out, s)
    requires forall k :: 0 <= k < a ==> out[k] == cols[k]
    ensures s == i
  {
    hide IsAnchor;
    assert s > 0 ==> out[s - 1] == cols[s - 1];
  }

  lemma EndsOnce(out: seq<Col>, i: nat, e: nat, end: nat)
    requires Stretch(out, i, e) && i <= end <= |out| && (forall k :: i <= k < end ==> !IsAnchor(out[k])) && (end < |out| ==> IsAnchor(out[end]))
    ensures e == end
  {
    hide IsAnchor;
  }

  /** The edges of a stretch that lies before the change. */
  lemma {:induction false} SameEdges(cols: seq<Col>, out: seq<Col>, s: nat, e: nat, a: nat)
    requires s <= e <= a && a <= |cols| && a <= |out| && forall k :: 0 <= k < a ==> out[k] == cols[k]
    ensures MessyStretch(out, s, e) == MessyStretch(cols, s, e)
  {
    hide AtEdge, Messy;
    SameLeft(cols, out, s, e);
    var l := LeftEdge(cols, s, e);
    SameRight(cols, out, l, e);
    var r := RightEdge(cols, l, e);
    assert out[l..r] == cols[l..r];
  }

  lemma {:induction false} SameLeft(cols: seq<Col>, out: seq<Col>, s: nat, e: nat)
    requires s <= e <= |cols| && e <= |out| && forall k :: 0 <= k < e ==> out[k] == cols[k]
    ensures LeftEdge(out, s, e) == LeftEdge(cols, s, e)
    decreases e - s
  {
    hide AtEdge;
    if s < e {
      SameLeft(cols, out, s + 1, e);
    }
  }

  lemma {:induction false} SameRight(cols: seq<Col>, out: seq<Col>, s: nat, e: nat)
    requires s <= e <= |cols| && e <= |out| && forall k :: 0 <= k < e ==> out[k] == cols[k]
    ensures RightEdge(out, s, e) == RightEdge(cols, s, e)
    decreases e - s
  {
    hide AtEdge;
    if s < e {
      SameRight(cols, out, s, e - 1);
    }
  }

  /** A stretch of one slot among blanks at the edges. */
  lemma {:induction false} OneSlot(out: seq<Col>, i: nat, end: nat, a: nat)
    requires i <= a < end <= |out| && !AtEdge(out[a]) && out[a].IsSlot()
    requires forall k :: i <= k < end && k != a ==> AtEdge(out[k])
    ensures !MessyStretch(out, i, end)
  {
    hide AtEdge, Messy;
    LeftIs(out, i, a, end);
    RightIs(out, a, end);
    assert out[a..a + 1] == [out[a]];
    NotMessy([out[a]]);
  }

  lemma {:induction false} LeftIs(out: seq<Col>, i: nat, a: nat, end: nat)
    requires i <= a < end <= |out| && !AtEdge(out[a]) && forall k :: i <= k < a ==> AtEdge(out[k])
    ensures LeftEdge(out, i, end) == a
    decreases a - i
  {
    hide AtEdge;
    if i < a {
      LeftIs(out, i + 1, a, end);
    }
  }

  lemma {:induction false} RightIs(out: seq<Col>, a: nat, end: nat)
    requires a < end <= |out| && !AtEdge(out[a]) && forall k :: a < k < end ==> AtEdge(out[k])
    ensures RightEdge(out, a, end) == a + 1
    decreases end - a
  {
    hide AtEdge;
    if a + 1 < end {
      RightIs(out, a, end - 1);
    }
  }

  lemma {:induction false} TidyEnd(cols: seq<Col>)
    requires Tidy(cols, |cols|)
    ensures Tidy(cols, |cols| + 1)
  {
    hide IsAnchor, AtEdge, Messy;
    forall s: nat, e: nat | s < |cols| + 1 && Stretch(cols, s, e) ensures !MessyStretch(cols, s, e) {
      if s == |cols| {
        NothingMessy(cols, s);
      }
    }
  }

  lemma EmptyCount(cols: seq<Col>, f: Col -> bool)
    requires Count(cols, f) > 0
    ensures cols != []
  {
  }

  lemma NothingChanged(cols: seq<Col>, n: nat)
    requires Wide(cols, n)
    ensures Unchanged(cols, cols, n)
  {
  }

  lemma WideNow(cols: seq<Col>, out: seq<Col>, n: nat)
    requires Wide(cols, n) && Unchanged(cols, out, n)
    ensures Wide(out, n)
  {
  }

  /** A slot, blanks, a slot. */
  predicate RunAt(cols: seq<Col>, k: nat) {
    k + 2 < |cols| && IsWordishSlot(cols[k]) && IsSpace(cols[k + 1]) && IsWordishSlot(cols[k + 2])
  }

  predicate Neither(c: Col) {
    !IsWordishSlot(c) && !IsSpace(c)
  }

  /** A slot, and then blanks and a slot any number of times, from `k` to `e`. */
  predicate Chain(cols: seq<Col>, k: nat, e: nat)
    decreases e - k
  {
    e == k || (k + 2 <= e && RunAt(cols, k) && Chain(cols, k + 2, e))
  }

  ghost predicate AnyOptional(cols: seq<Col>, k: nat, e: nat)
    requires e < |cols|
  {
    exists x :: k <= x <= e && cols[x].optional
  }

  /** A run of two slots or more that begins at `k` is to be one slot. */
  ghost predicate Due(cols: seq<Col>, k: nat, onlyVariableLength: bool) {
    exists e: nat :: DueTo(cols, k, e, onlyVariableLength)
  }

  ghost predicate DueTo(cols: seq<Col>, k: nat, e: nat, onlyVariableLength: bool) {
    k < e < |cols| && Chain(cols, k, e) && (onlyVariableLength ==> AnyOptional(cols, k, e))
  }

  ghost predicate NoneDue(cols: seq<Col>, upto: nat, onlyVariableLength: bool) {
    forall k: nat :: k < upto ==> !Due(cols, k, onlyVariableLength)
  }

  /** Slots set apart only by blanks become one slot; with `onlyVariableLength` only runs
      some member lacks a part of. No such run is left, and nothing else is touched. */
  method CollapseWordRuns(cols: seq<Col>, n: nat, onlyVariableLength: bool) returns (out: seq<Col>)
    requires Wide(cols, n)
    ensures Unchanged(cols, out, n)
    ensures Filter(out, Neither) == Filter(cols, Neither)
    ensures NoneDue(out, |out|, onlyVariableLength)
    ensures NoneDue(cols, |cols|, onlyVariableLength) ==> out == cols
  {
    hide Filter, IsWordishSlot, Unchanged, Due, Chain, AnyOptional;
    NothingChanged(cols, n);
    out := cols;
    var i: nat := 0;
    while i < |out|
      invariant Wide(out, n) && Unchanged(cols, out, n)
      invariant Filter(out, Neither) == Filter(cols, Neither)
      invariant i <= |out| && NoneDue(out, i, onlyVariableLength)
      invariant NoneDue(cols, |cols|, onlyVariableLength) ==> out == cols
      decreases if i < |out| then |out| - i else 0
    {
      if !IsWordishSlot(out[i]) {
        NoSlotNotDue(out, i, onlyVariableLength);
        i := i + 1;
        continue;
      }
      var j: nat, slots: nat := i, 1;
      ChainNone(out, i);
      while RunAt(out, j)
        invariant i <= j < |out| && IsWordishSlot(out[j])
        invariant slots >= 2 <==> j > i
        invariant Chain(out, i, j)
        invariant forall k :: i <= k <= j ==> !Neither(out[k])
        decreases |out| - j
      {
        ChainOn(out, i, j);
        j := j + 2;
        slots := slots + 1;
      }
      var optional := exists k :: i <= k <= j && out[k].optional;
      OptionalIs(out, i, j, optional);
      if slots >= 2 && (!onlyVariableLength || optional) {
        DueHere(out, i, j, onlyVariableLength);
        var next := CollapseRun(out, i, j + 1, n);
        FilterRun(out, next, i, j + 1, Neither);
        StillUnchanged(cols, out, next, n);
        WideNow(out, next, n);
        DueBefore(out, next, i, j, onlyVariableLength);
        out := next;
      } else {
        NotDueHere(out, i, j, onlyVariableLength);
      }
      i := i + 1;
    }
  }

  lemma {:induction false} ChainNone(cols: seq<Col>, i: nat)
    ensures Chain(cols, i, i)
  {
  }

  lemma {:induction false} ChainOn(cols: seq<Col>, i: nat, j: nat)
    requires i <= j && Chain(cols, i, j) && RunAt(cols, j)
    ensures Chain(cols, i, j + 2)
    decreases j - i
  {
    hide RunAt;
    if i < j {
      ChainOn(cols, i + 2, j);
    }
  }

  lemma OptionalIs(cols: seq<Col>, i: nat, j: nat, optional: bool)
    requires i <= j < |cols| && (optional <==> exists k :: i <= k <= j && cols[k].optional)
    ensures optional <==> AnyOptional(cols, i, j)
  {
    if k :| i <= k <= j && cols[k].optional {
    }
  }

  lemma {:induction false} NoSlotNotDue(cols: seq<Col>, i: nat, onlyVariableLength: bool)
    requires i < |cols| && !IsWordishSlot(cols[i]) && NoneDue(cols, i, onlyVariableLength)
    ensures NoneDue(cols, i + 1, onlyVariableLength)
  {
    hide IsWordishSlot, AnyOptional;
    assert !RunAt(cols, i);
    assert forall e: nat :: i < e ==> !Chain(cols, i, e);
  }

  lemma {:induction false} DueHere(cols: seq<Col>, i: nat, j: nat, onlyVariableLength: bool)
    requires i < j < |cols| && Chain(cols, i, j) && (onlyVariableLength ==> AnyOptional(cols, i, j))
    ensures !NoneDue(cols, |cols|, onlyVariableLength)
  {
    hide Chain, AnyOptional;
    assert DueTo(cols, i, j, onlyVariableLength);
    assert Due(cols, i, onlyVariableLength);
  }

  /** A chain ends no later than the one that cannot go on. */
  lemma {:induction false} ChainWithin(cols: seq<Col>, i: nat, e: nat, j: nat)
    requires i <= e && i <= j && Chain(cols, i, e) && Chain(cols, i, j) && !RunAt(cols, j)
    ensures e <= j
    decreases j - i
  {
    hide RunAt;
    if i < e && i < j {
      ChainWithin(cols, i + 2, e, j);
    }
  }

  lemma OptionalWider(cols: seq<Col>, i: nat, e: nat, j: nat)
    requires e <= j < |cols|
    ensures AnyOptional(cols, i, e) ==> AnyOptional(cols, i, j)
  {
  }

  lemma {:induction false} NotDueHere(cols: seq<Col>, i: nat, j: nat, onlyVariableLength: bool)
    requires i <= j < |cols| && Chain(cols, i, j) && !RunAt(cols, j) && NoneDue(cols, i, onlyVariableLength)
    requires i == j || (onlyVariableLength && !AnyOptional(cols, i, j))
    ensures NoneDue(cols, i + 1, onlyVariableLength)
  {
    hide RunAt, Chain;
    forall e: nat ensures !DueTo(cols, i, e, onlyVariableLength) {
      if i < e < |cols| && Chain(cols, i, e) {
        ChainWithin(cols, i, e, j);
        OptionalWider(cols, i, e, j);
      }
    }
  }

  lemma RunAfter(cols: seq<Col>, out: seq<Col>, i: nat, j: nat)
    requires i <= j < |cols| && |out| == |cols| - (j - i) && out[i + 1..] == cols[j + 1..]
    ensures RunAt(out, i) && IsWordishSlot(cols[j]) ==> RunAt(cols, j)
  {
    hide IsWordishSlot, IsSpace;
    assert forall x :: i < x < |out| ==> out[x] == out[i + 1..][x - i - 1] && cols[x + (j - i)] == cols[j + 1..][x - i - 1];
  }

  lemma RunBefore(cols: seq<Col>, out: seq<Col>, i: nat, k: nat)
    requires i < |cols| && i < |out| && out[..i] == cols[..i] && k < i
    requires IsWordishSlot(out[i]) && IsWordishSlot(cols[i])
    ensures RunAt(out, k) ==> RunAt(cols, k) && k + 2 <= i
  {
    assert forall x :: 0 <= x < i ==> out[x] == out[..i][x] && cols[x] == cols[..i][x];
  }

  /** A chain that begins before the new slot was there before, and ends at it or before. */
  lemma {:induction false} ChainBefore(cols: seq<Col>, out: seq<Col>, i: nat, k: nat, e: nat)
    requires i < |cols| && i < |out| && out[..i] == cols[..i] && k <= i && k <= e
    requires IsWordishSlot(out[i]) && IsWordishSlot(cols[i]) && !RunAt(out, i) && Chain(out, k, e)
    ensures e <= i && Chain(cols, k, e)
    decreases e - k
  {
    hide RunAt, IsWordishSlot;
    if k < e {
      assert k < i;
      RunBefore(cols, out, i, k);
      ChainBefore(cols, out, i, k + 2, e);
    }
  }

  lemma {:induction false} ChainJoined(cols: seq<Col>, k: nat, i: nat, j: nat)
    requires k <= i <= j && Chain(cols, k, i) && Chain(cols, i, j)
    ensures Chain(cols, k, j)
    decreases i - k
  {
    hide RunAt;
    if k < i {
      ChainJoined(cols, k + 2, i, j);
    }
  }

  /** Collapsing a whole run leaves none due that begins at it or before. */
  lemma {:induction false} DueBefore(cols: seq<Col>, out: seq<Col>, i: nat, j: nat, onlyVariableLength: bool)
    requires i < j < |cols| && |out| == |cols| - (j - i)
    requires out[..i] == cols[..i] && out[i + 1..] == cols[j + 1..] && IsWordishSlot(out[i])
    requires IsWordishSlot(cols[i]) && IsWordishSlot(cols[j]) && !RunAt(cols, j) && Chain(cols, i, j)
    requires onlyVariableLength ==> AnyOptional(cols, i, j)
    requires NoneDue(cols, i, onlyVariableLength)
    ensures NoneDue(out, i + 1, onlyVariableLength)
  {
    hide RunAt, IsWordishSlot, Chain;
    RunAfter(cols, out, i, j);
    forall k: nat, e: nat | k <= i ensures !DueTo(out, k, e, onlyVariableLength) {
      if DueTo(out, k, e, onlyVariableLength) {
        ChainBefore(cols, out, i, k, e);
        assert k < i;
        BackDue(cols, out, i, j, k, e, onlyVariableLength);
      }
    }
  }

  lemma {:induction false} BackDue(cols: seq<Col>, out: seq<Col>, i: nat, j: nat, k: nat, e: nat, onlyVariableLength: bool)
    requires k < e <= i < j < |cols| && i < |out| && out[..i] == cols[..i] && Chain(cols, k, e) && Chain(cols, i, j)
    requires onlyVariableLength ==> AnyOptional(out, k, e) && AnyOptional(cols, i, j)
    ensures Due(cols, k, onlyVariableLength)
  {
    hide Chain;
    assert forall x :: 0 <= x < i ==> out[x] == out[..i][x] && cols[x] == cols[..i][x];
    if e == i {
      ChainJoined(cols, k, i, j);
      assert DueTo(cols, k, j, onlyVariableLength);
    } else {
      assert DueTo(cols, k, e, onlyVariableLength);
    }
  }
}
