/** The line diff of the review screen: an edit script from the longest-common-subsequence
    table, grouped into hunks with three lines of context. A reader that applies hunks
    strictly, checking every header number and every context line, undoes it. */
module Diff {
  import Lcs

  type Line = string

  const CONTEXT := 3
  const MOST_LINES := 4000

  datatype Op = Keep(line: Line) | Remove(line: Line) | Add(line: Line)

  /** What the script reads. */
  function Olds(ops: seq<Op>): (s: seq<Line>)
    ensures |s| <= |ops|
  {
    if ops == [] then []
    else Olds(ops[..|ops| - 1]) + (var op := ops[|ops| - 1]; if op.Add? then [] else [op.line])
  }

  /** What the script writes. */
  function News(ops: seq<Op>): (s: seq<Line>)
    ensures |s| <= |ops|
  {
    if ops == [] then []
    else News(ops[..|ops| - 1]) + (var op := ops[|ops| - 1]; if op.Remove? then [] else [op.line])
  }

  function Kept(ops: seq<Op>): nat {
    if ops == [] then 0 else Kept(ops[..|ops| - 1]) + (if ops[|ops| - 1].Keep? then 1 else 0)
  }

  lemma {:induction false} Snoc(ops: seq<Op>, op: Op)
    ensures Olds(ops + [op]) == Olds(ops) + (if op.Add? then [] else [op.line])
    ensures News(ops + [op]) == News(ops) + (if op.Remove? then [] else [op.line])
    ensures Kept(ops + [op]) == Kept(ops) + (if op.Keep? then 1 else 0)
  {
    assert (ops + [op])[..|ops|] == ops;
  }

  lemma EmptyScript()
    ensures Olds([]) == [] && News([]) == [] && Kept([]) == 0
  {
  }

  lemma {:induction false} Concat(x: seq<Op>, y: seq<Op>)
    ensures Olds(x + y) == Olds(x) + Olds(y)
    ensures News(x + y) == News(x) + News(y)
  {
    hide Olds, News, Kept;
    EmptyScript();
    if y == [] {
      assert x + y == x;
    } else {
      var z := y[..|y| - 1];
      Concat(x, z);
      assert y == z + [y[|y| - 1]];
      assert x + y == (x + z) + [y[|y| - 1]];
      Snoc(x + z, y[|y| - 1]);
      Snoc(z, y[|y| - 1]);
    }
  }

  // ----- The edit script

  function Pairing(a: seq<Line>, b: seq<Line>): Lcs.Problem {
    Lcs.Words(a, b)
  }

  /** The lines a script keeps, as pairs of positions. */
  function KeptPairs(ops: seq<Op>): (s: seq<(nat, nat)>)
    ensures |s| == Kept(ops)
  {
    if ops == [] then []
    else
      var was := ops[..|ops| - 1];
      if ops[|ops| - 1].Keep? then KeptPairs(was) + [(|Olds(was)|, |News(was)|)] else KeptPairs(was)
  }

  /** Any script from `a` to `b` keeps a common subsequence of them. */
  lemma {:induction false} KeptIsCommon(ops: seq<Op>, a: seq<Line>, b: seq<Line>)
    requires Olds(ops) <= a && News(ops) <= b
    ensures Lcs.Common(Pairing(a, b), KeptPairs(ops), 0, 0)
    ensures forall k :: 0 <= k < |KeptPairs(ops)| ==>
      KeptPairs(ops)[k].0 < |Olds(ops)| && KeptPairs(ops)[k].1 < |News(ops)|
  {
    if ops != [] {
      var was := ops[..|ops| - 1];
      KeptIsCommon(was, a, b);
      if ops[|ops| - 1].Keep? {
        var at := (|Olds(was)|, |News(was)|);
        assert a[at.0] == Olds(ops)[at.0] && b[at.1] == News(ops)[at.1];
        Lcs.CommonAppend(Pairing(a, b), KeptPairs(was), at, 0, 0);
      }
    }
  }

  /** A script from `a` to `b` that keeps as many lines as any: of all scripts it removes
      and adds the fewest. */
  ghost predicate Shortest(ops: seq<Op>, a: seq<Line>, b: seq<Line>) {
    && Olds(ops) == a && News(ops) == b
    && forall other :: Olds(other) == a && News(other) == b ==> Kept(other) <= Kept(ops)
  }

  lemma {:induction false} KeepsMost(ops: seq<Op>, a: seq<Line>, b: seq<Line>)
    requires Olds(ops) == a && News(ops) == b && Kept(ops) == Lcs.Length(Pairing(a, b), 0, 0)
    ensures Shortest(ops, a, b)
  {
    forall other | Olds(other) == a && News(other) == b
      ensures Kept(other) <= Kept(ops)
    {
      KeptIsCommon(other, a, b);
      Lcs.LengthBounds(Pairing(a, b), KeptPairs(other), 0, 0);
    }
  }

  method EditScript(a: seq<Line>, b: seq<Line>) returns (ops: seq<Op>)
    ensures Shortest(ops, a, b)
    ensures Kept(ops) == Lcs.Length(Pairing(a, b), 0, 0)
  {
    hide Lcs.Length, Lcs.Common, Shortest, Olds, News, Kept;
    var p := Pairing(a, b);
    EmptyScript();
    Lcs.Border(p);
    var lcs := Lcs.Table(p);
    ops := [];
    var i, j := 0, 0;
    while i < |a| || j < |b|
      modifies {}
      invariant 0 <= i <= |a| && 0 <= j <= |b|
      invariant Olds(ops) == a[..i] && News(ops) == b[..j]
      invariant Kept(ops) + Lcs.Length(p, i, j) == Lcs.Length(p, 0, 0)
      decreases |a| - i + (|b| - j)
    {
      if i < |a| && j < |b| {
        Lcs.LengthFrom(p, i, j);
      }
      if i < |a| && j < |b| && a[i] == b[j] {
        Snoc(ops, Keep(a[i]));
        ops := ops + [Keep(a[i])];
        i, j := i + 1, j + 1;
      } else if j < |b| && (i == |a| || lcs[i, j + 1] >= lcs[i + 1, j]) {
        Snoc(ops, Add(b[j]));
        ops := ops + [Add(b[j])];
        j := j + 1;
      } else {
        Snoc(ops, Remove(a[i]));
        ops := ops + [Remove(a[i])];
        i := i + 1;
      }
    }
    assert a[..|a|] == a && b[..|b|] == b;
    KeepsMost(ops, a, b);
  }

  // ----- Hunks

  /** One hunk: its header numbers (lines counted from 1) and its operations. */
  datatype Hunk = Hunk(aStart: nat, aLen: nat, bStart: nat, bLen: nat, body: seq<Op>)

  /** Which operations a hunk covers, and its first and last change. */
  datatype Cut = Cut(start: nat, first: nat, last: nat, end: nat)

  predicate Changes(ops: seq<Op>, k: int) {
    0 <= k < |ops| && !ops[k].Keep?
  }

  /** From the first change to the last no seven lines in a row are kept. */
  ghost predicate Tight(ops: seq<Op>, first: nat, last: nat) {
    forall x :: first <= x < last ==> ChangesSoon(ops, x, last)
  }

  ghost predicate ChangesSoon(ops: seq<Op>, x: nat, last: nat) {
    exists y :: x < y <= x + 2 * CONTEXT && y <= last && Changes(ops, y)
  }

  /** A cut reaches three lines beyond its first and last change, or to the end of the text. */
  ghost predicate Fits(ops: seq<Op>, c: Cut) {
    && Changes(ops, c.first) && Changes(ops, c.last) && c.first <= c.last
    && c.start == (if c.first < CONTEXT then 0 else c.first - CONTEXT)
    && c.end == (if c.last + CONTEXT + 1 <= |ops| then c.last + CONTEXT + 1 else |ops|)
    && Tight(ops, c.first, c.last)
  }

  /** The hunk a cut stands for. */
  function HunkOf(ops: seq<Op>, c: Cut): Hunk
    requires c.start <= c.end <= |ops|
  {
    var body := ops[c.start..c.end];
    Hunk(|Olds(ops[..c.start])| + 1, |Olds(body)|, |News(ops[..c.start])| + 1, |News(body)|, body)
  }

  predicate AllKept(ops: seq<Op>, from: nat, to: nat) {
    forall k :: from <= k < to && k < |ops| ==> ops[k].Keep?
  }

  /** The cuts cover every change below `upto` exactly once: they are in order, more than
      six kept lines apart, and between them everything is kept. */
  ghost predicate Covers(ops: seq<Op>, cuts: seq<Cut>, upto: nat) {
    if cuts == [] then AllKept(ops, 0, upto)
    else
      var before, cut := cuts[..|cuts| - 1], cuts[|cuts| - 1];
      && Fits(ops, cut) && AllKept(ops, cut.last + 1, upto)
      && (before != [] ==> before[|before| - 1].last + 2 * CONTEXT < cut.first)
      && Covers(ops, before, cut.first)
  }

  lemma {:induction false} CoversAt(ops: seq<Op>, cuts: seq<Cut>, upto: nat, c: nat)
    requires Covers(ops, cuts, upto) && c < |cuts|
    ensures Fits(ops, cuts[c]) && Covers(ops, cuts[..c], cuts[c].first)
    ensures c > 0 ==> cuts[c - 1].last + 2 * CONTEXT < cuts[c].first
  {
    hide Fits, AllKept;
    var before := cuts[..|cuts| - 1];
    if c < |cuts| - 1 {
      CoversAt(ops, before, cuts[|cuts| - 1].first, c);
      assert before[..c] == cuts[..c];
    }
  }

  /** `changed` lists, in order, every change below `upto`. */
  ghost predicate Lists(ops: seq<Op>, changed: seq<nat>, upto: nat) {
    if changed == [] then AllKept(ops, 0, upto)
    else
      var last := changed[|changed| - 1];
      last < upto && Changes(ops, last) && AllKept(ops, last + 1, upto) && Lists(ops, changed[..|changed| - 1], last)
  }

  lemma {:induction false} ListsAt(ops: seq<Op>, changed: seq<nat>, upto: nat, k: nat)
    requires Lists(ops, changed, upto) && k < |changed|
    ensures Changes(ops, changed[k]) && changed[k] < upto
    ensures AllKept(ops, changed[k] + 1, if k + 1 < |changed| then changed[k + 1] else upto)
    ensures k + 1 < |changed| ==> changed[k] < changed[k + 1]
    ensures k == 0 ==> AllKept(ops, 0, changed[0])
  {
    hide AllKept;
    if k < |changed| - 1 {
      ListsAt(ops, changed[..|changed| - 1], changed[|changed| - 1], k);
    }
  }

  method ChangedIndices(ops: seq<Op>) returns (changed: seq<nat>)
    ensures Lists(ops, changed, |ops|)
  {
    hide Lists;
    changed := [];
    var k := 0;
    ListsFirst(ops);
    while k < |ops|
      invariant 0 <= k <= |ops| && Lists(ops, changed, k)
    {
      ListsNext(ops, changed, k);
      if !ops[k].Keep? {
        changed := changed + [k];
      }
      k := k + 1;
    }
  }

  lemma {:induction false} ListsFirst(ops: seq<Op>)
    ensures Lists(ops, [], 0)
  {
  }

  lemma ListsNext(ops: seq<Op>, changed: seq<nat>, k: nat)
    requires k < |ops| && Lists(ops, changed, k)
    ensures Lists(ops, if ops[k].Keep? then changed else changed + [k], k + 1)
  {
    hide AllKept;
    KeptOn(ops, if changed == [] then 0 else changed[|changed| - 1] + 1, k);
    assert (changed + [k])[..|changed|] == changed;
  }

  lemma KeptOn(ops: seq<Op>, from: nat, to: nat)
    requires AllKept(ops, from, to) && to < |ops|
    ensures ops[to].Keep? ==> AllKept(ops, from, to + 1)
    ensures AllKept(ops, to + 1, to + 1)
  {
  }

  /** The header numbers, counted over the whole script; `end` is the last operation in. */
  method Header(ops: seq<Op>, start: nat, end: nat) returns (h: Hunk)
    requires start <= end < |ops|
    ensures h == HunkOf(ops, Cut(start, start, end, end + 1))
  {
    hide Olds, News, Kept;
    EmptyScript();
    var aStart: nat, bStart: nat, aLen: nat, bLen: nat := 0, 0, 0, 0;
    var i := 0;
    while i < |ops|
      invariant 0 <= i <= |ops|
      invariant aStart == |Olds(ops[..if i < start then i else start])|
      invariant bStart == |News(ops[..if i < start then i else start])|
      invariant aLen == if i <= start then 0 else |Olds(ops[start..if i <= end then i else end + 1])|
      invariant bLen == if i <= start then 0 else |News(ops[start..if i <= end then i else end + 1])|
    {
      if i < start {
        Snoc(ops[..i], ops[i]);
        assert ops[..i + 1] == ops[..i] + [ops[i]];
        aStart := aStart + if ops[i].Add? then 0 else 1;
        bStart := bStart + if ops[i].Remove? then 0 else 1;
      } else if i <= end {
        Snoc(ops[start..i], ops[i]);
        assert ops[start..i + 1] == ops[start..i] + [ops[i]];
        aLen := aLen + if ops[i].Add? then 0 else 1;
        bLen := bLen + if ops[i].Remove? then 0 else 1;
      }
      i := i + 1;
    }
    h := Hunk(aStart + 1, aLen, bStart + 1, bLen, ops[start..end + 1]);
  }

  ghost predicate Are(ops: seq<Op>, hunks: seq<Hunk>, cuts: seq<Cut>) {
    && |hunks| == |cuts|
    && forall h :: 0 <= h < |cuts| ==> Fits(ops, cuts[h]) && hunks[h] == HunkOf(ops, cuts[h])
  }

  /** The hunks are those of cuts that cover the script. */
  ghost predicate Groups(ops: seq<Op>, hunks: seq<Hunk>) {
    exists cuts :: Covers(ops, cuts, |ops|) && Are(ops, hunks, cuts)
  }

  /** Changes at most six lines apart share a hunk. */
  method Hunks(ops: seq<Op>) returns (hunks: seq<Hunk>)
    ensures Groups(ops, hunks)
  {
    hide AllKept, Olds, News, Covers, Are, Tight, Fits, Lists, Changes;
    hunks := [];
    ghost var cuts: seq<Cut> := [];
    var changed := ChangedIndices(ops);
    if changed == [] {
      NothingListed(ops);
      NoCuts(ops, |ops|);
      return;
    }
    ListsAt(ops, changed, |ops|, 0);
    NoCuts(ops, changed[0]);
    var k := 0;
    while k < |changed|
      invariant 0 <= k <= |changed|
      invariant cuts == [] <==> k == 0
      invariant Covers(ops, cuts, if k < |changed| then changed[k] else |ops|)
      invariant cuts != [] ==> cuts[|cuts| - 1].last == changed[k - 1]
      invariant cuts != [] && k < |changed| ==> changed[k - 1] + 2 * CONTEXT < changed[k]
      invariant Are(ops, hunks, cuts)
    {
      ListsAt(ops, changed, |ops|, k);
      ghost var first := changed[k];
      TightAlone(ops, first);
      var start := if changed[k] < CONTEXT then 0 else changed[k] - CONTEXT;
      var end := changed[k] + CONTEXT;
      while k + 1 < |changed| && changed[k + 1] <= end + CONTEXT
        invariant 0 <= k < |changed| && end == changed[k] + CONTEXT
        invariant first <= changed[k] < |ops| && Tight(ops, first, changed[k])
      {
        ListsAt(ops, changed, |ops|, k);
        ListsAt(ops, changed, |ops|, k + 1);
        TightOn(ops, first, changed[k], changed[k + 1]);
        k := k + 1;
        end := changed[k] + CONTEXT;
      }
      ListsAt(ops, changed, |ops|, k);
      if end > |ops| - 1 {
        end := |ops| - 1;
      }
      var hunk := Header(ops, start, end);
      NextCut(ops, cuts, hunks, Cut(start, first, changed[k], end + 1), if k + 1 < |changed| then changed[k + 1] else |ops|);
      hunks := hunks + [hunk];
      cuts := cuts + [Cut(start, first, changed[k], end + 1)];
      k := k + 1;
    }
  }

  lemma {:induction false} NothingListed(ops: seq<Op>)
    requires Lists(ops, [], |ops|)
    ensures AllKept(ops, 0, |ops|)
  {
  }

  lemma TightAlone(ops: seq<Op>, first: nat)
    ensures Tight(ops, first, first)
  {
  }

  lemma {:induction false} NoCuts(ops: seq<Op>, upto: nat)
    requires AllKept(ops, 0, upto)
    ensures Covers(ops, [], upto) && Are(ops, [], [])
  {
    hide AllKept;
  }

  lemma {:induction false} NextCut(ops: seq<Op>, cuts: seq<Cut>, hunks: seq<Hunk>, cut: Cut, upto: nat)
    requires Covers(ops, cuts, cut.first) && Are(ops, hunks, cuts)
    requires Changes(ops, cut.first) && Changes(ops, cut.last) && cut.first <= cut.last && Tight(ops, cut.first, cut.last)
    requires cut.start == (if cut.first < CONTEXT then 0 else cut.first - CONTEXT)
    requires cut.end == (if cut.last + CONTEXT + 1 <= |ops| then cut.last + CONTEXT + 1 else |ops|)
    requires AllKept(ops, cut.last + 1, upto)
    requires cuts != [] ==> cuts[|cuts| - 1].last + 2 * CONTEXT < cut.first
    ensures Covers(ops, cuts + [cut], upto)
    ensures cut.start <= cut.end <= |ops|
    ensures Are(ops, hunks + [HunkOf(ops, cut)], cuts + [cut])
  {
    hide AllKept, Olds, News, HunkOf, Tight;
    assert (cuts + [cut])[..|cuts|] == cuts;
  }

  lemma TightOn(ops: seq<Op>, first: nat, last: nat, next: nat)
    requires Tight(ops, first, last) && first <= last < next <= last + 2 * CONTEXT && Changes(ops, next)
    ensures Tight(ops, first, next)
  {
    forall x | first <= x < next
      ensures ChangesSoon(ops, x, next)
    {
      if x < last {
        assert ChangesSoon(ops, x, last);
      } else {
        assert x < next <= x + 2 * CONTEXT;
      }
    }
  }

  // ----- Applying hunks

  datatype Patched = Rejected | Result(lines: seq<Line>)

  /** A strict patch: every header number must be the true one, and every line the hunk
      says it reads must be there. `at` lines are read, `written` lines are out. */
  function Patch(a: seq<Line>, hunks: seq<Hunk>, at: nat, written: nat): Patched
    requires at <= |a|
    decreases |hunks|
  {
    if hunks == [] then Result(a[at..])
    else
      var h := hunks[0];
      if h.aStart <= at || h.aStart - 1 + h.aLen > |a| then Rejected
      else
        var from, to := h.aStart - 1, h.aStart - 1 + h.aLen;
        if a[from..to] != Olds(h.body) || h.bLen != |News(h.body)| || h.bStart != written + (from - at) + 1 then Rejected
        else match Patch(a, hunks[1..], to, h.bStart - 1 + h.bLen)
          case Rejected => Rejected
          case Result(rest) => Result(a[at..from] + News(h.body) + rest)
  }

  lemma {:induction false} KeptReadsWhatItWrites(ops: seq<Op>)
    requires AllKept(ops, 0, |ops|)
    ensures Olds(ops) == News(ops)
  {
    if ops != [] {
      KeptReadsWhatItWrites(ops[..|ops| - 1]);
    }
  }

  /** How far the first `c` cuts reach. */
  function Reached(cuts: seq<Cut>, c: nat): nat
    requires c <= |cuts|
  {
    if c == 0 then 0 else cuts[c - 1].end
  }

  /** From a cut on, the rest of the hunks turn the rest of the one text into the rest of
      the other. */
  lemma {:induction false} PatchRest(ops: seq<Op>, cuts: seq<Cut>, hunks: seq<Hunk>, c: nat)
    requires Covers(ops, cuts, |ops|) && Are(ops, hunks, cuts) && c <= |cuts|
    ensures var at := Reached(cuts, c);
      && at <= |ops| && |Olds(ops[..at])| <= |Olds(ops)|
      && Patch(Olds(ops), hunks[c..], |Olds(ops[..at])|, |News(ops[..at])|) == Result(News(ops[at..]))
    decreases |cuts| - c
  {
    hide Patch, Olds, News, AllKept, Tight, Covers, Are, Fits;
    var at := Reached(cuts, c);
    if c == |cuts| {
      LastStretch(ops, cuts);
      Split(ops, at, at);
      assert |hunks| == c by { SameNumber(ops, hunks, cuts); }
      assert hunks[c..] == [];
      PatchNone(Olds(ops), |Olds(ops[..at])|, |News(ops[..at])|);
    } else {
      PatchRest(ops, cuts, hunks, c + 1);
      Stretch(ops, cuts, c);
      var cut := cuts[c];
      IsHunk(ops, hunks, cuts, c);
      Split(ops, at, |ops|);
      PatchStep(ops, hunks[c..], at, cut);
    }
  }

  lemma SameNumber(ops: seq<Op>, hunks: seq<Hunk>, cuts: seq<Cut>)
    requires Are(ops, hunks, cuts)
    ensures |hunks| == |cuts|
  {
  }

  lemma IsHunk(ops: seq<Op>, hunks: seq<Hunk>, cuts: seq<Cut>, c: nat)
    requires Are(ops, hunks, cuts) && c < |cuts|
    ensures cuts[c].start <= cuts[c].end <= |ops|
    ensures |hunks| == |cuts| && hunks[c..][0] == HunkOf(ops, cuts[c]) && hunks[c..][1..] == hunks[c + 1..]
  {
    hide Tight;
  }

  /** One hunk, given that the rest of them patch the rest. */
  lemma {:induction false} PatchStep(ops: seq<Op>, hunks: seq<Hunk>, at: nat, cut: Cut)
    requires at <= cut.start <= cut.end <= |ops|
    requires hunks != [] && hunks[0] == HunkOf(ops, cut)
    requires |Olds(ops[..cut.end])| <= |Olds(ops)| && |Olds(ops[..at])| <= |Olds(ops)|
    requires Patch(Olds(ops), hunks[1..], |Olds(ops[..cut.end])|, |News(ops[..cut.end])|) == Result(News(ops[cut.end..]))
    requires Olds(ops[at..cut.start]) == News(ops[at..cut.start])
    requires News(ops[at..]) == News(ops[at..cut.start]) + News(ops[cut.start..cut.end]) + News(ops[cut.end..])
    ensures Patch(Olds(ops), hunks, |Olds(ops[..at])|, |News(ops[..at])|) == Result(News(ops[at..]))
  {
    hide Patch, Olds, News;
    Split(ops, at, cut.start);
    Split(ops, cut.start, cut.end);
    PatchOne(Olds(ops), hunks, Olds(ops[..at]), Olds(ops[at..cut.start]), Olds(ops[cut.end..]), |News(ops[..at])|);
  }

  lemma {:induction false} PatchNone(a: seq<Line>, at: nat, written: nat)
    requires at <= |a|
    ensures Patch(a, [], at, written) == Result(a[at..])
  {
  }

  lemma PatchOne(a: seq<Line>, hunks: seq<Hunk>, before: seq<Line>, kept: seq<Line>, after: seq<Line>, written: nat)
    requires hunks != [] && a == before + kept + Olds(hunks[0].body) + after
    requires hunks[0].aStart == |before| + |kept| + 1 && hunks[0].aLen == |Olds(hunks[0].body)|
    requires hunks[0].bStart == written + |kept| + 1 && hunks[0].bLen == |News(hunks[0].body)|
    requires Patch(a, hunks[1..], |before| + |kept| + hunks[0].aLen, written + |kept| + hunks[0].bLen).Result?
    ensures Patch(a, hunks, |before|, written) == Result(kept + News(hunks[0].body) +
      Patch(a, hunks[1..], |before| + |kept| + hunks[0].aLen, written + |kept| + hunks[0].bLen).lines)
  {
    hide Olds, News;
    var from := |before| + |kept|;
    assert a[|before|..from] == kept;
    assert a[from..from + hunks[0].aLen] == Olds(hunks[0].body);
  }

  /** What a stretch of the script reads and writes, in place. */
  lemma {:induction false} Split(ops: seq<Op>, i: nat, j: nat)
    requires i <= j <= |ops|
    ensures Olds(ops[..j]) == Olds(ops[..i]) + Olds(ops[i..j])
    ensures News(ops[..j]) == News(ops[..i]) + News(ops[i..j])
    ensures Olds(ops) == Olds(ops[..j]) + Olds(ops[j..])
  {
    hide *;
    SliceJoin(ops, i, j);
    Concat(ops[..i], ops[i..j]);
    Concat(ops[..j], ops[j..]);
  }

  lemma SliceJoin<T>(s: seq<T>, i: nat, j: nat)
    requires i <= j <= |s|
    ensures s[..j] == s[..i] + s[i..j] && s == s[..j] + s[j..]
  {
  }

  lemma {:induction false} LastStretch(ops: seq<Op>, cuts: seq<Cut>)
    requires Covers(ops, cuts, |ops|)
    ensures Reached(cuts, |cuts|) <= |ops|
    ensures Olds(ops[Reached(cuts, |cuts|)..]) == News(ops[Reached(cuts, |cuts|)..])
  {
    hide Olds, News, Tight;
    if cuts != [] {
      CoversAt(ops, cuts, |ops|, |cuts| - 1);
    }
    KeptReadsWhatItWrites(ops[Reached(cuts, |cuts|)..]);
  }

  lemma KeptSlice(ops: seq<Op>, i: nat, j: nat)
    requires i <= j <= |ops| && AllKept(ops, i, j)
    ensures Olds(ops[i..j]) == News(ops[i..j])
  {
    KeptReadsWhatItWrites(ops[i..j]);
  }

  lemma {:induction false} Bounds(ops: seq<Op>, cuts: seq<Cut>, c: nat)
    requires Covers(ops, cuts, |ops|) && c < |cuts|
    ensures Reached(cuts, c) <= cuts[c].start <= cuts[c].end <= |ops|
    ensures AllKept(ops, Reached(cuts, c), cuts[c].start)
  {
    hide Tight, Covers;
    CoversAt(ops, cuts, |ops|, c);
    if c == 0 {
      KeptFirst(ops, cuts[0].first);
    } else {
      CoversAt(ops, cuts, |ops|, c - 1);
      KeptBetween(ops, cuts[..c], cuts[c].first);
    }
  }

  lemma {:induction false} KeptFirst(ops: seq<Op>, upto: nat)
    requires Covers(ops, [], upto)
    ensures AllKept(ops, 0, upto)
  {
  }

  lemma {:induction false} KeptBetween(ops: seq<Op>, cuts: seq<Cut>, upto: nat)
    requires Covers(ops, cuts, upto) && cuts != []
    ensures AllKept(ops, cuts[|cuts| - 1].last + 1, upto)
  {
    hide Tight;
  }

  lemma {:induction false} Stretch(ops: seq<Op>, cuts: seq<Cut>, c: nat)
    requires Covers(ops, cuts, |ops|) && c < |cuts|
    ensures Reached(cuts, c) <= cuts[c].start <= cuts[c].end <= |ops|
    ensures Olds(ops[Reached(cuts, c)..cuts[c].start]) == News(ops[Reached(cuts, c)..cuts[c].start])
    ensures News(ops[Reached(cuts, c)..]) ==
      News(ops[Reached(cuts, c)..cuts[c].start]) + News(ops[cuts[c].start..cuts[c].end]) + News(ops[cuts[c].end..])
  {
    hide Olds, News, Covers, AllKept;
    Bounds(ops, cuts, c);
    KeptSlice(ops, Reached(cuts, c), cuts[c].start);
    NewsOfThree(ops, Reached(cuts, c), cuts[c].start, cuts[c].end);
  }

  lemma NewsOfThree(ops: seq<Op>, i: nat, j: nat, k: nat)
    requires i <= j <= k <= |ops|
    ensures News(ops[i..]) == News(ops[i..j]) + News(ops[j..k]) + News(ops[k..])
  {
    hide Olds, News;
    assert ops[i..] == ops[i..j] + ops[j..];
    assert ops[j..] == ops[j..k] + ops[k..];
    Concat(ops[i..j], ops[j..]);
    Concat(ops[j..k], ops[k..]);
  }

  // ----- The whole

  /** The same changes the other way round. */
  function Undone(op: Op): Op {
    match op
    case Keep(line) => Keep(line)
    case Remove(line) => Add(line)
    case Add(line) => Remove(line)
  }

  function UndoneAll(ops: seq<Op>): (s: seq<Op>)
    ensures |s| == |ops|
    ensures forall k :: 0 <= k < |ops| ==> s[k] == Undone(ops[k])
  {
    seq(|ops|, k requires 0 <= k < |ops| => Undone(ops[k]))
  }

  function UndoneHunk(h: Hunk): Hunk {
    Hunk(h.bStart, h.bLen, h.aStart, h.aLen, UndoneAll(h.body))
  }

  function UndoneHunks(hunks: seq<Hunk>): (s: seq<Hunk>)
    ensures |s| == |hunks|
    ensures forall k :: 0 <= k < |hunks| ==> s[k] == UndoneHunk(hunks[k])
  {
    seq(|hunks|, k requires 0 <= k < |hunks| => UndoneHunk(hunks[k]))
  }

  lemma {:induction false} UndoneReads(ops: seq<Op>)
    ensures Olds(UndoneAll(ops)) == News(ops) && News(UndoneAll(ops)) == Olds(ops)
  {
    if ops != [] {
      UndoneReads(ops[..|ops| - 1]);
      assert UndoneAll(ops)[..|ops| - 1] == UndoneAll(ops[..|ops| - 1]);
    }
  }

  lemma UndoneFits(ops: seq<Op>, cut: Cut)
    requires Fits(ops, cut)
    ensures Fits(UndoneAll(ops), cut)
  {
    forall x | cut.first <= x < cut.last
      ensures ChangesSoon(UndoneAll(ops), x, cut.last)
    {
      assert ChangesSoon(ops, x, cut.last);
      var y :| x < y <= x + 2 * CONTEXT && y <= cut.last && Changes(ops, y);
      assert Changes(UndoneAll(ops), y);
    }
  }

  lemma {:induction false} UndoneCovers(ops: seq<Op>, cuts: seq<Cut>, upto: nat)
    requires Covers(ops, cuts, upto)
    ensures Covers(UndoneAll(ops), cuts, upto)
  {
    hide Fits;
    if cuts != [] {
      UndoneFits(ops, cuts[|cuts| - 1]);
      UndoneCovers(ops, cuts[..|cuts| - 1], cuts[|cuts| - 1].first);
    }
  }

  lemma UndoneIs(ops: seq<Op>, cut: Cut)
    requires cut.start <= cut.end <= |ops|
    ensures HunkOf(UndoneAll(ops), cut) == UndoneHunk(HunkOf(ops, cut))
  {
    hide Olds, News;
    UndoneReads(ops[..cut.start]);
    UndoneReads(ops[cut.start..cut.end]);
    assert UndoneAll(ops)[..cut.start] == UndoneAll(ops[..cut.start]);
    assert UndoneAll(ops)[cut.start..cut.end] == UndoneAll(ops[cut.start..cut.end]);
  }

  lemma {:induction false} PatchCuts(ops: seq<Op>, cuts: seq<Cut>, hunks: seq<Hunk>)
    requires Covers(ops, cuts, |ops|) && Are(ops, hunks, cuts)
    ensures Patch(Olds(ops), hunks, 0, 0) == Result(News(ops))
  {
    hide Patch, Olds, News, Covers, Are;
    PatchRest(ops, cuts, hunks, 0);
    EmptyScript();
    assert hunks[0..] == hunks && ops[0..] == ops && ops[..0] == [];
  }

  /** Hunks that cover a script turn what it reads into what it writes. */
  lemma {:induction false} PatchAll(ops: seq<Op>, hunks: seq<Hunk>)
    requires Groups(ops, hunks)
    ensures Patch(Olds(ops), hunks, 0, 0) == Result(News(ops))
  {
    hide Patch, Olds, News, Covers, Are;
    var cuts :| Covers(ops, cuts, |ops|) && Are(ops, hunks, cuts);
    PatchCuts(ops, cuts, hunks);
  }

  /** The hunks undone turn it back. */
  lemma {:induction false} PatchBack(ops: seq<Op>, hunks: seq<Hunk>)
    requires Groups(ops, hunks)
    ensures Patch(News(ops), UndoneHunks(hunks), 0, 0) == Result(Olds(ops))
  {
    hide Patch, Olds, News, Covers, HunkOf;
    var cuts :| Covers(ops, cuts, |ops|) && Are(ops, hunks, cuts);
    UndoneReads(ops);
    UndoneCovers(ops, cuts, |ops|);
    forall h | 0 <= h < |cuts|
      ensures Fits(UndoneAll(ops), cuts[h]) && UndoneHunks(hunks)[h] == HunkOf(UndoneAll(ops), cuts[h])
    {
      UndoneFits(ops, cuts[h]);
      UndoneIs(ops, cuts[h]);
    }
    PatchCuts(UndoneAll(ops), cuts, UndoneHunks(hunks));
  }

  lemma {:induction false} NothingChanged(ops: seq<Op>)
    ensures Kept(ops) <= |Olds(ops)| && Kept(ops) <= |News(ops)| && Kept(ops) <= |ops|
    ensures Kept(ops) == |Olds(ops)| == |News(ops)| <==> AllKept(ops, 0, |ops|)
  {
    if ops != [] {
      var was := ops[..|ops| - 1];
      NothingChanged(was);
      assert AllKept(ops, 0, |ops|) <==> AllKept(was, 0, |was|) && ops[|ops| - 1].Keep?;
    }
  }

  datatype Review = Suppressed(n: nat, m: nat) | Hunked(hunks: seq<Hunk>)

  /** The text of a diff: applied strictly it turns the one list of lines into the other,
      undone it turns the other back, and its hunks cover a shortest edit script. It has no
      hunk exactly when the lists agree. Longer texts than the limit get none. */
  method UnifiedDiff(a: seq<Line>, b: seq<Line>) returns (r: Review)
    ensures r.Suppressed? <==> |a| > MOST_LINES || |b| > MOST_LINES
    ensures r.Suppressed? ==> r == Suppressed(|a|, |b|)
    ensures r.Hunked? ==>
      && Patch(a, r.hunks, 0, 0) == Result(b)
      && Patch(b, UndoneHunks(r.hunks), 0, 0) == Result(a)
      && (r.hunks == [] <==> a == b)
      && exists ops :: Shortest(ops, a, b) && Groups(ops, r.hunks)
  {
    hide Patch, Groups, Shortest, Olds, News, Kept;
    if |a| > MOST_LINES || |b| > MOST_LINES {
      return Suppressed(|a|, |b|);
    }
    var ops := EditScript(a, b);
    var hunks := Hunks(ops);
    r := Hunked(hunks);
    Reads(ops, a, b);
    PatchAll(ops, hunks);
    PatchBack(ops, hunks);
    EmptyIffEqual(ops, hunks, a, b);
  }

  lemma {:induction false} Reads(ops: seq<Op>, a: seq<Line>, b: seq<Line>)
    requires Shortest(ops, a, b)
    ensures Olds(ops) == a && News(ops) == b
  {
  }

  /** The script that keeps everything. */
  function Same(a: seq<Line>): (ops: seq<Op>)
    ensures |ops| == |a| && Olds(ops) == a && News(ops) == a && Kept(ops) == |a|
  {
    if a == [] then []
    else
      Snoc(Same(a[..|a| - 1]), Keep(a[|a| - 1]));
      Same(a[..|a| - 1]) + [Keep(a[|a| - 1])]
  }

  lemma {:induction false} EmptyIffEqual(ops: seq<Op>, hunks: seq<Hunk>, a: seq<Line>, b: seq<Line>)
    requires Shortest(ops, a, b) && Groups(ops, hunks)
    ensures hunks == [] <==> a == b
  {
    hide Olds, News, Kept, Tight;
    var cuts :| Covers(ops, cuts, |ops|) && Are(ops, hunks, cuts);
    NothingChanged(ops);
    if a == b {
      assert Kept(Same(a)) <= Kept(ops);
    } else if cuts == [] {
      KeptReadsWhatItWrites(ops);
    }
  }
}
