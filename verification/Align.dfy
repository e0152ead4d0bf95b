/** Maximum-weight alignment with affine gaps and a substitution state: four score tables
    over suffixes and a forward traceback, against all alignments there are. */
module Align {
  const GAP_OPEN := 2
  const SUB := 1
  /** `i32::MIN / 4`: no alignment starts this way. */
  const NEG := -0x2000_0000

  /** Two token sequences of lengths `n` and `m`, what a match of two tokens weighs (0: no
      match), and which pairs may stand in for each other. */
  datatype Problem = Problem(n: nat, m: nat, weight: (nat, nat) -> nat, subst: (nat, nat) -> bool)

  datatype Op = Mat | Sub | Del | Ins

  // ----- Alignments

  predicate Within(p: Problem, i: nat, j: nat) {
    i <= p.n && j <= p.m
  }

  /** The operations consume both suffixes from `(i, j)` on, each where it is allowed. */
  predicate Aligns(p: Problem, ops: seq<Op>, i: nat, j: nat)
    requires Within(p, i, j)
    decreases |ops|
  {
    if ops == [] then i == p.n && j == p.m
    else match ops[0]
      case Mat => i < p.n && j < p.m && p.weight(i, j) > 0 && Aligns(p, ops[1..], i + 1, j + 1)
      case Sub => i < p.n && j < p.m && p.weight(i, j) == 0 && p.subst(i, j) && Aligns(p, ops[1..], i + 1, j + 1)
      case Del => i < p.n && Aligns(p, ops[1..], i + 1, j)
      case Ins => j < p.m && Aligns(p, ops[1..], i, j + 1)
  }

  /** The state an alignment starts in; the empty one counts as a match of nothing. */
  function First(ops: seq<Op>): Op {
    if ops == [] then Mat else ops[0]
  }

  /** Matches earn their weight, a substitution costs 1, and every maximal run of deletions
      or of insertions costs 2: the last of a run pays for it. */
  function Score(p: Problem, ops: seq<Op>, i: nat, j: nat): int
    requires Within(p, i, j) && Aligns(p, ops, i, j)
    decreases |ops|
  {
    if ops == [] then 0
    else match ops[0]
      case Mat => Score(p, ops[1..], i + 1, j + 1) + p.weight(i, j)
      case Sub => Score(p, ops[1..], i + 1, j + 1) - SUB
      case Del => Score(p, ops[1..], i + 1, j) - (if ops[1..] != [] && ops[1] == Del then 0 else GAP_OPEN)
      case Ins => Score(p, ops[1..], i, j + 1) - (if ops[1..] != [] && ops[1] == Ins then 0 else GAP_OPEN)
  }

  /** The matched pairs of an alignment. */
  function Pairs(ops: seq<Op>, i: nat, j: nat): seq<(nat, nat)> {
    if ops == [] then []
    else match ops[0]
      case Mat => [(i, j)] + Pairs(ops[1..], i + 1, j + 1)
      case Sub => Pairs(ops[1..], i + 1, j + 1)
      case Del => Pairs(ops[1..], i + 1, j)
      case Ins => Pairs(ops[1..], i, j + 1)
  }

  ghost predicate Increasing(pairs: seq<(nat, nat)>) {
    forall a, b :: 0 <= a < b < |pairs| ==> pairs[a].0 < pairs[b].0 && pairs[a].1 < pairs[b].1
  }

  /** The pairs of an alignment are matches, in range, and increase strictly on both sides. */
  lemma {:induction false} PairsIncrease(p: Problem, ops: seq<Op>, i: nat, j: nat)
    requires Within(p, i, j) && Aligns(p, ops, i, j)
    ensures Increasing(Pairs(ops, i, j))
    ensures forall a :: 0 <= a < |Pairs(ops, i, j)| ==>
      var q := Pairs(ops, i, j)[a];
      i <= q.0 < p.n && j <= q.1 < p.m && p.weight(q.0, q.1) > 0
    decreases |ops|
  {
    if ops != [] {
      match ops[0] {
        case Mat => PairsIncrease(p, ops[1..], i + 1, j + 1);
        case Sub => PairsIncrease(p, ops[1..], i + 1, j + 1);
        case Del => PairsIncrease(p, ops[1..], i + 1, j);
        case Ins => PairsIncrease(p, ops[1..], i, j + 1);
      }
    }
  }

  // ----- The tables

  function Max(a: int, b: int): int {
    if a >= b then a else b
  }

  /** The four scores of one cell. */
  datatype Cell = Cell(mat: int, sub: int, del: int, ins: int) {
    function Best(): int {
      Max(Max(mat, sub), Max(del, ins))
    }

    function In(op: Op): int {
      match op
      case Mat => mat
      case Sub => sub
      case Del => del
      case Ins => ins
    }

    /** Entering a deletion here, or going on with one. */
    function BeforeDel(): int {
      Max(Max(mat - GAP_OPEN, sub - GAP_OPEN), Max(del, ins - GAP_OPEN))
    }

    function BeforeIns(): int {
      Max(Max(mat - GAP_OPEN, sub - GAP_OPEN), Max(ins, del - GAP_OPEN))
    }
  }

  function At(p: Problem, i: nat, j: nat): Cell
    requires Within(p, i, j)
    decreases p.n - i + (p.m - j)
  {
    if i == p.n && j == p.m then Cell(0, NEG, NEG, NEG)
    else if i == p.n then Cell(NEG, NEG, NEG, -GAP_OPEN)
    else if j == p.m then Cell(NEG, NEG, -GAP_OPEN, NEG)
    else
      var diag, here := At(p, i + 1, j + 1).Best(), p.weight(i, j);
      Cell(if here > 0 then diag + here else NEG,
           if here == 0 && p.subst(i, j) then diag - SUB else NEG,
           At(p, i + 1, j).BeforeDel(),
           At(p, i, j + 1).BeforeIns())
  }

  /** Every cell has a real score: deleting and inserting everything costs at most 4. A
      state that no alignment starts in stays at the sentinel, far below. */
  lemma {:induction false} Floor(p: Problem, i: nat, j: nat)
    requires Within(p, i, j)
    ensures At(p, i, j).Best() >= -4
    ensures i < p.n ==> At(p, i, j).del >= -4
    ensures j < p.m ==> At(p, i, j).ins >= -4
    ensures At(p, i, j).mat == NEG || At(p, i, j).mat >= -4
    ensures At(p, i, j).sub == NEG || At(p, i, j).sub >= -5
    decreases p.n - i + (p.m - j)
  {
    hide At;
    if i < p.n && j < p.m {
      Floor(p, i + 1, j + 1);
      Floor(p, i + 1, j);
      Floor(p, i, j + 1);
      CellFrom(p, i, j);
      GapFloor(At(p, i + 1, j));
      GapFloor(At(p, i, j + 1));
      if i + 1 == p.n { LastRow(p, j); }
      if j + 1 == p.m { LastColumn(p, i); }
    } else if i < p.n {
      LastColumn(p, i);
    } else {
      LastRow(p, j);
    }
  }

  lemma GapFloor(c: Cell)
    ensures c.BeforeDel() >= c.del && c.BeforeDel() >= c.ins - GAP_OPEN
    ensures c.BeforeIns() >= c.ins && c.BeforeIns() >= c.del - GAP_OPEN
  {
  }

  lemma {:induction false} LastRow(p: Problem, j: nat)
    requires j <= p.m
    ensures At(p, p.n, j) == if j == p.m then Cell(0, NEG, NEG, NEG) else Cell(NEG, NEG, NEG, -GAP_OPEN)
  {
  }

  lemma {:induction false} LastColumn(p: Problem, i: nat)
    requires i <= p.n
    ensures At(p, i, p.m) == if i == p.n then Cell(0, NEG, NEG, NEG) else Cell(NEG, NEG, -GAP_OPEN, NEG)
  {
  }

  /** No alignment scores more than the table says for the state it starts in. */
  lemma {:induction false} TableBounds(p: Problem, ops: seq<Op>, i: nat, j: nat)
    requires Within(p, i, j) && Aligns(p, ops, i, j)
    ensures Score(p, ops, i, j) <= At(p, i, j).In(First(ops))
    decreases |ops|
  {
    hide At;
    if ops != [] {
      match ops[0] {
        case Mat =>
          TableBounds(p, ops[1..], i + 1, j + 1);
          CellFrom(p, i, j);
          BestIsMost(At(p, i + 1, j + 1), First(ops[1..]));
        case Sub =>
          TableBounds(p, ops[1..], i + 1, j + 1);
          CellFrom(p, i, j);
          BestIsMost(At(p, i + 1, j + 1), First(ops[1..]));
        case Del =>
          TableBounds(p, ops[1..], i + 1, j);
          DelFrom(p, i, j);
        case Ins =>
          TableBounds(p, ops[1..], i, j + 1);
          InsFrom(p, i, j);
      }
    } else {
      LastRow(p, j);
    }
  }

  lemma BestIsMost(c: Cell, op: Op)
    ensures c.In(op) <= c.Best()
  {
  }

  // ----- The traceback

  /** The first state to reach a score, in the order of preference. */
  function NextState(c: Cell, target: int): Op {
    if c.mat == target then Mat else if c.sub == target then Sub else if c.del == target then Del else Ins
  }

  function AfterDel(c: Cell, v: int): Op {
    if c.del == v then Del else if c.mat - GAP_OPEN == v then Mat else if c.sub - GAP_OPEN == v then Sub else Ins
  }

  function AfterIns(c: Cell, v: int): Op {
    if c.ins == v then Ins else if c.mat - GAP_OPEN == v then Mat else if c.sub - GAP_OPEN == v then Sub else Del
  }

  /** Ties prefer a match, then a substitution, then a deletion. */
  function Pick(c: Cell): Op {
    if c.mat >= c.sub && c.mat >= c.del && c.mat >= c.ins then Mat
    else if c.sub >= c.del && c.sub >= c.ins then Sub
    else if c.del >= c.ins then Del
    else Ins
  }

  /** A state an alignment can start in. */
  predicate Live(p: Problem, op: Op, i: nat, j: nat)
    requires Within(p, i, j)
  {
    At(p, i, j).In(op) >= -5
  }

  /** Where the traceback goes from a cell in a live state, and in which state. */
  function Onward(p: Problem, op: Op, i: nat, j: nat): (r: (Op, nat, nat))
    requires Within(p, i, j) && Live(p, op, i, j) && !(i == p.n && j == p.m)
    ensures Within(p, r.1, r.2) && r.1 + r.2 > i + j
  {
    match op
    case Mat => (NextState(At(p, i + 1, j + 1), At(p, i, j).mat - p.weight(i, j)), i + 1, j + 1)
    case Sub => (NextState(At(p, i + 1, j + 1), At(p, i, j).sub + SUB), i + 1, j + 1)
    case Del => (AfterDel(At(p, i + 1, j), At(p, i, j).del), i + 1, j)
    case Ins => (AfterIns(At(p, i, j + 1), At(p, i, j).ins), i, j + 1)
  }

  lemma OnwardIsLive(p: Problem, op: Op, i: nat, j: nat)
    requires Within(p, i, j) && Live(p, op, i, j) && !(i == p.n && j == p.m)
    ensures var r := Onward(p, op, i, j); Live(p, r.0, r.1, r.2)
  {
    hide At, Onward, NextState, AfterDel, AfterIns;
    OnwardScores(p, op, i, j);
    Floor(p, i, j);
    LiveMeans(p, op, i, j);
    if op == Mat || op == Sub {
      CellFrom(p, i, j);
      assert Onward(p, op, i, j).1 == i + 1 && Onward(p, op, i, j).2 == j + 1 by { OnwardDiagonal(p, op, i, j); }
      Floor(p, i + 1, j + 1);
    }
  }

  lemma OnwardDiagonal(p: Problem, op: Op, i: nat, j: nat)
    requires Within(p, i, j) && Live(p, op, i, j) && !(i == p.n && j == p.m)
    requires op == Mat || op == Sub
    ensures Onward(p, op, i, j).1 == i + 1 && Onward(p, op, i, j).2 == j + 1
  {
    hide At;
  }

  /** The alignment the traceback follows. */
  function Trace(p: Problem, op: Op, i: nat, j: nat): (ops: seq<Op>)
    requires Within(p, i, j) && Live(p, op, i, j)
    decreases p.n - i + (p.m - j)
  {
    if i == p.n && j == p.m then []
    else
      var r := Onward(p, op, i, j);
      OnwardIsLive(p, op, i, j);
      [op] + Trace(p, r.0, r.1, r.2)
  }

  lemma DelFrom(p: Problem, i: nat, j: nat)
    requires i < p.n && j <= p.m
    ensures At(p, i, j).del == At(p, i + 1, j).BeforeDel()
  {
  }

  lemma InsFrom(p: Problem, i: nat, j: nat)
    requires i <= p.n && j < p.m
    ensures At(p, i, j).ins == At(p, i, j + 1).BeforeIns()
  {
  }

  lemma LiveMeans(p: Problem, op: Op, i: nat, j: nat)
    requires Within(p, i, j) && Live(p, op, i, j) && !(i == p.n && j == p.m)
    ensures match op
      case Mat => i < p.n && j < p.m && p.weight(i, j) > 0
      case Sub => i < p.n && j < p.m && p.weight(i, j) == 0 && p.subst(i, j)
      case Del => i < p.n
      case Ins => j < p.m
  {
  }

  lemma NextStateReaches(c: Cell, target: int)
    requires c.Best() == target
    ensures c.In(NextState(c, target)) == target
  {
  }

  lemma AfterDelReaches(c: Cell, v: int)
    requires c.BeforeDel() == v
    ensures c.In(AfterDel(c, v)) - (if AfterDel(c, v) == Del then 0 else GAP_OPEN) == v
  {
  }

  lemma AfterInsReaches(c: Cell, v: int)
    requires c.BeforeIns() == v
    ensures c.In(AfterIns(c, v)) - (if AfterIns(c, v) == Ins then 0 else GAP_OPEN) == v
  {
  }

  /** One step of the traceback is allowed, and accounts exactly for the score it spends. */
  lemma {:induction false} OnwardScores(p: Problem, op: Op, i: nat, j: nat)
    requires Within(p, i, j) && Live(p, op, i, j) && !(i == p.n && j == p.m)
    ensures var r := Onward(p, op, i, j);
      var here, there := At(p, i, j).In(op), At(p, r.1, r.2).In(r.0);
      match op
      case Mat => i < p.n && j < p.m && p.weight(i, j) > 0 && here == there + p.weight(i, j)
      case Sub => i < p.n && j < p.m && p.weight(i, j) == 0 && p.subst(i, j) && here == there - SUB
      case Del => i < p.n && here == there - (if r.0 == Del then 0 else GAP_OPEN)
      case Ins => j < p.m && here == there - (if r.0 == Ins then 0 else GAP_OPEN)
  {
    hide At, NextState, AfterDel, AfterIns;
    LiveMeans(p, op, i, j);
    match op {
      case Mat =>
        CellFrom(p, i, j);
        NextStateReaches(At(p, i + 1, j + 1), At(p, i, j).mat - p.weight(i, j));
      case Sub =>
        CellFrom(p, i, j);
        NextStateReaches(At(p, i + 1, j + 1), At(p, i, j).sub + SUB);
      case Del =>
        DelFrom(p, i, j);
        AfterDelReaches(At(p, i + 1, j), At(p, i, j).del);
      case Ins =>
        InsFrom(p, i, j);
        AfterInsReaches(At(p, i, j + 1), At(p, i, j).ins);
    }
  }

  lemma {:induction false} EndIsMat(p: Problem, op: Op)
    requires Live(p, op, p.n, p.m)
    ensures op == Mat && At(p, p.n, p.m).In(op) == 0
  {
  }

  /** The traceback is an alignment, starts in its state, and scores what the table says. */
  lemma {:induction false} TraceScores(p: Problem, op: Op, i: nat, j: nat)
    requires Within(p, i, j) && Live(p, op, i, j)
    ensures Aligns(p, Trace(p, op, i, j), i, j)
    ensures First(Trace(p, op, i, j)) == op
    ensures Score(p, Trace(p, op, i, j), i, j) == At(p, i, j).In(op)
    decreases p.n - i + (p.m - j)
  {
    hide At;
    if i == p.n && j == p.m {
      EndIsMat(p, op);
    } else {
      var r := Onward(p, op, i, j);
      OnwardIsLive(p, op, i, j);
      OnwardScores(p, op, i, j);
      TraceScores(p, r.0, r.1, r.2);
      var ops, rest := Trace(p, op, i, j), Trace(p, r.0, r.1, r.2);
      assert ops[0] == op && ops[1..] == rest;
      if rest == [] {
        assert r.0 == Mat;
      }
    }
  }

  /** The best alignment, as the method finds it. */
  function Chosen(p: Problem): (ops: seq<Op>) {
    Floor(p, 0, 0);
    Trace(p, Pick(At(p, 0, 0)), 0, 0)
  }

  /** Optimality: the chosen operations are an alignment of the two sequences, and no
      alignment of them scores higher. */
  lemma {:induction false} ChosenIsOptimal(p: Problem)
    ensures Aligns(p, Chosen(p), 0, 0)
    ensures forall ops :: Aligns(p, ops, 0, 0) ==> Score(p, ops, 0, 0) <= Score(p, Chosen(p), 0, 0)
  {
    Floor(p, 0, 0);
    TraceScores(p, Pick(At(p, 0, 0)), 0, 0);
    forall ops | Aligns(p, ops, 0, 0)
      ensures Score(p, ops, 0, 0) <= Score(p, Chosen(p), 0, 0)
    {
      TableBounds(p, ops, 0, 0);
    }
  }

  // ----- The method

  /** The four tables of the method, cell by cell. */
  class Tables {
    const mat: array2<int>
    const sub: array2<int>
    const del: array2<int>
    const ins: array2<int>
    const rows: nat
    const cols: nat

    constructor (n: nat, m: nat)
      ensures Shaped() && rows == n + 1 && cols == m + 1
      ensures fresh(mat) && fresh(sub) && fresh(del) && fresh(ins)
      ensures forall a, b :: 0 <= a <= n && 0 <= b <= m ==> mat[a, b] == NEG
      ensures forall a, b :: 0 <= a <= n && 0 <= b <= m ==> sub[a, b] == NEG
      ensures forall a, b :: 0 <= a <= n && 0 <= b <= m ==> del[a, b] == NEG
      ensures forall a, b :: 0 <= a <= n && 0 <= b <= m ==> ins[a, b] == NEG
    {
      rows, cols := n + 1, m + 1;
      mat := new int[n + 1, m + 1]((_, _) => NEG);
      sub := new int[n + 1, m + 1]((_, _) => NEG);
      del := new int[n + 1, m + 1]((_, _) => NEG);
      ins := new int[n + 1, m + 1]((_, _) => NEG);
    }

    ghost predicate Shaped() {
      && mat != sub && mat != del && mat != ins && sub != del && sub != ins && del != ins
      && mat.Length0 == sub.Length0 == del.Length0 == ins.Length0 == rows
      && mat.Length1 == sub.Length1 == del.Length1 == ins.Length1 == cols
    }

    function Get(a: nat, b: nat): Cell
      reads mat, sub, del, ins
      requires Shaped() && a < rows && b < cols
    {
      Cell(mat[a, b], sub[a, b], del[a, b], ins[a, b])
    }
  }

  /** Every cell but those of rows up to `i` that come before column `j` of row `i`, and of
      the last row and column, holds its score; the rest still hold the sentinel. */
  ghost function Filling(p: Problem, i: int, j: int, a: nat, b: nat): Cell
    requires a <= p.n && b <= p.m
  {
    if a > i || (a == i && b >= j) || a == p.n || b == p.m then At(p, a, b) else Cell(NEG, NEG, NEG, NEG)
  }

  ghost predicate Filled(p: Problem, t: Tables, i: int, j: int)
    reads t.mat, t.sub, t.del, t.ins
  {
    && t.Shaped() && t.rows == p.n + 1 && t.cols == p.m + 1
    && (forall a, b :: 0 <= a <= p.n && 0 <= b <= p.m ==> t.mat[a, b] == Filling(p, i, j, a, b).mat)
    && (forall a, b :: 0 <= a <= p.n && 0 <= b <= p.m ==> t.sub[a, b] == Filling(p, i, j, a, b).sub)
    && (forall a, b :: 0 <= a <= p.n && 0 <= b <= p.m ==> t.del[a, b] == Filling(p, i, j, a, b).del)
    && (forall a, b :: 0 <= a <= p.n && 0 <= b <= p.m ==> t.ins[a, b] == Filling(p, i, j, a, b).ins)
  }

  method FillBorders(p: Problem, t: Tables)
    requires t.Shaped() && t.rows == p.n + 1 && t.cols == p.m + 1
    requires forall a, b :: 0 <= a <= p.n && 0 <= b <= p.m ==> t.mat[a, b] == NEG
    requires forall a, b :: 0 <= a <= p.n && 0 <= b <= p.m ==> t.sub[a, b] == NEG
    requires forall a, b :: 0 <= a <= p.n && 0 <= b <= p.m ==> t.del[a, b] == NEG
    requires forall a, b :: 0 <= a <= p.n && 0 <= b <= p.m ==> t.ins[a, b] == NEG
    modifies t.mat, t.del, t.ins
    ensures Filled(p, t, p.n, 0)
  {
    t.mat[p.n, p.m] := 0;
    var i := p.n;
    while i > 0
      modifies t.del
      invariant 0 <= i <= p.n
      invariant forall a, b :: 0 <= a <= p.n && 0 <= b <= p.m ==> t.del[a, b] == if b == p.m && i <= a < p.n then -GAP_OPEN else NEG
    {
      i := i - 1;
      t.del[i, p.m] := -GAP_OPEN;
    }
    var j := p.m;
    while j > 0
      modifies t.ins
      invariant 0 <= j <= p.m
      invariant forall a, b :: 0 <= a <= p.n && 0 <= b <= p.m ==> t.ins[a, b] == if a == p.n && j <= b < p.m then -GAP_OPEN else NEG
    {
      j := j - 1;
      t.ins[p.n, j] := -GAP_OPEN;
    }
  }

  /** One cell from its three neighbours. */
  method FillCell(p: Problem, t: Tables, i: nat, j: nat)
    requires i < p.n && j < p.m && Filled(p, t, i, j + 1)
    modifies t.mat, t.sub, t.del, t.ins
    ensures Filled(p, t, i, j)
  {
    hide At;
    CellFrom(p, i, j);
    var diag := t.Get(i + 1, j + 1).Best();
    var here := p.weight(i, j);
    if here > 0 {
      t.mat[i, j] := diag + here;
    } else if p.subst(i, j) {
      t.sub[i, j] := diag - SUB;
    }
    t.del[i, j] := Max(Max(t.mat[i + 1, j] - GAP_OPEN, t.sub[i + 1, j] - GAP_OPEN), Max(t.del[i + 1, j], t.ins[i + 1, j] - GAP_OPEN));
    t.ins[i, j] := Max(Max(t.mat[i, j + 1] - GAP_OPEN, t.sub[i, j + 1] - GAP_OPEN), Max(t.ins[i, j + 1], t.del[i, j + 1] - GAP_OPEN));
  }

  lemma CellFrom(p: Problem, i: nat, j: nat)
    requires i < p.n && j < p.m
    ensures At(p, i, j) == Cell(
      if p.weight(i, j) > 0 then At(p, i + 1, j + 1).Best() + p.weight(i, j) else NEG,
      if p.weight(i, j) == 0 && p.subst(i, j) then At(p, i + 1, j + 1).Best() - SUB else NEG,
      At(p, i + 1, j).BeforeDel(), At(p, i, j + 1).BeforeIns())
  {
  }

  /** The matched pairs of an optimal alignment. */
  method Align(p: Problem) returns (out: seq<(nat, nat)>)
    ensures out == Pairs(Chosen(p), 0, 0)
  {
    hide At, Filled, Tables.Shaped;
    var t := new Tables(p.n, p.m);
    FillBorders(p, t);
    var i: int := p.n;
    while i > 0
      invariant 0 <= i <= p.n && Filled(p, t, i, 0)
    {
      i := i - 1;
      NextRow(p, t, i);
      var j: int := p.m;
      while j > 0
        invariant 0 <= j <= p.m && Filled(p, t, i, j)
      {
        j := j - 1;
        FillCell(p, t, i, j);
      }
    }
    out := Traceback(p, t);
  }

  lemma NextRow(p: Problem, t: Tables, i: int)
    requires 0 <= i < p.n && Filled(p, t, i + 1, 0)
    ensures Filled(p, t, i, p.m)
  {
    hide At;
  }

  /** One turn of the traceback loop: where it goes, by the tables. */
  method StepOn(p: Problem, t: Tables, op: Op, i: nat, j: nat) returns (state: Op, i': nat, j': nat)
    requires Filled(p, t, 0, 0) && Within(p, i, j) && Live(p, op, i, j) && !(i == p.n && j == p.m)
    ensures (state, i', j') == Onward(p, op, i, j)
  {
    hide At, NextState, AfterDel, AfterIns;
    LiveMeans(p, op, i, j);
    match op {
      case Mat =>
        i', j' := i + 1, j + 1;
        state := NextState(t.Get(i', j'), t.mat[i, j] - p.weight(i, j));
      case Sub =>
        i', j' := i + 1, j + 1;
        state := NextState(t.Get(i', j'), t.sub[i, j] + SUB);
      case Del =>
        i', j' := i + 1, j;
        state := AfterDel(t.Get(i', j'), t.del[i, j]);
      case Ins =>
        i', j' := i, j + 1;
        state := AfterIns(t.Get(i', j'), t.ins[i, j]);
    }
  }

  method Traceback(p: Problem, t: Tables) returns (out: seq<(nat, nat)>)
    requires Filled(p, t, 0, 0)
    ensures out == Pairs(Chosen(p), 0, 0)
  {
    hide At, Onward, Trace, Pairs, Live, Filled;
    Start(p, t);
    out := [];
    var i: nat, j: nat := 0, 0;
    var state := Pick(t.Get(0, 0));
    while i < p.n || j < p.m
      invariant Within(p, i, j) && Live(p, state, i, j)
      invariant out + Pairs(Trace(p, state, i, j), i, j) == Pairs(Chosen(p), 0, 0)
      decreases p.n - i + (p.m - j)
    {
      PairsOn(p, state, i, j);
      if state == Mat {
        out := out + [(i, j)];
      }
      state, i, j := StepOn(p, t, state, i, j);
      if i == p.n && j == p.m {
        break;
      }
      OnlyInsOrDel(p, state, i, j);
      if i == p.n {
        state := Ins;
      } else if j == p.m {
        state := Del;
      }
    }
    NoPairs(p, state);
  }

  lemma {:induction false} Start(p: Problem, t: Tables)
    requires Filled(p, t, 0, 0)
    ensures t.Shaped() && t.rows > 0 && t.cols > 0 && Live(p, Pick(t.Get(0, 0)), 0, 0)
    ensures Chosen(p) == Trace(p, Pick(t.Get(0, 0)), 0, 0)
  {
    hide At;
    Floor(p, 0, 0);
  }

  lemma {:induction false} NoPairs(p: Problem, op: Op)
    requires Live(p, op, p.n, p.m)
    ensures Pairs(Trace(p, op, p.n, p.m), p.n, p.m) == []
  {
  }

  /** A turn consumes one pair if it is a match, and none otherwise. */
  lemma {:induction false} PairsOn(p: Problem, op: Op, i: nat, j: nat)
    requires Within(p, i, j) && Live(p, op, i, j) && !(i == p.n && j == p.m)
    ensures var r := Onward(p, op, i, j);
      && Live(p, r.0, r.1, r.2)
      && Pairs(Trace(p, op, i, j), i, j) == (if op == Mat then [(i, j)] else []) + Pairs(Trace(p, r.0, r.1, r.2), r.1, r.2)
  {
    hide At;
    OnwardIsLive(p, op, i, j);
    var r := Onward(p, op, i, j);
    assert Trace(p, op, i, j)[1..] == Trace(p, r.0, r.1, r.2);
  }

  /** On the last row only insertions are left, in the last column only deletions. */
  lemma OnlyInsOrDel(p: Problem, op: Op, i: nat, j: nat)
    requires Within(p, i, j) && Live(p, op, i, j) && !(i == p.n && j == p.m)
    ensures i == p.n ==> op == Ins
    ensures j == p.m ==> op == Del
  {
  }

  /** These are the matches of an alignment that no other alignment outscores. */
  ghost predicate MatchesOfBest(p: Problem, out: seq<(nat, nat)>) {
    exists best :: Aligns(p, best, 0, 0) && out == Pairs(best, 0, 0) && NoneBeats(p, best)
  }

  ghost predicate NoneBeats(p: Problem, best: seq<Op>)
    requires Aligns(p, best, 0, 0)
  {
    forall ops :: Aligns(p, ops, 0, 0) ==> Score(p, ops, 0, 0) <= Score(p, best, 0, 0)
  }

  /** What `align` promises of the pairs it returns: they are the matches of a best
      alignment, increase strictly, are in range and weigh something. */
  lemma AlignPromise(p: Problem)
    ensures var out := Pairs(Chosen(p), 0, 0);
      && MatchesOfBest(p, out) && Increasing(out)
      && forall a :: 0 <= a < |out| ==> out[a].0 < p.n && out[a].1 < p.m && p.weight(out[a].0, out[a].1) > 0
  {
    ChosenIsOptimal(p);
    PairsIncrease(p, Chosen(p), 0, 0);
    assert NoneBeats(p, Chosen(p));
  }

  // ----- Equal sequences

  /** Every token matches the one at its own place, and no other better. */
  ghost predicate Diagonal(p: Problem) {
    && p.n == p.m && (forall i :: 0 <= i < p.n ==> p.weight(i, i) > 0)
    && forall i, j :: 0 <= i < p.n && 0 <= j < p.m ==> p.weight(i, j) <= p.weight(i, i)
  }

  /** What the tokens from `i` on weigh at their own places. */
  function Total(p: Problem, i: nat): nat
    requires i <= p.n
    decreases p.n - i
  {
    if i == p.n then 0 else p.weight(i, i) + Total(p, i + 1)
  }

  predicate OnlyMatches(ops: seq<Op>) {
    ops == [] || (ops[0] == Mat && OnlyMatches(ops[1..]))
  }

  /** An alignment that leaves anything unmatched scores less. */
  lemma {:induction false} LessUnmatched(p: Problem, ops: seq<Op>, i: nat, j: nat)
    requires Diagonal(p) && Within(p, i, j) && Aligns(p, ops, i, j)
    ensures Score(p, ops, i, j) <= Total(p, i) - if OnlyMatches(ops) then 0 else 1
    decreases |ops|
  {
    if ops != [] {
      match ops[0] {
        case Mat => LessUnmatched(p, ops[1..], i + 1, j + 1);
        case Sub => LessUnmatched(p, ops[1..], i + 1, j + 1);
        case Del => LessUnmatched(p, ops[1..], i + 1, j);
        case Ins => LessUnmatched(p, ops[1..], i, j + 1);
      }
    }
  }

  function Matches(n: nat): (ops: seq<Op>) {
    if n == 0 then [] else [Mat] + Matches(n - 1)
  }

  lemma {:induction false} MatchesScore(p: Problem, i: nat)
    requires Diagonal(p) && i <= p.n
    ensures Within(p, i, i) && Aligns(p, Matches(p.n - i), i, i) && Score(p, Matches(p.n - i), i, i) == Total(p, i)
    decreases p.n - i
  {
    if i < p.n {
      MatchesScore(p, i + 1);
      assert Matches(p.n - i)[1..] == Matches(p.n - (i + 1));
    }
  }

  /** Each with the one at its own place, from `i` on. */
  function Same(n: nat, i: nat): (r: seq<(nat, nat)>)
    requires i <= n
    ensures |r| == n - i && forall k :: 0 <= k < |r| ==> r[k] == (i + k, i + k)
    decreases n - i
  {
    if i == n then [] else [(i, i)] + Same(n, i + 1)
  }

  lemma {:induction false} MatchesPair(p: Problem, ops: seq<Op>, i: nat)
    requires p.n == p.m && i <= p.n && Aligns(p, ops, i, i) && OnlyMatches(ops)
    ensures Pairs(ops, i, i) == Same(p.n, i)
    decreases |ops|
  {
    if ops != [] {
      MatchesPair(p, ops[1..], i + 1);
    }
  }

  /** The matches of a best alignment then pair each token with the one at its own place. */
  lemma {:induction false} DiagonalWins(p: Problem, out: seq<(nat, nat)>)
    requires Diagonal(p) && MatchesOfBest(p, out)
    ensures out == Same(p.n, 0)
  {
    hide Aligns, Score, OnlyMatches, Pairs;
    var best :| Aligns(p, best, 0, 0) && out == Pairs(best, 0, 0) && NoneBeats(p, best);
    MatchesScore(p, 0);
    LessUnmatched(p, best, 0, 0);
    assert Score(p, Matches(p.n), 0, 0) <= Score(p, best, 0, 0);
    MatchesPair(p, best, 0);
  }

  // ----- Which of the best

  /** The order in which the traceback prefers what comes next: to go on with a run of
      deletions or insertions, then a match, a substitution, a deletion, an insertion. */
  function Rank(before: Op, op: Op): nat {
    if (before == Del || before == Ins) && op == before then 0
    else match op case Mat => 1 case Sub => 2 case Del => 3 case Ins => 4
  }

  /** Where two alignments part, the first does the preferred thing. */
  predicate Precedes(before: Op, a: seq<Op>, b: seq<Op>)
    decreases |a|
  {
    a != [] && b != [] && (Rank(before, a[0]) < Rank(before, b[0]) || (a[0] == b[0] && Precedes(a[0], a[1..], b[1..])))
  }

  lemma StepsOrder(c: Cell, op: Op, to: Op)
    ensures c.In(to) == c.Best() ==> Rank(Mat, NextState(c, c.Best())) <= Rank(Mat, to)
    ensures c.In(to) == c.Best() ==> Rank(Mat, Pick(c)) <= Rank(Mat, to)
    ensures c.In(to) - (if to == Del then 0 else GAP_OPEN) == c.BeforeDel() ==> Rank(Del, AfterDel(c, c.BeforeDel())) <= Rank(Del, to)
    ensures c.In(to) - (if to == Ins then 0 else GAP_OPEN) == c.BeforeIns() ==> Rank(Ins, AfterIns(c, c.BeforeIns())) <= Rank(Ins, to)
  {
  }

  lemma RankOnce(before: Op, a: Op, b: Op)
    ensures Rank(before, a) == Rank(before, b) ==> a == b
    ensures before == Sub ==> Rank(before, a) == Rank(Mat, a)
  {
  }

  /** What a best alignment does next, the table gives the score it needs. */
  lemma {:induction false} TightStep(p: Problem, ops: seq<Op>, i: nat, j: nat)
    requires Within(p, i, j) && Aligns(p, ops, i, j) && ops != [] && Score(p, ops, i, j) == At(p, i, j).In(ops[0])
    requires Live(p, ops[0], i, j) && !(i == p.n && j == p.m)
    ensures var r := Onward(p, ops[0], i, j);
      && Aligns(p, ops[1..], r.1, r.2) && Score(p, ops[1..], r.1, r.2) == At(p, r.1, r.2).In(First(ops[1..]))
      && Rank(ops[0], r.0) <= Rank(ops[0], First(ops[1..]))
  {
    hide At, NextState, AfterDel, AfterIns, Rank;
    var op, rest := ops[0], ops[1..];
    var next := First(rest);
    OnwardScores(p, op, i, j);
    LiveMeans(p, op, i, j);
    match op {
      case Mat =>
        CellFrom(p, i, j);
        TableBounds(p, rest, i + 1, j + 1);
        BestIsMost(At(p, i + 1, j + 1), next);
        StepsOrder(At(p, i + 1, j + 1), op, next);
      case Sub =>
        CellFrom(p, i, j);
        TableBounds(p, rest, i + 1, j + 1);
        BestIsMost(At(p, i + 1, j + 1), next);
        StepsOrder(At(p, i + 1, j + 1), op, next);
        RankOnce(Sub, Onward(p, op, i, j).0, next);
        RankOnce(Sub, next, next);
      case Del =>
        DelFrom(p, i, j);
        TableBounds(p, rest, i + 1, j);
        GapMost(At(p, i + 1, j), next);
        StepsOrder(At(p, i + 1, j), op, next);
      case Ins =>
        InsFrom(p, i, j);
        TableBounds(p, rest, i, j + 1);
        GapMost(At(p, i, j + 1), next);
        StepsOrder(At(p, i, j + 1), op, next);
    }
  }

  lemma GapMost(c: Cell, op: Op)
    ensures c.In(op) - (if op == Del then 0 else GAP_OPEN) <= c.BeforeDel()
    ensures c.In(op) - (if op == Ins then 0 else GAP_OPEN) <= c.BeforeIns()
  {
  }

  /** From a state on, the traceback comes first among the alignments that score as much. */
  lemma {:induction false} TraceIsFirst(p: Problem, ops: seq<Op>, i: nat, j: nat)
    requires Within(p, i, j) && Aligns(p, ops, i, j) && Score(p, ops, i, j) == At(p, i, j).In(First(ops))
    requires Live(p, First(ops), i, j)
    ensures var t := Trace(p, First(ops), i, j);
      t == ops || (t != [] && ops != [] && t[0] == ops[0] && Precedes(t[0], t[1..], ops[1..]))
    decreases |ops|
  {
    hide At, Onward, Rank;
    if i == p.n && j == p.m {
      AtTheEnd(p, ops);
    } else {
      assert ops != [];
      var op, rest := ops[0], ops[1..];
      var r := Onward(p, op, i, j);
      OnwardIsLive(p, op, i, j);
      TightStep(p, ops, i, j);
      var t, next := Trace(p, op, i, j), First(rest);
      var tail := Trace(p, r.0, r.1, r.2);
      assert t == [op] + tail && t[1..] == tail;
      assert ops == [op] + rest;
      if rest == [] {
        assert r.1 == p.n && r.2 == p.m;
        EndIsMat(p, r.0);
      } else {
        RankOnce(op, r.0, next);
        TraceScores(p, r.0, r.1, r.2);
        if r.0 == next {
          TraceIsFirst(p, rest, r.1, r.2);
        } else {
          TraceGoesOn(p, r.0, r.1, r.2, rest);
          assert tail[0] == r.0;
        }
      }
    }
  }

  lemma {:induction false} AtTheEnd(p: Problem, ops: seq<Op>)
    requires Aligns(p, ops, p.n, p.m)
    ensures ops == []
  {
  }

  /** More to align leaves more to trace. */
  lemma {:induction false} TraceGoesOn(p: Problem, op: Op, i: nat, j: nat, ops: seq<Op>)
    requires Within(p, i, j) && Live(p, op, i, j) && Aligns(p, ops, i, j) && ops != []
    ensures Trace(p, op, i, j) != [] && Trace(p, op, i, j)[0] == op
  {
    hide At, Onward;
    if i == p.n && j == p.m {
      AtTheEnd(p, ops);
    }
    OnwardIsLive(p, op, i, j);
  }

  /** Of all best alignments the chosen one comes first: where another parts from it, the
      other does what is less preferred. Ties are decided the same way every time. */
  lemma {:induction false} ChosenIsFirst(p: Problem, ops: seq<Op>)
    requires Aligns(p, ops, 0, 0) && NoneBeats(p, ops)
    ensures Chosen(p) == ops || Precedes(Mat, Chosen(p), ops)
  {
    hide At, Pick, Rank, Trace;
    Floor(p, 0, 0);
    ChosenIsOptimal(p);
    var c, op := At(p, 0, 0), First(ops);
    PickIsBest(c);
    TraceScores(p, Pick(c), 0, 0);
    TableBounds(p, ops, 0, 0);
    BestIsMost(c, op);
    StepsOrder(c, Mat, op);
    if Pick(c) == op {
      TraceIsFirst(p, ops, 0, 0);
    } else {
      RankOnce(Mat, Pick(c), op);
      FirstOfBoth(p, ops);
    }
  }

  lemma {:induction false} FirstOfBoth(p: Problem, ops: seq<Op>)
    requires Aligns(p, ops, 0, 0) && Pick(At(p, 0, 0)) != First(ops) && Live(p, Pick(At(p, 0, 0)), 0, 0)
    ensures ops != [] && Chosen(p) != [] && Chosen(p)[0] == Pick(At(p, 0, 0))
  {
    hide At, Onward;
    if ops == [] {
      LastRow(p, 0);
    } else {
      TraceGoesOn(p, Pick(At(p, 0, 0)), 0, 0, ops);
    }
  }

  lemma PickIsBest(c: Cell)
    ensures c.In(Pick(c)) == c.Best()
  {
  }
}
