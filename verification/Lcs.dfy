/** Longest common subsequences over an arbitrary relation of indices: the table both
    `align.rs` and `unified_diff` fill, and what its entries mean. */
module Lcs {
  /** Two sequences of lengths `n` and `m`, and which elements are equal. */
  datatype Problem = Problem(n: nat, m: nat, same: (nat, nat) -> bool)

  function Max(a: nat, b: nat): nat {
    if a >= b then a else b
  }

  /** The table entry for the suffixes from `i` and `j`. */
  function Length(p: Problem, i: nat, j: nat): nat
    decreases (if i < p.n then p.n - i else 0) + (if j < p.m then p.m - j else 0)
  {
    if i >= p.n || j >= p.m then 0
    else if p.same(i, j) then Length(p, i + 1, j + 1) + 1
    else Max(Length(p, i + 1, j), Length(p, i, j + 1))
  }

  /** Equal pairs from `(i, j)` on, strictly increasing on both sides. */
  ghost predicate Common(p: Problem, pairs: seq<(nat, nat)>, i: nat, j: nat)
    decreases |pairs|
  {
    pairs == [] ||
    var q := pairs[0];
    i <= q.0 < p.n && j <= q.1 < p.m && p.same(q.0, q.1) && Common(p, pairs[1..], q.0 + 1, q.1 + 1)
  }

  /** Starting earlier leaves a common subsequence common. */
  lemma {:induction false} CommonEarlier(p: Problem, pairs: seq<(nat, nat)>, i: nat, j: nat, i': nat, j': nat)
    requires Common(p, pairs, i, j) && i' <= i && j' <= j
    ensures Common(p, pairs, i', j')
  {
  }

  /** No common subsequence is longer than the table says, for any relation at all. */
  lemma {:induction false} LengthBounds(p: Problem, pairs: seq<(nat, nat)>, i: nat, j: nat)
    requires Common(p, pairs, i, j)
    ensures |pairs| <= Length(p, i, j)
    decreases (if i < p.n then p.n - i else 0) + (if j < p.m then p.m - j else 0)
  {
    if pairs != [] {
      var q := pairs[0];
      if p.same(i, j) {
        CommonEarlier(p, pairs[1..], q.0 + 1, q.1 + 1, i + 1, j + 1);
        LengthBounds(p, pairs[1..], i + 1, j + 1);
      } else if q.0 > i {
        LengthBounds(p, pairs, i + 1, j);
      } else {
        LengthBounds(p, pairs, i, j + 1);
      }
    }
  }

  lemma {:induction false} CommonAppend(p: Problem, pairs: seq<(nat, nat)>, q: (nat, nat), i: nat, j: nat)
    requires Common(p, pairs, i, j)
    requires forall k :: 0 <= k < |pairs| ==> pairs[k].0 < q.0 && pairs[k].1 < q.1
    requires i <= q.0 < p.n && j <= q.1 < p.m && p.same(q.0, q.1)
    ensures Common(p, pairs + [q], i, j)
    decreases |pairs|
  {
    if pairs != [] {
      assert (pairs + [q])[1..] == pairs[1..] + [q];
      CommonAppend(p, pairs[1..], q, pairs[0].0 + 1, pairs[0].1 + 1);
    } else {
      assert (pairs + [q])[1..] == [];
    }
  }

  lemma {:induction false} Border(p: Problem)
    ensures forall j: nat :: Length(p, p.n, j) == 0
    ensures forall i: nat :: Length(p, i, p.m) == 0
  {
  }

  lemma LengthFrom(p: Problem, i: nat, j: nat)
    requires i < p.n && j < p.m
    ensures Length(p, i, j) ==
      if p.same(i, j) then Length(p, i + 1, j + 1) + 1 else Max(Length(p, i + 1, j), Length(p, i, j + 1))
  {
  }

  /** The table, from the last cell back; the border stays zero. */
  method Table(p: Problem) returns (t: array2<nat>)
    ensures fresh(t) && t.Length0 == p.n + 1 && t.Length1 == p.m + 1
    ensures forall i, j :: 0 <= i <= p.n && 0 <= j <= p.m ==> t[i, j] == Length(p, i, j)
  {
    hide Length;
    t := new nat[p.n + 1, p.m + 1]((_, _) => 0);
    Border(p);
    var i := p.n;
    while i > 0
      invariant 0 <= i <= p.n
      invariant forall a, b :: i <= a <= p.n && 0 <= b <= p.m ==> t[a, b] == Length(p, a, b)
      invariant forall a :: 0 <= a <= p.n ==> t[a, p.m] == 0
    {
      i := i - 1;
      var j := p.m;
      while j > 0
        invariant 0 <= j <= p.m
        invariant forall a, b :: i < a <= p.n && 0 <= b <= p.m ==> t[a, b] == Length(p, a, b)
        invariant forall b :: j <= b <= p.m ==> t[i, b] == Length(p, i, b)
        invariant forall a :: 0 <= a <= p.n ==> t[a, p.m] == 0
      {
        j := j - 1;
        LengthFrom(p, i, j);
        t[i, j] := if p.same(i, j) then t[i + 1, j + 1] + 1 else Max(t[i + 1, j], t[i, j + 1]);
      }
    }
  }

  /** A longest common subsequence. */
  method Longest(p: Problem) returns (out: seq<(nat, nat)>)
    ensures Common(p, out, 0, 0)
    ensures forall other :: Common(p, other, 0, 0) ==> |other| <= |out|
  {
    hide Length;
    var t := Table(p);
    Border(p);
    out := [];
    var i, j := 0, 0;
    while i < p.n && j < p.m
      modifies {}
      invariant 0 <= i <= p.n && 0 <= j <= p.m
      invariant Common(p, out, 0, 0)
      invariant forall k :: 0 <= k < |out| ==> out[k].0 < i && out[k].1 < j
      invariant |out| + Length(p, i, j) == Length(p, 0, 0)
      decreases p.n - i + (p.m - j)
    {
      LengthFrom(p, i, j);
      if p.same(i, j) {
        CommonAppend(p, out, (i, j), 0, 0);
        out := out + [(i, j)];
        i, j := i + 1, j + 1;
      } else if t[i + 1, j] >= t[i, j + 1] {
        i := i + 1;
      } else {
        j := j + 1;
      }
    }
    forall other | Common(p, other, 0, 0)
      ensures |other| <= |out|
    {
      LengthBounds(p, other, 0, 0);
    }
  }

  // ----- Similarity of two word lists

  function Words<T(==)>(a: seq<T>, b: seq<T>): Problem {
    Problem(|a|, |b|, (i: nat, j: nat) => i < |a| && j < |b| && a[i] == b[j])
  }

  /** As many pairs as both lists have elements: the lists agree, element by element. */
  lemma {:induction false} FullMatch<T>(a: seq<T>, b: seq<T>, pairs: seq<(nat, nat)>, i: nat, j: nat)
    requires i <= |a| && j <= |b| && Common(Words(a, b), pairs, i, j)
    ensures |pairs| <= |a| - i && |pairs| <= |b| - j
    ensures |pairs| == |a| - i == |b| - j ==> a[i..] == b[j..]
    decreases |pairs|
  {
    if pairs != [] {
      var q := pairs[0];
      FullMatch(a, b, pairs[1..], q.0 + 1, q.1 + 1);
      if |pairs| == |a| - i == |b| - j {
        assert a[i..] == [a[i]] + a[i + 1..] && b[j..] == [b[j]] + b[j + 1..];
      }
    }
  }

  function Diagonal(i: nat, n: nat): (s: seq<(nat, nat)>)
    requires i <= n
    ensures |s| == n - i
    decreases n - i
  {
    if i == n then [] else [(i, i)] + Diagonal(i + 1, n)
  }

  lemma {:induction false} DiagonalCommon<T>(a: seq<T>, i: nat)
    requires i <= |a|
    ensures Common(Words(a, a), Diagonal(i, |a|), i, i)
    decreases |a| - i
  {
    if i < |a| {
      DiagonalCommon(a, i + 1);
      assert Diagonal(i, |a|)[1..] == Diagonal(i + 1, |a|);
    }
  }

  lemma {:induction false} FullOnlyIfEqual<T>(a: seq<T>, b: seq<T>, out: seq<(nat, nat)>)
    requires Common(Words(a, b), out, 0, 0)
    requires forall other :: Common(Words(a, b), other, 0, 0) ==> |other| <= |out|
    ensures 2 * |out| <= |a| + |b|
    ensures 2 * |out| == |a| + |b| <==> a == b
  {
    FullMatch(a, b, out, 0, 0);
    assert a[0..] == a && b[0..] == b;
    if a == b {
      DiagonalCommon(a, 0);
    }
  }

  function Ratio(x: nat, y: nat): real
    requires y > 0
  {
    x as real / y as real
  }

  lemma Share(x: nat, y: nat)
    requires x <= y && y > 0
    ensures 0.0 <= Ratio(x, y) <= 1.0 && (Ratio(x, y) == 1.0 <==> x == y)
  {
    var r, d := Ratio(x, y), y as real;
    assert d > 0.0 && r * d == x as real;
    assert r == 1.0 ==> r * d == d;
    assert x < y ==> r * d < d;
  }

  /** No common subsequence is longer. */
  ghost predicate IsLongest<T>(a: seq<T>, b: seq<T>, out: seq<(nat, nat)>) {
    Common(Words(a, b), out, 0, 0) && forall other :: Common(Words(a, b), other, 0, 0) ==> |other| <= |out|
  }

  lemma {:induction false} LongestIs<T>(a: seq<T>, b: seq<T>, out: seq<(nat, nat)>)
    requires Common(Words(a, b), out, 0, 0)
    requires forall other :: Common(Words(a, b), other, 0, 0) ==> |other| <= |out|
    ensures IsLongest(a, b, out) && 2 * |out| <= |a| + |b| && (2 * |out| == |a| + |b| <==> a == b)
  {
    hide Common;
    FullOnlyIfEqual(a, b, out);
  }

  /** Twice the length of a longest common subsequence over both lengths: a share between 0
      and 1, and 1 for equal lists only. */
  method Similarity<T(==)>(a: seq<T>, b: seq<T>) returns (r: real)
    ensures |a| + |b| > 0 ==> exists out :: IsLongest(a, b, out) && r == Ratio(2 * |out|, |a| + |b|)
    ensures 0.0 <= r <= 1.0
    ensures r == 1.0 <==> a == b
  {
    if a == [] && b == [] {
      return 1.0;
    }
    hide Common, IsLongest, Ratio;
    var out := Longest(Words(a, b));
    LongestIs(a, b, out);
    Share(2 * |out|, |a| + |b|);
    r := Ratio(2 * |out|, |a| + |b|);
  }
}
