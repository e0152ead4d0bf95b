/** Bytes, little-endian integers and zero runs: the alphabet of both store files,
    and the few marks that more than one scanner knows. */
module Bytes {
  type Byte = b: int | 0 <= b < 256

  /** Rust's `u32`, `u64` and `i64`, as ranges of the integers. */
  type U32 = n: int | 0 <= n < 0x1_0000_0000
  type U64 = n: int | 0 <= n < 0x1_0000_0000_0000_0000
  type I64 = n: int | -0x8000_0000_0000_0000 <= n < 0x8000_0000_0000_0000

  const TAB: Byte := 0x09
  const LF: Byte := 0x0A
  const SPACE: Byte := 0x20
  const BACKSLASH: Byte := 0x5C

  predicate IsBlank(b: Byte) {
    b == SPACE || b == TAB
  }

  /** `u8::is_ascii_digit`. */
  predicate IsDigit(b: Byte) {
    48 <= b <= 57
  }

  /** The marks and classes by their characters. */
  lemma Alphabet(b: Byte)
    ensures b == TAB <==> b as char == '\t'
    ensures b == LF <==> b as char == '\n'
    ensures b == SPACE <==> b as char == ' '
    ensures b == BACKSLASH <==> b as char == '\\'
    ensures IsBlank(b) <==> b as char == ' ' || b as char == '\t'
    ensures IsDigit(b) <==> '0' <= b as char <= '9'
  {
  }

  datatype Option<+T> = None | Some(value: T)

  function Pow256(n: nat): (p: nat)
    ensures p > 0
  {
    if n == 0 then 1 else 256 * Pow256(n - 1)
  }

  /** `to_le_bytes`: the low `n` bytes of `v`, least significant first. */
  function Le(v: nat, n: nat): (s: seq<Byte>)
    ensures |s| == n
  {
    if n == 0 then [] else [v % 256] + Le(v / 256, n - 1)
  }

  /** `from_le_bytes`. */
  function UnLe(s: seq<Byte>): (v: nat)
    ensures v < Pow256(|s|)
  {
    if s == [] then 0 else s[0] + 256 * UnLe(s[1..])
  }

  lemma {:induction false} LeThenUnLe(v: nat, n: nat)
    requires v < Pow256(n)
    ensures UnLe(Le(v, n)) == v
  {
    if n > 0 {
      LeThenUnLe(v / 256, n - 1);
      assert Le(v, n)[1..] == Le(v / 256, n - 1);
    }
  }

  lemma {:induction false} UnLeThenLe(s: seq<Byte>)
    ensures Le(UnLe(s), |s|) == s
  {
    if s != [] {
      UnLeThenLe(s[1..]);
      assert s == [s[0]] + s[1..];
    }
  }

  lemma PowersOf256()
    ensures Pow256(4) == 0x1_0000_0000
    ensures Pow256(8) == 0x1_0000_0000_0000_0000
  {
    assert Pow256(2) == 0x1_0000;
    assert Pow256(3) == 0x100_0000;
    assert Pow256(4) == 0x1_0000_0000;
    assert Pow256(5) == 0x100_0000_0000;
    assert Pow256(6) == 0x1_0000_0000_0000;
    assert Pow256(7) == 0x100_0000_0000_0000;
  }

  function Zeros(n: nat): (s: seq<Byte>)
    ensures |s| == n
    ensures forall i :: 0 <= i < n ==> s[i] == 0
  {
    seq(n, _ => 0)
  }

  lemma {:induction false} UnLeZeros(n: nat)
    ensures UnLe(Zeros(n)) == 0
  {
    if n > 0 {
      UnLeZeros(n - 1);
      assert Zeros(n)[1..] == Zeros(n - 1);
    }
  }

  /** Two's complement: the 64-bit pattern of an `i64`, and back. */
  function ToU64(i: I64): U64 {
    if i < 0 then i + 0x1_0000_0000_0000_0000 else i
  }

  function FromU64(u: U64): I64 {
    if u < 0x8000_0000_0000_0000 then u else u - 0x1_0000_0000_0000_0000
  }

  lemma SliceOfSlice<T>(s: seq<T>, a: nat, b: nat, c: nat, d: nat)
    requires a <= b <= |s| && c <= d <= b - a
    ensures s[a..b][c..d] == s[a + c..a + d]
  {
    var t := s[a..b];
    assert forall i :: 0 <= i < d - c ==> t[c..d][i] == s[a + c..a + d][i];
  }
}
