/** Bits and dense bit vectors, the representation shared by every kernel:
    a bit is the byte value 0 or 1 (the source's `bit_t`), a dense block is a
    sequence of them, and a weight is a popcount. */
module Bits {

  type Bit = b: int | 0 <= b <= 1

  function Xor(a: Bit, b: Bit): (r: Bit)
    ensures r == (a + b) % 2
  {
    if a == b then 0 else 1
  }

  /** Number of ones in a dense vector. */
  function Popcount(s: seq<Bit>): nat
  {
    if |s| == 0 then 0 else Popcount(s[..|s| - 1]) + s[|s| - 1]
  }

  /** Position-wise xor of two vectors of equal length. */
  function XorVec(a: seq<Bit>, b: seq<Bit>): (r: seq<Bit>)
    requires |a| == |b|
    ensures |r| == |a|
    ensures forall i :: 0 <= i < |a| ==> r[i] == Xor(a[i], b[i])
  {
    seq(|a|, i requires 0 <= i < |a| => Xor(a[i], b[i]))
  }

  /** Number of positions where two vectors differ. */
  function Distance(a: seq<Bit>, b: seq<Bit>): nat
    requires |a| == |b|
  {
    Popcount(XorVec(a, b))
  }

  function Zeros(n: nat): (r: seq<Bit>)
    ensures |r| == n && forall i :: 0 <= i < n ==> r[i] == 0
  {
    seq(n, i => 0)
  }

  /** Toggling one bit moves the popcount by one, up for a 0 and down for a 1. */
  lemma {:induction false} PopcountToggle(s: seq<Bit>, p: nat)
    requires p < |s|
    ensures Popcount(s[p := 1 - s[p]]) == Popcount(s) + 1 - 2 * (s[p] as int)
  {
    var t := s[p := 1 - s[p]];
    if p == |s| - 1 {
      assert t[..|t| - 1] == s[..|s| - 1];
    } else {
      assert t[..|t| - 1] == s[..|s| - 1][p := 1 - s[p]];
      PopcountToggle(s[..|s| - 1], p);
    }
  }

  lemma {:induction false} PopcountBounds(s: seq<Bit>)
    ensures Popcount(s) <= |s|
  {
    if |s| > 0 {
      PopcountBounds(s[..|s| - 1]);
    }
  }

  lemma {:induction false} PopcountZeros(n: nat)
    ensures Popcount(Zeros(n)) == 0
  {
    if n > 0 {
      assert Zeros(n)[..n - 1] == Zeros(n - 1);
      PopcountZeros(n - 1);
    }
  }

  /** A vector of popcount zero is all zeros. */
  lemma {:induction false} PopcountZeroIsZeros(s: seq<Bit>)
    requires Popcount(s) == 0
    ensures s == Zeros(|s|)
  {
    if |s| > 0 {
      PopcountZeroIsZeros(s[..|s| - 1]);
      assert s == s[..|s| - 1] + [s[|s| - 1]];
    }
  }

  lemma {:induction false} PopcountAppend(a: seq<Bit>, b: seq<Bit>)
    ensures Popcount(a + b) == Popcount(a) + Popcount(b)
  {
    if |b| > 0 {
      assert (a + b)[..|a + b| - 1] == a + b[..|b| - 1];
      PopcountAppend(a, b[..|b| - 1]);
    } else {
      assert a + b == a;
    }
  }

  /** C's conversion of a double to an integer type: truncation toward zero
      (floating-point rounding of the operands is not modelled). */
  function TruncToInt(x: real): (r: int)
    ensures 0.0 <= x ==> r as real <= x < r as real + 1.0
    ensures x < 0.0 ==> r as real - 1.0 < x <= r as real
  {
    if x >= 0.0 then x.Floor else -((-x).Floor)
  }

  lemma TruncMonotone(x: real, y: real)
    requires x <= y
    ensures TruncToInt(x) <= TruncToInt(y)
  {
  }

  // Euclidean-division facts used wherever the model reduces modulo a
  // symbolic bound.

  lemma MulBound(d: int, m: int)
    requires m > 0 && -m < d * m < m
    ensures d == 0
  {
  }

  lemma DivUnique(x: int, q: int, r: int, m: int)
    requires m > 0 && 0 <= r < m && x == q * m + r
    ensures x % m == r && x / m == q
  {
    var q' := x / m;
    assert x == q' * m + x % m;
    assert (q - q') * m == x % m - r;
    MulBound(q - q', m);
  }

  lemma ModAddLeft(a: int, b: int, m: int)
    requires m > 0
    ensures (a % m + b) % m == (a + b) % m
  {
    var r := (a % m + b) % m;
    var q1 := (a % m + b) / m;
    assert a % m + b == q1 * m + r;
    assert a == (a / m) * m + a % m;
    assert a + b == (q1 + a / m) * m + r;
    DivUnique(a + b, q1 + a / m, r, m);
  }

  lemma ModOfSmall(a: int, m: int)
    requires 0 <= a < m
    ensures a % m == a
  {
  }

  lemma ModOfNegative(a: int, m: int)
    requires 0 < m && -m <= a < 0
    ensures a % m == a + m
  {
  }
}
