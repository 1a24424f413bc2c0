/** The helper macros of include/types.h and include/log2.h: ROUND_UP and
    SIZE_AVX (buffer padding), SWAP, SATURATE, and the LOG2 bit-length table
    the belief-propagation tree is laid out with. */
module Macros {
  import opened Bits

  function Pow2(n: nat): (p: nat)
    ensures p >= 1
  {
    if n == 0 then 1 else 2 * Pow2(n - 1)
  }

  lemma {:induction false} Pow2Monotone(a: nat, b: nat)
    requires a <= b
    ensures Pow2(a) <= Pow2(b)
    decreases b
  {
    if a < b {
      Pow2Monotone(a, b - 1);
    }
  }

  // ---------------------------------------------------------------------------
  // ROUND_UP / SIZE_AVX
  // ---------------------------------------------------------------------------

  /** ROUND_UP(N, S) = ((N + S - 1) / S) * S. */
  function RoundUp(n: nat, s: nat): (r: nat)
    requires s > 0
    ensures r % s == 0 && n <= r < n + s
  {
    var q := (n + s - 1) / s;
    assert n + s - 1 == q * s + (n + s - 1) % s;
    DivUnique(q * s, q, 0, s);
    q * s
  }

  /** ROUND_UP gives the least multiple of S that is at least N. */
  lemma RoundUpLeast(n: nat, s: nat, m: nat)
    requires s > 0 && m % s == 0 && n <= m
    ensures RoundUp(n, s) <= m
  {
    var r := RoundUp(n, s);
    var a, b := m / s, r / s;
    assert m == a * s + m % s && r == b * s + r % s;
    assert r - m == (b - a) * s;
    MulSign(b - a, s);
  }

  lemma MulSign(d: int, s: nat)
    ensures d >= 1 ==> d * s >= s
    ensures d <= 0 ==> d * s <= 0
  {
  }

  /** SIZE_AVX: BLOCK_LENGTH bytes rounded up to whole groups of 16 AVX
      registers of 256 bits, i.e. to a multiple of 4096 bits, in bytes. */
  function SizeAvx(L: nat): (r: nat)
    ensures L <= r < L + 512 && r % 512 == 0
  {
    var bits := RoundUp(L * 8, 256 * 16);
    var c := bits / 4096;
    assert bits == c * 4096 + bits % 4096;
    DivUnique(bits, c * 512, 0, 8);
    DivUnique(c * 512, c, 0, 512);
    bits / 8
  }

  // ---------------------------------------------------------------------------
  // SWAP
  // ---------------------------------------------------------------------------

  /** SWAP(a[i], a[j]): the two entries are exchanged and nothing else moves. */
  function Swap<T>(a: seq<T>, i: nat, j: nat): (r: seq<T>)
    requires i < |a| && j < |a|
    ensures |r| == |a| && r[i] == a[j] && r[j] == a[i]
    ensures forall p :: 0 <= p < |a| && p != i && p != j ==> r[p] == a[p]
    ensures multiset(r) == multiset(a)
  {
    a[i := a[j]][j := a[i]]
  }

  lemma SwapInvolution<T>(a: seq<T>, i: nat, j: nat)
    requires i < |a| && j < |a|
    ensures Swap(Swap(a, i, j), i, j) == a
  {
  }

  // ---------------------------------------------------------------------------
  // SATURATE
  // ---------------------------------------------------------------------------

  /** SATURATE(X, SAT) as the macro is written: the second test repeats
      X > SAT, so it can never succeed and no value is clamped from below. */
  function SaturateAsWritten(x: real, sat: real): (r: real)
    ensures r <= x && (r == x || r == sat)
  {
    if x > sat then sat else if x > sat then -sat else x
  }

  /** A value below -SAT comes out of SATURATE unchanged, outside [-SAT, SAT]. */
  lemma SaturateMissesLowerClamp(x: real, sat: real)
    requires sat >= 0.0 && x < -sat
    ensures SaturateAsWritten(x, sat) == x && SaturateAsWritten(x, sat) < -sat
  {
  }

  /** SATURATE as evidently intended: clamp X into [-SAT, SAT]. */
  function Saturate(x: real, sat: real): (r: real)
    requires sat >= 0.0
    ensures -sat <= r <= sat
    ensures -sat <= x <= sat ==> r == x
    ensures x > sat ==> r == sat
    ensures x < -sat ==> r == -sat
  {
    if x > sat then sat else if x < -sat then -sat else x
  }

  /** The intended clamp agrees with the macro wherever the macro stays in
      range, that is on every value from -SAT up. */
  lemma SaturateAgreesAbove(x: real, sat: real)
    requires sat >= 0.0
    ensures x >= -sat <==> Saturate(x, sat) == SaturateAsWritten(x, sat)
  {
  }

  lemma SaturateIdempotent(x: real, sat: real)
    requires sat >= 0.0
    ensures Saturate(Saturate(x, sat), sat) == Saturate(x, sat)
  {
  }

  lemma SaturateMonotone(x: real, y: real, sat: real)
    requires sat >= 0.0 && x <= y
    ensures Saturate(x, sat) <= Saturate(y, sat)
  {
  }

  // ---------------------------------------------------------------------------
  // LOG2
  // ---------------------------------------------------------------------------

  /** LOG2(v): the nested comparison table of include/log2.h, which stops at 9. */
  function Log2(v: nat): nat
  {
    if v == 0 then 0
    else if v < 2 then 1
    else if v < 4 then 2
    else if v < 8 then 3
    else if v < 16 then 4
    else if v < 32 then 5
    else if v < 64 then 6
    else if v < 128 then 7
    else if v < 256 then 8
    else 9
  }

  /** The number of binary digits of v, without a cap. */
  function BitLength(v: nat): nat
  {
    if v == 0 then 0 else 1 + BitLength(v / 2)
  }

  lemma {:induction false} BitLengthBounds(v: nat)
    requires v >= 1
    ensures Pow2(BitLength(v) - 1) <= v < Pow2(BitLength(v))
  {
    if v >= 2 {
      BitLengthBounds(v / 2);
    }
  }

  /** Bounds pin the bit length down. */
  lemma BitLengthUnique(v: nat, b: nat)
    requires b >= 1 && Pow2(b - 1) <= v < Pow2(b)
    ensures BitLength(v) == b
  {
    BitLengthBounds(v);
    var c := BitLength(v);
    if c < b {
      Pow2Monotone(c, b - 1);
    } else if c > b {
      Pow2Monotone(b, c - 1);
    }
  }

  lemma Log2Zero()
    ensures Log2(0) == 0 && BitLength(0) == 0
  {
  }

  /** Below 512, LOG2 is the bit length: 2^(LOG2(v) - 1) <= v < 2^LOG2(v). */
  lemma Log2IsBitLength(v: nat)
    requires v < 512
    ensures Log2(v) == BitLength(v)
    ensures v >= 1 ==> Pow2(Log2(v) - 1) <= v < Pow2(Log2(v))
  {
    if v >= 1 {
      var b := Log2(v);
      assert Pow2(b - 1) <= v < Pow2(b) by {
        assert Pow2(0) == 1 && Pow2(1) == 2 && Pow2(2) == 4 && Pow2(3) == 8 && Pow2(4) == 16;
        assert Pow2(5) == 32 && Pow2(6) == 64 && Pow2(7) == 128 && Pow2(8) == 256 && Pow2(9) == 512;
      }
      BitLengthUnique(v, b);
    }
  }

  /** From 256 on LOG2 is stuck at 9, so from 512 on it is below the bit length. */
  lemma Log2Saturates(v: nat)
    ensures v >= 256 ==> Log2(v) == 9
    ensures v >= 512 ==> Log2(v) < BitLength(v)
  {
    if v >= 512 {
      BitLengthBounds(v);
      assert Pow2(9) == 512;
      if BitLength(v) <= 9 {
        Pow2Monotone(BitLength(v), 9);
      }
    }
  }

  lemma Log2Monotone(u: nat, v: nat)
    requires u <= v
    ensures Log2(u) <= Log2(v)
  {
  }
}
