/** The integer skeleton of src/threshold.c. Every quantity computed with
    log, lgamma or exp is an oracle parameter: the estimate of
    compute_threshold as the unsigned value its `ceil` converts to, the
    comparisons of the binomial point mass with alpha / BLOCK_LENGTH in
    compute_threshold_alpha, and the terms exp(logE(t, i)) of X_val. What is
    modelled exactly is the clamping, the downward scan and the loop bounds. */
module Threshold {
  import opened Bits

  /** (BLOCK_WEIGHT + 1) / 2, the majority threshold every rule is clamped to. */
  function Majority(w: nat): nat
  {
    (w + 1) / 2
  }

  lemma MajorityBounds(w: nat)
    ensures w >= 1 ==> 1 <= Majority(w) <= w
    ensures w >= 2 ==> Majority(w) + 1 <= w
  {
  }

  // ---------------------------------------------------------------------------
  // compute_threshold
  // ---------------------------------------------------------------------------

  /** compute_threshold's final clamps. `raw` is the unsigned value of the
      ceiling of the estimate, `q` the probability counters_C1. */
  function ComputeThreshold(raw: nat, q: real, w: nat): (t: nat)
    ensures w >= 1 ==> Majority(w) <= t <= w
    ensures q >= 1.0 ==> t == w
    ensures q < 1.0 && Majority(w) <= raw <= w ==> t == raw
    ensures q < 1.0 && raw < Majority(w) ==> t == Majority(w)
    ensures raw > w ==> t == w
  {
    var t1 := if raw > w || q >= 1.0 then w else raw;
    if t1 < Majority(w) then Majority(w) else t1
  }

  /** The clamp is idempotent: a threshold it produced passes through it
      unchanged. */
  lemma ComputeThresholdIdempotent(raw: nat, q: real, q': real, w: nat)
    requires w >= 1 && q' < 1.0
    ensures ComputeThreshold(ComputeThreshold(raw, q, w), q', w) == ComputeThreshold(raw, q, w)
  {
  }

  /** With q below 1 the clamp is monotone in the estimate. */
  lemma ComputeThresholdMonotone(raw1: nat, raw2: nat, q: real, w: nat)
    requires raw1 <= raw2 && q < 1.0
    ensures ComputeThreshold(raw1, q, w) <= ComputeThreshold(raw2, q, w)
  {
  }

  // ---------------------------------------------------------------------------
  // compute_threshold_alpha
  // ---------------------------------------------------------------------------

  /** Where the downward scan of compute_threshold_alpha stops, starting from
      `thr`: at the first threshold whose point mass exceeds alpha / L
      (`massBelow[thr]` false), or at the majority, whichever comes first.
      `massBelow[thr]` says diff >= 0 at thr. */
  function ScanStop(massBelow: seq<bool>, w: nat, thr: nat): (s: nat)
    requires thr < |massBelow|
    ensures s <= thr
    decreases thr
  {
    if !massBelow[thr] || thr <= Majority(w) then thr else ScanStop(massBelow, w, thr - 1)
  }

  /** The stop point is characterised by the scan: every threshold above it
      passed the test, and it either failed the test or is the majority. */
  lemma {:induction false} ScanStopMeans(massBelow: seq<bool>, w: nat, thr: nat)
    requires thr < |massBelow| && Majority(w) <= thr
    ensures var s := ScanStop(massBelow, w, thr);
      Majority(w) <= s
      && (!massBelow[s] || s == Majority(w))
      && forall u :: s < u <= thr ==> massBelow[u]
    decreases thr
  {
    if massBelow[thr] && thr > Majority(w) {
      ScanStopMeans(massBelow, w, thr - 1);
    }
  }

  /** compute_threshold_alpha. `p` is counters_C0 before the cap at 1 and
      `massBelow[thr]` whether alpha / BLOCK_LENGTH is at least the binomial
      point mass at thr, for 0 <= thr <= w. */
  method ComputeThresholdAlpha(p: real, massBelow: seq<bool>, w: nat) returns (threshold: nat)
    requires |massBelow| == w + 1 && w >= 1
    ensures p >= 1.0 ==> threshold == w
    ensures p < 1.0 ==> var s := ScanStop(massBelow, w, w); threshold == if s < w then s + 1 else w
    ensures w >= 2 ==> Majority(w) + 1 <= threshold <= w
  {
    var capped := if p <= 1.0 then p else 1.0;
    if capped >= 1.0 {
      threshold := w;
      MajorityBounds(w);
      return;
    }
    var thr := w + 1;
    var below := true;
    thr := thr - 1;
    below := massBelow[thr];
    while below && thr > Majority(w)
      invariant Majority(w) <= thr <= w
      invariant ScanStop(massBelow, w, w) == ScanStop(massBelow, w, thr)
      invariant below == massBelow[thr]
      decreases thr
    {
      thr := thr - 1;
      below := massBelow[thr];
    }
    threshold := if thr < w then thr + 1 else w;
    MajorityBounds(w);
  }

  // ---------------------------------------------------------------------------
  // compute_threshold_affine (GRAY variants)
  // ---------------------------------------------------------------------------

  /** compute_threshold_affine: THRESHOLD_C0 + THRESHOLD_C1 * S converted to
      unsigned (truncation), at least the majority. */
  function ComputeThresholdAffine(c0: real, c1: real, S: nat, w: nat): (t: nat)
    requires c0 >= 0.0 && c1 >= 0.0
    ensures t >= Majority(w)
    ensures t == Majority(w) || (t as real <= c0 + c1 * S as real < t as real + 1.0)
  {
    var thr := TruncToInt(c0 + c1 * S as real);
    if thr > Majority(w) then thr else Majority(w)
  }

  /** A heavier syndrome never lowers the affine threshold. */
  lemma AffineMonotone(c0: real, c1: real, S1: nat, S2: nat, w: nat)
    requires c0 >= 0.0 && c1 >= 0.0 && S1 <= S2
    ensures ComputeThresholdAffine(c0, c1, S1, w) <= ComputeThresholdAffine(c0, c1, S2, w)
  {
    TruncAffineMonotone(c0, c1, S1, S2);
  }

  lemma TruncAffineMonotone(c0: real, c1: real, S1: nat, S2: nat)
    requires c1 >= 0.0 && S1 <= S2
    ensures TruncToInt(c0 + c1 * S1 as real) <= TruncToInt(c0 + c1 * S2 as real)
  {
    ScaleMonotone(c1, S1 as real, S2 as real);
    TruncMonotone(c0 + c1 * S1 as real, c0 + c1 * S2 as real);
  }

  lemma ScaleMonotone(c: real, x: real, y: real)
    requires c >= 0.0 && x <= y
    ensures c * x <= c * y
  {
    assert c * y - c * x == c * (y - x);
  }

  lemma DivBound(a: real, d: real, c: real)
    requires d > 0.0 && 0.0 <= a <= c * d
    ensures 0.0 <= a / d <= c
  {
    var q := a / d;
    assert q * d == a;
    if q > c {
      assert (q - c) * d > 0.0;
    }
  }

  // ---------------------------------------------------------------------------
  // X_val
  // ---------------------------------------------------------------------------

  /** The indices X_val sums over: the odd i with i < 10 and i < t. */
  ghost predicate Summed(i: int, t: nat)
  {
    i % 2 == 1 && 0 < i < 10 && i < t
  }

  /** Sum of (i - 1) * E[i] and of E[i] over the odd i below n. */
  function WeightedOdd(E: seq<real>, n: nat): real
    requires n <= |E|
  {
    if n == 0 then 0.0
    else WeightedOdd(E, n - 1) + (if (n - 1) % 2 == 1 then ((n - 2) as real) * E[n - 1] else 0.0)
  }

  function TotalOdd(E: seq<real>, n: nat): real
    requires n <= |E|
  {
    if n == 0 then 0.0
    else TotalOdd(E, n - 1) + (if (n - 1) % 2 == 1 then E[n - 1] else 0.0)
  }

  /** With non-negative terms the weighted sum is between 0 and (n - 2) times
      the total: X is an average of the weights i - 1. */
  lemma {:induction false} WeightedBounds(E: seq<real>, n: nat)
    requires n <= |E| && forall i :: 0 <= i < |E| ==> E[i] >= 0.0
    ensures 0.0 <= TotalOdd(E, n)
    ensures 0.0 <= WeightedOdd(E, n) <= (if n >= 2 then (n - 2) as real else 0.0) * TotalOdd(E, n)
  {
    if n > 0 {
      WeightedBounds(E, n - 1);
      var prev := if n - 1 >= 2 then (n - 3) as real else 0.0;
      var cur := if n >= 2 then (n - 2) as real else 0.0;
      ScaleMonotone(TotalOdd(E, n - 1), prev, cur);
      if (n - 1) % 2 == 1 {
        assert ((n - 2) as real) * E[n - 1] >= 0.0 by {
          ScaleMonotone(E[n - 1], 0.0, (n - 2) as real);
        }
      }
    }
  }

  /** The end of the i loop: the first index not summed. */
  function OddLimit(t: nat): (n: nat)
    ensures n <= 11
    ensures forall i :: 0 <= i < n ==> (i % 2 == 1 <==> Summed(i, t))
    ensures forall i :: n <= i ==> !Summed(i, t)
  {
    if t <= 1 then 0 else if t >= 10 then 10 else if t % 2 == 0 then t else t - 1
  }

  /** The two accumulators of X_val's loop. */
  method OddSums(E: seq<real>, t: nat) returns (sum: real, denom: real)
    requires |E| == 10
    ensures sum == WeightedOdd(E, OddLimit(t)) && denom == TotalOdd(E, OddLimit(t))
  {
    sum := 0.0;
    denom := 0.0;
    var i := 1;
    while i < 10 && i < t
      invariant 1 <= i <= 11 && i % 2 == 1
      invariant i == 1 || i - 2 < t
      invariant sum == WeightedOdd(E, i - 1) && denom == TotalOdd(E, i - 1)
      decreases 10 - i
    {
      assert WeightedOdd(E, i + 1) == WeightedOdd(E, i - 1) + (i - 1) as real * E[i];
      assert TotalOdd(E, i + 1) == TotalOdd(E, i - 1) + E[i];
      sum := sum + (i - 1) as real * E[i];
      denom := denom + E[i];
      i := i + 2;
    }
    assert i - 1 == OddLimit(t);
  }

  /** With non-negative terms the ratio is a weighted average of the even
      weights 0, 2, ..., 8. */
  lemma RatioBounds(E: seq<real>, n: nat)
    requires |E| == 10 && n <= 10 && forall i :: 0 <= i < 10 ==> E[i] >= 0.0
    requires TotalOdd(E, n) != 0.0
    ensures 0.0 <= WeightedOdd(E, n) / TotalOdd(E, n) <= 8.0
  {
    var W, T := WeightedOdd(E, n), TotalOdd(E, n);
    WeightedBounds(E, n);
    var k := if n >= 2 then (n - 2) as real else 0.0;
    assert W <= k * T;
    assert k * T <= 8.0 * T by {
      ScaleMonotone(T, k, 8.0);
    }
    DivBound(W, T, 8.0);
  }

  /** X_val(t): E[i] stands for exp(logE(t, i)) for i < 10. */
  method XVal(E: seq<real>, t: nat) returns (x: real)
    requires |E| == 10
    ensures var n := OddLimit(t);
      x == if TotalOdd(E, n) == 0.0 then 0.0 else WeightedOdd(E, n) / TotalOdd(E, n)
    ensures t <= 1 ==> x == 0.0
    ensures (forall i :: 0 <= i < 10 ==> E[i] >= 0.0) ==> 0.0 <= x <= 8.0
  {
    var sum, denom := OddSums(E, t);
    x := if denom == 0.0 then 0.0 else sum / denom;
    if denom != 0.0 && forall i :: 0 <= i < 10 ==> E[i] >= 0.0 {
      RatioBounds(E, OddLimit(t));
    }
  }
}
