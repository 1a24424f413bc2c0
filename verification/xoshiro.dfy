/** xoshiro256++ (src/xoshiro256plusplus.c): a 256-bit state of four 64-bit
    words, the output rotl(s0 + s3, 23) + s0, and random_lim, which maps a
    draw to [0, limit) by Lemire's multiply-and-reject method. */
module Xoshiro256PlusPlus {
  import opened Bits
  import opened PrngCore

  datatype State = State(s0: bv64, s1: bv64, s2: bv64, s3: bv64)

  const Zero: State := State(0, 0, 0, 0)

  function Xor(a: State, b: State): State
  {
    State(a.s0 ^ b.s0, a.s1 ^ b.s1, a.s2 ^ b.s2, a.s3 ^ b.s3)
  }

  /** rotl(x, 23) and rotl(x, 45), the rotations of lines 32 and 43, with
      their shift amounts written out, and their reverses. */
  function Rotl23(x: bv64): bv64
  {
    (x << 23) | (x >> 41)
  }

  function Rotl45(x: bv64): bv64
  {
    (x << 45) | (x >> 19)
  }

  function Rotl41(x: bv64): bv64
  {
    (x << 41) | (x >> 23)
  }

  function Rotl19(x: bv64): bv64
  {
    (x << 19) | (x >> 45)
  }

  lemma RotationsAreRotl(x: bv64)
    ensures Rotl23(x) == RotL(x, 23) == x.RotateLeft(23)
    ensures Rotl45(x) == RotL(x, 45) == x.RotateLeft(45)
  {
  }

  /** Rotating by k and then by 64 - k gives back the word. */
  lemma RotationsInvert(x: bv64)
    ensures Rotl41(Rotl23(x)) == x && Rotl23(Rotl41(x)) == x
    ensures Rotl19(Rotl45(x)) == x && Rotl45(Rotl19(x)) == x
  {
  }

  /** The value random_uint64_t returns, line 32, wrapping on 64 bits. */
  function Output(st: State): bv64
  {
    Rotl23(st.s0 + st.s3) + st.s0
  }

  /** The state update of random_uint64_t, lines 34-43, one assignment at a
      time. */
  function Step(st: State): State
  {
    var t := st.s1 << 17;
    var s2 := st.s2 ^ st.s0;
    var s3 := st.s3 ^ st.s1;
    var s1 := st.s1 ^ s2;
    var s0 := st.s0 ^ s3;
    var s2' := s2 ^ t;
    State(s0, s1, s2', Rotl45(s3))
  }

  /** random_uint64_t: the output of the old state, and the next state. */
  function Next(st: State): (d: (bv64, State))
    ensures d.1 == Step(st) && d.0 == Output(st)
  {
    (Output(st), Step(st))
  }

  // ---------------------------------------------------------------------------
  // jump
  // ---------------------------------------------------------------------------

  /** JUMP, lines 83-84. */
  const JumpWords: seq<bv64> := [0x180ec6d33cfd0aba, 0xd5a61266f0c9392c, 0xa9582618e03fc9aa, 0x39abdc4529b1661c]

  /** jump, lines 82-105: 256 steps; the new state is the XOR of the states
      at the set bits of JUMP, all four words accumulated alike. */
  method Jump256(st: State) returns (r: State)
    ensures r == XorSteps(Step, Xor, Zero, PolyBits(JumpWords), st, 256)
  {
    r := Jump(Step, Xor, Zero, JumpWords, st);
  }

  // ---------------------------------------------------------------------------
  // random_lim
  // ---------------------------------------------------------------------------

  /** The result of a rejection loop run on a finite stream of draws. */
  datatype Lim = Drawn(value: U64, used: nat) | Exhausted

  /** The low and high 64 bits of the 128-bit product x * limit of lines 66-67
      and 76; two 64-bit factors never overflow 128 bits. */
  function Low(x: U64, limit: U64): (l: U64)
  {
    (x * limit) % Two64
  }

  function High(x: U64, limit: U64): (h: U64)
  {
    HighBound(x, limit);
    (x * limit) / Two64
  }

  lemma HighBound(x: U64, limit: U64)
    ensures (x * limit) / Two64 < Two64
    ensures limit > 0 ==> (x * limit) / Two64 < limit
  {
    var h := (x * limit) / Two64;
    assert x * limit == h * Two64 + (x * limit) % Two64;
    if limit > 0 {
      assert x * limit < Two64 * limit by {
        MulLess(x, Two64, limit);
      }
      if h >= limit {
        MulMore(h, limit, Two64);
      }
    } else {
      assert x * limit == 0;
      DivUnique(0, 0, 0, Two64);
    }
  }

  lemma MulLess(a: int, b: int, c: int)
    requires 0 <= a < b && c > 0
    ensures a * c < b * c
  {
  }

  lemma MulMore(a: int, b: int, c: int)
    requires a >= b && c >= 0
    ensures a * c >= b * c
  {
  }

  /** t = -limit % limit, line 69: the uint64_t negation is 2^64 - limit. It
      is only evaluated once a low part below limit shows limit > 0. */
  function Threshold(limit: U64): (t: U64)
    ensures limit > 0 ==> t < limit
  {
    if limit == 0 then 0 else (Two64 - limit) % limit
  }

  /** The draws rejected are those whose low part is below 2^64 mod limit. */
  lemma ThresholdIsPowMod(limit: U64)
    requires limit > 0
    ensures Threshold(limit) == Two64 % limit
  {
    var q := (Two64 - limit) / limit;
    var r := (Two64 - limit) % limit;
    assert Two64 - limit == q * limit + r;
    DivUnique(Two64, q + 1, r, limit);
  }

  /** random_lim, lines 64-77, on the stream of draws xs: the first draw is
      kept when its low part is at least limit; otherwise draws are taken
      until the low part reaches t. The result is the high part. */
  function RandomLim(limit: U64, xs: seq<U64>): (r: Lim)
    ensures r.Drawn? ==> (1 <= r.used <= |xs|
      && r.value == High(xs[r.used - 1], limit)
      && Low(xs[r.used - 1], limit) >= Threshold(limit)
      && forall q :: 0 <= q < r.used - 1 ==> Low(xs[q], limit) < Threshold(limit))
    ensures r.Exhausted? ==> forall q :: 0 <= q < |xs| ==> Low(xs[q], limit) < Threshold(limit)
    ensures limit == 0 ==> r == if |xs| == 0 then Exhausted else Drawn(0, 1)
  {
    if |xs| == 0 then Exhausted
    else if Low(xs[0], limit) < limit then Retry(limit, Threshold(limit), xs, 0)
    else Drawn(High(xs[0], limit), 1)
  }

  /** The loop of lines 70-74 from draw p on: redraw while the low part is
      below t. */
  function Retry(limit: U64, t: U64, xs: seq<U64>, p: nat): (r: Lim)
    requires p < |xs|
    ensures r.Drawn? ==> (p + 1 <= r.used <= |xs|
      && r.value == High(xs[r.used - 1], limit)
      && Low(xs[r.used - 1], limit) >= t
      && forall q :: p <= q < r.used - 1 ==> Low(xs[q], limit) < t)
    ensures r.Exhausted? ==> forall q :: p <= q < |xs| ==> Low(xs[q], limit) < t
    decreases |xs| - p
  {
    if Low(xs[p], limit) >= t then Drawn(High(xs[p], limit), p + 1)
    else if p + 1 < |xs| then Retry(limit, t, xs, p + 1)
    else Exhausted
  }

  /** The range is exclusive: with limit > 0 the result is below limit, and
      with limit == 0 it is 0, without computing -limit % limit. */
  lemma RandomLimExclusive(limit: U64, xs: seq<U64>)
    requires RandomLim(limit, xs).Drawn?
    ensures limit > 0 ==> RandomLim(limit, xs).value < limit
    ensures limit == 0 ==> RandomLim(limit, xs).value == 0
  {
    var r := RandomLim(limit, xs);
    HighBound(xs[r.used - 1], limit);
  }
}
