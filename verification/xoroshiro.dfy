/** xoroshiro128+ (xoroshiro128plus.c): a 128-bit state of two 64-bit words,
    the output s0 + s1, and random_lim, which maps a draw to [0, limit]
    inclusive by division with rejection. The state words are the
    S0 / S1 pointers of the source, here passed in and returned. */
module Xoroshiro128Plus {
  import opened Bits
  import opened PrngCore

  datatype State = State(s0: bv64, s1: bv64)

  const Zero: State := State(0, 0)

  function Xor(a: State, b: State): State
  {
    State(a.s0 ^ b.s0, a.s1 ^ b.s1)
  }

  /** rotl(x, 24) and rotl(x, 37), the rotations of lines 43-44, with their
      shift amounts written out. */
  function Rotl24(x: bv64): bv64
  {
    (x << 24) | (x >> 40)
  }

  function Rotl37(x: bv64): bv64
  {
    (x << 37) | (x >> 27)
  }

  /** The rotations run backwards. */
  function Rotl40(x: bv64): bv64
  {
    (x << 40) | (x >> 24)
  }

  function Rotl27(x: bv64): bv64
  {
    (x << 27) | (x >> 37)
  }

  /** They are rotl at those amounts, and they are rotations. */
  lemma RotationsAreRotl(x: bv64)
    ensures Rotl24(x) == RotL(x, 24) == x.RotateLeft(24)
    ensures Rotl37(x) == RotL(x, 37) == x.RotateLeft(37)
  {
  }

  /** Rotating by k and then by 64 - k gives back the word. */
  lemma RotationsInvert(x: bv64)
    ensures Rotl40(Rotl24(x)) == x && Rotl24(Rotl40(x)) == x
    ensures Rotl27(Rotl37(x)) == x && Rotl37(Rotl27(x)) == x
  {
  }

  /** The state update of random_uint64_t, lines 42-44. */
  function Step(st: State): State
  {
    var t := st.s1 ^ st.s0;
    State(Rotl24(st.s0) ^ t ^ (t << 16), Rotl37(t))
  }

  /** The value random_uint64_t returns, line 40: the sum of the two words
      of the old state, wrapped to 64 bits. */
  function Output(st: State): bv64
  {
    st.s0 + st.s1
  }

  /** random_uint64_t: the output of the old state, and the next state. */
  function Next(st: State): (d: (bv64, State))
    ensures d.1 == Step(st) && d.0 == Output(st)
  {
    (Output(st), Step(st))
  }

  // ---------------------------------------------------------------------------
  // jump
  // ---------------------------------------------------------------------------

  /** JUMP, line 82. */
  const JumpWords: seq<bv64> := [0xdf900294d8f554a5, 0x170865df4b3201fc]

  /** jump, lines 81-97: 128 steps; the new state is the XOR of the states at
      the set bits of JUMP. */
  method Jump128(st: State) returns (r: State)
    ensures r == XorSteps(Step, Xor, Zero, PolyBits(JumpWords), st, 128)
  {
    r := Jump(Step, Xor, Zero, JumpWords, st);
  }

  // ---------------------------------------------------------------------------
  // random_lim
  // ---------------------------------------------------------------------------

  /** The result of a rejection loop run on a finite stream of draws. */
  datatype Lim = Drawn(value: U64, used: nat) | Exhausted

  /** 0xffffffffffffffff / (limit + 1), line 67. */
  function Divisor(limit: U64): (d: nat)
    requires limit < Two64 - 1
    ensures d >= 1 && (limit + 1) * d <= Two64 - 1
  {
    var d := (Two64 - 1) / (limit + 1);
    DivUnique(Two64 - 1, d, (Two64 - 1) % (limit + 1), limit + 1);
    d
  }

  /** limit + 1 wraps to 0, and line 67 divides by zero, exactly for the
      largest limit: the requires of RandomLim. */
  lemma DivisorWraps(limit: bv64)
    ensures limit + 1 == 0 <==> limit == 0xffff_ffff_ffff_ffff
  {
  }

  /** random_lim, lines 66-75, on the stream of draws xs: the first draw
      whose quotient by the divisor is at most limit gives the result. */
  function RandomLim(limit: U64, xs: seq<U64>): (r: Lim)
    requires limit < Two64 - 1
    ensures r.Drawn? ==> (1 <= r.used <= |xs| && r.value <= limit
      && r.value == xs[r.used - 1] / Divisor(limit)
      && forall q :: 0 <= q < r.used - 1 ==> xs[q] / Divisor(limit) > limit)
    ensures r.Exhausted? ==> forall q :: 0 <= q < |xs| ==> xs[q] / Divisor(limit) > limit
  {
    Redraw(limit, Divisor(limit), xs, 0)
  }

  /** The do-while loop of lines 70-72 from draw p on: draw until the
      quotient by d is at most limit. */
  function Redraw(limit: U64, d: nat, xs: seq<U64>, p: nat): (r: Lim)
    requires d >= 1 && p <= |xs|
    ensures r.Drawn? ==> (p + 1 <= r.used <= |xs| && r.value <= limit
      && r.value == xs[r.used - 1] / d
      && forall q :: p <= q < r.used - 1 ==> xs[q] / d > limit)
    ensures r.Exhausted? ==> forall q :: p <= q < |xs| ==> xs[q] / d > limit
    decreases |xs| - p
  {
    if p == |xs| then Exhausted
    else if xs[p] / d <= limit then Drawn(xs[p] / d, p + 1)
    else Redraw(limit, d, xs, p + 1)
  }

  /** The range is inclusive: every value from 0 to limit, limit itself
      included, is the result of some draw. */
  lemma RandomLimInclusive(limit: U64, v: nat)
    requires limit < Two64 - 1 && v <= limit
    ensures v * Divisor(limit) < Two64
    ensures RandomLim(limit, [v * Divisor(limit)]) == Drawn(v, 1)
  {
    var d := Divisor(limit);
    MulMonotone(v, limit + 1, d);
    DivUnique(v * d, v, 0, d);
  }

  lemma MulMonotone(a: nat, b: nat, d: nat)
    requires a <= b
    ensures a * d <= b * d
  {
  }
}
