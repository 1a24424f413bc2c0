/** What the two pseudo-random generators share (xoroshiro128plus.c and
    src/xoshiro256plusplus.c): the 64-bit rotation, the unsigned 64-bit range,
    and the jump function, which steps the generator once per bit of a
    polynomial and XORs together the states at the set bits. */
module PrngCore {
  import opened Bits

  /** uint64_t as an integer, for the arithmetic of random_lim. */
  const Two64: int := 0x1_0000_0000_0000_0000
  type U64 = x: int | 0 <= x < 0x1_0000_0000_0000_0000

  /** rotl(x, k) = (x << k) | (x >> (64 - k)); both shifts are defined only
      for 0 < k < 64. */
  function RotL(x: bv64, k: nat): bv64
    requires 0 < k < 64
  {
    (x << k) | (x >> (64 - k))
  }

  // ---------------------------------------------------------------------------
  // The jump polynomial
  // ---------------------------------------------------------------------------

  /** The test JUMP[i] & (1 << b) of the loop body. */
  predicate WordBit(word: bv64, b: nat)
    requires b < 64
  {
    word & (1 << b) != 0
  }

  /** The jump polynomial as a bit string: bit p is bit p % 64 of word p / 64. */
  function PolyBits(words: seq<bv64>): (bits: seq<bool>)
    ensures |bits| == 64 * |words|
  {
    seq(64 * |words|, p requires 0 <= p < 64 * |words| => WordBit(words[p / 64], p % 64))
  }

  /** The generator stepped n times. */
  function Iterate<S>(step: S -> S, s: S, n: nat): S
  {
    if n == 0 then s else step(Iterate(step, s, n - 1))
  }

  /** The XOR of the states Iterate(s, p) over the set bits p < n. */
  function XorSteps<S>(step: S -> S, xor: (S, S) -> S, zero: S, bits: seq<bool>, s: S, n: nat): S
    requires n <= |bits|
  {
    if n == 0 then zero
    else
      var acc := XorSteps(step, xor, zero, bits, s, n - 1);
      if bits[n - 1] then xor(acc, Iterate(step, s, n - 1)) else acc
  }

  /** jump: two nested loops over the words of JUMP and their 64 bits; the
      accumulator takes in the current state at each set bit, then the
      generator steps. The result is the XOR of the states at the set bits
      of the whole polynomial. */
  method Jump<S>(step: S -> S, xor: (S, S) -> S, zero: S, words: seq<bv64>, s: S) returns (r: S)
    ensures r == XorSteps(step, xor, zero, PolyBits(words), s, 64 * |words|)
  {
    var acc := zero;
    var cur := s;
    for i := 0 to |words|
      invariant acc == XorSteps(step, xor, zero, PolyBits(words), s, 64 * i)
      invariant cur == Iterate(step, s, 64 * i)
    {
      forall b | 0 <= b < 64
        ensures PolyBits(words)[64 * i + b] == WordBit(words[i], b)
      {
        JumpBitAt(words, i, b);
      }
      acc, cur := JumpWord(step, xor, zero, words, PolyBits(words), s, i, acc, cur);
    }
    r := acc;
  }

  /** The inner loop of jump over the 64 bits of JUMP[i]. */
  method JumpWord<S>(step: S -> S, xor: (S, S) -> S, zero: S, words: seq<bv64>, ghost bits: seq<bool>, s: S,
                     i: nat, acc0: S, cur0: S) returns (acc: S, cur: S)
    requires i < |words| && 64 * i + 64 <= |bits|
    requires forall b :: 0 <= b < 64 ==> bits[64 * i + b] == WordBit(words[i], b)
    requires acc0 == XorSteps(step, xor, zero, bits, s, 64 * i) && cur0 == Iterate(step, s, 64 * i)
    ensures acc == XorSteps(step, xor, zero, bits, s, 64 * i + 64) && cur == Iterate(step, s, 64 * i + 64)
  {
    ghost var n := 64 * i;
    acc, cur := acc0, cur0;
    for b := 0 to 64
      invariant acc == XorSteps(step, xor, zero, bits, s, n + b)
      invariant cur == Iterate(step, s, n + b)
    {
      var hit := WordBit(words[i], b);
      assert hit == bits[n + b];
      if hit {
        acc := xor(acc, cur);
      }
      cur := step(cur);
    }
  }

  lemma JumpBitAt(words: seq<bv64>, i: nat, b: nat)
    requires i < |words| && b < 64
    ensures PolyBits(words)[64 * i + b] == WordBit(words[i], b)
  {
    DivUnique(64 * i + b, i, b, 64);
  }
}
