/** The error-pattern generators of src/errorgen.c: uniform patterns over
    both blocks or over one block, and patterns with a fixed number of
    positions in common with a shifted near-codeword or codeword.

    This file calls random_lim through the xoroshiro128+ interface (state
    words s0 and s1), whose range is inclusive: random_lim(n - 1) is a draw in
    [0, n). Every draw is a parameter known to lie in its range. A loop that
    draws until it succeeds runs on a finite stream of draws and reports
    whether the stream ran out. */
module ErrorGen {
  import opened Cyclic
  import opened QcCode

  // ---------------------------------------------------------------------------
  // generate_random_error, generate_random_syndrome_error
  // ---------------------------------------------------------------------------

  /** generate_random_error, lines 26-28: sparse_rand over the 2L positions of
      both blocks. */
  method GenerateRandomError(weight: nat, L: nat, draws: seq<nat>) returns (e: seq<int>)
    requires weight <= 2 * L && |draws| == weight
    requires forall i :: 0 <= i < weight ==> draws[i] <= 2 * L - 1 - i
    ensures IsBlock(e, weight, 2 * L)
  {
    e := SparseRand(weight, 2 * L, draws);
  }

  /** generate_random_syndrome_error, lines 30-33: sparse_rand over the L
      positions of one block. */
  method GenerateRandomSyndromeError(weight: nat, L: nat, draws: seq<nat>) returns (e: seq<int>)
    requires weight <= L && |draws| == weight
    requires forall i :: 0 <= i < weight ==> draws[i] <= L - 1 - i
    ensures IsBlock(e, weight, L)
  {
    e := SparseRand(weight, L, draws);
  }

  // ---------------------------------------------------------------------------
  // The shifted source word
  // ---------------------------------------------------------------------------

  ghost predicate Positions(src: seq<int>)
  {
    forall l :: 0 <= l < |src| ==> 0 <= src[l]
  }

  /** The position a source position moves to, lines 46-49 and 57-59: a
      position below L stays in block 0 and one at L or above goes to block 1,
      its offset in the block rotated by shift. */
  function ShiftPos(x: int, shift: nat, L: nat): (i: int)
    requires 0 < L && 0 <= x
    ensures x < L ==> 0 <= i < L
    ensures L <= x ==> L <= i < 2 * L
  {
    if x >= L then (x - L + shift) % L + L else (x + shift) % L
  }

  /** The offset of a position in its block, and the position back from it. */
  lemma ShiftPosOffset(base: nat, c: int, shift: nat, L: nat)
    requires 0 < L && (base == 0 || base == L) && 0 <= c < L
    ensures ShiftPos(base + c, shift, L) == base + (c + shift) % L
  {
  }

  /** Distinct positions of [0, 2L) stay distinct: the shift is a rotation of
      each block. */
  lemma ShiftPosInjective(x: int, y: int, shift: nat, L: nat)
    requires 0 < L && 0 <= x < 2 * L && 0 <= y < 2 * L
    requires ShiftPos(x, shift, L) == ShiftPos(y, shift, L)
    ensures x == y
  {
    var bx := if x < L then 0 else L;
    var base := if y < L then 0 else L;
    assert bx == base;
    var i := ShiftPos(x, shift, L) - bx;
    CodeGen.ShiftRoundTrip(x - bx, i, shift, L);
    CodeGen.ShiftRoundTrip(y - base, i, shift, L);
  }

  /** The word h of lines 44-51 as the list of its positions. */
  function Word(src: seq<int>, shift: nat, L: nat): (h: seq<int>)
    requires 0 < L && Positions(src)
    ensures |h| == |src| && InRange(h, 0, 2 * L)
    ensures forall l :: 0 <= l < |src| && src[l] < L ==> h[l] < L
    ensures forall l :: 0 <= l < |src| && L <= src[l] ==> L <= h[l]
  {
    seq(|src|, l requires 0 <= l < |src| => ShiftPos(src[l], shift, L))
  }

  /** A block column rotated by shift and placed at base: the word a column
      gives once shifted. */
  function Rotated(col: seq<int>, base: nat, shift: nat, L: nat): (r: seq<int>)
    requires 0 < L
    ensures |r| == |col| && InRange(r, base, base + L)
  {
    seq(|col|, l requires 0 <= l < |col| => base + (col[l] + shift) % L)
  }

  /** The word of a column placed in a block is that column rotated. */
  lemma WordOfBlock(col: seq<int>, base: nat, shift: nat, L: nat)
    requires 0 < L && (base == 0 || base == L) && InRange(col, 0, L)
    ensures Positions(Placed(col, base))
    ensures Word(Placed(col, base), shift, L) == Rotated(col, base, shift, L)
  {
    var src := Placed(col, base);
    forall l | 0 <= l < |col|
      ensures Word(src, shift, L)[l] == Rotated(col, base, shift, L)[l]
    {
      ShiftPosOffset(base, col[l], shift, L);
    }
  }

  /** A column moved into the block that starts at base. */
  function Placed(col: seq<int>, base: nat): (src: seq<int>)
    ensures |src| == |col|
  {
    seq(|col|, l requires 0 <= l < |col| => base + col[l])
  }

  lemma WordAppend(a: seq<int>, b: seq<int>, shift: nat, L: nat)
    requires 0 < L && Positions(a) && Positions(b)
    ensures Positions(a + b)
    ensures Word(a + b, shift, L) == Word(a, shift, L) + Word(b, shift, L)
  {
  }

  /** The bit array h of lines 41-51: set exactly at the positions of the
      shifted word. */
  method MarkWord(src: seq<int>, shift: nat, L: nat) returns (h: seq<bool>)
    requires 0 < L && Positions(src)
    ensures |h| == 2 * L
    ensures forall x :: 0 <= x < 2 * L ==> (h[x] <==> x in Word(src, shift, L))
  {
    h := seq(2 * L, _ => false);
    for l := 0 to |src|
      invariant |h| == 2 * L
      invariant forall x :: 0 <= x < 2 * L ==> (h[x] <==> x in Word(src[..l], shift, L))
    {
      var i := ShiftPos(src[l], shift, L);
      h := h[i := true];
      assert Word(src[..l + 1], shift, L) == Word(src[..l], shift, L) + [i];
    }
    assert src[..|src|] == src;
  }

  // ---------------------------------------------------------------------------
  // generate_around_word
  // ---------------------------------------------------------------------------

  /** The pattern built so far: the first n slots of dst are sorted, distinct
      positions of [0, 2L), and the bit array e is set exactly at them. */
  ghost predicate Pattern(dst: seq<int>, n: nat, e: seq<bool>, L: nat)
  {
    n <= |dst| && |e| == 2 * L && StrictlyIncreasing(dst[..n]) && InRange(dst[..n], 0, 2 * L)
    && forall x :: 0 <= x < 2 * L ==> (e[x] <==> x in dst[..n])
  }

  /** The listed positions at which h is set. */
  ghost function Shared(s: seq<int>, h: seq<bool>): set<int>
  {
    set x | x in s && 0 <= x < |h| && h[x]
  }

  /** A fresh position is marked in e and inserted in sorted order
      (insert_sorted_noinc, then error_weight++). */
  method Accept(dst: seq<int>, n: nat, e: seq<bool>, i: int, L: nat, ghost h: seq<bool>)
    returns (dst1: seq<int>, e1: seq<bool>)
    requires Pattern(dst, n, e, L) && n < |dst| && 0 <= i < 2 * L && !e[i] && |h| == 2 * L
    ensures |dst1| == |dst| && Pattern(dst1, n + 1, e1, L)
    ensures h[i] ==> Shared(dst1[..n + 1], h) == Shared(dst[..n], h) + {i}
    ensures !h[i] ==> Shared(dst1[..n + 1], h) == Shared(dst[..n], h)
    ensures i !in Shared(dst[..n], h)
  {
    dst1 := CodeGen.InsertNew(dst, i, n, 2 * L);
    e1 := e[i := true];
    assert forall x :: x in dst1[..n + 1] <==> x == i || x in dst[..n] by {
      forall x
        ensures x in dst1[..n + 1] <==> x == i || x in dst[..n]
      {
        assert x in dst1[..n + 1] <==> x in multiset(dst1[..n + 1]);
        assert x in dst[..n] <==> x in multiset(dst[..n]);
      }
    }
  }

  /** The loop of lines 53-65: source positions are picked until
      `want` distinct positions of the word are in the pattern. */
  method PickShared(h: seq<bool>, word: seq<int>, dst0: seq<int>, want: nat, picks: seq<nat>, L: nat)
    returns (ok: bool, dst: seq<int>, e: seq<bool>)
    requires 0 < L && |h| == 2 * L && want <= |dst0| && InRange(word, 0, 2 * L)
    requires forall x :: 0 <= x < 2 * L ==> (h[x] <==> x in word)
    requires forall t :: 0 <= t < |picks| ==> picks[t] < |word|
    ensures |dst| == |dst0|
    ensures ok ==> Pattern(dst, want, e, L) && |Shared(dst[..want], h)| == want
  {
    dst, e := dst0, seq(2 * L, _ => false);
    var n := 0;
    var used := 0;
    while n < want
      invariant |dst| == |dst0| && n <= want && used <= |picks|
      invariant Pattern(dst, n, e, L) && |Shared(dst[..n], h)| == n
      decreases |picks| - used
    {
      if used == |picks| {
        return false, dst, e;
      }
      var i := word[picks[used]];
      used := used + 1;
      if !e[i] {
        assert h[i];
        dst, e := Accept(dst, n, e, i, L, h);
        n := n + 1;
      }
    }
    ok := true;
  }

  /** The loop of lines 67-75: positions are drawn from [0, 2L) until the
      pattern has `want` entries, keeping only those in neither e nor h. */
  method FillOutside(h: seq<bool>, dst0: seq<int>, e0: seq<bool>, n0: nat, want: nat, spots: seq<nat>, L: nat)
    returns (ok: bool, dst: seq<int>, e: seq<bool>)
    requires Pattern(dst0, n0, e0, L) && n0 <= want <= |dst0| && |h| == 2 * L
    requires forall t :: 0 <= t < |spots| ==> spots[t] < 2 * L
    ensures |dst| == |dst0|
    ensures ok ==> Pattern(dst, want, e, L) && Shared(dst[..want], h) == Shared(dst0[..n0], h)
  {
    dst, e := dst0, e0;
    var n := n0;
    var used := 0;
    while n < want
      invariant |dst| == |dst0| && n0 <= n <= want && used <= |spots|
      invariant Pattern(dst, n, e, L) && Shared(dst[..n], h) == Shared(dst0[..n0], h)
      decreases |spots| - used
    {
      if used == |spots| {
        return false, dst, e;
      }
      var j := spots[used];
      used := used + 1;
      if !e[j] && !h[j] {
        dst, e := Accept(dst, n, e, j, L, h);
        n := n + 1;
      }
    }
    ok := true;
  }

  /** The draws of generate_around_word: the shift of line 44, the source
      picks of line 56 and the positions of line 70. */
  datatype AroundDraws = AroundDraws(shift: nat, picks: seq<nat>, spots: seq<nat>)

  ghost predicate AroundInRange(d: AroundDraws, weightSrc: nat, L: nat)
  {
    d.shift < L
    && (forall t :: 0 <= t < |d.picks| ==> d.picks[t] < weightSrc)
    && (forall t :: 0 <= t < |d.spots| ==> d.spots[t] < 2 * L)
  }

  /** generate_around_word, lines 37-76: a pattern of weightDst sorted,
      distinct positions of [0, 2L), exactly `intersections` of which lie in
      the source word shifted within its blocks. */
  method GenerateAroundWord(weightDst: nat, src: seq<int>, intersections: nat, L: nat, d: AroundDraws)
    returns (ok: bool, dst: seq<int>)
    requires 0 < L && intersections <= weightDst && Positions(src)
    requires AroundInRange(d, |src|, L)
    ensures |dst| == weightDst
    ensures ok ==> IsBlock(dst, weightDst, 2 * L)
    ensures ok ==> |set x | x in dst && x in Word(src, d.shift, L)| == intersections
  {
    var word := Word(src, d.shift, L);
    var h := MarkWord(src, d.shift, L);
    var e;
    ok, dst, e := PickShared(h, word, seq(weightDst, _ => 0), intersections, d.picks, L);
    if !ok {
      return;
    }
    ok, dst, e := FillOutside(h, dst, e, intersections, weightDst, d.spots, L);
    if ok {
      assert dst[..weightDst] == dst;
      assert (set x | x in dst && x in word) == Shared(dst, h);
    }
  }

  // ---------------------------------------------------------------------------
  // generate_near_codeword
  // ---------------------------------------------------------------------------

  /** generate_near_codeword, lines 80-92: column k of H, placed in block k, is
      the source word; k is random_lim(INDEX - 1), so k < 2. The pattern has t
      positions, p of them on the column rotated within block k. */
  method GenerateNearCodeword(H: Code, w: nat, L: nat, t: nat, p: nat, k: nat, d: AroundDraws)
    returns (ok: bool, e: seq<int>)
    requires ColumnsValid(H, w, L) && k < 2 && p <= t
    requires AroundInRange(d, w, L)
    ensures ok ==> IsBlock(e, t, 2 * L)
    ensures ok ==> |set x | x in e && x in Rotated(H.columns[k], k * L, d.shift, L)| == p
  {
    var src := Placed(H.columns[k], k * L);
    WordOfBlock(H.columns[k], k * L, d.shift, L);
    ok, e := GenerateAroundWord(t, src, p, L, d);
  }

  // ---------------------------------------------------------------------------
  // generate_near_codeword2 and generate_codeword
  // ---------------------------------------------------------------------------

  /** e_src holds BLOCK_WEIGHT entries as declared at lines 97 and 118. */
  function DeclaredSourceSlots(w: nat): nat
  {
    w
  }

  /** As declared, the buffer is too small: generate_near_codeword2 as
      written (lines 99-109) and generate_codeword (lines 120-131) each fill
      2w entries of it, so the entries from index w on are written past its
      end. */
  lemma SourceBufferOverflow(H: Code, w: nat, rot: nat, L: nat)
    requires |H.columns| == 2 && |H.columns[0]| == w && |H.columns[1]| == w && 1 <= w
    ensures |NearCodeword2AsWritten(H.columns[0], H.columns[1], rot, L)| == 2 * w > DeclaredSourceSlots(w)
    ensures |CodewordSource(H, L)| == 2 * w > DeclaredSourceSlots(w)
  {
  }

  /** The buffer the two generators need, 2 * BLOCK_WEIGHT entries. */
  function SourceSlots(w: nat): nat
  {
    2 * w
  }

  /** With 2 * BLOCK_WEIGHT entries both sources fill the buffer exactly. */
  lemma SourceBufferFits(H: Code, w: nat, rot: nat, L: nat)
    requires ColumnsValid(H, w, L) && 0 < L && rot < L
    ensures |NearCodeword2Source(H.columns[0], H.columns[1], rot, L)| == SourceSlots(w)
    ensures |CodewordSource(H, L)| == SourceSlots(w)
  {
  }

  /** The wrap of line 107 as written: i is kept when i <= L. */
  function WrapAsWritten(i: int, L: nat): int
  {
    if i <= L then i else i - L
  }

  /** The wrap intended: i mod L for 0 <= i < 2L. */
  function Wrap(i: int, L: nat): (r: int)
    requires 0 <= i < 2 * L
    ensures 0 <= r < L && r == i % L
  {
    if i < L then
      Bits.DivUnique(i, 0, i, L);
      i
    else
      Bits.DivUnique(i, 1, i - L, L);
      i - L
  }

  /** The source of generate_near_codeword2 as written, lines 99-109: column
      0 in block 0, then column 1 rotated by rot and moved to block 1. */
  function NearCodeword2AsWritten(col0: seq<int>, col1: seq<int>, rot: nat, L: nat): (src: seq<int>)
    ensures |src| == |col0| + |col1|
  {
    col0 + seq(|col1|, l requires 0 <= l < |col1| => L + WrapAsWritten(col1[l] + rot, L))
  }

  /** As written, an entry of column 1 at L - rot is placed at 2L, outside
      block 1. */
  lemma NearCodeword2Escapes(col0: seq<int>, col1: seq<int>, rot: nat, L: nat, l: nat)
    requires l < |col1| && col1[l] + rot == L
    ensures NearCodeword2AsWritten(col0, col1, rot, L)[|col0| + l] == 2 * L
  {
  }

  /** A concrete case: L = 5, columns [0] and [3], rot = 2. */
  lemma NearCodeword2EscapesAt()
    ensures NearCodeword2AsWritten([0], [3], 2, 5) == [0, 10]
  {
    assert NearCodeword2AsWritten([0], [3], 2, 5)[1] == 10;
  }

  /** The source of generate_near_codeword2 with the wrap intended: every entry
      of its second half lies in block 1, at column 1 rotated by rot. */
  function NearCodeword2Source(col0: seq<int>, col1: seq<int>, rot: nat, L: nat): (src: seq<int>)
    requires 0 < L && InRange(col1, 0, L) && rot < L
    ensures |src| == |col0| + |col1|
    ensures src[..|col0|] == col0
    ensures src[|col0|..] == Rotated(col1, L, rot, L)
  {
    col0 + seq(|col1|, l requires 0 <= l < |col1| => L + Wrap(col1[l] + rot, L))
  }

  /** The escaped entry makes no difference downstream: generate_around_word
      reduces offsets mod L, so 2L lands where L would. */
  lemma NearCodeword2SameWord(col0: seq<int>, col1: seq<int>, rot: nat, shift: nat, L: nat)
    requires 0 < L && InRange(col0, 0, L) && InRange(col1, 0, L) && rot < L
    ensures Positions(NearCodeword2AsWritten(col0, col1, rot, L))
    ensures Positions(NearCodeword2Source(col0, col1, rot, L))
    ensures Word(NearCodeword2AsWritten(col0, col1, rot, L), shift, L)
         == Word(NearCodeword2Source(col0, col1, rot, L), shift, L)
  {
    var a := NearCodeword2AsWritten(col0, col1, rot, L);
    var b := NearCodeword2Source(col0, col1, rot, L);
    forall j | 0 <= j < |a|
      ensures ShiftPos(a[j], shift, L) == ShiftPos(b[j], shift, L)
    {
      if j >= |col0| {
        var l := j - |col0|;
        assert b[j] == L + Wrap(col1[l] + rot, L);
        if col1[l] + rot == L {
          assert a[j] == 2 * L && b[j] == L;
          Bits.ModAddLeft(L, shift, L);
          Bits.ModOfSmall(0, L);
        }
      }
    }
  }

  /** generate_near_codeword2, lines 96-113, with the source of 2w entries
      and the wrap intended: column 0 in block 0 and column 1 rotated by rot
      in block 1 form the source word. */
  method GenerateNearCodeword2(H: Code, w: nat, L: nat, t: nat, p: nat, rot: nat, d: AroundDraws)
    returns (ok: bool, e: seq<int>)
    requires ColumnsValid(H, w, L) && rot < L && p <= t
    requires AroundInRange(d, SourceSlots(w), L)
    ensures ok ==> IsBlock(e, t, 2 * L)
    ensures ok ==> |set x | x in e && x in Rotated(H.columns[0], 0, d.shift, L) + Rotated(H.columns[1], L, (rot + d.shift) % L, L)| == p
  {
    var src := NearCodeword2Source(H.columns[0], H.columns[1], rot, L);
    NearCodeword2Word(H.columns[0], H.columns[1], rot, d.shift, L);
    ok, e := GenerateAroundWord(t, src, p, L, d);
  }

  /** The word of the near-codeword2 source: column 0 rotated by shift, and
      column 1 rotated by rot + shift. */
  lemma NearCodeword2Word(col0: seq<int>, col1: seq<int>, rot: nat, shift: nat, L: nat)
    requires 0 < L && InRange(col0, 0, L) && InRange(col1, 0, L) && rot < L
    ensures Positions(NearCodeword2Source(col0, col1, rot, L))
    ensures Word(NearCodeword2Source(col0, col1, rot, L), shift, L)
         == Rotated(col0, 0, shift, L) + Rotated(col1, L, (rot + shift) % L, L)
  {
    var src := NearCodeword2Source(col0, col1, rot, L);
    var r0 := Rotated(col0, 0, shift, L);
    var r1 := Rotated(col1, L, (rot + shift) % L, L);
    var word := Word(src, shift, L);
    forall j | 0 <= j < |src|
      ensures word[j] == (r0 + r1)[j]
    {
      if j < |col0| {
        assert src[j] == col0[j];
        ShiftPosOffset(0, col0[j], shift, L);
      } else {
        var l := j - |col0|;
        var c := col1[l];
        assert src[j] == L + (c + rot) % L;
        ShiftPosOffset(L, (c + rot) % L, shift, L);
        Bits.ModAddLeft(c + rot, shift, L);
        Bits.ModAddLeft(rot + shift, c, L);
        assert (c + rot) + shift == (rot + shift) + c;
      }
    }
  }

  /** The first index of a column holding a value at L or above, where the
      first loop of lines 121-126 breaks; |col| when there is none. */
  function BreakAt(col: seq<int>, L: nat): (b: nat)
    ensures b <= |col|
    ensures forall l :: 0 <= l < b ==> col[l] < L
    ensures b < |col| ==> col[b] >= L
  {
    if |col| == 0 then 0 else if col[0] >= L then 0 else 1 + BreakAt(col[1..], L)
  }

  /** One half of the codeword source, lines 120-131: block k takes column
      INDEX - 1 - k; entries before the break get k * L added, later ones
      (k - 1) * L. */
  function CodewordHalf(col: seq<int>, k: nat, L: nat): (half: seq<int>)
    ensures |half| == |col|
  {
    var b := BreakAt(col, L);
    seq(|col|, l requires 0 <= l < |col| => col[l] + (if l < b then k else k - 1) * L)
  }

  /** generate_codeword's source, lines 118-131, in a 2w-entry buffer. */
  function CodewordSource(H: Code, L: nat): (src: seq<int>)
    requires |H.columns| == 2
    ensures |src| == |H.columns[1]| + |H.columns[0]|
  {
    CodewordHalf(H.columns[1], 0, L) + CodewordHalf(H.columns[0], 1, L)
  }

  /** On a valid code the break never happens: the source is column 1 in
      block 0 and column 0 in block 1, the codeword (h1, h0) of the message
      1, as compute_codeword builds it. */
  lemma CodewordSourceForm(H: Code, w: nat, L: nat)
    requires ColumnsValid(H, w, L)
    ensures CodewordSource(H, L) == Placed(H.columns[1], 0) + Placed(H.columns[0], L)
  {
    NoBreak(H.columns[1], L);
    NoBreak(H.columns[0], L);
  }

  lemma NoBreak(col: seq<int>, L: nat)
    requires InRange(col, 0, L)
    ensures BreakAt(col, L) == |col|
  {
    if BreakAt(col, L) < |col| {
      assert col[BreakAt(col, L)] >= L;
    }
  }

  /** generate_codeword, lines 116-137: the pattern has t positions, p of them
      on the codeword (h1, h0) shifted within its blocks. */
  method GenerateCodeword(H: Code, w: nat, L: nat, t: nat, p: nat, d: AroundDraws)
    returns (ok: bool, e: seq<int>)
    requires ColumnsValid(H, w, L) && p <= t
    requires AroundInRange(d, SourceSlots(w), L)
    ensures ok ==> IsBlock(e, t, 2 * L)
    ensures ok ==> |set x | x in e && x in Rotated(H.columns[1], 0, d.shift, L) + Rotated(H.columns[0], L, d.shift, L)| == p
  {
    var src := CodewordSource(H, L);
    CodewordSourceForm(H, w, L);
    WordOfBlock(H.columns[1], 0, d.shift, L);
    WordOfBlock(H.columns[0], L, d.shift, L);
    WordAppend(Placed(H.columns[1], 0), Placed(H.columns[0], L), d.shift, L);
    ok, e := GenerateAroundWord(t, src, p, L, d);
  }

  import CodeGen
}
