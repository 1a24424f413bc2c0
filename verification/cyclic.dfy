/** Sparse circulant blocks and the cyclic sparse x dense products of
    src/sparse_cyclic.c.

    A sparse block is the sorted list of the positions of the ones of the first
    column of a circulant matrix of size L. The product of such a block `x`
    with a dense vector `y` is the cyclic convolution
      (x * y)[j] = sum over k of y[(j - x[k]) mod L],
    which the source evaluates without any modulo, as two straight segments
    per offset. */
module Cyclic {
  import opened Bits

  ghost predicate StrictlyIncreasing(s: seq<int>)
  {
    forall i, j :: 0 <= i < j < |s| ==> s[i] < s[j]
  }

  ghost predicate NonDecreasing(s: seq<int>)
  {
    forall i, j :: 0 <= i < j < |s| ==> s[i] <= s[j]
  }

  lemma StrictIsNonDecreasing(s: seq<int>)
    requires StrictlyIncreasing(s)
    ensures NonDecreasing(s)
  {
  }

  ghost predicate InRange(s: seq<int>, lo: int, hi: int)
  {
    forall i :: 0 <= i < |s| ==> lo <= s[i] < hi
  }

  /** A well-formed sparse block: `w` strictly increasing positions in [0, L). */
  ghost predicate IsBlock(s: seq<int>, w: nat, L: nat)
  {
    |s| == w && StrictlyIncreasing(s) && InRange(s, 0, L)
  }

  /** Number of entries of `s` strictly below `v`. */
  function CountBelow(s: seq<int>, v: int): nat
  {
    if |s| == 0 then 0
    else CountBelow(s[..|s| - 1], v) + (if s[|s| - 1] < v then 1 else 0)
  }

  lemma {:induction false} CountBelowSplit(s: seq<int>, pos: nat, v: int)
    requires pos <= |s|
    requires forall k :: 0 <= k < pos ==> s[k] < v
    requires forall k :: pos <= k < |s| ==> v <= s[k]
    ensures CountBelow(s, v) == pos
  {
    if |s| > 0 {
      if pos == |s| {
        CountBelowSplit(s[..|s| - 1], pos - 1, v);
      } else {
        CountBelowSplit(s[..|s| - 1], pos, v);
      }
    }
  }

  // ---------------------------------------------------------------------------
  // insert_sorted_noinc / insert_sorted
  // ---------------------------------------------------------------------------

  /** The shifting tail shared by both insertions: moves a[i..maxI) one slot
      right and writes `value` at slot i. */
  method ShiftIn(a: seq<int>, i: nat, maxI: nat, value: int) returns (r: seq<int>)
    requires i <= maxI < |a|
    ensures |r| == |a|
    ensures r[..maxI + 1] == a[..i] + [value] + a[i..maxI]
    ensures r[maxI + 1..] == a[maxI + 1..]
  {
    r := a;
    var j := maxI;
    while j > i
      invariant i <= j <= maxI
      invariant |r| == |a|
      invariant forall p :: 0 <= p <= j || maxI < p < |a| ==> r[p] == a[p]
      invariant forall p :: j < p <= maxI ==> r[p] == a[p - 1]
    {
      r := r[j := r[j - 1]];
      j := j - 1;
    }
    assert j == i;
    ghost var shifted := r;
    r := r[i := value];
    var expected := a[..i] + [value] + a[i..maxI];
    assert |r[..maxI + 1]| == |expected|;
    forall p | 0 <= p <= maxI
      ensures r[..maxI + 1][p] == expected[p]
    {
      if p < i {
        assert expected[p] == a[p];
        assert r[p] == shifted[p] == a[p];
      } else if p > i {
        assert expected[p] == a[i..maxI][p - i - 1];
        assert r[p] == shifted[p] == a[p - 1];
      }
    }
  }

  /** insert_sorted_noinc: inserts `value` after every leading entry of the
      prefix a[..maxI] that is <= value. The buffer past maxI + 1 is untouched.
      On a non-decreasing prefix this is a sorted insertion. */
  method InsertSortedNoinc(a: seq<int>, value: int, maxI: nat) returns (r: seq<int>, ghost pos: nat)
    requires maxI < |a|
    ensures |r| == |a|
    ensures pos <= maxI
    ensures r[..maxI + 1] == a[..pos] + [value] + a[pos..maxI]
    ensures r[maxI + 1..] == a[maxI + 1..]
    ensures forall k :: 0 <= k < pos ==> a[k] <= value
    ensures pos < maxI ==> value < a[pos]
    ensures NonDecreasing(a[..maxI]) ==> NonDecreasing(r[..maxI + 1])
    ensures multiset(r[..maxI + 1]) == multiset(a[..maxI]) + multiset{value}
  {
    var i := 0;
    while i < maxI && a[i] <= value
      invariant 0 <= i <= maxI
      invariant forall k :: 0 <= k < i ==> a[k] <= value
    {
      i := i + 1;
    }
    r := ShiftIn(a, i, maxI, value);
    pos := i;
    assert a[..maxI] == a[..pos] + a[pos..maxI];
    assert multiset(r[..maxI + 1]) == multiset(a[..pos]) + multiset{value} + multiset(a[pos..maxI]);
    if NonDecreasing(a[..maxI]) {
      InsertKeepsOrder(a[..maxI], pos, value);
      assert a[..maxI][..pos] == a[..pos] && a[..maxI][pos..] == a[pos..maxI];
    }
  }

  lemma InsertKeepsOrder(s: seq<int>, pos: nat, value: int)
    requires pos <= |s| && NonDecreasing(s)
    requires forall k :: 0 <= k < pos ==> s[k] <= value
    requires pos < |s| ==> value <= s[pos]
    ensures NonDecreasing(s[..pos] + [value] + s[pos..])
  {
    var out := s[..pos] + [value] + s[pos..];
    forall p, q | 0 <= p < q < |out|
      ensures out[p] <= out[q]
    {
      if q < pos {
      } else if p > pos {
        assert out[p] == s[p - 1] && out[q] == s[q - 1];
      } else if p < pos && q > pos {
        assert out[q] == s[q - 1];
        assert s[p] <= value;
      } else if p == pos && q > pos {
        assert out[q] == s[q - 1];
        if pos < |s| {
          assert s[pos] <= s[q - 1];
        }
      }
    }
  }

  /** insert_sorted: walking the strictly increasing prefix, `value` is
      bumped by one for every entry it passes, so the inserted element `v` is the
      value-th (0-based) natural number that is NOT in the prefix: exactly `pos`
      prefix entries lie below it and none equals it. */
  method InsertSorted(a: seq<int>, value: nat, maxI: nat) returns (r: seq<int>, v: int, ghost pos: nat)
    requires maxI < |a|
    requires StrictlyIncreasing(a[..maxI])
    ensures |r| == |a|
    ensures pos <= maxI && v == value + pos
    ensures r[..maxI + 1] == a[..pos] + [v] + a[pos..maxI]
    ensures r[maxI + 1..] == a[maxI + 1..]
    ensures forall k :: 0 <= k < pos ==> a[k] < v
    ensures forall k :: pos <= k < maxI ==> v < a[k]
    ensures v !in a[..maxI]
    ensures v - CountBelow(a[..maxI], v) == value
    ensures StrictlyIncreasing(r[..maxI + 1])
  {
    var i := 0;
    var cur := value;
    while i < maxI && a[i] <= cur
      invariant 0 <= i <= maxI
      invariant cur == value + i
      invariant forall k :: 0 <= k < i ==> a[k] < cur
    {
      i := i + 1;
      cur := cur + 1;
    }
    var s := a[..maxI];
    assert forall k :: 0 <= k < i ==> s[k] < cur;
    InsertKeepsStrict(s, i, cur);
    assert s[..i] == a[..i] && s[i..] == a[i..maxI];
    r := ShiftIn(a, i, maxI, cur);
    v := cur;
    pos := i;
    CountBelowSplit(s, pos, v);
  }

  /** Inserting v at pos, above the entries before pos and below the one at
      pos, keeps a strictly increasing sequence strictly increasing. */
  lemma InsertKeepsStrict(s: seq<int>, pos: nat, v: int)
    requires pos <= |s| && StrictlyIncreasing(s)
    requires forall k :: 0 <= k < pos ==> s[k] < v
    requires pos < |s| ==> v < s[pos]
    ensures forall k :: pos <= k < |s| ==> v < s[k]
    ensures StrictlyIncreasing(s[..pos] + [v] + s[pos..])
  {
    var out := s[..pos] + [v] + s[pos..];
    forall p, q | 0 <= p < q < |out|
      ensures out[p] < out[q]
    {
      if q < pos {
      } else if p > pos {
        assert out[p] == s[p - 1] && out[q] == s[q - 1];
      } else if p < pos && q > pos {
        assert out[q] == s[q - 1];
        if q - 1 > pos {
          assert s[pos] < s[q - 1];
        }
      } else if p == pos && q > pos {
        assert out[q] == s[q - 1];
        if q - 1 > pos {
          assert s[pos] < s[q - 1];
        }
      }
    }
  }

  // ---------------------------------------------------------------------------
  // sparse_rand
  // ---------------------------------------------------------------------------

  /** sparse_rand: draw i is `random_lim(--length)`, inclusive, so it lies in
      [0, length - 1 - i]; each draw is inserted with InsertSorted into the
      first i slots. The result is a well-formed block of the given weight. */
  method SparseRand(weight: nat, length: nat, draws: seq<nat>) returns (r: seq<int>)
    requires weight <= length
    requires |draws| == weight
    requires forall i :: 0 <= i < weight ==> draws[i] <= length - 1 - i
    ensures IsBlock(r, weight, length)
  {
    r := seq(weight, _ => 0);
    var i := 0;
    while i < weight
      invariant 0 <= i <= weight
      invariant |r| == weight
      invariant StrictlyIncreasing(r[..i])
      invariant InRange(r[..i], 0, length)
    {
      ghost var before := r;
      var v;
      ghost var pos;
      r, v, pos := InsertSorted(r, draws[i], i);
      assert r[..i + 1] == before[..pos] + [v] + before[pos..i];
      assert v <= length - 1;
      assert InRange(r[..i + 1], 0, length) by {
        var out := r[..i + 1];
        forall p | 0 <= p < i + 1
          ensures 0 <= out[p] < length
        {
          if p < pos {
            assert out[p] == before[..i][p];
          } else if p > pos {
            assert out[p] == before[..i][p - 1];
          }
        }
      }
      i := i + 1;
    }
    assert r[..weight] == r;
  }

  // ---------------------------------------------------------------------------
  // transpose
  // ---------------------------------------------------------------------------

  /** transpose, entry by entry: with l = 1 when src[0] == 0 (that 0 stays in
      front), dst[k] = length - src[weight + l - 1 - k]. */
  function TransposeRaw(src: seq<int>, L: nat): (dst: seq<int>)
    requires |src| >= 1
    ensures |dst| == |src|
  {
    var w := |src|;
    var l := if src[0] == 0 then 1 else 0;
    seq(w, k requires 0 <= k < w => if k == 0 && l == 1 then 0 else L - src[w + l - 1 - k])
  }

  lemma TransposeRawSorted(src: seq<int>, L: nat)
    requires |src| >= 1
    requires StrictlyIncreasing(src) && InRange(src, 0, L)
    ensures StrictlyIncreasing(TransposeRaw(src, L)) && InRange(TransposeRaw(src, L), 0, L)
  {
    var dst := TransposeRaw(src, L);
    var w := |src|;
    var l := if src[0] == 0 then 1 else 0;
    forall i, j | 0 <= i < j < w
      ensures dst[i] < dst[j]
    {
      if i == 0 && l == 1 {
        assert src[0] < src[w - j];
      } else {
        assert src[w + l - 1 - j] < src[w + l - 1 - i];
      }
    }
    forall k | 0 <= k < w
      ensures 0 <= dst[k] < L
    {
      if !(k == 0 && l == 1) {
        var i := w + l - 1 - k;
        assert 0 < src[i] by {
          if l == 0 { assert src[0] <= src[i]; } else { assert src[0] < src[i]; }
        }
      }
    }
  }

  lemma TransposeRawMembers(src: seq<int>, L: nat)
    requires |src| >= 1
    requires StrictlyIncreasing(src) && InRange(src, 0, L)
    ensures forall x :: 0 <= x < L ==> (x in TransposeRaw(src, L) <==> (L - x) % L in src)
  {
    var dst := TransposeRaw(src, L);
    forall x | 0 <= x < L
      ensures x in dst <==> (L - x) % L in src
    {
      NegMod(x, L);
      if x in dst {
        var k :| 0 <= k < |src| && dst[k] == x;
        TransposedFrom(src, L, k);
      }
      if (L - x) % L in src {
        var i :| 0 <= i < |src| && src[i] == (L - x) % L;
        TransposedTo(src, L, i);
      }
    }
  }

  /** Entry k of the transpose is the negation of an entry of the source. */
  lemma TransposedFrom(src: seq<int>, L: nat, k: nat)
    requires 0 < L && |src| >= 1 && k < |src|
    requires StrictlyIncreasing(src) && InRange(src, 0, L)
    ensures 0 <= TransposeRaw(src, L)[k] < L
    ensures (L - TransposeRaw(src, L)[k]) % L in src
  {
    var w := |src|;
    var l := if src[0] == 0 then 1 else 0;
    var x := TransposeRaw(src, L)[k];
    if k == 0 && l == 1 {
      assert x == 0;
      DivUnique(L, 1, 0, L);
      assert (L - x) % L == src[0];
    } else {
      var i := w + l - 1 - k;
      assert 0 < src[i] by {
        if l == 0 { assert src[0] <= src[i]; } else { assert src[0] < src[i]; }
      }
      assert x == L - src[i];
      NegMod(x, L);
      assert (L - x) % L == src[i];
    }
  }

  /** The negation of entry i of the source is an entry of the transpose. */
  lemma TransposedTo(src: seq<int>, L: nat, i: nat)
    requires 0 < L && |src| >= 1 && i < |src|
    requires StrictlyIncreasing(src) && InRange(src, 0, L)
    ensures (L - src[i]) % L in TransposeRaw(src, L)
  {
    var w := |src|;
    var l := if src[0] == 0 then 1 else 0;
    var dst := TransposeRaw(src, L);
    NegMod(src[i], L);
    if i == 0 && l == 1 {
      assert dst[0] == 0 == (L - src[i]) % L;
    } else {
      assert 0 < src[i] by {
        if l == 0 { assert src[0] <= src[i]; } else { assert src[0] < src[i]; }
      }
      assert dst[w + l - 1 - i] == L - src[i];
    }
  }

  /** transpose: the first column of the transposed circulant. Position s
      becomes (L - s) mod L; reading `src` backwards keeps the result sorted, with
      a leading 0 kept in front. */
  function Transpose(src: seq<int>, L: nat): (dst: seq<int>)
    requires |src| >= 1
    requires StrictlyIncreasing(src) && InRange(src, 0, L)
    ensures |dst| == |src|
    ensures StrictlyIncreasing(dst) && InRange(dst, 0, L)
    ensures forall x :: 0 <= x < L ==> (x in dst <==> (L - x) % L in src)
  {
    TransposeRawSorted(src, L);
    TransposeRawMembers(src, L);
    TransposeRaw(src, L)
  }

  /** Cyclic negation is an involution on [0, L). */
  lemma NegMod(x: int, L: nat)
    requires 0 <= x < L
    ensures (L - x) % L == (if x == 0 then 0 else L - x)
    ensures 0 <= (L - x) % L < L
    ensures (L - (L - x) % L) % L == x
  {
    DivUnique(L, 1, 0, L);
    if x > 0 {
      ModOfSmall(L - x, L);
      ModOfSmall(x, L);
    }
  }

  /** Two strictly increasing sequences with the same elements are equal. */
  lemma {:induction false} SortedSameElements(a: seq<int>, b: seq<int>)
    requires StrictlyIncreasing(a) && StrictlyIncreasing(b)
    requires forall x :: x in a <==> x in b
    ensures a == b
  {
    if |a| > 0 { assert a[0] in a; }
    if |b| > 0 { assert b[0] in b; }
    if |a| > 0 && |b| > 0 {
      assert a[0] == b[0] by {
        assert a[0] in a && b[0] in b;
        var i :| 0 <= i < |b| && b[i] == a[0];
        var j :| 0 <= j < |a| && a[j] == b[0];
        assert b[0] <= b[i] && a[0] <= a[j];
      }
      forall x
        ensures x in a[1..] <==> x in b[1..]
      {
        if x in a[1..] {
          var i :| 1 <= i < |a| && a[i] == x;
          assert x in b && x != b[0];
        }
        if x in b[1..] {
          var i :| 1 <= i < |b| && b[i] == x;
          assert x in a && x != a[0];
        }
      }
      SortedSameElements(a[1..], b[1..]);
      assert a == [a[0]] + a[1..] && b == [b[0]] + b[1..];
    }
  }

  /** Transposing twice gives the block back. */
  lemma TransposeInvolution(src: seq<int>, L: nat)
    requires |src| >= 1
    requires StrictlyIncreasing(src) && InRange(src, 0, L)
    ensures Transpose(Transpose(src, L), L) == src
  {
    var mid := Transpose(src, L);
    var t := Transpose(mid, L);
    forall i | 0 <= i < |t|
      ensures t[i] in src
    {
      var x := t[i];
      NegMod(x, L);
      assert (L - x) % L in mid;
    }
    forall i | 0 <= i < |src|
      ensures src[i] in t
    {
      var x := src[i];
      NegMod(x, L);
      assert (L - (L - x) % L) % L in src;
      assert (L - x) % L in mid;
    }
    SortedSameElements(t, src);
  }

  // ---------------------------------------------------------------------------
  // Cyclic products: reference definition
  // ---------------------------------------------------------------------------

  /** Sum over the offsets x[k] of y[(j - x[k]) mod L]: the integer cyclic
      product of the sparse block x with y, at position j. Only y[0..L) is read. */
  function Hits(x: seq<int>, y: seq<int>, L: nat, j: int): int
    requires 0 < L <= |y|
  {
    if |x| == 0 then 0 else Hits(x[..|x| - 1], y, L, j) + y[(j - x[|x| - 1]) % L]
  }

  /** The GF(2) cyclic product at position j. */
  function Parity(x: seq<int>, y: seq<int>, L: nat, j: int): Bit
    requires 0 < L <= |y|
  {
    Hits(x, y, L, j) % 2
  }

  lemma {:induction false} HitsAppend(a: seq<int>, b: seq<int>, y: seq<int>, L: nat, j: int)
    requires 0 < L <= |y|
    ensures Hits(a + b, y, L, j) == Hits(a, y, L, j) + Hits(b, y, L, j)
  {
    if |b| == 0 {
      assert a + b == a;
    } else {
      assert (a + b)[..|a + b| - 1] == a + b[..|b| - 1];
      HitsAppend(a, b[..|b| - 1], y, L, j);
    }
  }

  lemma {:induction false} HitsBounds(x: seq<int>, y: seq<int>, L: nat, j: int)
    requires 0 < L <= |y|
    requires forall i :: 0 <= i < L ==> 0 <= y[i] <= 1
    ensures 0 <= Hits(x, y, L, j) <= |x|
  {
    if |x| > 0 {
      HitsBounds(x[..|x| - 1], y, L, j);
    }
  }

  /** Only y[0..L) matters. */
  lemma {:induction false} HitsPrefix(x: seq<int>, y: seq<int>, y': seq<int>, L: nat, j: int)
    requires 0 < L <= |y| && L <= |y'|
    requires y[..L] == y'[..L]
    ensures Hits(x, y, L, j) == Hits(x, y', L, j)
  {
    if |x| > 0 {
      HitsPrefix(x[..|x| - 1], y, y', L, j);
      var i := (j - x[|x| - 1]) % L;
      assert y[i] == y[..L][i] == y'[i];
    }
  }

  /** The product is GF(2)-linear in y. */
  lemma {:induction false} HitsXor(x: seq<int>, y1: seq<Bit>, y2: seq<Bit>, L: nat, j: int)
    requires 0 < L <= |y1| && |y1| == |y2|
    ensures Hits(x, XorVec(y1, y2), L, j) % 2 == (Hits(x, y1, L, j) + Hits(x, y2, L, j)) % 2
  {
    if |x| > 0 {
      var init := x[..|x| - 1];
      var i := (j - x[|x| - 1]) % L;
      HitsXor(init, y1, y2, L, j);
      ParityStep(Hits(init, XorVec(y1, y2), L, j), Hits(init, y1, L, j) + Hits(init, y2, L, j), y1[i], y2[i]);
    }
  }

  /** Adding a XOR of two bits moves the parity as adding both bits does. */
  lemma ParityStep(a: int, c: int, u: Bit, v: Bit)
    requires a % 2 == c % 2
    ensures (a + Xor(u, v)) % 2 == (c + u + v) % 2
  {
    assert a == 2 * (a / 2) + a % 2 && c == 2 * (c / 2) + c % 2;
    if u != v {
      if a % 2 == 0 {
        DivUnique(a + 1, a / 2, 1, 2);
        DivUnique(c + 1, c / 2, 1, 2);
      } else {
        DivUnique(a + 1, a / 2 + 1, 0, 2);
        DivUnique(c + 1, c / 2 + 1, 0, 2);
      }
    } else if u == 1 {
      DivUnique(c + 2, c / 2 + 1, c % 2, 2);
    }
  }

  lemma ParityLinear(x: seq<int>, y1: seq<Bit>, y2: seq<Bit>, L: nat, j: int)
    requires 0 < L <= |y1| && |y1| == |y2|
    ensures Parity(x, XorVec(y1, y2), L, j) == Xor(Parity(x, y1, L, j), Parity(x, y2, L, j))
  {
    HitsXor(x, y1, y2, L, j);
  }

  // ---------------------------------------------------------------------------
  // The modulo-free evaluation: two segments per offset
  // ---------------------------------------------------------------------------

  /** Contribution of the no-wrap segments (z + x[k] += y for len L - x[k]) of
      the first K offsets at position j. */
  function SumLo(x: seq<int>, y: seq<int>, L: nat, j: int, K: nat): int
    requires K <= |x| && L <= |y| && 0 <= j < L && InRange(x, 0, L)
  {
    if K == 0 then 0
    else SumLo(x, y, L, j, K - 1) + (if x[K - 1] <= j then y[j - x[K - 1]] else 0)
  }

  /** Contribution of the wrap segments (z += y + L - x[k] for len x[k]). */
  function SumHi(x: seq<int>, y: seq<int>, L: nat, j: int, K: nat): int
    requires K <= |x| && L <= |y| && 0 <= j < L && InRange(x, 0, L)
  {
    if K == 0 then 0
    else SumHi(x, y, L, j, K - 1) + (if j < x[K - 1] then y[L - x[K - 1] + j] else 0)
  }

  lemma {:induction false} SegmentsAreCyclic(x: seq<int>, y: seq<int>, L: nat, j: int, K: nat)
    requires K <= |x| && 0 < L <= |y| && 0 <= j < L && InRange(x, 0, L)
    ensures SumLo(x, y, L, j, K) + SumHi(x, y, L, j, K) == Hits(x[..K], y, L, j)
  {
    if K > 0 {
      SegmentsAreCyclic(x, y, L, j, K - 1);
      assert x[..K][..K - 1] == x[..K - 1];
      if x[K - 1] <= j {
        ModOfSmall(j - x[K - 1], L);
      } else {
        ModOfNegative(j - x[K - 1], L);
      }
    }
  }

  /** One segment: z[zOff + i] := (z[zOff + i] + y[yOff + i]) mod m for i < len. */
  method AddSegment(z: seq<int>, zOff: nat, y: seq<int>, yOff: nat, len: nat, m: nat) returns (r: seq<int>)
    requires m > 0 && zOff + len <= |z| && yOff + len <= |y|
    ensures |r| == |z|
    ensures forall p :: 0 <= p < |z| ==>
      r[p] == (if zOff <= p < zOff + len then (z[p] + y[yOff + p - zOff]) % m else z[p])
  {
    r := z;
    var i := 0;
    while i < len
      invariant 0 <= i <= len && |r| == |z|
      invariant forall p :: 0 <= p < |z| ==>
        r[p] == (if zOff <= p < zOff + i then (z[p] + y[yOff + p - zOff]) % m else z[p])
    {
      r := r[zOff + i := (r[zOff + i] + y[yOff + i]) % m];
      i := i + 1;
    }
  }

  /** The shared body of multiply_xor_mod2 and multiply_add: all no-wrap
      segments first, then all wrap segments, each accumulated modulo m
      (m = 2 for xor on bits, m = 256 for uint8 addition). */
  method Accumulate(z: seq<int>, x: seq<int>, y: seq<int>, L: nat, m: nat) returns (r: seq<int>)
    requires 0 < L <= |z| && L <= |y| && m > 0
    requires InRange(x, 0, L)
    requires forall p :: 0 <= p < L ==> 0 <= z[p] < m
    ensures |r| == |z|
    ensures forall j :: 0 <= j < L ==> r[j] == (z[j] + Hits(x, y, L, j)) % m
    ensures forall j :: L <= j < |z| ==> r[j] == z[j]
  {
    var lo := AccumulateLo(z, x, y, L, m);
    r := AccumulateHi(z, lo, x, y, L, m);
    forall j | 0 <= j < L
      ensures r[j] == (z[j] + Hits(x, y, L, j)) % m
    {
      SegmentsAreCyclic(x, y, L, j, |x|);
      assert x[..|x|] == x;
    }
  }

  /** One cell of a segment addition, modulo m. */
  lemma SegmentCell(before: int, after: int, base: int, extra: int, m: int)
    requires m > 0 && before == base % m && after == (before + extra) % m
    ensures after == (base + extra) % m
  {
    ModAddLeft(base, extra, m);
  }

  /** The first loop of the product: the no-wrap segment of every offset. */
  method AccumulateLo(z: seq<int>, x: seq<int>, y: seq<int>, L: nat, m: nat) returns (r: seq<int>)
    requires 0 < L <= |z| && L <= |y| && m > 0
    requires InRange(x, 0, L)
    requires forall p :: 0 <= p < L ==> 0 <= z[p] < m
    ensures |r| == |z|
    ensures forall j :: 0 <= j < L ==> r[j] == (z[j] + SumLo(x, y, L, j, |x|)) % m
    ensures forall j :: L <= j < |z| ==> r[j] == z[j]
  {
    r := z;
    var k := 0;
    while k < |x|
      invariant 0 <= k <= |x| && |r| == |z|
      invariant forall j :: 0 <= j < L ==> r[j] == (z[j] + SumLo(x, y, L, j, k)) % m
      invariant forall j :: L <= j < |z| ==> r[j] == z[j]
    {
      ghost var prev := r;
      r := AddSegment(r, x[k], y, 0, L - x[k], m);
      forall j | 0 <= j < L
        ensures r[j] == (z[j] + SumLo(x, y, L, j, k + 1)) % m
      {
        if x[k] <= j {
          SegmentCell(prev[j], r[j], z[j] + SumLo(x, y, L, j, k), y[j - x[k]], m);
        }
      }
      k := k + 1;
    }
  }

  /** The second loop of the product: the wrap segment of every offset. */
  method AccumulateHi(z: seq<int>, lo: seq<int>, x: seq<int>, y: seq<int>, L: nat, m: nat) returns (r: seq<int>)
    requires 0 < L <= |z| && L <= |y| && m > 0 && |lo| == |z|
    requires InRange(x, 0, L)
    requires forall j :: 0 <= j < L ==> lo[j] == (z[j] + SumLo(x, y, L, j, |x|)) % m
    requires forall j :: L <= j < |z| ==> lo[j] == z[j]
    ensures |r| == |z|
    ensures forall j :: 0 <= j < L ==> r[j] == (z[j] + SumLo(x, y, L, j, |x|) + SumHi(x, y, L, j, |x|)) % m
    ensures forall j :: L <= j < |z| ==> r[j] == z[j]
  {
    r := lo;
    var k := 0;
    while k < |x|
      invariant 0 <= k <= |x| && |r| == |z|
      invariant forall j :: 0 <= j < L ==>
        r[j] == (z[j] + SumLo(x, y, L, j, |x|) + SumHi(x, y, L, j, k)) % m
      invariant forall j :: L <= j < |z| ==> r[j] == z[j]
    {
      r := HiStep(z, r, x, y, L, m, k);
      k := k + 1;
    }
  }

  /** The wrap segment of offset k, added on top of those before it. */
  method HiStep(z: seq<int>, prev: seq<int>, x: seq<int>, y: seq<int>, L: nat, m: nat, k: nat) returns (r: seq<int>)
    requires 0 < L <= |z| && L <= |y| && m > 0 && |prev| == |z| && k < |x|
    requires InRange(x, 0, L)
    requires forall j :: 0 <= j < L ==>
      prev[j] == (z[j] + SumLo(x, y, L, j, |x|) + SumHi(x, y, L, j, k)) % m
    requires forall j :: L <= j < |z| ==> prev[j] == z[j]
    ensures |r| == |z|
    ensures forall j :: 0 <= j < L ==>
      r[j] == (z[j] + SumLo(x, y, L, j, |x|) + SumHi(x, y, L, j, k + 1)) % m
    ensures forall j :: L <= j < |z| ==> r[j] == z[j]
  {
    r := AddSegment(prev, 0, y, L - x[k], x[k], m);
    forall j | 0 <= j < L
      ensures r[j] == (z[j] + SumLo(x, y, L, j, |x|) + SumHi(x, y, L, j, k + 1)) % m
    {
      var base := z[j] + SumLo(x, y, L, j, |x|) + SumHi(x, y, L, j, k);
      if j < x[k] {
        SegmentCell(prev[j], r[j], base, y[L - x[k] + j], m);
      }
    }
  }

  /** multiply_xor_mod2: z[j] ^= parity of #{k : y[(j - x[k]) mod L] = 1}
      for j < L; z[L..] is untouched and only y[0..L) is read. */
  method MultiplyXorMod2(z: seq<Bit>, x: seq<int>, y: seq<Bit>, L: nat) returns (r: seq<Bit>)
    requires 0 < L <= |z| && L <= |y|
    requires InRange(x, 0, L)
    ensures |r| == |z|
    ensures forall j :: 0 <= j < L ==> r[j] == Xor(z[j], Parity(x, y, L, j))
    ensures forall j :: L <= j < |z| ==> r[j] == z[j]
  {
    var acc := Accumulate(z, x, y, L, 2);
    forall j | 0 <= j < L
      ensures acc[j] == Xor(z[j], Parity(x, y, L, j))
    {
      ModAddLeft(Hits(x, y, L, j), z[j], 2);
    }
    r := acc;
  }

  /** multiply_add on uint8 cells: z[j] += sum of y[(j - x[k]) mod L], wrapping
      at 256. With a 0/1 vector y and z[j] + |x| <= 255 nothing wraps. */
  method MultiplyAdd(z: seq<int>, x: seq<int>, y: seq<int>, L: nat) returns (r: seq<int>)
    requires 0 < L <= |z| && L <= |y|
    requires InRange(x, 0, L)
    requires forall p :: 0 <= p < L ==> 0 <= z[p] < 256
    ensures |r| == |z|
    ensures forall j :: 0 <= j < L ==> r[j] == (z[j] + Hits(x, y, L, j)) % 256
    ensures forall j :: L <= j < |z| ==> r[j] == z[j]
    ensures (forall i :: 0 <= i < L ==> 0 <= y[i] <= 1) && (forall j :: 0 <= j < L ==> z[j] + |x| <= 255) ==>
      forall j :: 0 <= j < L ==> r[j] == z[j] + Hits(x, y, L, j)
  {
    r := Accumulate(z, x, y, L, 256);
    if (forall i :: 0 <= i < L ==> 0 <= y[i] <= 1) && (forall j :: 0 <= j < L ==> z[j] + |x| <= 255) {
      forall j | 0 <= j < L
        ensures r[j] == z[j] + Hits(x, y, L, j)
      {
        HitsBounds(x, y, L, j);
      }
    }
  }

  // ---------------------------------------------------------------------------
  // Reading a circulant along a column
  // ---------------------------------------------------------------------------

  /** Sum over the column offsets c[l] of y[(j + c[l]) mod L]: the number of
      unsatisfied checks of bit j when y is a syndrome and c the column block. */
  function ColumnHits(c: seq<int>, y: seq<int>, L: nat, j: int): int
    requires 0 < L <= |y|
  {
    if |c| == 0 then 0 else ColumnHits(c[..|c| - 1], y, L, j) + y[(j + c[|c| - 1]) % L]
  }

  function Reverse(s: seq<int>): (r: seq<int>)
    ensures |r| == |s| && forall k :: 0 <= k < |s| ==> r[k] == s[|s| - 1 - k]
  {
    seq(|s|, k requires 0 <= k < |s| => s[|s| - 1 - k])
  }

  function NegAll(c: seq<int>, L: nat): (r: seq<int>)
    ensures |r| == |c| && forall k :: 0 <= k < |c| ==> r[k] == L - c[k]
  {
    seq(|c|, k requires 0 <= k < |c| => L - c[k])
  }

  lemma {:induction false} HitsReverse(x: seq<int>, y: seq<int>, L: nat, j: int)
    requires 0 < L <= |y|
    ensures Hits(Reverse(x), y, L, j) == Hits(x, y, L, j)
  {
    if |x| > 0 {
      var init := x[..|x| - 1];
      HitsReverse(init, y, L, j);
      assert Reverse(x) == [x[|x| - 1]] + Reverse(init);
      HitsAppend([x[|x| - 1]], Reverse(init), y, L, j);
      assert [x[|x| - 1]][..0] == [];
    }
  }

  lemma {:induction false} HitsNegAll(c: seq<int>, y: seq<int>, L: nat, j: int)
    requires 0 < L <= |y|
    ensures Hits(NegAll(c, L), y, L, j) == ColumnHits(c, y, L, j)
  {
    if |c| > 0 {
      var init := c[..|c| - 1];
      HitsNegAll(init, y, L, j);
      assert NegAll(c, L)[..|c| - 1] == NegAll(init, L);
      var v := j + c[|c| - 1];
      assert j - (L - c[|c| - 1]) == (v - L);
      assert (v - L) % L == v % L by {
        DivUnique(v, (v - L) / L + 1, (v - L) % L, L);
      }
    }
  }

  /** The row form of the transposed block, read at j, is the column form of
      the block: sum of y[(j - t) mod L] over t in Transpose(c) equals the sum of
      y[(j + c[l]) mod L]. This is why counters computed from the rows agree
      with the column-walking counter of the decoder. */
  lemma TransposeRawShape(c: seq<int>, L: nat)
    requires |c| >= 1
    ensures c[0] == 0 ==> TransposeRaw(c, L) == [0] + Reverse(NegAll(c[1..], L))
    ensures c[0] != 0 ==> TransposeRaw(c, L) == Reverse(NegAll(c, L))
  {
    var t := TransposeRaw(c, L);
    if c[0] == 0 {
      var u := [0] + Reverse(NegAll(c[1..], L));
      assert |u| == |t|;
      forall k | 0 <= k < |t| ensures t[k] == u[k] {
        if k > 0 {
          assert u[k] == Reverse(NegAll(c[1..], L))[k - 1];
        }
      }
    } else {
      var u := Reverse(NegAll(c, L));
      forall k | 0 <= k < |t| ensures t[k] == u[k] {
      }
    }
  }

  /** The row form of the transposed block, read at j, is the column form of
      the block: sum of y[(j - t) mod L] over t in Transpose(c) equals the sum of
      y[(j + c[l]) mod L]. This is why counters computed from the rows agree
      with the column-walking counter of the decoder. */
  lemma TransposeHits(c: seq<int>, y: seq<int>, L: nat, j: int)
    requires |c| >= 1 && 0 < L <= |y|
    requires StrictlyIncreasing(c) && InRange(c, 0, L)
    ensures Hits(Transpose(c, L), y, L, j) == ColumnHits(c, y, L, j)
  {
    assert Transpose(c, L) == TransposeRaw(c, L);
    TransposeRawShape(c, L);
    if c[0] == 0 {
      LeadingZeroHits(c, y, L, j);
    } else {
      HitsReverse(NegAll(c, L), y, L, j);
      HitsNegAll(c, y, L, j);
    }
  }

  lemma LeadingZeroHits(c: seq<int>, y: seq<int>, L: nat, j: int)
    requires |c| >= 1 && 0 < L <= |y| && c[0] == 0
    ensures Hits([0] + Reverse(NegAll(c[1..], L)), y, L, j) == ColumnHits(c, y, L, j)
  {
    var tail := c[1..];
    var rt := Reverse(NegAll(tail, L));
    HitsAppend([0], rt, y, L, j);
    HitsReverse(NegAll(tail, L), y, L, j);
    HitsNegAll(tail, y, L, j);
    ColumnHitsAppend([c[0]], tail, y, L, j);
    assert [c[0]] + tail == c;
    assert Hits([0], y, L, j) == y[j % L] by {
      assert [0][..0] == [];
    }
    assert ColumnHits([c[0]], y, L, j) == y[j % L] by {
      assert [c[0]][..0] == [];
    }
  }

  lemma {:induction false} ColumnHitsAppend(a: seq<int>, b: seq<int>, y: seq<int>, L: nat, j: int)
    requires 0 < L <= |y|
    ensures ColumnHits(a + b, y, L, j) == ColumnHits(a, y, L, j) + ColumnHits(b, y, L, j)
  {
    if |b| == 0 {
      assert a + b == a;
    } else {
      assert (a + b)[..|a + b| - 1] == a + b[..|b| - 1];
      ColumnHitsAppend(a, b[..|b| - 1], y, L, j);
    }
  }

  // ---------------------------------------------------------------------------
  // Counting and toggling
  // ---------------------------------------------------------------------------

  /** Number of occurrences of v in s. */
  function Count(s: seq<int>, v: int): nat
  {
    if |s| == 0 then 0 else Count(s[..|s| - 1], v) + (if s[|s| - 1] == v then 1 else 0)
  }

  lemma {:induction false} CountAbsent(s: seq<int>, v: int)
    requires v !in s
    ensures Count(s, v) == 0
  {
    if |s| > 0 {
      CountAbsent(s[..|s| - 1], v);
    }
  }

  lemma {:induction false} CountAppend(a: seq<int>, b: seq<int>, v: int)
    ensures Count(a + b, v) == Count(a, v) + Count(b, v)
  {
    if |b| == 0 {
      assert a + b == a;
    } else {
      assert (a + b)[..|a + b| - 1] == a + b[..|b| - 1];
      CountAppend(a, b[..|b| - 1], v);
    }
  }

  /** In a strictly increasing list every value occurs at most once. */
  lemma {:induction false} CountDistinct(s: seq<int>, v: int)
    requires StrictlyIncreasing(s)
    ensures Count(s, v) == if v in s then 1 else 0
  {
    if |s| > 0 {
      var init := s[..|s| - 1];
      CountDistinct(init, v);
      if s[|s| - 1] == v {
        assert v !in init;
      }
      assert s == init + [s[|s| - 1]];
    }
  }

  /** The dense 0/1 vector of length n whose ones are the members of s. */
  function Indicator(s: seq<int>, n: nat): (r: seq<Bit>)
    ensures |r| == n && forall i :: 0 <= i < n ==> (r[i] == 1 <==> i in s)
  {
    seq(n, i requires 0 <= i < n => if i in s then 1 else 0)
  }

  /** A list of distinct positions has as many ones in its dense form as entries. */
  lemma {:induction false} IndicatorPopcount(s: seq<int>, n: nat)
    requires StrictlyIncreasing(s) && InRange(s, 0, n)
    ensures Popcount(Indicator(s, n)) == |s|
  {
    if |s| == 0 {
      assert Indicator(s, n) == Zeros(n);
      PopcountZeros(n);
    } else {
      var init := s[..|s| - 1];
      var v := s[|s| - 1];
      IndicatorPopcount(init, n);
      assert v !in init;
      assert s == init + [v];
      assert Indicator(s, n) == Indicator(init, n)[v := 1];
      PopcountToggle(Indicator(init, n), v);
    }
  }

  /** Number of offsets x[k] with (p - x[k]) mod L == j: how many times the
      product at p reads y[j]. */
  function Occurrences(x: seq<int>, L: nat, p: int, j: int): nat
    requires L > 0
  {
    if |x| == 0 then 0
    else Occurrences(x[..|x| - 1], L, p, j) + (if (p - x[|x| - 1]) % L == j then 1 else 0)
  }

  /** Number of column offsets c[l] with (j + c[l]) mod L == p: how many times
      the column of bit j passes through check p. */
  function Touches(c: seq<int>, L: nat, j: int, p: int): nat
    requires L > 0
  {
    if |c| == 0 then 0
    else Touches(c[..|c| - 1], L, j, p) + (if (j + c[|c| - 1]) % L == p then 1 else 0)
  }

  /** Toggling y[j] moves the product at p by one for each time it is read. */
  lemma {:induction false} HitsToggle(x: seq<int>, y: seq<Bit>, L: nat, p: int, j: nat)
    requires 0 < L <= |y| && j < L
    ensures Hits(x, y[j := 1 - y[j]], L, p) == Hits(x, y, L, p) + (1 - 2 * (y[j] as int)) * Occurrences(x, L, p, j)
  {
    if |x| > 0 {
      HitsToggle(x[..|x| - 1], y, L, p, j);
    }
  }

  lemma ModSwap(p: int, j: int, c: int, L: nat)
    requires 0 <= p < L && 0 <= j < L && 0 <= c < L
    ensures (p - c) % L == j <==> (j + c) % L == p
  {
    if p >= c {
      ModOfSmall(p - c, L);
    } else {
      ModOfNegative(p - c, L);
    }
    if j + c < L {
      ModOfSmall(j + c, L);
    } else {
      DivUnique(j + c, 1, j + c - L, L);
    }
  }

  /** Row view and column view count the same incidences. */
  lemma {:induction false} OccurrencesAreTouches(c: seq<int>, L: nat, p: int, j: int)
    requires 0 <= p < L && 0 <= j < L && InRange(c, 0, L)
    ensures Occurrences(c, L, p, j) == Touches(c, L, j, p)
  {
    if |c| > 0 {
      OccurrencesAreTouches(c[..|c| - 1], L, p, j);
      ModSwap(p, j, c[|c| - 1], L);
    }
  }

  /** The positions the column of bit j passes through. */
  ghost predicate Touched(c: seq<int>, L: nat, j: int, p: int)
    requires L > 0
  {
    exists l :: 0 <= l < |c| && (j + c[l]) % L == p
  }

  /** With distinct offsets in [0, L) the column meets each check at most once. */
  lemma {:induction false} TouchesDistinct(c: seq<int>, L: nat, j: int, p: int)
    requires L > 0 && StrictlyIncreasing(c) && InRange(c, 0, L)
    ensures Touches(c, L, j, p) == if Touched(c, L, j, p) then 1 else 0
  {
    if |c| > 0 {
      var init := c[..|c| - 1];
      var last := c[|c| - 1];
      TouchesDistinct(init, L, j, p);
      if (j + last) % L == p && Touched(init, L, j, p) {
        var l :| 0 <= l < |init| && (j + init[l]) % L == p;
        CyclicInjective(j, init[l], last, L);
        assert false;
      }
      if Touched(c, L, j, p) && !Touched(init, L, j, p) {
        var l :| 0 <= l < |c| && (j + c[l]) % L == p;
        assert l == |c| - 1;
      }
    }
  }

  lemma CyclicInjective(j: int, a: int, b: int, L: nat)
    requires 0 <= a < b < L
    ensures (j + a) % L != (j + b) % L
  {
    var qa := (j + a) / L;
    var qb := (j + b) / L;
    assert j + a == qa * L + (j + a) % L;
    assert j + b == qb * L + (j + b) % L;
    if (j + a) % L == (j + b) % L {
      assert (qb - qa) * L == b - a;
      MulBound(qb - qa, L);
    }
  }

  // ---------------------------------------------------------------------------
  // Cyclic products commute
  // ---------------------------------------------------------------------------

  /** Sum over k of (b * m)[j - a[k]]: the double convolution
      sum over k, l of m[(j - a[k] - b[l]) mod L]. */
  function Conv(a: seq<int>, b: seq<int>, m: seq<int>, L: nat, j: int): int
    requires 0 < L <= |m|
  {
    if |a| == 0 then 0 else Conv(a[..|a| - 1], b, m, L, j) + Hits(b, m, L, j - a[|a| - 1])
  }

  lemma {:induction false} ConvEmpty(b: seq<int>, m: seq<int>, L: nat, j: int)
    requires 0 < L <= |m|
    ensures Conv(b, [], m, L, j) == 0
  {
    if |b| > 0 {
      ConvEmpty(b[..|b| - 1], m, L, j);
    }
  }

  lemma {:induction false} ConvSplitInner(a: seq<int>, b: seq<int>, v: int, m: seq<int>, L: nat, j: int)
    requires 0 < L <= |m|
    ensures Conv(a, b + [v], m, L, j) == Conv(a, b, m, L, j) + Hits(a, m, L, j - v)
  {
    if |a| > 0 {
      var init := a[..|a| - 1];
      var al := a[|a| - 1];
      ConvSplitInner(init, b, v, m, L, j);
      assert (b + [v])[..|b|] == b;
      assert Hits(b + [v], m, L, j - al) == Hits(b, m, L, j - al) + m[(j - al - v) % L];
      assert j - al - v == j - v - al;
    }
  }

  /** Cyclic products commute: exchanging the two sums. */
  lemma {:induction false} ConvCommutes(a: seq<int>, b: seq<int>, m: seq<int>, L: nat, j: int)
    requires 0 < L <= |m|
    ensures Conv(a, b, m, L, j) == Conv(b, a, m, L, j)
  {
    if |a| == 0 {
      ConvEmpty(b, m, L, j);
    } else {
      var init := a[..|a| - 1];
      ConvCommutes(init, b, m, L, j);
      ConvSplitInner(b, init, a[|a| - 1], m, L, j);
      assert init + [a[|a| - 1]] == a;
    }
  }

  /** The product only depends on its position modulo L. */
  lemma {:induction false} HitsShiftMod(x: seq<int>, y: seq<int>, L: nat, v: int)
    requires 0 < L <= |y|
    ensures Hits(x, y, L, v % L) == Hits(x, y, L, v)
  {
    if |x| > 0 {
      HitsShiftMod(x[..|x| - 1], y, L, v);
      ModAddLeft(v, -x[|x| - 1], L);
    }
  }

  /** Multiplying by a and then reducing mod 2 a vector that is itself the
      GF(2) product b * m gives the double convolution mod 2. */
  lemma {:induction false} ParityOfProduct(a: seq<int>, b: seq<int>, m: seq<int>, y: seq<int>, L: nat, j: int)
    requires 0 < L <= |m| && L <= |y|
    requires forall i {:trigger Parity(b, m, L, i)} :: 0 <= i < L ==> y[i] == Parity(b, m, L, i)
    ensures Hits(a, y, L, j) % 2 == Conv(a, b, m, L, j) % 2
  {
    if |a| > 0 {
      var init := a[..|a| - 1];
      var v := j - a[|a| - 1];
      ParityOfProduct(init, b, m, y, L, j);
      var h := Hits(b, m, L, v);
      HitsShiftMod(b, m, L, v);
      assert y[v % L] == Parity(b, m, L, v % L);
      assert y[(j - a[|a| - 1]) % L] == h % 2;
      assert Hits(a, y, L, j) == Hits(init, y, L, j) + h % 2;
      assert Conv(a, b, m, L, j) == Conv(init, b, m, L, j) + h;
      Mod2Add(Hits(init, y, L, j), Conv(init, b, m, L, j), h);
    }
  }

  lemma Mod2Add(x: int, z: int, y: int)
    requires x % 2 == z % 2
    ensures (x + y % 2) % 2 == (z + y) % 2
  {
    ModAddLeft(y, x, 2);
    ModAddLeft(x, y, 2);
    ModAddLeft(z, y, 2);
  }
}
