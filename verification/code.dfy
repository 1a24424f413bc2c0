/** The quasi-cyclic code of src/code.c: a parity-check matrix H = [H0 | H1]
    made of two circulant blocks of size L and column weight w. Each block is
    kept twice, as the sorted positions of the ones of its first column
    (`columns`) and of its first row (`rows`).

    Error vectors, messages and syndromes are dense 0/1 buffers of length 2L
    ("doubled buffers"); the decoder reads only their first half, the second
    half is a copy kept for the vectorised kernels. */
module QcCode {
  import opened Bits
  import opened Cyclic

  /** A code whose rows are the transposes of its columns has valid rows. */
  lemma WellFormedRows(H: Code, w: nat, L: nat)
    requires WellFormed(H, w, L)
    ensures RowsValid(H, w, L)
  {
  }

  /** A doubled buffer: length 2L, second half equal to the first. */
  ghost predicate Mirrored(v: seq<Bit>, L: nat)
  {
    |v| == 2 * L && v[L..] == v[..L]
  }

  // ---------------------------------------------------------------------------
  // transpose_columns / transpose_rows
  // ---------------------------------------------------------------------------

  function TransposeColumns(H: Code, w: nat, L: nat): (T: Code)
    requires ValidParams(w, L) && ColumnsValid(H, w, L)
    ensures T.columns == H.columns && RowsValid(T, w, L)
    ensures forall i, x :: 0 <= i < 2 && 0 <= x < L ==> (x in T.rows[i] <==> (L - x) % L in H.columns[i])
  {
    Code(H.columns, [Transpose(H.columns[0], L), Transpose(H.columns[1], L)])
  }

  function TransposeRows(H: Code, w: nat, L: nat): (T: Code)
    requires ValidParams(w, L) && RowsValid(H, w, L)
    ensures T.rows == H.rows && ColumnsValid(T, w, L)
    ensures forall i, x :: 0 <= i < 2 && 0 <= x < L ==> (x in T.columns[i] <==> (L - x) % L in H.rows[i])
  {
    Code([Transpose(H.rows[0], L), Transpose(H.rows[1], L)], H.rows)
  }

  /** transpose_rows after transpose_columns gives back the columns: the two
      forms are each other's transpose. */
  lemma TransposeRoundTrip(H: Code, w: nat, L: nat)
    requires ValidParams(w, L) && ColumnsValid(H, w, L)
    ensures WellFormed(TransposeColumns(H, w, L), w, L)
    ensures TransposeRows(TransposeColumns(H, w, L), w, L) == TransposeColumns(H, w, L)
  {
    var r0 := Transpose(H.columns[0], L);
    var r1 := Transpose(H.columns[1], L);
    assert TransposeColumns(H, w, L) == Code(H.columns, [r0, r1]);
    TransposeInvolution(H.columns[0], L);
    TransposeInvolution(H.columns[1], L);
    assert TransposeRows(Code(H.columns, [r0, r1]), w, L) == Code([Transpose(r0, L), Transpose(r1, L)], [r0, r1]);
  }

  // ---------------------------------------------------------------------------
  // compute_syndrome
  // ---------------------------------------------------------------------------

  /** The syndrome H * e of a two-block word: bit j is the parity of the sum
      over i and k of e[i][(j - columns[i][k]) mod L]. */
  function SyndromeOf(H: Code, e: seq<seq<Bit>>, L: nat): (s: seq<Bit>)
    requires |H.columns| == 2 && |e| == 2 && 0 < L <= |e[0]| && L <= |e[1]|
    ensures |s| == L
  {
    seq(L, j requires 0 <= j < L => (Hits(H.columns[0], e[0], L, j) + Hits(H.columns[1], e[1], L, j)) % 2)
  }

  /** compute_syndrome: clears the doubled buffer, xors in the product of each
      column block with its error block, then counts the ones of the first half. */
  method ComputeSyndrome(H: Code, e: DenseError, L: nat) returns (s: Syndrome)
    requires 0 < L && |H.columns| == 2 && InRange(H.columns[0], 0, L) && InRange(H.columns[1], 0, L)
    requires |e.vec| == 2 && |e.vec[0]| == 2 * L && |e.vec[1]| == 2 * L
    ensures |s.vec| == 2 * L
    ensures s.vec[..L] == SyndromeOf(H, e.vec, L)
    ensures forall p :: L <= p < 2 * L ==> s.vec[p] == 0
    ensures s.weight == Popcount(s.vec[..L])
  {
    var v0 := MultiplyXorMod2(Zeros(2 * L), H.columns[0], e.vec[0], L);
    var vec := MultiplyXorMod2(v0, H.columns[1], e.vec[1], L);
    var weight := CountOnes(vec, L);
    forall p | 0 <= p < L
      ensures vec[p] == SyndromeOf(H, e.vec, L)[p]
    {
      ParitySum(Hits(H.columns[0], e.vec[0], L, p), Hits(H.columns[1], e.vec[1], L, p));
    }
    s := Syndrome(vec, weight);
  }

  lemma ParitySum(a: int, b: int)
    ensures Xor(Xor(0, a % 2), b % 2) == (a + b) % 2
  {
    ModAddLeft(a, b % 2, 2);
    ModAddLeft(b, a, 2);
  }

  /** The weight loop: the number of ones among the first L cells. */
  method CountOnes(vec: seq<Bit>, L: nat) returns (weight: nat)
    requires L <= |vec|
    ensures weight == Popcount(vec[..L])
  {
    weight := 0;
    var j := 0;
    while j < L
      invariant 0 <= j <= L && weight == Popcount(vec[..j])
    {
      assert vec[..j + 1][..j] == vec[..j];
      weight := weight + vec[j];
      j := j + 1;
    }
  }

  /** The syndrome map is GF(2)-linear. */
  lemma SyndromeLinear(H: Code, e1: seq<seq<Bit>>, e2: seq<seq<Bit>>, L: nat)
    requires |H.columns| == 2 && |e1| == 2 && |e2| == 2 && 0 < L
    requires |e1[0]| == |e2[0]| >= L && |e1[1]| == |e2[1]| >= L
    ensures SyndromeOf(H, [XorVec(e1[0], e2[0]), XorVec(e1[1], e2[1])], L)
         == XorVec(SyndromeOf(H, e1, L), SyndromeOf(H, e2, L))
  {
    var e := [XorVec(e1[0], e2[0]), XorVec(e1[1], e2[1])];
    var lhs := SyndromeOf(H, e, L);
    var rhs := XorVec(SyndromeOf(H, e1, L), SyndromeOf(H, e2, L));
    forall j | 0 <= j < L
      ensures lhs[j] == rhs[j]
    {
      HitsXor(H.columns[0], e1[0], e2[0], L, j);
      HitsXor(H.columns[1], e1[1], e2[1], L, j);
      ParityRegroup(Hits(H.columns[0], e[0], L, j), Hits(H.columns[1], e[1], L, j),
                    Hits(H.columns[0], e1[0], L, j), Hits(H.columns[0], e2[0], L, j),
                    Hits(H.columns[1], e1[1], L, j), Hits(H.columns[1], e2[1], L, j));
    }
  }

  /** Regrouping a sum of four terms under parity. */
  lemma ParityRegroup(h0: int, h1: int, a0: int, b0: int, a1: int, b1: int)
    requires h0 % 2 == (a0 + b0) % 2 && h1 % 2 == (a1 + b1) % 2
    ensures (h0 + h1) % 2 == Xor((a0 + a1) % 2, (b0 + b1) % 2)
  {
    ModAddLeft(h0, h1, 2);
    ModAddLeft(h1, h0 % 2, 2);
    ModAddLeft(a0 + b0, h1 % 2, 2);
    ModAddLeft(a1 + b1, a0 + b0, 2);
    ModAddLeft(a0 + a1, (b0 + b1) % 2, 2);
    ModAddLeft(b0 + b1, a0 + a1, 2);
  }

  /** Toggling error bit (k, j) toggles exactly the syndrome bits the column of
      (k, j) passes through (once per passage). */
  lemma SyndromeToggle(H: Code, e: seq<seq<Bit>>, L: nat, k: nat, j: nat)
    requires |H.columns| == 2 && |e| == 2 && 0 < L <= |e[0]| && L <= |e[1]|
    requires k < 2 && j < L && InRange(H.columns[k], 0, L)
    ensures forall p :: 0 <= p < L ==>
      SyndromeOf(H, e[k := e[k][j := 1 - e[k][j]]], L)[p]
        == (SyndromeOf(H, e, L)[p] + Touches(H.columns[k], L, j, p)) % 2
  {
    forall p | 0 <= p < L
      ensures SyndromeOf(H, e[k := e[k][j := 1 - e[k][j]]], L)[p]
        == (SyndromeOf(H, e, L)[p] + Touches(H.columns[k], L, j, p)) % 2
    {
      SyndromeToggleAt(H, e, L, k, j, p);
    }
  }

  lemma SyndromeToggleAt(H: Code, e: seq<seq<Bit>>, L: nat, k: nat, j: nat, p: nat)
    requires |H.columns| == 2 && |e| == 2 && 0 < L <= |e[0]| && L <= |e[1]|
    requires k < 2 && j < L && p < L && InRange(H.columns[k], 0, L)
    ensures SyndromeOf(H, e[k := e[k][j := 1 - e[k][j]]], L)[p]
        == (SyndromeOf(H, e, L)[p] + Touches(H.columns[k], L, j, p)) % 2
  {
    var e' := e[k := e[k][j := 1 - e[k][j]]];
    var t: int := Touches(H.columns[k], L, j, p);
    var d: int := if e[k][j] == 0 then t else 0 - t;
    var h0 := Hits(H.columns[0], e[0], L, p);
    var h1 := Hits(H.columns[1], e[1], L, p);
    SyndromeAtSum(H, e, L, p, h0, h1);
    ToggledSum(H, e, L, k, j, p);
    ParityShift(SyndromeOf(H, e', L)[p], SyndromeOf(H, e, L)[p], h0 + h1, d, t);
  }

  /** After the toggle, the two hit counts at p sum to the old ones moved by
      the signed number of passages of column (k, j) through p. */
  lemma ToggledSum(H: Code, e: seq<seq<Bit>>, L: nat, k: nat, j: nat, p: nat)
    requires |H.columns| == 2 && |e| == 2 && 0 < L <= |e[0]| && L <= |e[1]|
    requires k < 2 && j < L && p < L && InRange(H.columns[k], 0, L)
    ensures var t: int := Touches(H.columns[k], L, j, p);
      SyndromeOf(H, e[k := e[k][j := 1 - e[k][j]]], L)[p]
        == (Hits(H.columns[0], e[0], L, p) + Hits(H.columns[1], e[1], L, p)
            + (if e[k][j] == 0 then t else 0 - t)) % 2
  {
    var e' := e[k := e[k][j := 1 - e[k][j]]];
    var t: int := Touches(H.columns[k], L, j, p);
    var d: int := if e[k][j] == 0 then t else 0 - t;
    var h0 := Hits(H.columns[0], e[0], L, p);
    var h1 := Hits(H.columns[1], e[1], L, p);
    if k == 0 {
      HitsToggleSigned(H.columns[0], e[0], L, p, j);
      assert e' == [e[0][j := 1 - e[0][j]], e[1]];
      SyndromeAtSum(H, e', L, p, h0 + d, h1);
    } else {
      HitsToggleSigned(H.columns[1], e[1], L, p, j);
      assert e' == [e[0], e[1][j := 1 - e[1][j]]];
      SyndromeAtSum(H, e', L, p, h0, h1 + d);
    }
  }

  lemma SyndromeAtSum(H: Code, e: seq<seq<Bit>>, L: nat, p: nat, a0: int, a1: int)
    requires |H.columns| == 2 && |e| == 2 && 0 < L <= |e[0]| && L <= |e[1]| && p < L
    requires a0 == Hits(H.columns[0], e[0], L, p) && a1 == Hits(H.columns[1], e[1], L, p)
    ensures SyndromeOf(H, e, L)[p] == (a0 + a1) % 2
  {
  }

  /** HitsToggle with the sign spelled out, the column view of the count. */
  lemma HitsToggleSigned(c: seq<int>, y: seq<Bit>, L: nat, p: nat, j: nat)
    requires 0 < L <= |y| && j < L && p < L && InRange(c, 0, L)
    ensures Hits(c, y[j := 1 - y[j]], L, p)
         == Hits(c, y, L, p) + (if y[j] == 0 then Touches(c, L, j, p) else 0 - Touches(c, L, j, p))
  {
    HitsToggle(c, y, L, p, j);
    OccurrencesAreTouches(c, L, p, j);
  }

  /** Adding or subtracting t has the same parity effect. */
  lemma ParityShift(after: int, before: int, h: int, d: int, t: int)
    requires d == t || d == -t
    requires after == (h + d) % 2 && before == h % 2
    ensures after == (before + t) % 2
  {
    ModAddLeft(h, t, 2);
    if d == -t {
      DivUnique(h - t, (h + t) / 2 - t, (h + t) % 2, 2);
    }
  }

  // ---------------------------------------------------------------------------
  // compute_counters
  // ---------------------------------------------------------------------------

  /** compute_counters: mirrors the first half of the syndrome into the second,
      then counters[i][j] is the number of unsatisfied checks of bit (i, j),
      the uint8 product of the row block with the syndrome. */
  method ComputeCounters(syndrome: seq<Bit>, H: Code, w: nat, L: nat) returns (counters: seq<seq<int>>, mirrored: seq<Bit>)
    requires ValidParams(w, L) && |syndrome| == 2 * L && RowsValid(H, w, L)
    ensures Mirrored(mirrored, L) && mirrored[..L] == syndrome[..L]
    ensures |counters| == 2 && |counters[0]| == L && |counters[1]| == L
    ensures forall i, j :: 0 <= i < 2 && 0 <= j < L ==>
      counters[i][j] == Hits(H.rows[i], syndrome, L, j) && 0 <= counters[i][j] <= w
  {
    mirrored := syndrome[..L] + syndrome[..L];
    assert mirrored[..L] == syndrome[..L];
    var c0 := MultiplyAdd(Zeros(L), H.rows[0], mirrored, L);
    var c1 := MultiplyAdd(Zeros(L), H.rows[1], mirrored, L);
    counters := [c0, c1];
    forall i, j | 0 <= i < 2 && 0 <= j < L
      ensures counters[i][j] == Hits(H.rows[i], syndrome, L, j) && 0 <= counters[i][j] <= w
    {
      HitsPrefix(H.rows[i], mirrored, syndrome, L, j);
      HitsBounds(H.rows[i], syndrome, L, j);
    }
  }

  /** With rows the transpose of columns, the row-form counter of bit (i, j)
      equals the number of syndrome ones met walking down column j of block i,
      which is what the decoder's incremental counter reads. */
  lemma CountersMatchColumns(H: Code, w: nat, L: nat, syndrome: seq<Bit>, i: nat, j: int)
    requires WellFormed(H, w, L) && i < 2 && L <= |syndrome|
    ensures Hits(H.rows[i], syndrome, L, j) == ColumnHits(H.columns[i], syndrome, L, j)
  {
    TransposeHits(H.columns[i], syndrome, L, j);
  }

  // ---------------------------------------------------------------------------
  // error_sparse_to_dense / syndrome_add_sparse_error
  // ---------------------------------------------------------------------------

  /** The ordering error_sparse_to_dense relies on: entries lie in [0, 2L) and
      once one entry is in the second block, all later ones are too. */
  ghost predicate BlockOrdered(s: seq<int>, L: nat)
  {
    InRange(s, 0, 2 * L) && forall a, b :: 0 <= a < b < |s| && s[a] >= L ==> s[b] >= L
  }

  /** error_sparse_to_dense: toggles vec[0][j] for the leading entries j < L,
      then vec[1][j - L] for the rest, and mirrors both blocks. A position
      listed twice cancels. */
  method ErrorSparseToDense(sparse: seq<int>, weight: nat, L: nat) returns (e: DenseError)
    requires 0 < L && weight <= |sparse| && BlockOrdered(sparse[..weight], L)
    ensures |e.vec| == 2 && Mirrored(e.vec[0], L) && Mirrored(e.vec[1], L)
    ensures forall j :: 0 <= j < L ==>
      e.vec[0][j] == Count(sparse[..weight], j) % 2 && e.vec[1][j] == Count(sparse[..weight], L + j) % 2
    ensures e.weight == weight
    ensures StrictlyIncreasing(sparse[..weight]) ==>
      (forall j :: 0 <= j < L ==> (e.vec[0][j] == 1 <==> j in sparse[..weight]) && (e.vec[1][j] == 1 <==> L + j in sparse[..weight]))
      && Popcount(e.vec[0][..L]) + Popcount(e.vec[1][..L]) == weight
  {
    var v0, split := ToggleFirstBlock(sparse, weight, L);
    var v1 := ToggleSecondBlock(sparse, split, weight, L);
    var s := sparse[..weight];
    CombineBlocks(sparse, split, weight, L, v0, v1);
    e := DenseError([v0[..L] + v0[..L], v1[..L] + v1[..L]], weight);
    assert e.vec[0][..L] == v0[..L] && e.vec[1][..L] == v1[..L];
    if StrictlyIncreasing(s) {
      DenseFromDistinct(s, split, L, v0[..L], v1[..L]);
    }
  }

  lemma CombineBlocks(sparse: seq<int>, split: nat, weight: nat, L: nat, v0: seq<Bit>, v1: seq<Bit>)
    requires split <= weight <= |sparse| && L <= |v0| && L <= |v1|
    requires forall a :: 0 <= a < split ==> sparse[a] < L
    requires forall a :: split <= a < weight ==> sparse[a] >= L
    requires forall j :: 0 <= j < L ==> v0[j] == Count(sparse[..split], j) % 2
    requires forall j :: 0 <= j < L ==> v1[j] == Count(sparse[split..weight], L + j) % 2
    ensures forall j :: 0 <= j < L ==> v0[j] == Count(sparse[..weight], j) % 2 && v1[j] == Count(sparse[..weight], L + j) % 2
  {
    var lo := sparse[..split];
    var hi := sparse[split..weight];
    assert sparse[..weight] == lo + hi;
    forall j | 0 <= j < L
      ensures v0[j] == Count(sparse[..weight], j) % 2 && v1[j] == Count(sparse[..weight], L + j) % 2
    {
      CountAppend(lo, hi, j);
      CountAppend(lo, hi, L + j);
      CountAbsent(hi, j);
      CountAbsent(lo, L + j);
    }
  }

  /** The first loop of error_sparse_to_dense: stops at the first entry >= L. */
  method ToggleFirstBlock(sparse: seq<int>, weight: nat, L: nat) returns (v0: seq<Bit>, k: nat)
    requires 0 < L && weight <= |sparse| && InRange(sparse[..weight], 0, 2 * L)
    ensures k <= weight && |v0| == 2 * L
    ensures forall a :: 0 <= a < k ==> sparse[a] < L
    ensures k < weight ==> sparse[k] >= L
    ensures forall j :: 0 <= j < L ==> v0[j] == Count(sparse[..k], j) % 2
  {
    v0 := Zeros(2 * L);
    k := 0;
    while k < weight && sparse[k] < L
      invariant 0 <= k <= weight && |v0| == 2 * L
      invariant forall a :: 0 <= a < k ==> sparse[a] < L
      invariant forall j :: 0 <= j < L ==> v0[j] == Count(sparse[..k], j) % 2
    {
      assert sparse[..weight][k] == sparse[k];
      assert sparse[..k + 1][..k] == sparse[..k];
      v0 := v0[sparse[k] := 1 - v0[sparse[k]]];
      k := k + 1;
    }
  }

  /** The second loop of error_sparse_to_dense: entry p toggles vec[1][p - L]. */
  method ToggleSecondBlock(sparse: seq<int>, split: nat, weight: nat, L: nat) returns (v1: seq<Bit>)
    requires 0 < L && split <= weight <= |sparse|
    requires forall a :: split <= a < weight ==> L <= sparse[a] < 2 * L
    ensures |v1| == 2 * L
    ensures forall j :: 0 <= j < L ==> v1[j] == Count(sparse[split..weight], L + j) % 2
  {
    v1 := Zeros(2 * L);
    var k := split;
    while k < weight
      invariant split <= k <= weight && |v1| == 2 * L
      invariant forall j :: 0 <= j < L ==> v1[j] == Count(sparse[split..k], L + j) % 2
    {
      assert sparse[split..k + 1][..k - split] == sparse[split..k];
      v1 := v1[sparse[k] - L := 1 - v1[sparse[k] - L]];
      k := k + 1;
    }
  }

  lemma DenseFromDistinct(s: seq<int>, split: nat, L: nat, d0: seq<Bit>, d1: seq<Bit>)
    requires 0 < L && split <= |s| && StrictlyIncreasing(s) && InRange(s, 0, 2 * L)
    requires forall a :: 0 <= a < split ==> s[a] < L
    requires forall a :: split <= a < |s| ==> s[a] >= L
    requires |d0| == L && |d1| == L
    requires forall j :: 0 <= j < L ==> d0[j] == Count(s, j) % 2 && d1[j] == Count(s, L + j) % 2
    ensures forall j :: 0 <= j < L ==> (d0[j] == 1 <==> j in s) && (d1[j] == 1 <==> L + j in s)
    ensures Popcount(d0) + Popcount(d1) == |s|
  {
    DenseMembership(s, L, d0, d1);
    var lo := s[..split];
    var hi := Shift(s[split..], -(L as int));
    LowBlockIndicator(s, split, L, d0);
    HighBlockIndicator(s, split, L, d1);
    LowBlockRange(s, split, L);
    IndicatorPopcount(lo, L);
    IndicatorPopcount(hi, L);
  }

  /** With distinct entries, an odd count is membership. */
  lemma DenseMembership(s: seq<int>, L: nat, d0: seq<Bit>, d1: seq<Bit>)
    requires StrictlyIncreasing(s) && |d0| == L && |d1| == L
    requires forall j :: 0 <= j < L ==> d0[j] == Count(s, j) % 2 && d1[j] == Count(s, L + j) % 2
    ensures forall j :: 0 <= j < L ==> (d0[j] == 1 <==> j in s) && (d1[j] == 1 <==> L + j in s)
  {
    forall j | 0 <= j < L
      ensures (d0[j] == 1 <==> j in s) && (d1[j] == 1 <==> L + j in s)
    {
      CountDistinct(s, j);
      CountDistinct(s, L + j);
    }
  }

  lemma LowBlockRange(s: seq<int>, split: nat, L: nat)
    requires split <= |s| && StrictlyIncreasing(s)
    requires forall a :: 0 <= a < split ==> 0 <= s[a] < L
    ensures StrictlyIncreasing(s[..split]) && InRange(s[..split], 0, L)
  {
  }

  /** Every entry moved by d. */
  function Shift(s: seq<int>, d: int): (r: seq<int>)
    ensures |r| == |s| && forall i :: 0 <= i < |s| ==> r[i] == s[i] + d
  {
    seq(|s|, i requires 0 <= i < |s| => s[i] + d)
  }

  lemma LowBlockIndicator(s: seq<int>, split: nat, L: nat, d0: seq<Bit>)
    requires split <= |s| && |d0| == L
    requires forall a :: split <= a < |s| ==> s[a] >= L
    requires forall j :: 0 <= j < L ==> (d0[j] == 1 <==> j in s)
    ensures d0 == Indicator(s[..split], L)
  {
    forall j | 0 <= j < L
      ensures d0[j] == Indicator(s[..split], L)[j]
    {
      if j in s {
        var a :| 0 <= a < |s| && s[a] == j;
        assert s[..split][a] == j;
      }
    }
  }

  lemma HighBlockIndicator(s: seq<int>, split: nat, L: nat, d1: seq<Bit>)
    requires split <= |s| && |d1| == L && StrictlyIncreasing(s) && InRange(s, 0, 2 * L)
    requires forall a :: 0 <= a < split ==> s[a] < L
    requires forall a :: split <= a < |s| ==> s[a] >= L
    requires forall j :: 0 <= j < L ==> (d1[j] == 1 <==> L + j in s)
    ensures d1 == Indicator(Shift(s[split..], -(L as int)), L)
    ensures StrictlyIncreasing(Shift(s[split..], -(L as int))) && InRange(Shift(s[split..], -(L as int)), 0, L)
  {
    var hi := Shift(s[split..], -(L as int));
    HighBlockRange(s, split, L);
    forall j | 0 <= j < L
      ensures d1[j] == Indicator(hi, L)[j]
    {
      HighBlockMember(s, split, L, j);
    }
  }

  lemma HighBlockRange(s: seq<int>, split: nat, L: nat)
    requires split <= |s| && StrictlyIncreasing(s) && InRange(s, 0, 2 * L)
    requires forall a :: split <= a < |s| ==> s[a] >= L
    ensures StrictlyIncreasing(Shift(s[split..], -(L as int))) && InRange(Shift(s[split..], -(L as int)), 0, L)
  {
    var hi := Shift(s[split..], -(L as int));
    forall a | 0 <= a < |hi|
      ensures 0 <= hi[a] < L
    {
      assert s[split + a] >= L;
    }
  }

  /** L + j is a high entry of s exactly when j is an entry of the shifted tail. */
  lemma HighBlockMember(s: seq<int>, split: nat, L: nat, j: int)
    requires split <= |s| && 0 <= j < L
    requires forall a :: 0 <= a < split ==> s[a] < L
    ensures L + j in s <==> j in Shift(s[split..], -(L as int))
  {
    var hi := Shift(s[split..], -(L as int));
    if L + j in s {
      var a :| 0 <= a < |s| && s[a] == L + j;
      assert hi[a - split] == j;
    }
    if j in hi {
      var a :| 0 <= a < |hi| && hi[a] == j;
      assert s[split + a] == L + j;
    }
  }

  /** syndrome_add_sparse_error: toggles the listed syndrome positions; the
      recorded weight is left as it was. */
  method SyndromeAddSparseError(s: Syndrome, sparse: seq<int>, weight: nat) returns (r: Syndrome)
    requires weight <= |sparse| && InRange(sparse[..weight], 0, |s.vec|)
    ensures |r.vec| == |s.vec| && r.weight == s.weight
    ensures forall p :: 0 <= p < |s.vec| ==> r.vec[p] == Xor(s.vec[p], Count(sparse[..weight], p) % 2)
    ensures StrictlyIncreasing(sparse[..weight]) ==>
      forall p :: 0 <= p < |s.vec| ==> (r.vec[p] != s.vec[p] <==> p in sparse[..weight])
  {
    var vec := s.vec;
    var k := 0;
    while k < weight
      invariant 0 <= k <= weight && |vec| == |s.vec|
      invariant forall p :: 0 <= p < |s.vec| ==> vec[p] == Xor(s.vec[p], Count(sparse[..k], p) % 2)
    {
      assert sparse[..k + 1][..k] == sparse[..k];
      assert sparse[..weight][k] == sparse[k];
      vec := vec[sparse[k] := 1 - vec[sparse[k]]];
      k := k + 1;
    }
    assert sparse[..k] == sparse[..weight];
    r := Syndrome(vec, s.weight);
    if StrictlyIncreasing(sparse[..weight]) {
      forall p | 0 <= p < |s.vec|
        ensures r.vec[p] != s.vec[p] <==> p in sparse[..weight]
      {
        CountDistinct(sparse[..weight], p);
      }
    }
  }

  // ---------------------------------------------------------------------------
  // compute_codeword / generate_random_message
  // ---------------------------------------------------------------------------

  /** compute_codeword: block k of the word is the product of column block
      1 - k with the message, so that H0 * c0 + H1 * c1 = H0 H1 m + H1 H0 m = 0. */
  method ComputeCodeword(H: Code, message: seq<Bit>, L: nat) returns (cw: seq<seq<Bit>>)
    requires 0 < L <= |message| && |H.columns| == 2 && InRange(H.columns[0], 0, L) && InRange(H.columns[1], 0, L)
    ensures |cw| == 2 && |cw[0]| == 2 * L && |cw[1]| == 2 * L
    ensures forall k, j :: 0 <= k < 2 && 0 <= j < L ==> cw[k][j] == Parity(H.columns[1 - k], message, L, j)
    ensures forall k, p :: 0 <= k < 2 && L <= p < 2 * L ==> cw[k][p] == 0
  {
    var b0 := MultiplyXorMod2(Zeros(2 * L), H.columns[1], message, L);
    var b1 := MultiplyXorMod2(Zeros(2 * L), H.columns[0], message, L);
    cw := [b0, b1];
  }

  /** Every word built as compute_codeword builds it has zero syndrome,
      because cyclic products commute. */
  lemma CodewordHasZeroSyndrome(H: Code, message: seq<Bit>, cw: seq<seq<Bit>>, L: nat)
    requires 0 < L <= |message| && |H.columns| == 2
    requires |cw| == 2 && |cw[0]| >= L && |cw[1]| >= L
    requires forall k, j :: 0 <= k < 2 && 0 <= j < L ==> cw[k][j] == Parity(H.columns[1 - k], message, L, j)
    ensures SyndromeOf(H, cw, L) == Zeros(L)
  {
    var c0 := H.columns[0];
    var c1 := H.columns[1];
    assert forall i :: 0 <= i < L ==> cw[0][i] == Parity(c1, message, L, i);
    assert forall i :: 0 <= i < L ==> cw[1][i] == Parity(c0, message, L, i);
    forall j | 0 <= j < L
      ensures SyndromeOf(H, cw, L)[j] == 0
    {
      ZeroSyndromeAt(c0, c1, message, cw[0], cw[1], L, j);
    }
  }

  lemma ZeroSyndromeAt(c0: seq<int>, c1: seq<int>, m: seq<Bit>, y0: seq<Bit>, y1: seq<Bit>, L: nat, j: int)
    requires 0 < L <= |m| && L <= |y0| && L <= |y1|
    requires forall i {:trigger Parity(c1, m, L, i)} :: 0 <= i < L ==> y0[i] == Parity(c1, m, L, i)
    requires forall i {:trigger Parity(c0, m, L, i)} :: 0 <= i < L ==> y1[i] == Parity(c0, m, L, i)
    ensures (Hits(c0, y0, L, j) + Hits(c1, y1, L, j)) % 2 == 0
  {
    ParityOfProduct(c0, c1, m, y0, L, j);
    ParityOfProduct(c1, c0, m, y1, L, j);
    ConvCommutes(c0, c1, m, L, j);
    assert Hits(c0, y0, L, j) % 2 == Hits(c1, y1, L, j) % 2;
    EvenSum(Hits(c0, y0, L, j), Hits(c1, y1, L, j));
  }

  lemma EvenSum(h0: int, h1: int)
    requires h0 % 2 == h1 % 2
    ensures (h0 + h1) % 2 == 0
  {
    assert h0 == 2 * (h0 / 2) + h0 % 2;
    assert h1 == 2 * (h1 / 2) + h1 % 2;
    DivUnique(h0 + h1, h0 / 2 + h1 / 2 + h0 % 2, 0, 2);
  }

  /** Bit j of a 64-bit word: (x >> j) & 1. */
  function WordBit(x: bv64, j: nat): Bit
    requires j < 64
  {
    if (x >> j) & 1 == 0 then 0 else 1
  }

  /** generate_random_message: bit i + j of the message is bit j of the
      (i / 64)-th 64-bit draw, written to both halves of the doubled buffer.
      The draws are the generator's successive outputs. */
  method GenerateRandomMessage(draws: seq<bv64>, L: nat) returns (message: seq<Bit>)
    requires 0 < L && |draws| == (L + 63) / 64
    ensures Mirrored(message, L)
    ensures forall i :: 0 <= i < L ==> message[i] == WordBit(draws[i / 64], i % 64)
  {
    message := Zeros(2 * L);
    var i := 0;
    while i < L
      invariant 0 <= i && i % 64 == 0 && |message| == 2 * L
      invariant forall p :: 0 <= p < i && p < L ==>
        p / 64 < |draws| && message[p] == WordBit(draws[p / 64], p % 64) && message[L + p] == message[p]
    {
      WordCount(i, L);
      message := FillWord(message, draws, L, i);
      i := i + 64;
    }
    assert message[L..] == message[..L];
  }

  /** The inner loop of generate_random_message: the bits of draw i / 64
      land at positions i .. i + 63 (those below L) and at their mirrors. */
  method FillWord(message: seq<Bit>, draws: seq<bv64>, L: nat, i: nat) returns (m: seq<Bit>)
    requires i < L && i % 64 == 0 && i / 64 < |draws| && |message| == 2 * L
    requires forall p :: 0 <= p < i ==>
      p / 64 < |draws| && message[p] == WordBit(draws[p / 64], p % 64) && message[L + p] == message[p]
    ensures |m| == 2 * L
    ensures forall p :: 0 <= p < i + 64 && p < L ==>
      p / 64 < |draws| && m[p] == WordBit(draws[p / 64], p % 64) && m[L + p] == m[p]
  {
    var rand := draws[i / 64];
    m := message;
    var j := 0;
    while j < 64 && i + j < L
      invariant 0 <= j <= 64 && |m| == 2 * L
      invariant forall p :: 0 <= p < i + j && p < L ==>
        p / 64 < |draws| && m[p] == WordBit(draws[p / 64], p % 64) && m[L + p] == m[p]
    {
      WordIndex(i, j);
      var b := WordBit(rand, j);
      m := m[i + j := b];
      m := m[L + i + j := b];
      j := j + 1;
    }
  }

  lemma WordIndex(i: nat, j: nat)
    requires i % 64 == 0 && j < 64
    ensures (i + j) / 64 == i / 64 && (i + j) % 64 == j
  {
    DivUnique(i + j, i / 64, j, 64);
  }

  /** A word-aligned position below L is inside one of the (L + 63) / 64 draws. */
  lemma WordCount(i: nat, L: nat)
    requires i < L && i % 64 == 0
    ensures i / 64 < (L + 63) / 64
  {
    var q := i / 64;
    assert i == 64 * q;
    var r := (L + 63) / 64;
    assert L + 63 == 64 * r + (L + 63) % 64;
  }

  /** The bounds include/param.h enforces with #error (INDEX is fixed to 2). */
  ghost predicate ValidParams(w: nat, L: nat)
  {
    0 < w <= 255 && 0 < L <= 65536
  }

  datatype Code = Code(columns: seq<seq<int>>, rows: seq<seq<int>>)

  datatype Syndrome = Syndrome(vec: seq<Bit>, weight: int)

  datatype DenseError = DenseError(vec: seq<seq<Bit>>, weight: int)

  ghost predicate ColumnsValid(H: Code, w: nat, L: nat)
  {
    |H.columns| == 2 && IsBlock(H.columns[0], w, L) && IsBlock(H.columns[1], w, L)
  }

  ghost predicate RowsValid(H: Code, w: nat, L: nat)
  {
    |H.rows| == 2 && IsBlock(H.rows[0], w, L) && IsBlock(H.rows[1], w, L)
  }

  /** Both forms present and in agreement: each row block is the transpose of
      its column block. */
  ghost predicate WellFormed(H: Code, w: nat, L: nat)
  {
    ValidParams(w, L) && ColumnsValid(H, w, L) && |H.rows| == 2
    && H.rows[0] == Transpose(H.columns[0], L) && H.rows[1] == Transpose(H.columns[1], L)
  }

}
