/** The bit-flipping kernel of src/decoder.c shared by every decoder variant:
    the incremental counter of one bit, the syndrome update when a bit is
    flipped, and the bookkeeping of `single_flip`.

    The decoder keeps the positions it has flipped in `bits`, the syndrome of
    the received word plus the flips in `syndrome`, and, for simulation, the
    true error `e` whose `weight` field counts the positions where `bits`
    still differs from it. */
module Kernel {
  import opened Bits
  import opened Cyclic
  import opened QcCode

  /** struct decoder, without the lists specific to one variant. */
  datatype Decoder = Decoder(bits: seq<seq<Bit>>, syndrome: Syndrome, e: DenseError, iter: int, blocked: bool)

  /** Number of positions where the flips differ from the error, over both blocks. */
  ghost function ErrorDistance(bits: seq<seq<Bit>>, e: seq<seq<Bit>>, L: nat): nat
    requires |bits| == 2 && |e| == 2 && |bits[0]| == L && |bits[1]| == L && L <= |e[0]| && L <= |e[1]|
  {
    Distance(bits[0], e[0][..L]) + Distance(bits[1], e[1][..L])
  }

  /** The decoder invariant, relative to the syndrome s0 the decoding started
      from: the syndrome is s0 plus the syndrome of the flips, its weight is
      its popcount, and the error weight is the distance between the flips and
      the error. */
  ghost predicate Consistent(H: Code, w: nat, L: nat, s0: seq<Bit>, dec: Decoder)
  {
    ColumnsValid(H, w, L) && ValidParams(w, L) && |s0| == L
    && |dec.bits| == 2 && |dec.bits[0]| == L && |dec.bits[1]| == L
    && |dec.syndrome.vec| == 2 * L
    && |dec.e.vec| == 2 && |dec.e.vec[0]| == 2 * L && |dec.e.vec[1]| == 2 * L
    && (forall p {:trigger SyndromeOf(H, dec.bits, L)[p]} :: 0 <= p < L ==> dec.syndrome.vec[p] == Xor(s0[p], SyndromeOf(H, dec.bits, L)[p]))
    && dec.syndrome.weight == Popcount(dec.syndrome.vec[..L])
    && dec.e.weight == ErrorDistance(dec.bits, dec.e.vec, L)
  }

  /** Only the first half of the syndrome buffer matters: rewriting the upper
      half, as compute_counters does when it mirrors, keeps the invariant. */
  lemma ConsistentUpperHalf(H: Code, w: nat, L: nat, s0: seq<Bit>, dec: Decoder, v: seq<Bit>)
    requires Consistent(H, w, L, s0, dec) && |v| == 2 * L && v[..L] == dec.syndrome.vec[..L]
    ensures Consistent(H, w, L, s0, dec.(syndrome := dec.syndrome.(vec := v)))
  {
    forall p | 0 <= p < L ensures v[p] == dec.syndrome.vec[p] {
      assert v[p] == v[..L][p];
    }
  }

  /** The invariant does not depend on the iteration count or the blocked flag. */
  lemma ConsistentBookkeeping(H: Code, w: nat, L: nat, s0: seq<Bit>, dec: Decoder, iter: int, blocked: bool)
    requires Consistent(H, w, L, s0, dec)
    ensures Consistent(H, w, L, s0, dec.(iter := iter, blocked := blocked))
  {
  }

  // ---------------------------------------------------------------------------
  // get_counter / flip_column
  // ---------------------------------------------------------------------------

  /** get_counter: walks the column of bit j of a block, reading
      syndrome[j + c[l]] while that is below L, then, the offsets being sorted,
      syndrome[j + c[l] - L] for all the remaining ones. */
  method GetCounter(s: seq<Bit>, c: seq<int>, j: int, L: nat) returns (counter: int)
    requires 0 < L <= |s| && 0 <= j < L && |c| <= 255
    requires NonDecreasing(c) && InRange(c, 0, L)
    ensures counter == ColumnHits(c, s, L, j)
    ensures 0 <= counter <= |c|
  {
    counter := 0;
    var offset := j;
    var l := 0;
    while l < |c| && offset + c[l] < L
      invariant 0 <= l <= |c| && offset == j
      invariant counter == ColumnHits(c[..l], s, L, j) && 0 <= counter <= l
    {
      ModOfSmall(j + c[l], L);
      HitsStep(c, s, L, j, l);
      counter := counter + s[offset + c[l]];
      l := l + 1;
    }
    ghost var wrap := l;
    if l < |c| {
      offset := offset - L;
    }
    while l < |c|
      invariant wrap <= l <= |c| && (wrap < |c| ==> offset == j - L && j + c[wrap] >= L)
      invariant counter == ColumnHits(c[..l], s, L, j) && 0 <= counter <= l
    {
      WrapStep(c, L, j, wrap, l);
      HitsStep(c, s, L, j, l);
      counter := counter + s[offset + c[l]];
      l := l + 1;
    }
    assert c[..l] == c;
  }

  /** Past the first offset that wraps, every later one wraps too, and reads
      cell j + c[l] - L. */
  lemma WrapStep(c: seq<int>, L: nat, j: int, wrap: nat, l: nat)
    requires 0 < L && 0 <= j < L && NonDecreasing(c) && InRange(c, 0, L)
    requires wrap <= l < |c| && j + c[wrap] >= L
    ensures 0 <= j + c[l] - L < L && (j + c[l]) % L == j + c[l] - L
  {
    assert c[wrap] <= c[l];
    DivUnique(j + c[l], 1, j + c[l] - L, L);
  }

  /** The counter over one more offset adds the cell that offset reads. */
  lemma HitsStep(c: seq<int>, s: seq<Bit>, L: nat, j: int, l: nat)
    requires 0 < L <= |s| && l < |c|
    ensures ColumnHits(c[..l + 1], s, L, j) == ColumnHits(c[..l], s, L, j) + s[(j + c[l]) % L]
  {
    assert c[..l + 1][..l] == c[..l];
  }

  /** The syndrome after the column of bit j is added to it: cell p < L is
      toggled once for each time the column passes through check p. */
  function ToggleColumn(v: seq<Bit>, c: seq<int>, L: nat, j: int): (r: seq<Bit>)
    requires 0 < L <= |v|
    ensures |r| == |v|
  {
    seq(|v|, p requires 0 <= p < |v| => if p < L then (v[p] + Touches(c, L, j, p)) % 2 else v[p])
  }

  lemma ToggleColumnStep(v: seq<Bit>, c: seq<int>, L: nat, j: int, l: nat)
    requires 0 < L <= |v| && l < |c|
    ensures 0 <= (j + c[l]) % L < L
    ensures ToggleColumn(v, c[..l + 1], L, j)
         == ToggleColumn(v, c[..l], L, j)[(j + c[l]) % L := 1 - ToggleColumn(v, c[..l], L, j)[(j + c[l]) % L]]
  {
    var pos := (j + c[l]) % L;
    var a := ToggleColumn(v, c[..l], L, j);
    var b := ToggleColumn(v, c[..l + 1], L, j);
    assert c[..l + 1][..l] == c[..l];
    forall p | 0 <= p < |v|
      ensures b[p] == a[pos := 1 - a[pos]][p]
    {
      if p < L {
        var t := Touches(c[..l], L, j, p);
        assert Touches(c[..l + 1], L, j, p) == t + (if p == pos then 1 else 0);
        if p == pos {
          ModAddLeft(v[p] + t, 1, 2);
        }
      }
    }
  }

  lemma ToggleColumnEmpty(v: seq<Bit>, L: nat, j: int)
    requires 0 < L <= |v|
    ensures ToggleColumn(v, [], L, j) == v
  {
  }

  /** Adding a column of distinct offsets moves the weight by w - 2 * (number
      of ones the column met). */
  lemma {:induction false} ToggleColumnPopcount(v: seq<Bit>, c: seq<int>, L: nat, j: int)
    requires 0 < L <= |v| && StrictlyIncreasing(c) && InRange(c, 0, L)
    ensures Popcount(ToggleColumn(v, c, L, j)[..L]) == Popcount(v[..L]) + |c| - 2 * ColumnHits(c, v, L, j)
  {
    if |c| == 0 {
      ToggleColumnEmpty(v, L, j);
    } else {
      var n := |c| - 1;
      var init := c[..n];
      assert StrictlyIncreasing(init) && InRange(init, 0, L) by {
        forall a, b | 0 <= a < b < n ensures init[a] < init[b] {
          assert init[a] == c[a] && init[b] == c[b];
        }
        forall a | 0 <= a < n ensures 0 <= init[a] < L {
          assert init[a] == c[a];
        }
      }
      ToggleColumnPopcount(v, init, L, j);
      ToggleColumnLast(v, c, L, j);
    }
  }

  /** The last offset of a column of distinct offsets toggles a check the
      others left alone, moving the weight by 1 - 2 * (its old bit). */
  lemma ToggleColumnLast(v: seq<Bit>, c: seq<int>, L: nat, j: int)
    requires 0 < L <= |v| && |c| > 0 && StrictlyIncreasing(c) && InRange(c, 0, L)
    ensures Popcount(ToggleColumn(v, c, L, j)[..L])
         == Popcount(ToggleColumn(v, c[..|c| - 1], L, j)[..L]) + 1 - 2 * (v[(j + c[|c| - 1]) % L] as int)
  {
    var n := |c| - 1;
    var pos := (j + c[n]) % L;
    ToggleColumnStep(v, c, L, j, n);
    assert c[..n + 1] == c;
    var a := ToggleColumn(v, c[..n], L, j);
    UntouchedBefore(c, L, j, n);
    assert a[pos] == v[pos];
    assert a[pos := 1 - a[pos]][..L] == a[..L][pos := 1 - a[..L][pos]];
    PopcountToggle(a[..L], pos);
  }

  /** With distinct offsets, the column of j meets check (j + c[n]) mod L for
      the first time at offset n. */
  lemma UntouchedBefore(c: seq<int>, L: nat, j: int, n: nat)
    requires 0 < L && n < |c| && StrictlyIncreasing(c) && InRange(c, 0, L)
    ensures Touches(c[..n], L, j, (j + c[n]) % L) == 0
  {
    var pos := (j + c[n]) % L;
    TouchesDistinct(c[..n], L, j, pos);
    if Touched(c[..n], L, j, pos) {
      var l :| 0 <= l < n && (j + c[..n][l]) % L == pos;
      CyclicInjective(j, c[l], c[n], L);
    }
  }

  /** flip_column: the same walk as get_counter, toggling instead of reading:
      first the offsets whose check index does not wrap, then the others. */
  method FlipColumn(s: seq<Bit>, c: seq<int>, j: int, L: nat) returns (r: seq<Bit>)
    requires 0 < L <= |s| && 0 <= j < L
    requires NonDecreasing(c) && InRange(c, 0, L)
    ensures r == ToggleColumn(s, c, L, j)
  {
    r := s;
    ToggleColumnEmpty(s, L, j);
    assert c[..0] == [];
    var offset := j;
    var l := 0;
    while l < |c| && offset + c[l] < L
      invariant 0 <= l <= |c| && offset == j
      invariant r == ToggleColumn(s, c[..l], L, j)
    {
      ModOfSmall(j + c[l], L);
      ToggleColumnStep(s, c, L, j, l);
      r := r[offset + c[l] := 1 - r[offset + c[l]]];
      l := l + 1;
    }
    if l < |c| {
      r := FlipWrapped(s, c, j, L, r, l);
    }
    assert c[..|c|] == c;
  }

  /** The second half of flip_column: from offset `wrap` on, every check
      index j + c[l] has passed L and is reduced by subtracting L. */
  method FlipWrapped(s: seq<Bit>, c: seq<int>, j: int, L: nat, r0: seq<Bit>, wrap: nat) returns (r: seq<Bit>)
    requires 0 < L <= |s| && 0 <= j < L
    requires NonDecreasing(c) && InRange(c, 0, L)
    requires wrap < |c| && j + c[wrap] >= L && r0 == ToggleColumn(s, c[..wrap], L, j)
    ensures r == ToggleColumn(s, c[..|c|], L, j)
  {
    r := r0;
    var offset := j - L;
    var l := wrap;
    while l < |c|
      invariant wrap <= l <= |c|
      invariant r == ToggleColumn(s, c[..l], L, j)
    {
      assert c[wrap] <= c[l];
      DivUnique(j + c[l], 1, j + c[l] - L, L);
      ToggleColumnStep(s, c, L, j, l);
      r := r[offset + c[l] := 1 - r[offset + c[l]]];
      l := l + 1;
    }
  }

  /** flip_column agrees with recomputing the syndrome from scratch after
      toggling error bit (k, j). */
  lemma FlipColumnIsRecompute(H: Code, e: seq<seq<Bit>>, L: nat, k: nat, j: nat)
    requires |H.columns| == 2 && |e| == 2 && 0 < L <= |e[0]| && L <= |e[1]|
    requires k < 2 && j < L && InRange(H.columns[k], 0, L)
    ensures ToggleColumn(SyndromeOf(H, e, L), H.columns[k], L, j)
         == SyndromeOf(H, e[k := e[k][j := 1 - e[k][j]]], L)
  {
    SyndromeToggle(H, e, L, k, j);
  }

  // ---------------------------------------------------------------------------
  // single_flip
  // ---------------------------------------------------------------------------

  /** The state after single_flip(k, j), stated on the whole decoder: bit
      (k, j) toggled, its column added to the syndrome, the syndrome weight
      moved by w - 2 * counter and the error weight by +1 or -1. */
  function Flipped(H: Code, w: nat, L: nat, dec: Decoder, k: nat, j: nat): (r: Decoder)
    requires 0 < L && |H.columns| == 2 && k < 2 && j < L
    requires |dec.bits| == 2 && |dec.bits[k]| == L && |dec.syndrome.vec| >= L
    requires |dec.e.vec| == 2 && |dec.e.vec[k]| >= L
    ensures r.iter == dec.iter && r.blocked == dec.blocked && r.e.vec == dec.e.vec
  {
    var b := 1 - dec.bits[k][j];
    var c := H.columns[k];
    Decoder(
      dec.bits[k := dec.bits[k][j := b]],
      Syndrome(ToggleColumn(dec.syndrome.vec, c, L, j),
               dec.syndrome.weight + w - 2 * ColumnHits(c, dec.syndrome.vec, L, j)),
      dec.e.(weight := dec.e.weight + 2 * Xor(b, dec.e.vec[k][j]) - 1),
      dec.iter, dec.blocked)
  }

  /** single_flip: counter first, then the column flip, then the two weights. */
  method SingleFlip(H: Code, w: nat, L: nat, ghost s0: seq<Bit>, dec: Decoder, k: nat, j: nat) returns (r: Decoder)
    requires Consistent(H, w, L, s0, dec) && k < 2 && j < L
    ensures r == Flipped(H, w, L, dec, k, j)
    ensures Consistent(H, w, L, s0, r)
    ensures r.bits == dec.bits[k := dec.bits[k][j := 1 - dec.bits[k][j]]]
  {
    ConsistentColumn(H, w, L, s0, dec, k);
    r := ApplyFlip(H, w, L, dec, k, j);
    FlippedConsistent(H, w, L, s0, dec, k, j);
  }

  lemma ConsistentColumn(H: Code, w: nat, L: nat, s0: seq<Bit>, dec: Decoder, k: nat)
    requires Consistent(H, w, L, s0, dec) && k < 2
    ensures NonDecreasing(H.columns[k]) && InRange(H.columns[k], 0, L) && |H.columns[k]| <= 255
  {
    StrictIsNonDecreasing(H.columns[k]);
  }

  method ApplyFlip(H: Code, w: nat, L: nat, dec: Decoder, k: nat, j: nat) returns (r: Decoder)
    requires 0 < L && |H.columns| == 2 && k < 2 && j < L
    requires NonDecreasing(H.columns[k]) && InRange(H.columns[k], 0, L) && |H.columns[k]| <= 255
    requires |dec.bits| == 2 && |dec.bits[k]| == L && |dec.syndrome.vec| >= L
    requires |dec.e.vec| == 2 && |dec.e.vec[k]| >= L
    ensures r == Flipped(H, w, L, dec, k, j)
  {
    var counter := GetCounter(dec.syndrome.vec, H.columns[k], j, L);
    var vec := FlipColumn(dec.syndrome.vec, H.columns[k], j, L);
    var b := 1 - dec.bits[k][j];
    var bits := dec.bits[k := dec.bits[k][j := b]];
    var sweight := dec.syndrome.weight + w - 2 * counter;
    var eweight := dec.e.weight + 2 * Xor(b, dec.e.vec[k][j]) - 1;
    r := Decoder(bits, Syndrome(vec, sweight), dec.e.(weight := eweight), dec.iter, dec.blocked);
  }

  lemma FlippedConsistent(H: Code, w: nat, L: nat, s0: seq<Bit>, dec: Decoder, k: nat, j: nat)
    requires Consistent(H, w, L, s0, dec) && k < 2 && j < L
    ensures Consistent(H, w, L, s0, Flipped(H, w, L, dec, k, j))
  {
    FlippedTracksSyndrome(H, w, L, s0, dec, k, j);
    FlippedTracksWeight(H, w, L, dec, k, j);
    FlippedTracksError(H, w, L, dec, k, j);
  }

  lemma FlippedTracksSyndrome(H: Code, w: nat, L: nat, s0: seq<Bit>, dec: Decoder, k: nat, j: nat)
    requires |H.columns| == 2 && 0 < L && |s0| == L && k < 2 && j < L && InRange(H.columns[k], 0, L)
    requires |dec.bits| == 2 && |dec.bits[0]| == L && |dec.bits[1]| == L && |dec.syndrome.vec| == 2 * L
    requires |dec.e.vec| == 2 && |dec.e.vec[k]| >= L
    requires forall p :: 0 <= p < L ==> dec.syndrome.vec[p] == Xor(s0[p], SyndromeOf(H, dec.bits, L)[p])
    ensures forall p :: 0 <= p < L ==>
      Flipped(H, w, L, dec, k, j).syndrome.vec[p] == Xor(s0[p], SyndromeOf(H, Flipped(H, w, L, dec, k, j).bits, L)[p])
  {
    var r := Flipped(H, w, L, dec, k, j);
    assert r.bits == dec.bits[k := dec.bits[k][j := 1 - dec.bits[k][j]]];
    assert r.syndrome.vec == ToggleColumn(dec.syndrome.vec, H.columns[k], L, j);
    FlippedSyndrome(H, L, s0, dec.bits, dec.syndrome.vec, k, j);
  }

  lemma FlippedTracksWeight(H: Code, w: nat, L: nat, dec: Decoder, k: nat, j: nat)
    requires |H.columns| == 2 && 0 < L && k < 2 && j < L
    requires IsBlock(H.columns[k], w, L)
    requires |dec.bits| == 2 && |dec.bits[k]| == L && |dec.syndrome.vec| == 2 * L
    requires |dec.e.vec| == 2 && |dec.e.vec[k]| >= L
    requires dec.syndrome.weight == Popcount(dec.syndrome.vec[..L])
    ensures Flipped(H, w, L, dec, k, j).syndrome.weight == Popcount(Flipped(H, w, L, dec, k, j).syndrome.vec[..L])
  {
    var r := Flipped(H, w, L, dec, k, j);
    assert r.syndrome.vec == ToggleColumn(dec.syndrome.vec, H.columns[k], L, j);
    ToggleColumnPopcount(dec.syndrome.vec, H.columns[k], L, j);
  }

  lemma FlippedTracksError(H: Code, w: nat, L: nat, dec: Decoder, k: nat, j: nat)
    requires |H.columns| == 2 && 0 < L && k < 2 && j < L
    requires |dec.bits| == 2 && |dec.bits[0]| == L && |dec.bits[1]| == L && |dec.syndrome.vec| == 2 * L
    requires |dec.e.vec| == 2 && |dec.e.vec[0]| == 2 * L && |dec.e.vec[1]| == 2 * L
    requires dec.e.weight == ErrorDistance(dec.bits, dec.e.vec, L)
    ensures Flipped(H, w, L, dec, k, j).e.weight
         == ErrorDistance(Flipped(H, w, L, dec, k, j).bits, Flipped(H, w, L, dec, k, j).e.vec, L)
  {
    var r := Flipped(H, w, L, dec, k, j);
    assert r.bits == dec.bits[k := dec.bits[k][j := 1 - dec.bits[k][j]]];
    assert r.e.weight == dec.e.weight + 2 * Xor(1 - dec.bits[k][j], dec.e.vec[k][j]) - 1;
    FlippedErrorWeight(dec.bits, dec.e.vec, L, k, j);
  }

  lemma FlippedSyndrome(H: Code, L: nat, s0: seq<Bit>, bits: seq<seq<Bit>>, v: seq<Bit>, k: nat, j: nat)
    requires |H.columns| == 2 && 0 < L && |s0| == L && |v| >= L && k < 2 && j < L
    requires |bits| == 2 && |bits[0]| == L && |bits[1]| == L && InRange(H.columns[k], 0, L)
    requires forall p :: 0 <= p < L ==> v[p] == Xor(s0[p], SyndromeOf(H, bits, L)[p])
    ensures forall p :: 0 <= p < L ==>
      ToggleColumn(v, H.columns[k], L, j)[p] == Xor(s0[p], SyndromeOf(H, bits[k := bits[k][j := 1 - bits[k][j]]], L)[p])
  {
    SyndromeToggle(H, bits, L, k, j);
    forall p | 0 <= p < L
      ensures ToggleColumn(v, H.columns[k], L, j)[p] == Xor(s0[p], SyndromeOf(H, bits[k := bits[k][j := 1 - bits[k][j]]], L)[p])
    {
      var t := Touches(H.columns[k], L, j, p);
      var sb := SyndromeOf(H, bits, L)[p];
      ModAddLeft((s0[p] as int) + sb, t, 2);
      ModAddLeft(sb + t, s0[p], 2);
    }
  }

  lemma FlippedErrorWeight(bits: seq<seq<Bit>>, e: seq<seq<Bit>>, L: nat, k: nat, j: nat)
    requires |bits| == 2 && |e| == 2 && |bits[0]| == L && |bits[1]| == L && L <= |e[0]| && L <= |e[1]|
    requires k < 2 && j < L
    ensures ErrorDistance(bits[k := bits[k][j := 1 - bits[k][j]]], e, L)
         == ErrorDistance(bits, e, L) + 2 * Xor(1 - bits[k][j], e[k][j]) - 1
  {
    DistanceToggle(bits[k], e[k][..L], j);
  }

  /** Toggling one bit of a against b moves their distance by +1 when they now
      differ there and by -1 when they now agree. */
  lemma DistanceToggle(a: seq<Bit>, b: seq<Bit>, j: nat)
    requires |a| == |b| && j < |a|
    ensures Distance(a[j := 1 - a[j]], b) == Distance(a, b) + 2 * Xor(1 - a[j], b[j]) - 1
  {
    var x := XorVec(a, b);
    assert XorVec(a[j := 1 - a[j]], b) == x[j := 1 - x[j]];
    PopcountToggle(x, j);
  }

  /** Flipping the same bit twice restores the whole state. */
  lemma FlippedTwice(H: Code, w: nat, L: nat, s0: seq<Bit>, dec: Decoder, k: nat, j: nat)
    requires Consistent(H, w, L, s0, dec) && k < 2 && j < L
    ensures Flipped(H, w, L, Flipped(H, w, L, dec, k, j), k, j) == dec
  {
    var once := Flipped(H, w, L, dec, k, j);
    var twice := Flipped(H, w, L, once, k, j);
    var c := H.columns[k];
    TwiceBits(dec.bits, k, j);
    assert twice.bits == dec.bits;
    TwiceColumn(dec.syndrome.vec, c, L, j);
    ColumnHitsComplement(c, dec.syndrome.vec, once.syndrome.vec, L, j);
    assert |c| == w;
    assert twice.syndrome == dec.syndrome;
    var x := dec.e.vec[k][j];
    assert Xor(1 - dec.bits[k][j], x) + Xor(dec.bits[k][j], x) == 1;
    assert twice.e == dec.e;
  }

  lemma TwiceBits(bits: seq<seq<Bit>>, k: nat, j: nat)
    requires k < |bits| && j < |bits[k]|
    ensures var once := bits[k := bits[k][j := 1 - bits[k][j]]];
      once[k := once[k][j := 1 - once[k][j]]] == bits
  {
    var once := bits[k := bits[k][j := 1 - bits[k][j]]];
    assert once[k][j := 1 - once[k][j]] == bits[k];
  }

  lemma TwiceColumn(v: seq<Bit>, c: seq<int>, L: nat, j: int)
    requires 0 < L <= |v|
    ensures ToggleColumn(ToggleColumn(v, c, L, j), c, L, j) == v
  {
    var once := ToggleColumn(v, c, L, j);
    forall p | 0 <= p < |v|
      ensures ToggleColumn(once, c, L, j)[p] == v[p]
    {
      if p < L {
        var t := Touches(c, L, j, p);
        ModAddLeft(v[p] + t, t, 2);
        DivUnique(v[p] + 2 * t, t, v[p], 2);
      }
    }
  }

  /** Once the column has been added, it meets exactly the checks it met before
      with their values complemented. */
  lemma ColumnHitsComplement(c: seq<int>, v: seq<Bit>, v': seq<Bit>, L: nat, j: int)
    requires 0 < L <= |v| && StrictlyIncreasing(c) && InRange(c, 0, L)
    requires v' == ToggleColumn(v, c, L, j)
    ensures ColumnHits(c, v', L, j) == |c| - ColumnHits(c, v, L, j)
  {
    forall l | 0 <= l < |c|
      ensures v'[(j + c[l]) % L] == 1 - v[(j + c[l]) % L]
    {
      var p := (j + c[l]) % L;
      TouchesDistinct(c, L, j, p);
    }
    ColumnHitsOfComplement(c, v, v', L, j);
  }

  lemma {:induction false} ColumnHitsOfComplement(c: seq<int>, v: seq<Bit>, v': seq<Bit>, L: nat, j: int)
    requires 0 < L <= |v| && L <= |v'|
    requires forall l :: 0 <= l < |c| ==> v'[(j + c[l]) % L] == 1 - v[(j + c[l]) % L]
    ensures ColumnHits(c, v', L, j) == |c| - ColumnHits(c, v, L, j)
  {
    if |c| > 0 {
      var init := c[..|c| - 1];
      assert forall l :: 0 <= l < |init| ==> init[l] == c[l];
      ColumnHitsOfComplement(init, v, v', L, j);
    }
  }

  // ---------------------------------------------------------------------------
  // Threshold passes shared by the CLASSIC, BACKFLIP and GRAY variants
  // ---------------------------------------------------------------------------

  /** 1 when a counter reaches the threshold. */
  function Reaches(counter: int, threshold: int): (b: Bit)
    ensures b == 1 <==> counter >= threshold
  {
    if counter >= threshold then 1 else 0
  }

  /** Block b after the first n positions have been passed over: position i
      toggled exactly when i < n and its counter reaches the threshold. */
  function Passed(b: seq<Bit>, c: seq<int>, threshold: int, n: nat): (r: seq<Bit>)
    requires |c| == |b|
    ensures |r| == |b|
  {
    seq(|b|, i requires 0 <= i < |b| => if i < n then Xor(b[i], Reaches(c[i], threshold)) else b[i])
  }

  lemma PassedStep(b: seq<Bit>, c: seq<int>, threshold: int, n: nat)
    requires |c| == |b| && n < |b|
    ensures Passed(b, c, threshold, n + 1)
         == if c[n] >= threshold then Passed(b, c, threshold, n)[n := 1 - b[n]] else Passed(b, c, threshold, n)
  {
  }

  lemma PassedNone(b: seq<Bit>, c: seq<int>, threshold: int)
    requires |c| == |b|
    ensures Passed(b, c, threshold, 0) == b
  {
  }

  /** Whether one of the first n counters reaches the threshold, i.e. whether
      passing over them flips anything. */
  function AnyReaches(c: seq<int>, threshold: int, n: nat): bool
    requires n <= |c|
  {
    n > 0 && (AnyReaches(c, threshold, n - 1) || c[n - 1] >= threshold)
  }

  lemma {:induction false} AnyReachesMeans(c: seq<int>, threshold: int, n: nat)
    requires n <= |c|
    ensures AnyReaches(c, threshold, n) <==> exists j :: 0 <= j < n && c[j] >= threshold
  {
    if n > 0 {
      AnyReachesMeans(c, threshold, n - 1);
    }
  }

  // ---------------------------------------------------------------------------
  // reset_decoder and the meaning of the invariant
  // ---------------------------------------------------------------------------

  /** reset_decoder: no flips, iteration count 0. */
  function ResetDecoder(dec: Decoder, L: nat): (r: Decoder)
    ensures r.syndrome == dec.syndrome && r.e == dec.e && r.blocked == dec.blocked
    ensures |r.bits| == 2 && |r.bits[0]| == L && |r.bits[1]| == L
    ensures forall i, j :: 0 <= i < 2 && 0 <= j < L ==> r.bits[i][j] == 0
    ensures r.iter == 0
  {
    dec.(bits := [Zeros(L), Zeros(L)], iter := 0)
  }

  /** Decoding starts consistent: after reset, with the syndrome computed and
      the error weight recorded, the invariant holds relative to that syndrome. */
  lemma ResetConsistent(H: Code, w: nat, L: nat, dec: Decoder)
    requires WellFormed(H, w, L)
    requires |dec.syndrome.vec| == 2 * L && dec.syndrome.weight == Popcount(dec.syndrome.vec[..L])
    requires |dec.e.vec| == 2 && |dec.e.vec[0]| == 2 * L && |dec.e.vec[1]| == 2 * L
    requires dec.e.weight == Popcount(dec.e.vec[0][..L]) + Popcount(dec.e.vec[1][..L])
    ensures Consistent(H, w, L, dec.syndrome.vec[..L], ResetDecoder(dec, L))
  {
    var r := ResetDecoder(dec, L);
    forall p | 0 <= p < L
      ensures SyndromeOf(H, r.bits, L)[p] == 0
    {
      HitsOfZeros(H.columns[0], L, p);
      HitsOfZeros(H.columns[1], L, p);
    }
    DistanceFromZero(dec.e.vec[0][..L]);
    DistanceFromZero(dec.e.vec[1][..L]);
  }

  lemma {:induction false} HitsOfZeros(x: seq<int>, L: nat, p: int)
    requires 0 < L
    ensures Hits(x, Zeros(L), L, p) == 0
  {
    if |x| > 0 {
      HitsOfZeros(x[..|x| - 1], L, p);
    }
  }

  lemma DistanceFromZero(b: seq<Bit>)
    ensures Distance(Zeros(|b|), b) == Popcount(b)
  {
    assert XorVec(Zeros(|b|), b) == b;
  }

  /** The meaning of the invariant when s0 is the syndrome of the error: the
      current syndrome is the syndrome of the residual error e + bits, and the
      error weight is zero exactly when the flips equal the error. */
  lemma ConsistentMeaning(H: Code, w: nat, L: nat, dec: Decoder)
    requires 0 < L && |H.columns| == 2 && |dec.e.vec| == 2 && |dec.e.vec[0]| == 2 * L && |dec.e.vec[1]| == 2 * L
    requires Consistent(H, w, L, SyndromeOf(H, dec.e.vec, L), dec)
    ensures dec.syndrome.vec[..L]
         == SyndromeOf(H, [XorVec(dec.e.vec[0][..L], dec.bits[0]), XorVec(dec.e.vec[1][..L], dec.bits[1])], L)
    ensures dec.e.weight == 0 <==> dec.bits[0] == dec.e.vec[0][..L] && dec.bits[1] == dec.e.vec[1][..L]
  {
    var e := dec.e.vec;
    var eL := [e[0][..L], e[1][..L]];
    assert SyndromeOf(H, e, L) == SyndromeOf(H, eL, L) by {
      forall p | 0 <= p < L
        ensures SyndromeOf(H, e, L)[p] == SyndromeOf(H, eL, L)[p]
      {
        HitsPrefix(H.columns[0], e[0], eL[0], L, p);
        HitsPrefix(H.columns[1], e[1], eL[1], L, p);
      }
    }
    SyndromeLinear(H, eL, dec.bits, L);
    var residual := SyndromeOf(H, [XorVec(eL[0], dec.bits[0]), XorVec(eL[1], dec.bits[1])], L);
    var sb := SyndromeOf(H, dec.bits, L);
    forall p | 0 <= p < L
      ensures dec.syndrome.vec[..L][p] == residual[p]
    {
      assert dec.syndrome.vec[p] == Xor(SyndromeOf(H, e, L)[p], sb[p]);
    }
    ErrorWeightZero(dec.bits, e, L);
  }

  /** The error weight is zero exactly when the flips equal both error blocks. */
  lemma ErrorWeightZero(bits: seq<seq<Bit>>, e: seq<seq<Bit>>, L: nat)
    requires |bits| == 2 && |e| == 2 && |bits[0]| == L && |bits[1]| == L && L <= |e[0]| && L <= |e[1]|
    ensures ErrorDistance(bits, e, L) == 0 <==> bits[0] == e[0][..L] && bits[1] == e[1][..L]
  {
    SuccessMeansEqual(bits[0], e[0][..L]);
    SuccessMeansEqual(bits[1], e[1][..L]);
  }

  lemma SuccessMeansEqual(a: seq<Bit>, b: seq<Bit>)
    requires |a| == |b|
    ensures Distance(a, b) == 0 <==> a == b
  {
    if Distance(a, b) == 0 {
      PopcountZeroIsZeros(XorVec(a, b));
      forall i | 0 <= i < |a| ensures a[i] == b[i] {
        assert XorVec(a, b)[i] == 0;
      }
    }
    if a == b {
      assert XorVec(a, b) == Zeros(|a|);
      PopcountZeros(|a|);
    }
  }
}
