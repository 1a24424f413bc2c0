/** The GRAY variants of qcmdpc_decode (src/decoder.c, ALGO GRAY_B, GRAY_BG,
    GRAY_BGF and GRAY_BGB). One round computes every counter, flips in
    index-major order the positions whose counter reaches the affine
    threshold (the black positions), and remembers the positions that missed
    it by at most GRAY_DELTA (the gray positions). Extra steps then recount
    the black, and for some variants the gray, positions against the current
    syndrome and flip those whose counter reaches (w + 1) / 2 + 1. Every step
    counts as one iteration. */
module GrayDecoder {
  import opened Bits
  import opened Cyclic
  import opened QcCode
  import opened Kernel

  /** GRAY_DELTA. */
  const GrayDelta: int := 3

  datatype Variant = GrayB | GrayBG | GrayBGF | GrayBGB

  /** One entry of a struct array list: block index and position. */
  datatype Cell = Cell(k: nat, j: nat)

  /** The counter ranges that make a position black or gray. */
  datatype Band = AtLeast(lo: int) | Between(lo: int, hi: int)

  predicate InBand(counter: int, band: Band)
  {
    match band
    case AtLeast(lo) => lo <= counter
    case Between(lo, hi) => lo <= counter < hi
  }

  /** A black position reaches the threshold. */
  function BlackBand(thr: int): Band
  {
    AtLeast(thr)
  }

  /** A gray position misses it, but counter + GRAY_DELTA reaches it. */
  function GrayBand(thr: int): Band
  {
    Between(thr - GrayDelta, thr)
  }

  /** The threshold of the recheck steps, (BLOCK_WEIGHT + 1) / 2 + 1. */
  function RecheckThreshold(w: nat): int
  {
    Threshold.Majority(w) + 1
  }

  // ---------------------------------------------------------------------------
  // The black and gray lists
  // ---------------------------------------------------------------------------

  /** The positions j < n of block k whose counter lies in the band, in
      increasing order: what one k iteration of the main pass appends. */
  function Select(c: seq<int>, band: Band, k: nat, n: nat): (r: seq<Cell>)
    requires n <= |c|
    ensures |r| <= n
    ensures forall i :: 0 <= i < |r| ==> r[i].k == k && r[i].j < n && InBand(c[r[i].j], band)
    ensures forall a, b :: 0 <= a < b < |r| ==> r[a].j < r[b].j
  {
    if n == 0 then []
    else
      var prev := Select(c, band, k, n - 1);
      if InBand(c[n - 1], band) then prev + [Cell(k, n - 1)] else prev
  }

  /** Every position of the band is listed: with Select's own contract, a
      cell is listed exactly when its counter lies in the band. */
  lemma {:induction false} SelectComplete(c: seq<int>, band: Band, k: nat, n: nat, j: nat)
    requires n <= |c| && j < n && InBand(c[j], band)
    ensures Cell(k, j) in Select(c, band, k, n)
  {
    if j < n - 1 {
      SelectComplete(c, band, k, n - 1, j);
    }
  }

  lemma SelectMeans(c: seq<int>, band: Band, k: nat, n: nat, cell: Cell)
    requires n <= |c|
    ensures cell in Select(c, band, k, n) <==> cell.k == k && cell.j < n && InBand(c[cell.j], band)
  {
    if cell.k == k && cell.j < n && InBand(c[cell.j], band) {
      SelectComplete(c, band, k, n, cell.j);
    }
  }

  /** The whole list of one band, block 0 first. */
  function Listed(counters: seq<seq<int>>, band: Band, L: nat): (r: seq<Cell>)
    requires |counters| == 2 && |counters[0]| == L && |counters[1]| == L
  {
    Select(counters[0], band, 0, L) + Select(counters[1], band, 1, L)
  }

  predicate CellsValid(cells: seq<Cell>, L: nat)
  {
    forall i :: 0 <= i < |cells| ==> cells[i].k < 2 && cells[i].j < L
  }

  predicate Distinct(cells: seq<Cell>)
  {
    forall a, b :: 0 <= a < b < |cells| ==> cells[a] != cells[b]
  }

  /** The list of a band holds valid, pairwise distinct cells. */
  lemma ListedShape(counters: seq<seq<int>>, band: Band, L: nat)
    requires |counters| == 2 && |counters[0]| == L && |counters[1]| == L
    ensures CellsValid(Listed(counters, band, L), L) && Distinct(Listed(counters, band, L))
  {
    var s0, s1 := Select(counters[0], band, 0, L), Select(counters[1], band, 1, L);
    var s := s0 + s1;
    forall a, b | 0 <= a < b < |s| ensures s[a] != s[b] {
      if b < |s0| {
        assert s[a] == s0[a] && s[b] == s0[b];
      } else if a >= |s0| {
        assert s[a] == s1[a - |s0|] && s[b] == s1[b - |s0|];
      } else {
        assert s[a] == s0[a] && s[b] == s1[b - |s0|];
      }
    }
  }

  /** A cell is in the list of a band exactly when its counter lies in it. */
  lemma ListedMeans(counters: seq<seq<int>>, band: Band, L: nat, cell: Cell)
    requires |counters| == 2 && |counters[0]| == L && |counters[1]| == L
    ensures cell in Listed(counters, band, L) <==> cell.k < 2 && cell.j < L && InBand(counters[cell.k][cell.j], band)
  {
    SelectMeans(counters[0], band, 0, L, cell);
    SelectMeans(counters[1], band, 1, L, cell);
  }

  /** The black and gray lists of one round are disjoint, and a gray cell's
      counter is within GRAY_DELTA below the threshold. */
  lemma BlackGrayDisjoint(counters: seq<seq<int>>, thr: int, L: nat, cell: Cell)
    requires |counters| == 2 && |counters[0]| == L && |counters[1]| == L
    ensures !(cell in Listed(counters, BlackBand(thr), L) && cell in Listed(counters, GrayBand(thr), L))
    ensures cell in Listed(counters, GrayBand(thr), L) ==>
      cell.k < 2 && cell.j < L && thr - GrayDelta <= counters[cell.k][cell.j] < thr
  {
    ListedMeans(counters, BlackBand(thr), L, cell);
    ListedMeans(counters, GrayBand(thr), L, cell);
  }

  // ---------------------------------------------------------------------------
  // The main pass
  // ---------------------------------------------------------------------------

  /** The j loop of the main pass over block k, from position j on: flips
      the black positions with single_flip and appends them to `black`,
      appends the gray ones to `gray`. */
  method BlockFrom(H: Code, w: nat, L: nat, ghost s0: seq<Bit>, ghost b: seq<Bit>, r: Decoder,
                   counters: seq<seq<int>>, thr: int, k: nat, j: nat, black: seq<Cell>, gray: seq<Cell>)
    returns (r': Decoder, black': seq<Cell>, gray': seq<Cell>)
    requires Consistent(H, w, L, s0, r) && k < 2 && j <= L
    requires |counters| == 2 && |counters[0]| == L && |counters[1]| == L && |b| == L
    requires r.bits[k] == Passed(b, counters[k], thr, j)
    requires black == Select(counters[k], BlackBand(thr), k, j)
    requires gray == Select(counters[k], GrayBand(thr), k, j)
    ensures Consistent(H, w, L, s0, r')
    ensures r'.iter == r.iter && r'.blocked == r.blocked && r'.e.vec == r.e.vec
    ensures r'.bits[1 - k] == r.bits[1 - k]
    ensures r'.bits[k] == Passed(b, counters[k], thr, L)
    ensures black' == Select(counters[k], BlackBand(thr), k, L)
    ensures gray' == Select(counters[k], GrayBand(thr), k, L)
    ensures |black'| >= |black| && (|black'| == |black| ==> r' == r)
    decreases L - j
  {
    if j == L {
      return r, black, gray;
    }
    var r1 := ClassicDecoder.PassStep(H, w, L, s0, b, r, counters, thr, k, j);
    var black1, gray1 := black, gray;
    if counters[k][j] >= thr {
      black1 := black + [Cell(k, j)];
    } else if counters[k][j] + GrayDelta >= thr {
      gray1 := gray + [Cell(k, j)];
    }
    r', black', gray' := BlockFrom(H, w, L, s0, b, r1, counters, thr, k, j + 1, black1, gray1);
  }

  /** The k and j loops of the main pass. The source appends both blocks to
      one list; here each block's list is built and the two concatenated. */
  method MainPass(H: Code, w: nat, L: nat, ghost s0: seq<Bit>, dec: Decoder,
                  counters: seq<seq<int>>, thr: int)
    returns (r: Decoder, black: seq<Cell>, gray: seq<Cell>)
    requires Consistent(H, w, L, s0, dec)
    requires |counters| == 2 && |counters[0]| == L && |counters[1]| == L
    ensures Consistent(H, w, L, s0, r)
    ensures r.iter == dec.iter && r.blocked == dec.blocked && r.e.vec == dec.e.vec
    ensures r.bits == [Passed(dec.bits[0], counters[0], thr, L), Passed(dec.bits[1], counters[1], thr, L)]
    ensures black == Listed(counters, BlackBand(thr), L)
    ensures gray == Listed(counters, GrayBand(thr), L)
    ensures |black| == 0 ==> r == dec
  {
    PassedNone(dec.bits[0], counters[0], thr);
    var mid, b0, g0 := BlockFrom(H, w, L, s0, dec.bits[0], dec, counters, thr, 0, 0, [], []);
    PassedNone(mid.bits[1], counters[1], thr);
    var b1, g1;
    r, b1, g1 := BlockFrom(H, w, L, s0, mid.bits[1], mid, counters, thr, 1, 0, [], []);
    black := b0 + b1;
    gray := g0 + g1;
  }

  // ---------------------------------------------------------------------------
  // The recheck steps
  // ---------------------------------------------------------------------------

  /** The first loop of a recheck step: the counter of every listed cell,
      read with get_counter from the current syndrome. */
  method Recount(H: Code, w: nat, L: nat, ghost s0: seq<Bit>, dec: Decoder, cells: seq<Cell>)
    returns (cnt: seq<int>)
    requires Consistent(H, w, L, s0, dec) && CellsValid(cells, L)
    ensures |cnt| == |cells|
    ensures forall i :: 0 <= i < |cells| ==>
      cnt[i] == ColumnHits(H.columns[cells[i].k], dec.syndrome.vec, L, cells[i].j)
  {
    ConsistentColumn(H, w, L, s0, dec, 0);
    ConsistentColumn(H, w, L, s0, dec, 1);
    cnt := [];
    var i := 0;
    while i < |cells|
      invariant 0 <= i <= |cells| && |cnt| == i
      invariant forall i' :: 0 <= i' < i ==>
        cnt[i'] == ColumnHits(H.columns[cells[i'].k], dec.syndrome.vec, L, cells[i'].j)
    {
      var c := GetCounter(dec.syndrome.vec, H.columns[cells[i].k], cells[i].j, L);
      cnt := cnt + [c];
      i := i + 1;
    }
  }

  /** The counter get_counter reads for a cell from the decoder's syndrome. */
  ghost function Recounted(H: Code, dec: Decoder, L: nat, cell: Cell): int
    requires 0 < L <= |dec.syndrome.vec| && cell.k < |H.columns|
  {
    ColumnHits(H.columns[cell.k], dec.syndrome.vec, L, cell.j)
  }

  /** The flips of the first n rechecked cells applied to `bits`. */
  ghost function Toggled(bits: seq<seq<Bit>>, cells: seq<Cell>, cnt: seq<int>, t2: int, n: nat, L: nat): (r: seq<seq<Bit>>)
    requires n <= |cells| == |cnt| && CellsValid(cells, L)
    requires |bits| == 2 && |bits[0]| == L && |bits[1]| == L
    ensures |r| == 2 && |r[0]| == L && |r[1]| == L
  {
    if n == 0 then bits
    else
      var prev := Toggled(bits, cells, cnt, t2, n - 1, L);
      var c := cells[n - 1];
      if cnt[n - 1] >= t2 then prev[c.k := prev[c.k][c.j := 1 - prev[c.k][c.j]]] else prev
  }

  /** On a list without repetitions, a bit ends toggled exactly when it is
      listed with a counter reaching t2. */
  lemma {:induction false} ToggledMeans(bits: seq<seq<Bit>>, cells: seq<Cell>, cnt: seq<int>, t2: int,
                                        n: nat, L: nat, k: nat, j: nat)
    requires n <= |cells| == |cnt| && CellsValid(cells, L) && Distinct(cells)
    requires |bits| == 2 && |bits[0]| == L && |bits[1]| == L && k < 2 && j < L
    ensures Toggled(bits, cells, cnt, t2, n, L)[k][j]
      == if exists i :: 0 <= i < n && cells[i] == Cell(k, j) && cnt[i] >= t2 then 1 - bits[k][j] else bits[k][j]
  {
    if n > 0 {
      ToggledMeans(bits, cells, cnt, t2, n - 1, L, k, j);
      var here := cells[n - 1] == Cell(k, j) && cnt[n - 1] >= t2;
      if here {
        forall i | 0 <= i < n - 1
          ensures cells[i] != Cell(k, j)
        {
          assert cells[i] != cells[n - 1];
        }
      }
    }
  }

  /** One step of the second loop of a recheck step. */
  method FlipStep(H: Code, w: nat, L: nat, ghost s0: seq<Bit>, r: Decoder, ghost bits0: seq<seq<Bit>>,
                  cells: seq<Cell>, cnt: seq<int>, t2: int, i: nat)
    returns (r': Decoder)
    requires Consistent(H, w, L, s0, r) && CellsValid(cells, L) && |cnt| == |cells| && i < |cells|
    requires |bits0| == 2 && |bits0[0]| == L && |bits0[1]| == L
    requires r.bits == Toggled(bits0, cells, cnt, t2, i, L)
    ensures Consistent(H, w, L, s0, r')
    ensures r'.iter == r.iter && r'.blocked == r.blocked && r'.e.vec == r.e.vec
    ensures r'.bits == Toggled(bits0, cells, cnt, t2, i + 1, L)
    ensures cnt[i] < t2 ==> r' == r
  {
    r' := r;
    if cnt[i] >= t2 {
      r' := SingleFlip(H, w, L, s0, r, cells[i].k, cells[i].j);
    }
  }

  /** The second loop of a recheck step, from cell i on: single_flip every
      listed cell whose recount reaches t2. `flipped` is whether any did,
      which is what clears `blocked`. */
  method FlipFrom(H: Code, w: nat, L: nat, ghost s0: seq<Bit>, r: Decoder, ghost bits0: seq<seq<Bit>>,
                  cells: seq<Cell>, cnt: seq<int>, t2: int, i: nat, flippedIn: bool)
    returns (r': Decoder, flipped: bool)
    requires Consistent(H, w, L, s0, r) && CellsValid(cells, L) && |cnt| == |cells| && i <= |cells|
    requires |bits0| == 2 && |bits0[0]| == L && |bits0[1]| == L
    requires r.bits == Toggled(bits0, cells, cnt, t2, i, L)
    requires flippedIn == AnyReaches(cnt, t2, i)
    ensures Consistent(H, w, L, s0, r')
    ensures r'.iter == r.iter && r'.blocked == r.blocked && r'.e.vec == r.e.vec
    ensures r'.bits == Toggled(bits0, cells, cnt, t2, |cells|, L)
    ensures flipped == AnyReaches(cnt, t2, |cells|) && (flippedIn ==> flipped)
    ensures !flipped ==> r' == r
    decreases |cells| - i
  {
    if i == |cells| {
      return r, flippedIn;
    }
    var r1 := FlipStep(H, w, L, s0, r, bits0, cells, cnt, t2, i);
    r', flipped := FlipFrom(H, w, L, s0, r1, bits0, cells, cnt, t2, i + 1, flippedIn || cnt[i] >= t2);
  }

  /** One recheck step: recount the listed cells, then flip those whose
      recount reaches (w + 1) / 2 + 1. */
  method Recheck(H: Code, w: nat, L: nat, ghost s0: seq<Bit>, dec: Decoder, cells: seq<Cell>)
    returns (r: Decoder, flipped: bool)
    requires Consistent(H, w, L, s0, dec) && CellsValid(cells, L) && Distinct(cells)
    ensures Consistent(H, w, L, s0, r)
    ensures r.iter == dec.iter && r.blocked == dec.blocked && r.e.vec == dec.e.vec
    ensures forall k, j :: 0 <= k < 2 && 0 <= j < L ==>
      r.bits[k][j] == if Cell(k, j) in cells
                         && ColumnHits(H.columns[k], dec.syndrome.vec, L, j) >= RecheckThreshold(w)
                      then 1 - dec.bits[k][j] else dec.bits[k][j]
    ensures flipped <==> (exists i :: 0 <= i < |cells| && Recounted(H, dec, L, cells[i]) >= RecheckThreshold(w))
    ensures !flipped ==> r == dec
  {
    var cnt := Recount(H, w, L, s0, dec, cells);
    var t2 := RecheckThreshold(w);
    r, flipped := FlipFrom(H, w, L, s0, dec, dec.bits, cells, cnt, t2, 0, false);
    AnyReachesMeans(cnt, t2, |cells|);
    forall k, j | 0 <= k < 2 && 0 <= j < L
      ensures r.bits[k][j] == if Cell(k, j) in cells
                                 && ColumnHits(H.columns[k], dec.syndrome.vec, L, j) >= t2
                              then 1 - dec.bits[k][j] else dec.bits[k][j]
    {
      ToggledMeans(dec.bits, cells, cnt, t2, |cells|, L, k, j);
    }
  }

  // ---------------------------------------------------------------------------
  // Rounds and the iteration count
  // ---------------------------------------------------------------------------

  /** Whether the black recheck step runs in a round whose main pass was
      iteration `a`: always, except for GRAY_BGF after the first iteration. */
  predicate BlackStepRuns(v: Variant, a: int)
  {
    v != GrayBGF || a < 2
  }

  /** Whether the gray recheck step runs after a black step that was
      iteration `b`: never for GRAY_B, only while b < 3 for GRAY_BGB. */
  predicate GrayStepRuns(v: Variant, b: int)
  {
    match v
    case GrayB => false
    case GrayBGB => b < 3
    case _ => true
  }

  /** The iteration count after a round that started at `it`. */
  function RoundEnd(v: Variant, it: int): int
  {
    var a := it + 1;
    if !BlackStepRuns(v, a) then a
    else if !GrayStepRuns(v, a + 1) then a + 1
    else a + 2
  }

  /** A round counts one to three iterations, so the loop guard
      iter < max_iter lets the count end up to two above max_iter. */
  lemma RoundEndBounds(v: Variant, it: int, maxIter: int)
    ensures it + 1 <= RoundEnd(v, it) <= it + 3
    ensures it < maxIter ==> RoundEnd(v, it) <= maxIter + 2
  {
  }

  /** The syndrome the round's counters were computed from no longer has a
      counter reaching the round's threshold: what `blocked` means. */
  ghost predicate AllBelow(H: Code, L: nat, dec: Decoder, thr: int)
    requires 0 < L <= |dec.syndrome.vec| && |H.rows| == 2
  {
    forall k, j :: 0 <= k < 2 && 0 <= j < L ==> Hits(H.rows[k], dec.syndrome.vec, L, j) < thr
  }

  /** The recheck steps of one round, after the main pass that was
      iteration r.iter: the black step and, when it runs, the gray step, each
      counted as one more iteration. */
  method ExtraSteps(H: Code, w: nat, L: nat, ghost s0: seq<Bit>, dec: Decoder, v: Variant,
                    black: seq<Cell>, gray: seq<Cell>)
    returns (r: Decoder, flipped: bool)
    requires Consistent(H, w, L, s0, dec)
    requires CellsValid(black, L) && Distinct(black) && CellsValid(gray, L) && Distinct(gray)
    ensures Consistent(H, w, L, s0, r) && r.e.vec == dec.e.vec && r.blocked == dec.blocked
    ensures r.iter == if !BlackStepRuns(v, dec.iter) then dec.iter
                      else if !GrayStepRuns(v, dec.iter + 1) then dec.iter + 1
                      else dec.iter + 2
    ensures !flipped ==> r == dec.(iter := r.iter)
  {
    r, flipped := dec, false;
    if BlackStepRuns(v, r.iter) {
      r := r.(iter := r.iter + 1);
      r, flipped := Recheck(H, w, L, s0, r, black);
      if GrayStepRuns(v, r.iter) {
        r := r.(iter := r.iter + 1);
        var f;
        r, f := Recheck(H, w, L, s0, r, gray);
        flipped := flipped || f;
      }
    }
  }

  /** When nothing flipped, the counters the round computed are the counters
      of the syndrome it ends with, and none reached the threshold. */
  lemma BlockedBelow(H: Code, w: nat, L: nat, counters: seq<seq<int>>, before: seq<Bit>, mirrored: seq<Bit>, thr: int)
    requires WellFormed(H, w, L) && |before| == 2 * L && |mirrored| == 2 * L && mirrored[..L] == before[..L]
    requires |counters| == 2 && |counters[0]| == L && |counters[1]| == L
    requires forall i, j :: 0 <= i < 2 && 0 <= j < L ==> counters[i][j] == Hits(H.rows[i], before, L, j)
    requires |Listed(counters, BlackBand(thr), L)| == 0
    ensures forall k, j :: 0 <= k < 2 && 0 <= j < L ==> Hits(H.rows[k], mirrored, L, j) < thr
  {
    forall k, j | 0 <= k < 2 && 0 <= j < L
      ensures Hits(H.rows[k], mirrored, L, j) < thr
    {
      HitsPrefix(H.rows[k], before, mirrored, L, j);
      if counters[k][j] >= thr {
        ListedMeans(counters, BlackBand(thr), L, Cell(k, j));
      }
    }
  }

  /** One iteration of the while loop: the main pass and the recheck steps
      the variant runs. `c0` and `c1` are THRESHOLD_C0 and THRESHOLD_C1. */
  method Round(H: Code, w: nat, L: nat, ghost s0: seq<Bit>, dec: Decoder, v: Variant, c0: real, c1: real)
    returns (r: Decoder)
    requires WellFormed(H, w, L) && Consistent(H, w, L, s0, dec) && c0 >= 0.0 && c1 >= 0.0
    ensures Consistent(H, w, L, s0, r) && r.e.vec == dec.e.vec
    ensures r.iter == RoundEnd(v, dec.iter)
    ensures r.blocked ==> (r.syndrome.weight >= 0
      && AllBelow(H, L, r, Threshold.ComputeThresholdAffine(c0, c1, r.syndrome.weight, w)))
    ensures r.blocked ==> r.bits == dec.bits
  {
    WellFormedRows(H, w, L);
    var d := dec.(iter := dec.iter + 1);
    var counters, mirrored := ComputeCounters(d.syndrome.vec, H, w, L);
    ghost var before := d.syndrome.vec;
    ConsistentUpperHalf(H, w, L, s0, d, mirrored);
    d := d.(syndrome := d.syndrome.(vec := mirrored));
    var thr := Threshold.ComputeThresholdAffine(c0, c1, d.syndrome.weight, w);
    var main, black, gray := MainPass(H, w, L, s0, d, counters, thr);
    ListedShape(counters, BlackBand(thr), L);
    ListedShape(counters, GrayBand(thr), L);
    var flipped;
    r, flipped := ExtraSteps(H, w, L, s0, main, v, black, gray);
    var blocked := |black| == 0 && !flipped;
    r := r.(blocked := blocked);
    if blocked {
      BlockedBelow(H, w, L, counters, before, mirrored, thr);
    }
  }

  /** The number of slots of the success histogram, max_iter + 1 as
      allocated in src/qcmdpc_decoder.c and indexed there by dec->iter. */
  function HistogramSlots(maxIter: nat): nat
  {
    maxIter + 1
  }

  /** With GRAY_BG, a round that starts one below max_iter ends at
      max_iter + 2, which is not a slot of the histogram: a success in that
      round is counted out of bounds. */
  lemma GrayIterOverrunsHistogram(maxIter: nat)
    requires maxIter >= 1
    ensures RoundEnd(GrayBG, maxIter - 1) == maxIter + 2
    ensures !(RoundEnd(GrayBG, maxIter - 1) < HistogramSlots(maxIter))
  {
  }

  /** A histogram with a slot for every iteration count GRAY can return. */
  function GraySlots(maxIter: nat): nat
  {
    maxIter + 3
  }

  /** qcmdpc_decode, GRAY variants. */
  method Decode(H: Code, w: nat, L: nat, ghost s0: seq<Bit>, dec0: Decoder, v: Variant,
                maxIter: int, stop: int, c0: real, c1: real)
    returns (ok: bool, dec: Decoder)
    requires WellFormed(H, w, L) && Consistent(H, w, L, s0, dec0) && c0 >= 0.0 && c1 >= 0.0
    ensures Consistent(H, w, L, s0, dec) && dec.e.vec == dec0.e.vec
    ensures ok <==> dec.e.weight == 0
    ensures s0 == SyndromeOf(H, dec0.e.vec, L) ==>
      (ok <==> dec.bits[0] == dec.e.vec[0][..L] && dec.bits[1] == dec.e.vec[1][..L])
    ensures dec.iter >= maxIter || dec.syndrome.weight == stop || dec.blocked
    ensures dec.blocked ==> (dec.syndrome.weight >= 0
      && AllBelow(H, L, dec, Threshold.ComputeThresholdAffine(c0, c1, dec.syndrome.weight, w)))
    ensures dec0.iter <= dec.iter
    ensures 0 <= dec0.iter <= maxIter ==> dec.iter < GraySlots(maxIter)
    ensures dec0.iter >= maxIter ==> dec.bits == dec0.bits && dec.iter == dec0.iter && !dec.blocked
  {
    dec := dec0.(blocked := false);
    while dec.iter < maxIter && dec.syndrome.weight != stop && !dec.blocked
      invariant Consistent(H, w, L, s0, dec) && dec.e.vec == dec0.e.vec
      invariant dec0.iter <= dec.iter && (dec.iter == dec0.iter || dec.iter <= maxIter + 2)
      invariant dec.blocked ==> (dec.syndrome.weight >= 0
        && AllBelow(H, L, dec, Threshold.ComputeThresholdAffine(c0, c1, dec.syndrome.weight, w)))
      invariant dec0.iter >= maxIter ==> dec == dec0.(blocked := false)
      decreases maxIter - dec.iter
    {
      RoundEndBounds(v, dec.iter, maxIter);
      dec := Round(H, w, L, s0, dec, v, c0, c1);
    }
    ok := dec.e.weight == 0;
    if s0 == SyndromeOf(H, dec0.e.vec, L) {
      ConsistentMeaning(H, w, L, dec);
    }
  }

  import Threshold
  import ClassicDecoder
}
