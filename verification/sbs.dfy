/** The step-by-step (SBS) variant of qcmdpc_decode (src/decoder.c), also the
    final stage of SORT. Each iteration draws a random unsatisfied check i,
    a random block k and a random offset l of row k, and flips the bit
    j = i + rows[k][l] (mod L) when its counter reaches the threshold. After
    more than 2L misses the counters are recomputed and the decoder gives up
    when none reaches the threshold.

    The PRNG draws are oracle values (`Pick`): the rejection loop's tries for
    i, then k and l. A finite list of tries stands for the source's unbounded
    retry loop; when it holds no unsatisfied check the model reports a stall. */
module SbsDecoder {
  import opened Bits
  import opened Cyclic
  import opened QcCode
  import opened Kernel

  // ---------------------------------------------------------------------------
  // One iteration
  // ---------------------------------------------------------------------------

  /** The rejection loop `do i = random_lim(L) while (!syndrome[i])`, over a
      finite list of tries: the first try that hits a syndrome one. */
  method PickUnsatisfied(syndrome: seq<Bit>, tries: seq<nat>, L: nat) returns (found: bool, i: nat, n: nat)
    requires L <= |syndrome| && forall t :: 0 <= t < |tries| ==> tries[t] < L
    ensures found ==> n < |tries| && i == tries[n] && i < L && syndrome[i] == 1
    ensures found ==> forall t :: 0 <= t < n ==> syndrome[tries[t]] == 0
    ensures !found ==> forall t :: 0 <= t < |tries| ==> syndrome[tries[t]] == 0
  {
    n := 0;
    while n < |tries| && syndrome[tries[n]] == 0
      invariant 0 <= n <= |tries|
      invariant forall t :: 0 <= t < n ==> syndrome[tries[t]] == 0
    {
      n := n + 1;
    }
    found := n < |tries|;
    i := if found then tries[n] else 0;
  }

  /** j = i + rows[k][l], reduced once by BLOCK_LENGTH. */
  function Candidate(H: Code, L: nat, i: nat, k: nat, l: nat): (j: int)
    requires |H.rows| == 2 && k < 2 && l < |H.rows[k]|
  {
    var j := i + H.rows[k][l];
    if j >= L then j - L else j
  }

  /** The candidate is a position of the block, (i + rows[k][l]) mod L, and
      it takes part in check i, so its counter is at least one. */
  lemma CandidateMeans(H: Code, w: nat, L: nat, syndrome: seq<Bit>, i: nat, k: nat, l: nat)
    requires WellFormed(H, w, L) && i < L <= |syndrome| && k < 2 && l < w
    ensures 0 <= Candidate(H, L, i, k, l) < L
    ensures Candidate(H, L, i, k, l) == (i + H.rows[k][l]) % L
    ensures syndrome[i] == 1 ==> ColumnHits(H.columns[k], syndrome, L, Candidate(H, L, i, k, l)) >= 1
  {
    var j := Candidate(H, L, i, k, l);
    CandidateMod(H, w, L, i, k, l);
    if syndrome[i] == 1 {
      HitsAtLeast(H.rows[k], syndrome, L, j, l);
      CountersMatchColumns(H, w, L, syndrome, k, j);
    }
  }

  /** The wrap of the candidate is a reduction mod L, and undoing the row
      offset gives the check back. */
  lemma CandidateMod(H: Code, w: nat, L: nat, i: nat, k: nat, l: nat)
    requires WellFormed(H, w, L) && i < L && k < 2 && l < w
    ensures 0 <= Candidate(H, L, i, k, l) < L
    ensures Candidate(H, L, i, k, l) == (i + H.rows[k][l]) % L
    ensures (Candidate(H, L, i, k, l) - H.rows[k][l]) % L == i
  {
    WellFormedRows(H, w, L);
    var r := H.rows[k][l];
    var j := Candidate(H, L, i, k, l);
    assert 0 <= r < L;
    if j == i + r - L {
      DivUnique(i + r, 1, j, L);
      DivUnique(j - r, -1, i, L);
    } else {
      DivUnique(i + r, 0, j, L);
      DivUnique(j - r, 0, i, L);
    }
  }

  /** Every term of a counter is at most the counter. */
  lemma {:induction false} HitsAtLeast(x: seq<int>, y: seq<Bit>, L: nat, j: int, l: nat)
    requires 0 < L <= |y| && l < |x|
    ensures Hits(x, y, L, j) >= y[(j - x[l]) % L]
  {
    var init := x[..|x| - 1];
    HitsBounds(init, y, L, j);
    if l < |x| - 1 {
      HitsAtLeast(init, y, L, j, l);
      assert init[l] == x[l];
    }
  }

  /** The body of the loop after the draws: flip the candidate when
      get_counter reaches the threshold. */
  method Step(H: Code, w: nat, L: nat, ghost s0: seq<Bit>, dec: Decoder, i: nat, k: nat, l: nat, threshold: int)
    returns (r: Decoder, flipped: bool)
    requires WellFormed(H, w, L) && Consistent(H, w, L, s0, dec) && i < L && k < 2 && l < w
    requires dec.syndrome.vec[i] == 1
    ensures var j := Candidate(H, L, i, k, l);
      0 <= j < L
      && (flipped <==> ColumnHits(H.columns[k], dec.syndrome.vec, L, j) >= threshold)
      && (flipped ==> r == Flipped(H, w, L, dec, k, j))
    ensures !flipped ==> r == dec
    ensures threshold <= 1 ==> flipped
    ensures Consistent(H, w, L, s0, r)
  {
    CandidateMeans(H, w, L, dec.syndrome.vec, i, k, l);
    var j := Candidate(H, L, i, k, l);
    ConsistentColumn(H, w, L, s0, dec, k);
    var counter := GetCounter(dec.syndrome.vec, H.columns[k], j, L);
    flipped := counter >= threshold;
    if flipped {
      r := SingleFlip(H, w, L, s0, dec, k, j);
    } else {
      r := dec;
    }
  }

  /** The scan after too many misses: whether some counter reaches the
      threshold (the source's `found`). */
  method AnyCounterReaches(counters: seq<seq<int>>, threshold: int, L: nat) returns (found: bool)
    requires |counters| == 2 && |counters[0]| == L && |counters[1]| == L
    ensures found <==> exists k, j :: 0 <= k < 2 && 0 <= j < L && counters[k][j] >= threshold
  {
    found := false;
    var k := 0;
    while k < 2 && !found
      invariant 0 <= k <= 2
      invariant found <==> exists k', j :: 0 <= k' < k && 0 <= j < L && counters[k'][j] >= threshold
    {
      var j := 0;
      while j < L && !found
        invariant 0 <= j <= L
        invariant found <==> (exists k', j' :: 0 <= k' < k && 0 <= j' < L && counters[k'][j'] >= threshold)
                             || (exists j' :: 0 <= j' < j && counters[k][j'] >= threshold)
      {
        found := found || counters[k][j] >= threshold;
        j := j + 1;
      }
      k := k + 1;
    }
  }

  /** No counter of the current syndrome reaches `threshold`. */
  ghost predicate AllBelow(H: Code, L: nat, dec: Decoder, threshold: int)
    requires 0 < L <= |dec.syndrome.vec| && |H.rows| == 2
  {
    forall k, j :: 0 <= k < 2 && 0 <= j < L ==> Hits(H.rows[k], dec.syndrome.vec, L, j) < threshold
  }

  /** The check after more than 2L misses: recompute the counters (mirroring
      the syndrome) and report whether one reaches the cached threshold. */
  method Rescan(H: Code, w: nat, L: nat, ghost s0: seq<Bit>, dec: Decoder, threshold: int)
    returns (r: Decoder, found: bool)
    requires WellFormed(H, w, L) && Consistent(H, w, L, s0, dec)
    ensures Consistent(H, w, L, s0, r)
    ensures r == dec.(syndrome := r.syndrome) && r.syndrome.weight == dec.syndrome.weight
    ensures r.syndrome.vec[..L] == dec.syndrome.vec[..L]
    ensures !found <==> AllBelow(H, L, r, threshold)
  {
    WellFormedRows(H, w, L);
    var counters, mirrored := ComputeCounters(dec.syndrome.vec, H, w, L);
    ConsistentUpperHalf(H, w, L, s0, dec, mirrored);
    r := dec.(syndrome := dec.syndrome.(vec := mirrored));
    found := AnyCounterReaches(counters, threshold, L);
    forall k, j | 0 <= k < 2 && 0 <= j < L
      ensures Hits(H.rows[k], mirrored, L, j) == counters[k][j]
    {
      HitsPrefix(H.rows[k], dec.syndrome.vec, mirrored, L, j);
    }
  }

  // ---------------------------------------------------------------------------
  // The loop
  // ---------------------------------------------------------------------------

  /** Why the loop ended. */
  datatype Exit = Exhausted | Stopped | NoCandidate | Stalled

  /** qcmdpc_decode (SBS), or qcmdpc_decode_sbs for SORT. `thr` is
      compute_threshold(S, t) and `picks[n]` the draws of the n-th iteration
      that reaches them. Returns, besides the verdict, why the loop ended and
      the threshold it cached last. */
  method Decode(H: Code, w: nat, L: nat, ghost s0: seq<Bit>, dec0: Decoder, maxIter: int, stop: int,
                thr: (int, int) -> int, picks: seq<Pick>)
    returns (ok: bool, dec: Decoder, exit: Exit, threshold: int)
    requires WellFormed(H, w, L) && Consistent(H, w, L, s0, dec0)
    requires forall n :: 0 <= n < |picks| ==> PickInRange(picks[n], w, L)
    ensures Consistent(H, w, L, s0, dec) && dec.e.vec == dec0.e.vec
    ensures ok <==> dec.e.weight == 0
    ensures s0 == SyndromeOf(H, dec0.e.vec, L) ==>
      (ok <==> dec.bits[0] == dec.e.vec[0][..L] && dec.bits[1] == dec.e.vec[1][..L])
    ensures exit == Exhausted ==> dec.iter >= maxIter
    ensures exit == Stopped ==> dec.syndrome.weight == stop
    ensures exit == NoCandidate ==> AllBelow(H, L, dec, threshold)
    ensures dec.blocked ==> threshold == thr(dec.syndrome.weight, dec.e.weight)
    ensures dec0.iter <= dec.iter && (dec.iter <= maxIter || dec.iter == dec0.iter)
    ensures dec0.iter >= maxIter ==> dec == dec0.(blocked := false) && exit == Exhausted
  {
    dec := dec0.(blocked := false);
    threshold := 0;
    var missed := 0;
    var n := 0;
    exit := Exhausted;
    while dec.iter < maxIter && dec.syndrome.weight != stop
      invariant Consistent(H, w, L, s0, dec) && dec.e.vec == dec0.e.vec
      invariant dec0.iter <= dec.iter && (dec.iter <= maxIter || dec.iter == dec0.iter)
      invariant dec.blocked ==> threshold == thr(dec.syndrome.weight, dec.e.weight)
      invariant dec0.iter >= maxIter ==> dec == dec0.(blocked := false)
      invariant 0 <= n <= |picks| && exit == Exhausted
      decreases maxIter - dec.iter
    {
      dec := dec.(iter := dec.iter + 1);
      if missed > 2 * L {
        var found;
        dec, found := Rescan(H, w, L, s0, dec, threshold);
        if !found {
          exit := NoCandidate;
          break;
        }
        missed := 0;
      }
      if !dec.blocked {
        threshold := thr(dec.syndrome.weight, dec.e.weight);
      }
      dec := dec.(blocked := true);
      if n == |picks| {
        exit := Stalled;
        break;
      }
      var pick := picks[n];
      n := n + 1;
      var found, i, _ := PickUnsatisfied(dec.syndrome.vec, pick.tries, L);
      if !found {
        exit := Stalled;
        break;
      }
      var flipped;
      dec, flipped := Step(H, w, L, s0, dec, i, pick.k, pick.l, threshold);
      if flipped {
        dec := dec.(blocked := false);
      } else {
        missed := missed + 1;
      }
    }
    if exit == Exhausted && dec.iter < maxIter {
      exit := Stopped;
    }
    ok := dec.e.weight == 0;
    if s0 == SyndromeOf(H, dec0.e.vec, L) {
      ConsistentMeaning(H, w, L, dec);
    }
  }

  /** The draws of one iteration: random_lim(BLOCK_LENGTH) until a syndrome
      one is hit, then random_lim(INDEX) and random_lim(BLOCK_WEIGHT). */
  datatype Pick = Pick(tries: seq<nat>, k: nat, l: nat)

  /** Every draw lies in the range random_lim (exclusive) gives it. */
  predicate PickInRange(p: Pick, w: nat, L: nat)
  {
    (forall t :: 0 <= t < |p.tries| ==> p.tries[t] < L) && p.k < 2 && p.l < w
  }

}
