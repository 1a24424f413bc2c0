/** The CLASSIC variant of qcmdpc_decode (src/decoder.c): every iteration
    recomputes all counters from the syndrome, then flips, in index-major
    order, every position whose (now possibly stale) counter reaches the
    threshold. */
module ClassicDecoder {
  import opened Bits
  import opened Cyclic
  import opened QcCode
  import opened Kernel

  /** No position's counter, read from the current syndrome, reaches the
      threshold the decoder would use in that state. */
  ghost predicate AllBelow(H: Code, L: nat, dec: Decoder, thr: (int, int) -> int)
    requires 0 < L <= |dec.syndrome.vec| && |H.rows| == 2
  {
    forall k, j :: 0 <= k < 2 && 0 <= j < L ==>
      Hits(H.rows[k], dec.syndrome.vec, L, j) < thr(dec.syndrome.weight, dec.e.weight)
  }

  /** One step of the inner loop: position (k, j) is flipped when its counter
      reaches the threshold. */
  method PassStep(H: Code, w: nat, L: nat, ghost s0: seq<Bit>, ghost b: seq<Bit>, r: Decoder,
                  counters: seq<seq<int>>, threshold: int, k: nat, j: nat)
    returns (r': Decoder)
    requires Consistent(H, w, L, s0, r) && k < 2 && j < L
    requires |counters| == 2 && |counters[0]| == L && |counters[1]| == L && |b| == L
    requires r.bits[k] == Passed(b, counters[k], threshold, j)
    ensures Consistent(H, w, L, s0, r')
    ensures r'.iter == r.iter && r'.blocked == r.blocked && r'.e.vec == r.e.vec
    ensures r'.bits[1 - k] == r.bits[1 - k]
    ensures r'.bits[k] == Passed(b, counters[k], threshold, j + 1)
    ensures counters[k][j] < threshold ==> r' == r
  {
    PassedStep(b, counters[k], threshold, j);
    if counters[k][j] >= threshold {
      r' := SingleFlip(H, w, L, s0, r, k, j);
    } else {
      r' := r;
    }
  }

  /** The inner j loop of one pass over block k: every position whose counter
      reaches the threshold is flipped with single_flip. */
  method PassBlock(H: Code, w: nat, L: nat, ghost s0: seq<Bit>, dec: Decoder,
                   counters: seq<seq<int>>, threshold: int, k: nat)
    returns (r: Decoder, flipped: bool)
    requires Consistent(H, w, L, s0, dec) && k < 2
    requires |counters| == 2 && |counters[0]| == L && |counters[1]| == L
    ensures Consistent(H, w, L, s0, r)
    ensures r.iter == dec.iter && r.blocked == dec.blocked && r.e.vec == dec.e.vec
    ensures r.bits[1 - k] == dec.bits[1 - k]
    ensures r.bits[k] == Passed(dec.bits[k], counters[k], threshold, L)
    ensures flipped <==> exists j :: 0 <= j < L && counters[k][j] >= threshold
    ensures !flipped ==> r == dec
  {
    r := dec;
    flipped := false;
    PassedNone(dec.bits[k], counters[k], threshold);
    var j := 0;
    while j < L
      invariant 0 <= j <= L
      invariant Consistent(H, w, L, s0, r)
      invariant r.iter == dec.iter && r.blocked == dec.blocked && r.e.vec == dec.e.vec
      invariant r.bits[1 - k] == dec.bits[1 - k]
      invariant r.bits[k] == Passed(dec.bits[k], counters[k], threshold, j)
      invariant flipped <==> exists j' :: 0 <= j' < j && counters[k][j'] >= threshold
      invariant !flipped ==> r == dec
    {
      r := PassStep(H, w, L, s0, dec.bits[k], r, counters, threshold, k, j);
      flipped := flipped || counters[k][j] >= threshold;
      j := j + 1;
    }
  }

  /** One full pass, k = 0 then k = 1. */
  method ThresholdPass(H: Code, w: nat, L: nat, ghost s0: seq<Bit>, dec: Decoder,
                       counters: seq<seq<int>>, threshold: int)
    returns (r: Decoder, flipped: bool)
    requires Consistent(H, w, L, s0, dec)
    requires |counters| == 2 && |counters[0]| == L && |counters[1]| == L
    ensures Consistent(H, w, L, s0, r)
    ensures r.iter == dec.iter && r.blocked == dec.blocked && r.e.vec == dec.e.vec
    ensures r.bits == [Passed(dec.bits[0], counters[0], threshold, L), Passed(dec.bits[1], counters[1], threshold, L)]
    ensures flipped <==> exists k, j :: 0 <= k < 2 && 0 <= j < L && counters[k][j] >= threshold
    ensures !flipped ==> r == dec
  {
    var mid, f0 := PassBlock(H, w, L, s0, dec, counters, threshold, 0);
    var f1;
    r, f1 := PassBlock(H, w, L, s0, mid, counters, threshold, 1);
    flipped := f0 || f1;
    if flipped {
      if f0 {
        var j :| 0 <= j < L && counters[0][j] >= threshold;
      } else {
        var j :| 0 <= j < L && counters[1][j] >= threshold;
      }
    }
  }

  /** qcmdpc_decode, CLASSIC. `thr` is compute_threshold(S, t) (whose
      floating estimate is abstracted), `stop` is SYNDROME_STOP. */
  method Decode(H: Code, w: nat, L: nat, ghost s0: seq<Bit>, dec0: Decoder,
                maxIter: int, stop: int, thr: (int, int) -> int)
    returns (ok: bool, dec: Decoder)
    requires WellFormed(H, w, L) && Consistent(H, w, L, s0, dec0)
    ensures Consistent(H, w, L, s0, dec) && dec.e.vec == dec0.e.vec
    ensures ok <==> dec.e.weight == 0
    ensures s0 == SyndromeOf(H, dec0.e.vec, L) ==>
      (ok <==> dec.bits[0] == dec.e.vec[0][..L] && dec.bits[1] == dec.e.vec[1][..L])
    ensures dec.iter >= maxIter || dec.syndrome.weight == stop || dec.blocked
    ensures dec.blocked ==> AllBelow(H, L, dec, thr)
    ensures dec0.iter <= dec.iter && (dec.iter <= maxIter || dec.iter == dec0.iter)
    ensures dec0.iter >= maxIter ==> dec.bits == dec0.bits && dec.iter == dec0.iter && !dec.blocked
  {
    WellFormedRows(H, w, L);
    dec := dec0.(blocked := false);
    while dec.iter < maxIter && dec.syndrome.weight != stop && !dec.blocked
      invariant Consistent(H, w, L, s0, dec) && dec.e.vec == dec0.e.vec
      invariant dec0.iter <= dec.iter && (dec.iter <= maxIter || dec.iter == dec0.iter)
      invariant dec.blocked ==> AllBelow(H, L, dec, thr)
      invariant dec0.iter >= maxIter ==> dec == dec0.(blocked := false)
      decreases maxIter - dec.iter
    {
      dec := dec.(iter := dec.iter + 1);
      var counters, mirrored := ComputeCounters(dec.syndrome.vec, H, w, L);
      ghost var before := dec.syndrome.vec;
      ConsistentUpperHalf(H, w, L, s0, dec, mirrored);
      dec := dec.(syndrome := dec.syndrome.(vec := mirrored));
      var threshold := thr(dec.syndrome.weight, dec.e.weight);
      var flipped;
      dec, flipped := ThresholdPass(H, w, L, s0, dec, counters, threshold);
      dec := dec.(blocked := !flipped);
      if !flipped {
        forall k, j | 0 <= k < 2 && 0 <= j < L
          ensures Hits(H.rows[k], dec.syndrome.vec, L, j) < threshold
        {
          HitsPrefix(H.rows[k], before, mirrored, L, j);
        }
      }
    }
    ok := dec.e.weight == 0;
    if s0 == SyndromeOf(H, dec0.e.vec, L) {
      ConsistentMeaning(H, w, L, dec);
    }
  }
}
