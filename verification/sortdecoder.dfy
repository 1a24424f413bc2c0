/** The SORT variant of qcmdpc_decode (src/decoder.c): compute every counter
    once, keep the GRAY_SIZE positions with the largest counters (a bounded
    min-heap, then qsort in decreasing order), visit them cyclically for up to
    2L iterations flipping those whose current counter reaches (w + 1) / 2,
    and finish with the step-by-step decoder. */
module SortDecoder {
  import opened Bits
  import opened Cyclic
  import opened QcCode
  import opened Kernel
  import opened Heap
  import Threshold
  import SbsDecoder

  // ---------------------------------------------------------------------------
  // qsort with cmp_pos_counter_t
  // ---------------------------------------------------------------------------

  ghost predicate NonIncreasing(s: seq<PosCounter>)
  {
    forall a, b :: 0 <= a < b < |s| ==> s[a].counter >= s[b].counter
  }

  /** Insert x into a sequence kept in decreasing counter order. */
  function InsertDesc(x: PosCounter, s: seq<PosCounter>): (r: seq<PosCounter>)
    ensures |r| == |s| + 1 && multiset(r) == multiset(s) + multiset{x}
  {
    if |s| == 0 then [x]
    else if s[0].counter <= x.counter then [x] + s
    else
      assert s == [s[0]] + s[1..];
      [s[0]] + InsertDesc(x, s[1..])
  }

  lemma {:induction false} InsertDescOrdered(x: PosCounter, s: seq<PosCounter>)
    requires NonIncreasing(s)
    ensures NonIncreasing(InsertDesc(x, s))
  {
    if |s| > 0 && s[0].counter > x.counter {
      var tail := s[1..];
      InsertDescOrdered(x, tail);
      forall b | 0 <= b < |tail| ensures tail[b].counter <= s[0].counter {
        assert tail[b] == s[b + 1];
      }
      InsertDescBounded(x, tail, s[0].counter);
      assert InsertDesc(x, s) == [s[0]] + InsertDesc(x, tail);
    }
  }

  /** Inserting below a bound every entry respects keeps every entry below it. */
  lemma {:induction false} InsertDescBounded(x: PosCounter, s: seq<PosCounter>, m: int)
    requires x.counter <= m && forall b :: 0 <= b < |s| ==> s[b].counter <= m
    ensures forall b :: 0 <= b < |InsertDesc(x, s)| ==> InsertDesc(x, s)[b].counter <= m
  {
    if |s| > 0 && s[0].counter > x.counter {
      InsertDescBounded(x, s[1..], m);
      assert InsertDesc(x, s) == [s[0]] + InsertDesc(x, s[1..]);
    }
  }

  /** The ordering qsort gives the heap: the same entries in non-increasing
      counter order. qsort fixes no order among equal counters; this is one
      of the orders it may produce. */
  function SortDesc(s: seq<PosCounter>): (r: seq<PosCounter>)
    ensures |r| == |s| && multiset(r) == multiset(s)
  {
    if |s| == 0 then []
    else
      assert s == [s[0]] + s[1..];
      InsertDesc(s[0], SortDesc(s[1..]))
  }

  lemma {:induction false} SortDescOrdered(s: seq<PosCounter>)
    ensures NonIncreasing(SortDesc(s))
  {
    if |s| > 0 {
      SortDescOrdered(s[1..]);
      InsertDescOrdered(s[0], SortDesc(s[1..]));
    }
  }

  // ---------------------------------------------------------------------------
  // sort_counters
  // ---------------------------------------------------------------------------

  function BlockEntries(c: seq<int>, k: nat): (r: seq<PosCounter>)
    ensures |r| == |c| && forall i :: 0 <= i < |c| ==> r[i] == PosCounter(k, i, c[i])
  {
    seq(|c|, i requires 0 <= i < |c| => PosCounter(k, i, c[i]))
  }

  /** The pos_counter_t of every bit, in the order sort_counters visits them. */
  function Entries(counters: seq<seq<int>>, L: nat): (r: seq<PosCounter>)
    requires |counters| == 2 && |counters[0]| == L && |counters[1]| == L
    ensures |r| == 2 * L
  {
    BlockEntries(counters[0], 0) + BlockEntries(counters[1], 1)
  }

  /** An entry is one of the bits with its own counter. */
  lemma EntriesMeans(counters: seq<seq<int>>, L: nat, e: PosCounter)
    requires |counters| == 2 && |counters[0]| == L && |counters[1]| == L
    ensures e in Entries(counters, L) <==> e.index < 2 && e.position < L && e.counter == counters[e.index][e.position]
  {
    var all := Entries(counters, L);
    if e.index < 2 && e.position < L && e.counter == counters[e.index][e.position] {
      assert all[e.index * L + e.position] == e;
    }
    if e in all {
      var q :| 0 <= q < |all| && all[q] == e;
      if q >= L {
        assert all[q] == BlockEntries(counters[1], 1)[q - L];
      }
    }
  }

  /** What the loop of sort_counters keeps once the heap is full: every entry
      seen so far is in the heap or excluded, and no excluded entry beats the
      heap's minimum. */
  ghost predicate TopSoFar(heap: seq<PosCounter>, excluded: seq<PosCounter>, seen: seq<PosCounter>)
  {
    |heap| > 0 && IsMinHeap(heap)
    && multiset(heap) + multiset(excluded) == multiset(seen)
    && forall e :: e in excluded ==> e.counter <= heap[0].counter
  }

  /** One insert of the second phase keeps TopSoFar. */
  method Admit(heap: seq<PosCounter>, ghost excluded: seq<PosCounter>, ghost seen: seq<PosCounter>, pc: PosCounter)
    returns (heap': seq<PosCounter>, ghost excluded': seq<PosCounter>)
    requires TopSoFar(heap, excluded, seen)
    ensures |heap'| == |heap| && TopSoFar(heap', excluded', seen + [pc])
  {
    heap' := Insert(heap, pc);
    if heap[0].counter < pc.counter {
      excluded' := excluded + [heap[0]];
      assert heap[0] in multiset(heap);
    } else {
      excluded' := excluded + [pc];
    }
  }

  /** The loop of sort_counters over the entries: fill the array with the
      first `size` of them, heapify it when entry `size` arrives, then insert
      every further entry. No entry left out beats one that was kept. */
  method Collect(all: seq<PosCounter>, size: nat) returns (heap: seq<PosCounter>, ghost excluded: seq<PosCounter>)
    requires 1 <= size <= |all|
    ensures |heap| == size && multiset(heap) + multiset(excluded) == multiset(all)
    ensures forall e, h :: e in excluded && h in heap ==> e.counter <= h.counter
  {
    heap := [];
    excluded := [];
    var j := 0;
    while j < |all|
      invariant 0 <= j <= |all|
      invariant j <= size ==> heap == all[..j] && excluded == []
      invariant j > size ==> |heap| == size && TopSoFar(heap, excluded, all[..j])
    {
      var pc := all[j];
      assert all[..j + 1] == all[..j] + [pc];
      if j < size {
        heap := heap + [pc];
      } else {
        if j == size {
          heap := Heapify(heap);
        }
        heap, excluded := Admit(heap, excluded, all[..j], pc);
      }
      j := j + 1;
    }
    assert all[..|all|] == all;
    if size < |all| {
      RootIsMinAll(heap);
    }
  }

  /** An entry missing from the result was excluded, so it does not beat the
      last (smallest) kept entry. */
  lemma LeftOutIsSmaller(all: seq<PosCounter>, heap: seq<PosCounter>, excluded: seq<PosCounter>,
                         sorted: seq<PosCounter>, e: PosCounter)
    requires |sorted| >= 1 && multiset(sorted) == multiset(heap)
    requires multiset(heap) + multiset(excluded) == multiset(all)
    requires forall e, h :: e in excluded && h in heap ==> e.counter <= h.counter
    requires e in all && e !in sorted
    ensures e.counter <= sorted[|sorted| - 1].counter
  {
    assert sorted[|sorted| - 1] in multiset(heap);
    assert e in multiset(all);
    assert e !in multiset(heap);
    assert e in multiset(excluded);
  }

  /** sort_counters(sorted, counters, size): the `size` entries with the
      largest counters, in non-increasing order. */
  method SortCounters(counters: seq<seq<int>>, L: nat, size: nat) returns (sorted: seq<PosCounter>)
    requires |counters| == 2 && |counters[0]| == L && |counters[1]| == L && 1 <= size <= 2 * L
    ensures |sorted| == size && NonIncreasing(sorted)
    ensures multiset(sorted) <= multiset(Entries(counters, L))
    ensures forall e :: e in Entries(counters, L) && e !in sorted ==> e.counter <= sorted[size - 1].counter
  {
    var all := Entries(counters, L);
    var heap, excluded := Collect(all, size);
    sorted := SortDesc(heap);
    SortDescOrdered(heap);
    forall e | e in all && e !in sorted
      ensures e.counter <= sorted[size - 1].counter
    {
      LeftOutIsSmaller(all, heap, excluded, sorted, e);
    }
  }

  // ---------------------------------------------------------------------------
  // qcmdpc_decode (SORT)
  // ---------------------------------------------------------------------------

  /** Every entry names a bit of the code. */
  ghost predicate EntriesValid(sorted: seq<PosCounter>, L: nat)
  {
    forall i :: 0 <= i < |sorted| ==> sorted[i].index < 2 && sorted[i].position < L
  }

  lemma SortedValid(counters: seq<seq<int>>, L: nat, sorted: seq<PosCounter>)
    requires |counters| == 2 && |counters[0]| == L && |counters[1]| == L
    requires multiset(sorted) <= multiset(Entries(counters, L))
    ensures EntriesValid(sorted, L)
  {
    forall i | 0 <= i < |sorted| ensures sorted[i].index < 2 && sorted[i].position < L {
      assert sorted[i] in multiset(sorted);
      EntriesMeans(counters, L, sorted[i]);
    }
  }

  /** The loop over the sorted positions: while iter < 2L and iter < max_iter,
      recount entry i with get_counter, flip it when the counter reaches
      (w + 1) / 2, and move i on cyclically. */
  method SortedPass(H: Code, w: nat, L: nat, ghost s0: seq<Bit>, dec0: Decoder, maxIter: int,
                    sorted: seq<PosCounter>)
    returns (dec: Decoder)
    requires Consistent(H, w, L, s0, dec0) && |sorted| >= 1 && EntriesValid(sorted, L)
    ensures Consistent(H, w, L, s0, dec) && dec.e.vec == dec0.e.vec && dec.blocked == dec0.blocked
    ensures dec.iter == if dec0.iter < 2 * L && dec0.iter < maxIter then (if 2 * L < maxIter then 2 * L else maxIter) else dec0.iter
  {
    dec := dec0;
    var threshold := Threshold.Majority(w);
    var i := 0;
    while dec.iter < 2 * L && dec.iter < maxIter
      invariant Consistent(H, w, L, s0, dec) && dec.e.vec == dec0.e.vec && dec.blocked == dec0.blocked
      invariant 0 <= i < |sorted|
      invariant dec0.iter <= dec.iter
      invariant dec.iter == dec0.iter || (dec.iter <= 2 * L && dec.iter <= maxIter)
      decreases maxIter - dec.iter
    {
      dec := dec.(iter := dec.iter + 1);
      var k, j := sorted[i].index, sorted[i].position;
      ConsistentColumn(H, w, L, s0, dec, k);
      var counter := GetCounter(dec.syndrome.vec, H.columns[k], j, L);
      if counter >= threshold {
        dec := SingleFlip(H, w, L, s0, dec, k, j);
      }
      i := if i + 1 == |sorted| then 0 else i + 1;
    }
  }

  /** qcmdpc_decode (SORT). `size` is GRAY_SIZE; `thr` and `picks` are the
      threshold and the draws of the final step-by-step stage. */
  method Decode(H: Code, w: nat, L: nat, ghost s0: seq<Bit>, dec0: Decoder, maxIter: int, stop: int,
                size: nat, thr: (int, int) -> int, picks: seq<SbsDecoder.Pick>)
    returns (ok: bool, dec: Decoder)
    requires WellFormed(H, w, L) && Consistent(H, w, L, s0, dec0) && 1 <= size <= 2 * L
    requires forall n :: 0 <= n < |picks| ==> SbsDecoder.PickInRange(picks[n], w, L)
    ensures Consistent(H, w, L, s0, dec) && dec.e.vec == dec0.e.vec
    ensures ok <==> dec.e.weight == 0
    ensures s0 == SyndromeOf(H, dec0.e.vec, L) ==>
      (ok <==> dec.bits[0] == dec.e.vec[0][..L] && dec.bits[1] == dec.e.vec[1][..L])
    ensures dec0.iter <= dec.iter && (dec.iter <= maxIter || dec.iter == dec0.iter)
  {
    WellFormedRows(H, w, L);
    var counters, mirrored := ComputeCounters(dec0.syndrome.vec, H, w, L);
    ConsistentUpperHalf(H, w, L, s0, dec0, mirrored);
    dec := dec0.(syndrome := dec0.syndrome.(vec := mirrored));
    var sorted := SortCounters(counters, L, size);
    SortedValid(counters, L, sorted);
    dec := SortedPass(H, w, L, s0, dec, maxIter, sorted);
    var exit, threshold;
    ok, dec, exit, threshold := SbsDecoder.Decode(H, w, L, s0, dec, maxIter, stop, thr, picks);
  }
}
