/** The BACKFLIP and BACKFLIP2 variants of qcmdpc_decode (src/decoder.c).
    Every flip of a zero bit is recorded in the flip list with a time of
    death; at the end of each iteration the entries whose time has come are
    flipped back. The loop does not stop when an iteration flips nothing, and
    the thresholds are only recomputed after an iteration that flipped. */
module Backflip {
  import opened Bits
  import opened QcCode
  import opened Kernel
  import opened FlipList

  /** TTL_SATURATE: the largest time to live, and times of death live modulo
      TTL_SATURATE + 1. */
  const TtlSaturate: nat := 5

  /** The index k * L + j of bit (k, j) in the flip-list arrays. */
  function Pos(k: nat, j: nat, L: nat): (p: nat)
    requires k < 2
    ensures p == if k == 0 then j else L + j
  {
    k * L + j
  }

  lemma PosInjective(k: nat, j: nat, k': nat, j': nat, L: nat)
    requires k < 2 && k' < 2 && j < L && j' < L
    ensures Pos(k, j, L) == Pos(k', j', L) <==> k == k' && j == j'
  {
  }

  /** The list holds exactly the positions whose bit is set. */
  ghost predicate Matches(order: seq<int>, bits: seq<seq<Bit>>, L: nat)
    requires |bits| == 2 && |bits[0]| == L && |bits[1]| == L
  {
    forall k, j {:trigger Pos(k, j, L)} :: 0 <= k < 2 && 0 <= j < L ==> (Pos(k, j, L) in order <==> bits[k][j] == 1)
  }

  /** Every listed time of death is a residue modulo TTL_SATURATE + 1. */
  ghost predicate TodsValid(fl: FlipList, order: seq<int>)
  {
    forall i :: 0 <= i < |order| && 0 <= order[i] < |fl.tod| ==> 0 <= fl.tod[order[i]] <= TtlSaturate
  }

  datatype BfDecoder = BfDecoder(dec: Decoder, fl: FlipList)

  /** The decoder invariant of Kernel plus a flip list holding `order`, in
      step with the flipped bits. */
  ghost predicate Inv(H: Code, w: nat, L: nat, s0: seq<Bit>, st: BfDecoder, order: seq<int>)
  {
    Consistent(H, w, L, s0, st.dec) && st.dec.iter >= 0
    && Linked(st.fl, order, 2 * L) && Matches(order, st.dec.bits, L) && TodsValid(st.fl, order)
  }

  lemma InvBookkeeping(H: Code, w: nat, L: nat, s0: seq<Bit>, st: BfDecoder, order: seq<int>, iter: int, blocked: bool)
    requires Inv(H, w, L, s0, st, order) && iter >= 0
    ensures Inv(H, w, L, s0, st.(dec := st.dec.(iter := iter, blocked := blocked)), order)
  {
    ConsistentBookkeeping(H, w, L, s0, st.dec, iter, blocked);
  }

  // ---------------------------------------------------------------------------
  // Thresholds and times to live
  // ---------------------------------------------------------------------------

  /** The error weight handed to the threshold rule: ERROR_WEIGHT minus the
      list length, or 1 once the list is at least that long. */
  function ThresholdWeight(errorWeight: int, length: int): (t: int)
    ensures t >= 1
    ensures length < errorWeight ==> t + length == errorWeight
    ensures errorWeight >= 1 && length >= 0 ==> t <= errorWeight
  {
    if errorWeight > length then errorWeight - length else 1
  }

  /** affine_ttl (BACKFLIP): the truncated affine estimate, clamped to
      [1, TTL_SATURATE]. */
  function AffineTtl(c0: real, c1: real, diff: int): (ttl: int)
    ensures 1 <= ttl <= TtlSaturate
    ensures var raw := TruncToInt(c0 + c1 * diff as real);
      (raw < 1 ==> ttl == 1) && (raw > TtlSaturate ==> ttl == TtlSaturate)
      && (1 <= raw <= TtlSaturate ==> ttl == raw)
  {
    var ttl := TruncToInt(c0 + c1 * diff as real);
    var ttl := if ttl < 1 then 1 else ttl;
    if ttl > TtlSaturate then TtlSaturate else ttl
  }

  /** A larger counter excess never gets a shorter life when TTL_C1 >= 0. */
  lemma AffineTtlMonotone(c0: real, c1: real, d1: int, d2: int)
    requires c1 >= 0.0 && d1 <= d2
    ensures AffineTtl(c0, c1, d1) <= AffineTtl(c0, c1, d2)
  {
    var gap := d2 as real - d1 as real;
    assert gap >= 0.0;
    assert c1 * gap >= 0.0;
    assert c1 * d2 as real == c1 * d1 as real + c1 * gap;
    TruncMonotone(c0 + c1 * d1 as real, c0 + c1 * d2 as real);
  }

  /** The five thresholds of BACKFLIP2 (t1 is the flipping threshold, t2..t5
      the tier boundaries); BACKFLIP only uses t1. */
  datatype Tiers = Tiers(t1: int, t2: int, t3: int, t4: int, t5: int)

  /** The TTL ladder of BACKFLIP2: 1 below threshold2, 2 below threshold3, and
      so on up to 5. */
  function TierTtl(counter: int, t: Tiers): (ttl: int)
    ensures 1 <= ttl <= 5
  {
    if counter < t.t2 then 1
    else if counter < t.t3 then 2
    else if counter < t.t4 then 3
    else if counter < t.t5 then 4
    else 5
  }

  function Indicator(b: bool): nat
  {
    if b then 1 else 0
  }

  /** With ordered tier boundaries the ladder counts the boundaries the
      counter reaches. */
  lemma TierTtlCounts(counter: int, t: Tiers)
    requires t.t2 <= t.t3 <= t.t4 <= t.t5
    ensures TierTtl(counter, t) == 1 + Indicator(counter >= t.t2) + Indicator(counter >= t.t3)
                                     + Indicator(counter >= t.t4) + Indicator(counter >= t.t5)
  {
  }

  /** The two threshold rules. `thr` is compute_threshold(S, t); `alpha(a, S, t)`
      is compute_threshold_alpha(S, t, THRESHOLD_Aa); c0 and c1 are TTL_C0 and
      TTL_C1. */
  datatype Rule =
    | Affine(thr: (int, int) -> int, c0: real, c1: real)
    | Tiered(alpha: (int, int, int) -> int)

  function ComputeTiers(rule: Rule, S: int, t: int): (r: Tiers)
    ensures rule.Affine? ==> r.t1 == rule.thr(S, t)
    ensures rule.Tiered? ==> r == Tiers(rule.alpha(0, S, t), rule.alpha(1, S, t), rule.alpha(2, S, t),
                                        rule.alpha(3, S, t), rule.alpha(4, S, t))
  {
    match rule
    case Affine(thr, _, _) => Tiers(thr(S, t), 0, 0, 0, 0)
    case Tiered(alpha) =>
      Tiers(alpha(0, S, t), alpha(1, S, t), alpha(2, S, t), alpha(3, S, t), alpha(4, S, t))
  }

  /** The time to live of a bit flipped with counter `counter`. */
  function TtlFor(rule: Rule, t: Tiers, counter: int): (ttl: int)
    ensures 1 <= ttl <= TtlSaturate
  {
    match rule
    case Affine(_, c0, c1) => AffineTtl(c0, c1, counter - t.t1)
    case Tiered(_) => TierTtl(counter, t)
  }

  /** A freshly set time of death never equals the current iteration's
      residue, so the sweep at the end of the same iteration keeps it. */
  lemma FreshTodDiffers(iter: int, ttl: int)
    requires iter >= 0 && 1 <= ttl <= TtlSaturate
    ensures (iter + ttl) % (TtlSaturate + 1) != iter % (TtlSaturate + 1)
  {
    var m := TtlSaturate + 1;
    var q := iter / m;
    var r := iter % m;
    assert iter == q * m + r;
    if r + ttl < m {
      DivUnique(iter + ttl, q, r + ttl, m);
    } else {
      DivUnique(iter + ttl, q + 1, r + ttl - m, m);
    }
  }

  // ---------------------------------------------------------------------------
  // List membership bookkeeping
  // ---------------------------------------------------------------------------

  /** Toggling one bit and its list membership together keeps them in step. */
  lemma MatchesToggle(order: seq<int>, order': seq<int>, bits: seq<seq<Bit>>, L: nat, k: nat, j: nat)
    requires |bits| == 2 && |bits[0]| == L && |bits[1]| == L && k < 2 && j < L
    requires Matches(order, bits, L)
    requires forall x :: x in order' <==> (x in order) != (x == Pos(k, j, L))
    ensures Matches(order', bits[k := bits[k][j := 1 - bits[k][j]]], L)
  {
    var bits' := bits[k := bits[k][j := 1 - bits[k][j]]];
    forall k', j' | 0 <= k' < 2 && 0 <= j' < L
      ensures Pos(k', j', L) in order' <==> bits'[k'][j'] == 1
    {
      PosInjective(k, j, k', j', L);
    }
  }

  lemma RemoveMembers(order: seq<int>, i: nat)
    requires Distinct(order) && i < |order|
    ensures forall x :: x in order[..i] + order[i + 1..] <==> x in order && x != order[i]
  {
    forall x ensures x in order[..i] + order[i + 1..] <==> x in order && x != order[i] {
      if x in order && x != order[i] {
        var a :| 0 <= a < |order| && order[a] == x;
        if a < i {
          assert order[..i][a] == x;
        } else {
          assert order[i + 1..][a - i - 1] == x;
        }
      }
    }
  }

  /** Positions added during the current pass (listed now, not at its start)
      carry a time of death other than the current iteration's residue. */
  ghost predicate Fresh(fl: FlipList, order: seq<int>, order0: seq<int>, iter: int)
  {
    forall i :: 0 <= i < |order| && 0 <= order[i] < |fl.tod| && order[i] !in order0 ==>
      fl.tod[order[i]] != iter % (TtlSaturate + 1)
  }

  lemma FreshNone(fl: FlipList, order: seq<int>, iter: int)
    ensures Fresh(fl, order, order, iter)
  {
  }

  // ---------------------------------------------------------------------------
  // The flipping pass
  // ---------------------------------------------------------------------------

  /** fl_remove of the listed bit (k, j), the i-th entry. */
  method ListRemove(fl: FlipList, ghost order: seq<int>, ghost bits: seq<seq<Bit>>, L: nat, k: nat, j: nat, ghost i: nat)
    returns (fl': FlipList, ghost order': seq<int>)
    requires |bits| == 2 && |bits[0]| == L && |bits[1]| == L && k < 2 && j < L
    requires Linked(fl, order, 2 * L) && Matches(order, bits, L) && TodsValid(fl, order)
    requires i < |order| && order[i] == Pos(k, j, L)
    ensures Linked(fl', order', 2 * L) && Matches(order', bits[k := bits[k][j := 1 - bits[k][j]]], L)
    ensures TodsValid(fl', order') && fl'.tod == fl.tod
    ensures order' == order[..i] + order[i + 1..]
    ensures fl'.next[Pos(k, j, L)] == fl.next[Pos(k, j, L)]
  {
    RemoveLinked(fl, order, 2 * L, i);
    RemoveMembers(order, i);
    fl' := Remove(fl, Pos(k, j, L));
    order' := order[..i] + order[i + 1..];
    forall a | 0 <= a < |order'|
      ensures order'[a] == order[if a < i then a else a + 1]
    {
    }
    MatchesToggle(order, order', bits, L, k, j);
  }

  /** fl_add of the unlisted bit (k, j) with time of death
      (iter + ttl) mod (TTL_SATURATE + 1). */
  method ListAdd(fl: FlipList, ghost order: seq<int>, ghost order0: seq<int>, ghost bits: seq<seq<Bit>>,
                 L: nat, k: nat, j: nat, ttl: int, iter: int)
    returns (fl': FlipList, ghost order': seq<int>)
    requires |bits| == 2 && |bits[0]| == L && |bits[1]| == L && k < 2 && j < L && bits[k][j] == 0
    requires Linked(fl, order, 2 * L) && Matches(order, bits, L) && TodsValid(fl, order)
    requires Fresh(fl, order, order0, iter) && iter >= 0 && 1 <= ttl <= TtlSaturate
    ensures Linked(fl', order', 2 * L) && Matches(order', bits[k := bits[k][j := 1 - bits[k][j]]], L)
    ensures TodsValid(fl', order') && Fresh(fl', order', order0, iter)
  {
    var pos := Pos(k, j, L);
    AddLinked(fl, order, 2 * L, pos);
    var added := Add(fl, pos);
    var tod := (iter + ttl) % (TtlSaturate + 1);
    fl' := added.(tod := added.tod[pos := tod]);
    order' := [pos] + order;
    LinkedTod(added, order', 2 * L, added.tod[pos := tod]);
    AddTod(fl, order, order0, pos, iter, ttl);
    MatchesToggle(order, order', bits, L, k, j);
  }

  /** The links do not depend on the times of death. */
  lemma LinkedTod(fl: FlipList, order: seq<int>, n: nat, tod: seq<int>)
    requires Linked(fl, order, n) && |tod| == n
    ensures Linked(fl.(tod := tod), order, n)
  {
  }

  /** Giving a newly listed position the time of death (iter + ttl) mod
      (TTL_SATURATE + 1) keeps every time of death a residue, and the new
      entry's differs from the current iteration's. */
  lemma AddTod(fl: FlipList, order: seq<int>, order0: seq<int>, pos: int, iter: int, ttl: int)
    requires 0 <= pos < |fl.tod| && pos !in order
    requires TodsValid(fl, order) && Fresh(fl, order, order0, iter) && iter >= 0 && 1 <= ttl <= TtlSaturate
    ensures var fl' := fl.(tod := fl.tod[pos := (iter + ttl) % (TtlSaturate + 1)]);
      TodsValid(fl', [pos] + order) && Fresh(fl', [pos] + order, order0, iter)
  {
    FreshTodDiffers(iter, ttl);
    var o := [pos] + order;
    forall a | 1 <= a < |o|
      ensures o[a] == order[a - 1] && o[a] != pos
    {
    }
  }

  /** Dropping entries without touching the times of death keeps Fresh. */
  lemma FreshSubset(fl: FlipList, order: seq<int>, fl': FlipList, order': seq<int>, order0: seq<int>, iter: int)
    requires Fresh(fl, order, order0, iter) && fl'.tod == fl.tod
    requires forall a :: 0 <= a < |order'| ==> order'[a] in order
    ensures Fresh(fl', order', order0, iter)
  {
    forall a | 0 <= a < |order'| && 0 <= order'[a] < |fl'.tod| && order'[a] !in order0
      ensures fl'.tod[order'[a]] != iter % (TtlSaturate + 1)
    {
      var b :| 0 <= b < |order| && order[b] == order'[a];
    }
  }

  /** The list side of flipping bit (k, j) in the pass: fl_remove when the
      bit is set, otherwise fl_add. */
  method ListToggle(fl: FlipList, ghost order: seq<int>, ghost order0: seq<int>, ghost bits: seq<seq<Bit>>,
                    L: nat, k: nat, j: nat, isSet: bool, ttl: int, iter: int)
    returns (fl': FlipList, ghost order': seq<int>)
    requires |bits| == 2 && |bits[0]| == L && |bits[1]| == L && k < 2 && j < L
    requires Linked(fl, order, 2 * L) && Matches(order, bits, L) && TodsValid(fl, order)
    requires Fresh(fl, order, order0, iter) && iter >= 0 && 1 <= ttl <= TtlSaturate
    requires isSet <==> bits[k][j] == 1
    ensures Linked(fl', order', 2 * L) && Matches(order', bits[k := bits[k][j := 1 - bits[k][j]]], L)
    ensures TodsValid(fl', order') && Fresh(fl', order', order0, iter)
  {
    if isSet {
      ghost var i :| 0 <= i < |order| && order[i] == Pos(k, j, L);
      fl', order' := ListRemove(fl, order, bits, L, k, j, i);
      forall a | 0 <= a < |order'| ensures order'[a] in order {
        assert order'[a] == order[if a < i then a else a + 1];
      }
      FreshSubset(fl, order, fl', order', order0, iter);
    } else {
      fl', order' := ListAdd(fl, order, order0, bits, L, k, j, ttl, iter);
    }
  }

  /** One step of the pass: if counter (k, j) reaches the threshold, a set bit
      leaves the list, an unset one joins it with its time of death, and the
      bit is flipped. */
  method PassStep(H: Code, w: nat, L: nat, ghost s0: seq<Bit>, ghost b: seq<seq<Bit>>,
                  st: BfDecoder, ghost order: seq<int>, ghost order0: seq<int>,
                  counters: seq<seq<int>>, rule: Rule, t: Tiers, k: nat, j: nat)
    returns (st': BfDecoder, ghost order': seq<int>)
    requires Inv(H, w, L, s0, st, order) && k < 2 && j < L
    requires |counters| == 2 && |counters[0]| == L && |counters[1]| == L && |b| == 2 && |b[k]| == L
    requires st.dec.bits == b[k := Passed(b[k], counters[k], t.t1, j)]
    requires Fresh(st.fl, order, order0, st.dec.iter)
    ensures Inv(H, w, L, s0, st', order')
    ensures st'.dec.iter == st.dec.iter && st'.dec.blocked == st.dec.blocked && st'.dec.e.vec == st.dec.e.vec
    ensures st'.dec.bits == b[k := Passed(b[k], counters[k], t.t1, j + 1)]
    ensures Fresh(st'.fl, order', order0, st.dec.iter)
    ensures counters[k][j] < t.t1 ==> st' == st && order' == order
  {
    PassedFlip(b, counters, t.t1, k, j, st.dec.bits);
    if counters[k][j] >= t.t1 {
      st', order' := FlipRecorded(H, w, L, s0, st, order, order0, TtlFor(rule, t, counters[k][j]), k, j);
    } else {
      st' := st;
      order' := order;
    }
  }

  /** Position j of the pass over block k flips the bit exactly when its
      counter reaches the threshold. */
  lemma PassedFlip(b: seq<seq<Bit>>, counters: seq<seq<int>>, t1: int, k: nat, j: nat, bits: seq<seq<Bit>>)
    requires |b| == 2 && |counters| == 2 && k < 2 && |counters[k]| == |b[k]| && j < |b[k]|
    requires bits == b[k := Passed(b[k], counters[k], t1, j)]
    ensures counters[k][j] >= t1 ==> bits[k := bits[k][j := 1 - bits[k][j]]] == b[k := Passed(b[k], counters[k], t1, j + 1)]
    ensures counters[k][j] < t1 ==> bits == b[k := Passed(b[k], counters[k], t1, j + 1)]
  {
    PassedStep(b[k], counters[k], t1, j);
    var p := Passed(b[k], counters[k], t1, j);
    assert p[j] == b[k][j] && bits[k] == p;
  }

  /** single_flip together with the list update that precedes it in the pass. */
  method FlipRecorded(H: Code, w: nat, L: nat, ghost s0: seq<Bit>, st: BfDecoder, ghost order: seq<int>,
                      ghost order0: seq<int>, ttl: int, k: nat, j: nat)
    returns (st': BfDecoder, ghost order': seq<int>)
    requires Inv(H, w, L, s0, st, order) && k < 2 && j < L && 1 <= ttl <= TtlSaturate
    requires Fresh(st.fl, order, order0, st.dec.iter)
    ensures Inv(H, w, L, s0, st', order')
    ensures st'.dec.iter == st.dec.iter && st'.dec.blocked == st.dec.blocked && st'.dec.e.vec == st.dec.e.vec
    ensures st'.dec.bits == st.dec.bits[k := st.dec.bits[k][j := 1 - st.dec.bits[k][j]]]
    ensures Fresh(st'.fl, order', order0, st.dec.iter)
  {
    var fl;
    fl, order' := ListToggle(st.fl, order, order0, st.dec.bits, L, k, j, st.dec.bits[k][j] == 1, ttl, st.dec.iter);
    var dec := SingleFlip(H, w, L, s0, st.dec, k, j);
    st' := BfDecoder(dec, fl);
  }


  /** The j loop over block k, from position j on: `b` is the bit pattern at
      the start of the block and `flippedIn` whether the first j positions
      flipped anything. */
  method PassFrom(H: Code, w: nat, L: nat, ghost s0: seq<Bit>, ghost b: seq<seq<Bit>>,
                  st: BfDecoder, ghost order: seq<int>, ghost order0: seq<int>,
                  counters: seq<seq<int>>, rule: Rule, t: Tiers, k: nat, j: nat, flippedIn: bool)
    returns (st': BfDecoder, ghost order': seq<int>, flipped: bool)
    requires Inv(H, w, L, s0, st, order) && k < 2 && j <= L
    requires |counters| == 2 && |counters[0]| == L && |counters[1]| == L && |b| == 2 && |b[k]| == L
    requires st.dec.bits == b[k := Passed(b[k], counters[k], t.t1, j)]
    requires Fresh(st.fl, order, order0, st.dec.iter)
    requires flippedIn == AnyReaches(counters[k], t.t1, j)
    ensures Inv(H, w, L, s0, st', order')
    ensures st'.dec.iter == st.dec.iter && st'.dec.blocked == st.dec.blocked && st'.dec.e.vec == st.dec.e.vec
    ensures st'.dec.bits == b[k := Passed(b[k], counters[k], t.t1, L)]
    ensures Fresh(st'.fl, order', order0, st.dec.iter)
    ensures flipped == AnyReaches(counters[k], t.t1, L) && (flippedIn ==> flipped)
    ensures !flipped ==> st' == st && order' == order
    decreases L - j
  {
    if j == L {
      st', order', flipped := st, order, flippedIn;
    } else {
      var mid, midOrder := PassStep(H, w, L, s0, b, st, order, order0, counters, rule, t, k, j);
      st', order', flipped := PassFrom(H, w, L, s0, b, mid, midOrder, order0, counters, rule, t, k, j + 1,
                                       flippedIn || counters[k][j] >= t.t1);
    }
  }

  /** The j loop over block k. */
  method PassBlock(H: Code, w: nat, L: nat, ghost s0: seq<Bit>, st: BfDecoder, ghost order: seq<int>,
                   ghost order0: seq<int>, counters: seq<seq<int>>, rule: Rule, t: Tiers, k: nat)
    returns (st': BfDecoder, ghost order': seq<int>, flipped: bool)
    requires Inv(H, w, L, s0, st, order) && k < 2
    requires |counters| == 2 && |counters[0]| == L && |counters[1]| == L
    requires Fresh(st.fl, order, order0, st.dec.iter)
    ensures Inv(H, w, L, s0, st', order')
    ensures st'.dec.iter == st.dec.iter && st'.dec.blocked == st.dec.blocked && st'.dec.e.vec == st.dec.e.vec
    ensures st'.dec.bits == st.dec.bits[k := Passed(st.dec.bits[k], counters[k], t.t1, L)]
    ensures Fresh(st'.fl, order', order0, st.dec.iter)
    ensures flipped == AnyReaches(counters[k], t.t1, L)
    ensures !flipped ==> st' == st && order' == order
  {
    PassedNone(st.dec.bits[k], counters[k], t.t1);
    assert st.dec.bits == st.dec.bits[k := Passed(st.dec.bits[k], counters[k], t.t1, 0)];
    st', order', flipped := PassFrom(H, w, L, s0, st.dec.bits, st, order, order0, counters, rule, t, k, 0, false);
  }

  /** The whole flipping pass, block 0 then block 1. */
  method Pass(H: Code, w: nat, L: nat, ghost s0: seq<Bit>, st: BfDecoder, ghost order: seq<int>,
              counters: seq<seq<int>>, rule: Rule, t: Tiers)
    returns (st': BfDecoder, ghost order': seq<int>, flipped: bool)
    requires Inv(H, w, L, s0, st, order)
    requires |counters| == 2 && |counters[0]| == L && |counters[1]| == L
    ensures Inv(H, w, L, s0, st', order')
    ensures st'.dec.iter == st.dec.iter && st'.dec.blocked == st.dec.blocked && st'.dec.e.vec == st.dec.e.vec
    ensures st'.dec.bits == [Passed(st.dec.bits[0], counters[0], t.t1, L), Passed(st.dec.bits[1], counters[1], t.t1, L)]
    ensures Fresh(st'.fl, order', order, st.dec.iter)
    ensures flipped == (AnyReaches(counters[0], t.t1, L) || AnyReaches(counters[1], t.t1, L))
    ensures !flipped ==> st' == st && order' == order
  {
    FreshNone(st.fl, order, st.dec.iter);
    var mid, midOrder, f0 := PassBlock(H, w, L, s0, st, order, order, counters, rule, t, 0);
    var f1;
    st', order', f1 := PassBlock(H, w, L, s0, mid, midOrder, order, counters, rule, t, 1);
    flipped := f0 || f1;
  }

  // ---------------------------------------------------------------------------
  // The retraction sweep
  // ---------------------------------------------------------------------------

  /** The entries of s whose time of death is not `cur`, in order. */
  ghost function Keep(tod: seq<int>, s: seq<int>, cur: int): (r: seq<int>)
    requires forall i :: 0 <= i < |s| ==> 0 <= s[i] < |tod|
    ensures |r| <= |s|
  {
    if |s| == 0 then []
    else Keep(tod, s[..|s| - 1], cur) + (if tod[s[|s| - 1]] != cur then [s[|s| - 1]] else [])
  }

  /** Keep retains exactly the entries whose time of death differs from cur. */
  lemma {:induction false} KeepMembers(tod: seq<int>, s: seq<int>, cur: int)
    requires forall i :: 0 <= i < |s| ==> 0 <= s[i] < |tod|
    ensures forall x :: x in Keep(tod, s, cur) <==> x in s && tod[x] != cur
  {
    if |s| > 0 {
      KeepMembers(tod, s[..|s| - 1], cur);
      assert s == s[..|s| - 1] + [s[|s| - 1]];
    }
  }

  /** A position flipped during an iteration's pass is still listed after
      that iteration's sweep. */
  lemma FreshFlipSurvives(fl: FlipList, order: seq<int>, order0: seq<int>, iter: int, x: int)
    requires forall i :: 0 <= i < |order| ==> 0 <= order[i] < |fl.tod|
    requires Fresh(fl, order, order0, iter) && x in order && x !in order0
    ensures x in Keep(fl.tod, order, iter % (TtlSaturate + 1))
  {
    KeepMembers(fl.tod, order, iter % (TtlSaturate + 1));
  }

  lemma KeepStep(tod: seq<int>, s: seq<int>, i: nat, cur: int)
    requires forall a :: 0 <= a < |s| ==> 0 <= s[a] < |tod|
    requires i < |s|
    ensures Keep(tod, s[..i + 1], cur)
         == Keep(tod, s[..i], cur) + (if tod[s[i]] != cur then [s[i]] else [])
  {
    assert s[..i + 1][..i] == s[..i];
  }

  /** The bit (k, j) behind list position pos. */
  lemma PosOf(pos: int, L: nat)
    requires 0 <= pos < 2 * L
    ensures var k := if pos < L then 0 else 1;
      Pos(k, pos - (if pos < L then 0 else L), L) == pos && pos - (if pos < L then 0 else L) < L
  {
  }

  /** Where the sweep stands in the list: the survivors of the first i
      snapshot entries, then snapshot entry i, then the rest. */
  lemma SweepShape(tod: seq<int>, snap: seq<int>, i: nat, cur: int, order: seq<int>)
    requires forall a :: 0 <= a < |snap| ==> 0 <= snap[a] < |tod|
    requires i < |snap| && order == Keep(tod, snap[..i], cur) + snap[i..]
    ensures var at := |Keep(tod, snap[..i], cur)|;
      at < |order| && order[at] == snap[i]
      && (if at + 1 < |order| then order[at + 1] else -1) == (if i + 1 < |snap| then snap[i + 1] else -1)
      && (tod[snap[i]] == cur ==> order[..at] + order[at + 1..] == Keep(tod, snap[..i + 1], cur) + snap[i + 1..])
      && (tod[snap[i]] != cur ==> order == Keep(tod, snap[..i + 1], cur) + snap[i + 1..])
  {
    var kept := Keep(tod, snap[..i], cur);
    var at := |kept|;
    KeepStep(tod, snap, i, cur);
    assert snap[i..] == [snap[i]] + snap[i + 1..];
    assert order[..at] == kept;
    assert order[at + 1..] == snap[i + 1..];
  }

  /** fl_remove and single_flip of the listed position pos, the entry at
      index `at` of the list. */
  method Retract(H: Code, w: nat, L: nat, ghost s0: seq<Bit>, st: BfDecoder, ghost order: seq<int>,
                 pos: int, ghost at: nat)
    returns (st': BfDecoder, ghost order': seq<int>)
    requires Inv(H, w, L, s0, st, order) && at < |order| && order[at] == pos
    ensures Inv(H, w, L, s0, st', order') && order' == order[..at] + order[at + 1..]
    ensures st'.fl.tod == st.fl.tod && st'.fl.next[pos] == st.fl.next[pos]
    ensures st'.dec.iter == st.dec.iter && st'.dec.e.vec == st.dec.e.vec && st'.dec.blocked == st.dec.blocked
  {
    LinkedAt(st.fl, order, 2 * L, at);
    PosOf(pos, L);
    var k := if pos < L then 0 else 1;
    var j := pos - (if pos < L then 0 else L);
    var fl;
    fl, order' := ListRemove(st.fl, order, st.dec.bits, L, k, j, at);
    var dec := SingleFlip(H, w, L, s0, st.dec, k, j);
    st' := BfDecoder(dec, fl);
  }

  /** One node of the sweep. An entry whose time has come is removed and its
      bit flipped back. */
  method SweepStep(H: Code, w: nat, L: nat, ghost s0: seq<Bit>, st: BfDecoder, ghost order: seq<int>,
                   ghost snap: seq<int>, ghost i: nat, pos: int, cur: int)
    returns (st': BfDecoder, ghost order': seq<int>, next: int, removed: bool)
    requires Inv(H, w, L, s0, st, order) && i < |snap|
    requires forall a :: 0 <= a < |snap| ==> 0 <= snap[a] < |st.fl.tod|
    requires order == Keep(st.fl.tod, snap[..i], cur) + snap[i..] && pos == snap[i]
    ensures Inv(H, w, L, s0, st', order')
    ensures order' == Keep(st.fl.tod, snap[..i + 1], cur) + snap[i + 1..]
    ensures next == if i + 1 < |snap| then snap[i + 1] else -1
    ensures st'.fl.tod == st.fl.tod && st'.dec.iter == st.dec.iter && st'.dec.e.vec == st.dec.e.vec
    ensures st'.dec.blocked == st.dec.blocked
    ensures removed <==> st.fl.tod[pos] == cur
    ensures !removed ==> st' == st && order' == order
  {
    SweepShape(st.fl.tod, snap, i, cur, order);
    ghost var at := |Keep(st.fl.tod, snap[..i], cur)|;
    LinkedAt(st.fl, order, 2 * L, at);
    removed := st.fl.tod[pos] == cur;
    if removed {
      st', order' := Retract(H, w, L, s0, st, order, pos, at);
    } else {
      st', order' := st, order;
    }
    next := st'.fl.next[pos];
  }

  /** The sweep from snapshot entry i on: `snap` is the list when the sweep
      started and `removedIn` whether an earlier node was removed. */
  method SweepFrom(H: Code, w: nat, L: nat, ghost s0: seq<Bit>, st: BfDecoder, ghost order: seq<int>,
                   ghost snap: seq<int>, ghost i: nat, pos: int, cur: int, removedIn: bool)
    returns (st': BfDecoder, ghost order': seq<int>, removed: bool)
    requires Inv(H, w, L, s0, st, order) && i <= |snap|
    requires forall a :: 0 <= a < |snap| ==> 0 <= snap[a] < |st.fl.tod|
    requires order == Keep(st.fl.tod, snap[..i], cur) + snap[i..]
    requires pos == if i < |snap| then snap[i] else -1
    ensures Inv(H, w, L, s0, st', order')
    ensures order' == Keep(st.fl.tod, snap, cur)
    ensures st'.fl.tod == st.fl.tod && st'.dec.iter == st.dec.iter && st'.dec.e.vec == st.dec.e.vec
    ensures st'.dec.blocked == st.dec.blocked
    ensures removedIn ==> removed
    ensures !removed ==> st' == st && order' == order
    decreases |snap| - i
  {
    if pos == -1 {
      assert snap[..i] == snap;
      st', order', removed := st, order, removedIn;
    } else {
      var mid, midOrder, next, gone := SweepStep(H, w, L, s0, st, order, snap, i, pos, cur);
      st', order', removed := SweepFrom(H, w, L, s0, mid, midOrder, snap, i + 1, next, cur, removedIn || gone);
    }
  }

  /** The retraction sweep: walk the list from its head, removing and
      flipping back every entry whose time of death is the current
      iteration's residue. */
  method Sweep(H: Code, w: nat, L: nat, ghost s0: seq<Bit>, st: BfDecoder, ghost order: seq<int>, stop: int)
    returns (st': BfDecoder, ghost order': seq<int>, removed: bool)
    requires Inv(H, w, L, s0, st, order)
    ensures Inv(H, w, L, s0, st', order')
    ensures st'.fl.tod == st.fl.tod && st'.dec.iter == st.dec.iter && st'.dec.e.vec == st.dec.e.vec
    ensures st'.dec.blocked == st.dec.blocked
    ensures st.dec.syndrome.weight != stop && |order| > 0 ==>
      order' == Keep(st.fl.tod, order, st.dec.iter % (TtlSaturate + 1))
    ensures st.dec.syndrome.weight == stop || |order| == 0 ==> order' == order
    ensures !removed ==> st' == st && order' == order
  {
    if st.dec.syndrome.weight != stop && st.fl.length != 0 {
      var cur := st.dec.iter % (TtlSaturate + 1);
      assert order == Keep(st.fl.tod, order[..0], cur) + order[0..];
      st', order', removed := SweepFrom(H, w, L, s0, st, order, order, 0, st.fl.first, cur, false);
    } else {
      st', order', removed := st, order, false;
    }
  }

  // ---------------------------------------------------------------------------
  // qcmdpc_decode
  // ---------------------------------------------------------------------------

  /** qcmdpc_decode for BACKFLIP (rule Affine) and BACKFLIP2 (rule Tiered);
      `stop` is SYNDROME_STOP and `errorWeight` ERROR_WEIGHT. */
  method Decode(H: Code, w: nat, L: nat, ghost s0: seq<Bit>, st0: BfDecoder, ghost order0: seq<int>,
                maxIter: int, stop: int, errorWeight: int, rule: Rule)
    returns (ok: bool, st: BfDecoder, ghost order: seq<int>)
    requires WellFormed(H, w, L) && Inv(H, w, L, s0, st0, order0)
    ensures Inv(H, w, L, s0, st, order) && st.dec.e.vec == st0.dec.e.vec
    ensures ok <==> st.dec.e.weight == 0
    ensures s0 == SyndromeOf(H, st0.dec.e.vec, L) ==>
      (ok <==> st.dec.bits[0] == st.dec.e.vec[0][..L] && st.dec.bits[1] == st.dec.e.vec[1][..L])
    ensures st.dec.iter >= maxIter || st.dec.syndrome.weight == stop
    ensures st0.dec.iter <= st.dec.iter && (st.dec.iter <= maxIter || st.dec.iter == st0.dec.iter)
    ensures st0.dec.iter >= maxIter ==> st.dec.bits == st0.dec.bits && order == order0
  {
    WellFormedRows(H, w, L);
    InvBookkeeping(H, w, L, s0, st0, order0, st0.dec.iter, false);
    st := st0.(dec := st0.dec.(blocked := false));
    order := order0;
    var tiers := Tiers(0, 0, 0, 0, 0);
    while st.dec.iter < maxIter && st.dec.syndrome.weight != stop
      invariant Inv(H, w, L, s0, st, order) && st.dec.e.vec == st0.dec.e.vec
      invariant st0.dec.iter <= st.dec.iter && (st.dec.iter <= maxIter || st.dec.iter == st0.dec.iter)
      invariant st0.dec.iter >= maxIter ==> st.dec.bits == st0.dec.bits && order == order0
      decreases maxIter - st.dec.iter
    {
      InvBookkeeping(H, w, L, s0, st, order, st.dec.iter + 1, st.dec.blocked);
      st := st.(dec := st.dec.(iter := st.dec.iter + 1));
      var counters, mirrored := ComputeCounters(st.dec.syndrome.vec, H, w, L);
      ConsistentUpperHalf(H, w, L, s0, st.dec, mirrored);
      st := st.(dec := st.dec.(syndrome := st.dec.syndrome.(vec := mirrored)));
      if !st.dec.blocked {
        tiers := ComputeTiers(rule, st.dec.syndrome.weight, ThresholdWeight(errorWeight, st.fl.length));
      }
      InvBookkeeping(H, w, L, s0, st, order, st.dec.iter, true);
      st := st.(dec := st.dec.(blocked := true));
      var flipped, removed;
      st, order, flipped := Pass(H, w, L, s0, st, order, counters, rule, tiers);
      st, order, removed := Sweep(H, w, L, s0, st, order, stop);
      if flipped || removed {
        InvBookkeeping(H, w, L, s0, st, order, st.dec.iter, false);
        st := st.(dec := st.dec.(blocked := false));
      }
    }
    ok := st.dec.e.weight == 0;
    if s0 == SyndromeOf(H, st0.dec.e.vec, L) {
      ConsistentMeaning(H, w, L, st.dec);
    }
  }
}
