/** The parity-check matrix generators of src/codegen.c: a random code, and
    three families of weak keys whose column blocks share a structure
    (an arithmetic progression, runs of a progression, or many common
    positions between the two blocks).

    The PRNG is an oracle: every draw random_lim(n) is a parameter known to
    lie in [0, n), or to be 0 when n is 0 (the exclusive xoshiro256++
    convention these generators are written against). */
module CodeGen {
  import opened Bits
  import opened Cyclic
  import opened QcCode

  /** The range of an exclusive random_lim(n) draw. */
  predicate Below(x: nat, n: nat)
  {
    if n == 0 then x == 0 else x < n
  }

  /** The draws a sorted fill of slots from..to consumes: the draw for slot i
      is random_lim of the number of positions still free, L - i. */
  ghost predicate FillDraws(draws: seq<nat>, from: nat, to: nat, L: nat)
  {
    from <= to && |draws| == to - from && forall t :: 0 <= t < |draws| ==> draws[t] < L - (from + t)
  }

  ghost predicate Distinct(s: seq<int>)
  {
    forall i, j :: 0 <= i < j < |s| ==> s[i] != s[j]
  }

  // ---------------------------------------------------------------------------
  // Sorted insertions, as the generators use them
  // ---------------------------------------------------------------------------

  /** What an insertion at `pos` keeps: the old prefix and the new value. */
  lemma InsertionContents(a: seq<int>, r: seq<int>, pos: nat, v: int, n: nat, lo: int, hi: int)
    requires pos <= n < |a| && n < |r| && r[..n + 1] == a[..pos] + [v] + a[pos..n]
    ensures forall x :: x in r[..n + 1] <==> x == v || x in a[..n]
    ensures InRange(a[..n], lo, hi) && lo <= v < hi ==> InRange(r[..n + 1], lo, hi)
  {
    var src := a[..n];
    var out := r[..n + 1];
    assert src == a[..pos] + a[pos..n];
    if InRange(src, lo, hi) && lo <= v < hi {
      forall p | 0 <= p < |out|
        ensures lo <= out[p] < hi
      {
        if p < pos {
          assert out[p] == src[p];
        } else if p > pos {
          assert out[p] == src[p - 1];
        }
      }
    }
  }

  /** Inserting a new value between its neighbours keeps a prefix strictly
      increasing. */
  lemma InsertStrict(s: seq<int>, pos: nat, v: int)
    requires pos <= |s| && StrictlyIncreasing(s)
    requires forall k :: 0 <= k < pos ==> s[k] < v
    requires pos < |s| ==> v < s[pos]
    ensures StrictlyIncreasing(s[..pos] + [v] + s[pos..])
  {
    var out := s[..pos] + [v] + s[pos..];
    forall p, q | 0 <= p < q < |out|
      ensures out[p] < out[q]
    {
      if p > pos {
        assert out[p] == s[p - 1] && out[q] == s[q - 1];
      } else if p < pos && q > pos {
        assert out[q] == s[q - 1];
      } else if p == pos && q > pos {
        assert out[q] == s[q - 1];
        assert s[pos] <= s[q - 1];
      }
    }
  }

  /** insert_sorted for slots from..to, one draw each: the loops of
      sparse_rand and of the completions in the weak generators. The prefix
      stays a strictly increasing list of positions in [0, L) and keeps every
      value it held. */
  method FillSorted(a: seq<int>, from: nat, to: nat, draws: seq<nat>, L: nat) returns (r: seq<int>)
    requires to <= |a| && FillDraws(draws, from, to, L)
    requires StrictlyIncreasing(a[..from]) && InRange(a[..from], 0, L)
    ensures |r| == |a| && r[to..] == a[to..]
    ensures StrictlyIncreasing(r[..to]) && InRange(r[..to], 0, L)
    ensures forall x :: x in a[..from] ==> x in r[..to]
  {
    r := a;
    for i := from to to
      invariant |r| == |a| && r[to..] == a[to..]
      invariant StrictlyIncreasing(r[..i]) && InRange(r[..i], 0, L)
      invariant forall x :: x in a[..from] ==> x in r[..i]
    {
      ghost var before := r;
      var v;
      ghost var pos;
      r, v, pos := InsertSorted(r, draws[i - from], i);
      InsertionContents(before, r, pos, v, i, 0, L);
      assert r[to..] == a[to..] by {
        assert r[i + 1..] == before[i + 1..];
      }
    }
  }

  /** sparse_rand with the exclusive oracle: a block of `weight` positions. */
  method SparseBlock(w: nat, L: nat, draws: seq<nat>) returns (b: seq<int>)
    requires w <= L && FillDraws(draws, 0, w, L)
    ensures IsBlock(b, w, L)
  {
    b := FillSorted(seq(w, _ => 0), 0, w, draws, L);
    assert b[..w] == b;
  }

  // ---------------------------------------------------------------------------
  // generate_random_code
  // ---------------------------------------------------------------------------

  /** generate_random_code, lines 26-31: two random blocks, then the rows as
      their transposes. */
  method GenerateRandomCode(w: nat, L: nat, d0: seq<nat>, d1: seq<nat>) returns (H: Code)
    requires ValidParams(w, L) && w <= L
    requires FillDraws(d0, 0, w, L) && FillDraws(d1, 0, w, L)
    ensures WellFormed(H, w, L)
  {
    var c0 := SparseBlock(w, L, d0);
    var c1 := SparseBlock(w, L, d1);
    H := TransposeColumns(Code([c0, c1], []), w, L);
  }

  // ---------------------------------------------------------------------------
  // generate_weak_type1
  // ---------------------------------------------------------------------------

  /** The values delta * (i + shift) mod L, i < p, of line 40. */
  function Progression(delta: nat, shift: nat, L: nat, p: nat): (s: seq<int>)
    requires 0 < L
    ensures |s| == p && InRange(s, 0, L)
    ensures forall i :: 0 <= i < p ==> s[i] == (delta * (i + shift)) % L
  {
    seq(p, i requires 0 <= i < p => (delta * (i + shift)) % L)
  }

  /** The draws of generate_weak_type1: the weak block k, the step delta - 1,
      the shift, the completion of block k and the other block. */
  datatype Weak1Draws = Weak1Draws(k: nat, step: nat, shift: nat, fill: seq<nat>, other: seq<nat>)

  ghost predicate Weak1InRange(d: Weak1Draws, w: nat, L: nat, p: nat)
  {
    Below(d.k, 2) && Below(d.step, L / 2) && Below(d.shift, L)
    && FillDraws(d.fill, p, w, L) && FillDraws(d.other, 0, w, L)
  }

  /** insert_sorted_noinc of a value the strictly increasing prefix does not
      hold: the prefix grows by that value and stays strictly increasing. */
  method InsertNew(a: seq<int>, v: int, n: nat, L: nat) returns (r: seq<int>)
    requires n < |a| && StrictlyIncreasing(a[..n]) && InRange(a[..n], 0, L)
    requires 0 <= v < L && v !in a[..n]
    ensures |r| == |a| && r[n + 1..] == a[n + 1..]
    ensures StrictlyIncreasing(r[..n + 1]) && InRange(r[..n + 1], 0, L)
    ensures multiset(r[..n + 1]) == multiset(a[..n]) + multiset{v}
  {
    ghost var pos;
    r, pos := InsertSortedNoinc(a, v, n);
    InsertionContents(a, r, pos, v, n, 0, L);
    assert a[..n][..pos] == a[..pos] && a[..n][pos..] == a[pos..n];
    forall k | 0 <= k < pos
      ensures a[..n][k] < v
    {
      assert a[..n][k] in a[..n];
    }
    InsertStrict(a[..n], pos, v);
  }

  /** insert_sorted_noinc of the progression into slots 0..p. */
  method InsertProgression(a: seq<int>, prog: seq<int>, L: nat) returns (r: seq<int>)
    requires |prog| <= |a| && Distinct(prog) && InRange(prog, 0, L)
    ensures |r| == |a| && r[|prog|..] == a[|prog|..]
    ensures StrictlyIncreasing(r[..|prog|]) && InRange(r[..|prog|], 0, L)
    ensures forall t :: 0 <= t < |prog| ==> prog[t] in r[..|prog|]
  {
    r := a;
    for i := 0 to |prog|
      invariant |r| == |a| && r[|prog|..] == a[|prog|..]
      invariant StrictlyIncreasing(r[..i]) && InRange(r[..i], 0, L)
      invariant multiset(r[..i]) == multiset(prog[..i])
    {
      ghost var before := r;
      assert prog[i] !in prog[..i];
      assert prog[i] !in before[..i] by {
        assert prog[i] !in multiset(before[..i]);
      }
      r := InsertNew(r, prog[i], i, L);
      assert prog[..i + 1] == prog[..i] + [prog[i]];
      assert r[|prog|..] == a[|prog|..] by {
        assert r[i + 1..] == before[i + 1..];
      }
    }
    forall t | 0 <= t < |prog|
      ensures prog[t] in r[..|prog|]
    {
      assert prog[..|prog|] == prog;
      assert prog[t] in multiset(r[..|prog|]);
    }
  }

  /** generate_weak_type1, lines 33-51: block k holds the progression
      delta * (i + shift) mod L for i < WEAK_P (here p), completed by sorted
      draws; the other block is random. When the progression values are
      distinct, both blocks are well formed and the rows are their
      transposes. */
  method GenerateWeakType1(w: nat, L: nat, p: nat, d: Weak1Draws) returns (H: Code)
    requires ValidParams(w, L) && p <= w <= L && Weak1InRange(d, w, L, p)
    requires Distinct(Progression(1 + d.step, d.shift, L, p))
    ensures WellFormed(H, w, L)
    ensures var prog := Progression(1 + d.step, d.shift, L, p);
      forall i :: 0 <= i < p ==> prog[i] in H.columns[d.k]
  {
    var delta := 1 + d.step;
    var prog := Progression(delta, d.shift, L, p);
    var weak := InsertProgression(seq(w, _ => 0), prog, L);
    weak := FillSorted(weak, p, w, d.fill, L);
    assert weak[..w] == weak;
    var other := SparseBlock(w, L, d.other);
    var columns := if d.k == 0 then [weak, other] else [other, weak];
    H := TransposeColumns(Code(columns, []), w, L);
    assert H.columns[d.k] == weak;
  }

  // ---------------------------------------------------------------------------
  // generate_weak_type2
  // ---------------------------------------------------------------------------

  /** The bars of a stars-and-bars draw, lines 61-76: b[0] = 0, b[s] = total,
      and the s - 1 inner bars inserted with insert_sorted; draw t is
      random_lim(total - 1 - t). */
  method Bars(total: nat, s: nat, draws: seq<nat>) returns (b: seq<int>)
    requires 1 <= s <= total && FillDraws(draws, 1, s, total)
    ensures |b| == s + 1 && b[0] == 0 && b[s] == total
    ensures StrictlyIncreasing(b) && InRange(b, 0, total + 1)
  {
    var b0 := [0] + seq(s - 1, _ => 0) + [total];
    assert b0[..1] == [0];
    b := FillSorted(b0, 1, s, draws, total);
    assert b[s] == total by {
      assert b[s..] == b0[s..];
    }
    assert 0 in b[..s] by {
      assert 0 in b0[..1];
    }
    assert b[0] == 0 by {
      var t :| 0 <= t < s && b[..s][t] == 0;
      assert b[..s][0] >= 0;
    }
    forall p, q | 0 <= p < q <= s
      ensures b[p] < b[q]
    {
      if q < s {
        assert b[..s][p] < b[..s][q];
      } else {
        assert b[..s][p] < total;
      }
    }
    forall p | 0 <= p <= s
      ensures 0 <= b[p] < total + 1
    {
      if p < s {
        assert b[..s][p] < total;
      }
    }
  }

  /** The conversion to run lengths, lines 78-81: run i is b[i + 1] - b[i]. */
  function Runs(b: seq<int>): (r: seq<int>)
    requires |b| >= 1
    ensures |r| == |b| - 1
  {
    seq(|b| - 1, i requires 0 <= i < |b| - 1 => b[i + 1] - b[i])
  }

  function Sum(s: seq<int>): int
  {
    if |s| == 0 then 0 else Sum(s[..|s| - 1]) + s[|s| - 1]
  }

  /** The runs of increasing bars are positive and add up to the last bar
      minus the first. */
  lemma {:induction false} RunsSum(b: seq<int>)
    requires |b| >= 1 && StrictlyIncreasing(b)
    ensures Sum(Runs(b)) == b[|b| - 1] - b[0]
    ensures forall i :: 0 <= i < |b| - 1 ==> Runs(b)[i] > 0
  {
    if |b| > 1 {
      var c := b[..|b| - 1];
      assert Runs(b)[..|b| - 2] == Runs(c);
      RunsSum(c);
    }
  }

  /** delta * q mod L: the form of every weak-block entry. */
  function Mul(delta: nat, q: int, L: nat): (m: int)
    requires 0 < L
    ensures 0 <= m < L
  {
    (delta * q) % L
  }

  /** The values of one run of ones, line 89: delta * (start + l2) mod L. */
  function Run(delta: nat, start: int, len: nat, L: nat): (r: seq<int>)
    requires 0 < L
    ensures |r| == len
    ensures forall l :: 0 <= l < len ==> r[l] == Mul(delta, start + l, L)
  {
    seq(len, l requires 0 <= l < len => Mul(delta, start + l, L))
  }

  ghost predicate Positive(s: seq<int>)
  {
    forall i :: 0 <= i < |s| ==> s[i] > 0
  }

  /** The position after the first |ones| runs: each run of zeros, then of
      ones, moves it forward, lines 87 and 92. */
  function Cursor(ones: seq<int>, zeros: seq<int>, c0: int, L: nat): int
    requires 0 < L && |ones| == |zeros|
  {
    if |ones| == 0 then c0
    else
      var n := |ones| - 1;
      Advance(Advance(Cursor(ones[..n], zeros[..n], c0, L), zeros[n], L), ones[n], L)
  }

  /** current_pos = (current_pos + d) % BLOCK_LENGTH. */
  function Advance(c: int, d: int, L: nat): int
    requires 0 < L
  {
    (c + d) % L
  }

  /** The values the emission loop of lines 85-93 produces, run after run:
      the reference the weak block is a sorted arrangement of. */
  function Emitted(ones: seq<int>, zeros: seq<int>, c0: int, delta: nat, L: nat): (e: seq<int>)
    requires 0 < L && |ones| == |zeros| && Positive(ones)
    ensures InRange(e, 0, L)
  {
    if |ones| == 0 then []
    else
      var n := |ones| - 1;
      var start := Advance(Cursor(ones[..n], zeros[..n], c0, L), zeros[n], L);
      Emitted(ones[..n], zeros[..n], c0, delta, L) + Run(delta, start, ones[n], L)
  }

  /** One value per star: the emission has the length of the sum of the
      runs. */
  lemma {:induction false} EmittedLength(ones: seq<int>, zeros: seq<int>, c0: int, delta: nat, L: nat)
    requires 0 < L && |ones| == |zeros| && Positive(ones)
    ensures |Emitted(ones, zeros, c0, delta, L)| == Sum(ones)
  {
    if |ones| > 0 {
      var n := |ones| - 1;
      EmittedLength(ones[..n], zeros[..n], c0, delta, L);
    }
  }

  /** Every emitted value has the form delta * q mod L. */
  lemma {:induction false} EmittedForm(ones: seq<int>, zeros: seq<int>, c0: int, delta: nat, L: nat, x: int)
    requires 0 < L && |ones| == |zeros| && Positive(ones)
    requires x in Emitted(ones, zeros, c0, delta, L)
    ensures exists q :: x == Mul(delta, q, L)
  {
    var n := |ones| - 1;
    var start := Advance(Cursor(ones[..n], zeros[..n], c0, L), zeros[n], L);
    var pre := Emitted(ones[..n], zeros[..n], c0, delta, L);
    if x in pre {
      EmittedForm(ones[..n], zeros[..n], c0, delta, L, x);
    } else {
      RunForm(delta, start, ones[n], L, x);
    }
  }

  lemma RunForm(delta: nat, start: int, len: nat, L: nat, x: int)
    requires 0 < L && x in Run(delta, start, len, L)
    ensures exists q :: x == Mul(delta, q, L)
  {
    var run := Run(delta, start, len, L);
    var l :| 0 <= l < |run| && run[l] == x;
    assert x == Mul(delta, start + l, L);
  }

  /** The inner loop of lines 88-91: one run of ones inserted with
      insert_sorted_noinc after `count` values already placed. */
  method EmitRun(col0: seq<int>, count0: nat, delta: nat, start: int, len: nat, L: nat, ghost done: seq<int>)
    returns (col: seq<int>, count: nat)
    requires 0 < L && count0 + len <= |col0|
    requires NonDecreasing(col0[..count0]) && multiset(col0[..count0]) == multiset(done)
    ensures |col| == |col0| && count == count0 + len
    ensures NonDecreasing(col[..count])
    ensures multiset(col[..count]) == multiset(done + Run(delta, start, len, L))
  {
    col, count := col0, count0;
    for l2 := 0 to len
      invariant |col| == |col0| && count == count0 + l2
      invariant NonDecreasing(col[..count])
      invariant multiset(col[..count]) == multiset(done + Run(delta, start, l2, L))
    {
      var a := Mul(delta, start + l2, L);
      col := PlaceNext(col, count, a, done + Run(delta, start, l2, L));
      RunSnoc(done, delta, start, l2, L);
      count := count + 1;
    }
  }

  /** The emission loop of lines 84-93: the runs of ones and zeros laid out
      cyclically from L - shift, each one inserted with insert_sorted_noinc;
      `count` is the source's i. */
  method EmitRuns(ones: seq<int>, zeros: seq<int>, shift: nat, delta: nat, w: nat, L: nat)
    returns (col: seq<int>, count: nat)
    requires 0 < L && |ones| == |zeros| && Positive(ones) && Sum(ones) == w
    ensures count == w && |col| == w
    ensures NonDecreasing(col)
    ensures multiset(col) == multiset(Emitted(ones, zeros, (L - shift) % L, delta, L))
  {
    var c0 := (L - shift) % L;
    col := seq(w, _ => 0);
    var cp := c0;
    count := 0;
    for l1 := 0 to |ones|
      invariant |col| == w
      invariant cp == Cursor(ones[..l1], zeros[..l1], c0, L)
      invariant count == Sum(ones[..l1]) <= w
      invariant NonDecreasing(col[..count])
      invariant multiset(col[..count]) == multiset(Emitted(ones[..l1], zeros[..l1], c0, delta, L))
    {
      SumPrefix(ones, l1 + 1);
      cp := Advance(cp, zeros[l1], L);
      col, count := EmitRun(col, count, delta, cp, ones[l1], L, Emitted(ones[..l1], zeros[..l1], c0, delta, L));
      CursorStep(ones, zeros, c0, L, l1);
      EmittedStep(ones, zeros, c0, delta, L, l1);
      cp := Advance(cp, ones[l1], L);
    }
    assert ones[..|ones|] == ones && zeros[..|zeros|] == zeros;
    assert col[..count] == col;
  }

  lemma RunSnoc(done: seq<int>, delta: nat, start: int, l: nat, L: nat)
    requires 0 < L
    ensures done + Run(delta, start, l + 1, L) == done + Run(delta, start, l, L) + [Mul(delta, start + l, L)]
  {
    assert Run(delta, start, l + 1, L) == Run(delta, start, l, L) + [Mul(delta, start + l, L)];
  }

  /** One more run: the cursor after the first n + 1 runs. */
  lemma CursorStep(ones: seq<int>, zeros: seq<int>, c0: int, L: nat, n: nat)
    requires 0 < L && |ones| == |zeros| && n < |ones|
    ensures Cursor(ones[..n + 1], zeros[..n + 1], c0, L)
      == Advance(Advance(Cursor(ones[..n], zeros[..n], c0, L), zeros[n], L), ones[n], L)
  {
    var o := ones[..n + 1];
    var z := zeros[..n + 1];
    assert o[..|o| - 1] == ones[..n];
    assert z[..|z| - 1] == zeros[..n];
  }

  /** One more run: the emission of the first n + 1 runs. */
  lemma EmittedStep(ones: seq<int>, zeros: seq<int>, c0: int, delta: nat, L: nat, n: nat)
    requires 0 < L && |ones| == |zeros| && Positive(ones) && n < |ones|
    ensures Emitted(ones[..n + 1], zeros[..n + 1], c0, delta, L)
      == Emitted(ones[..n], zeros[..n], c0, delta, L)
         + Run(delta, Advance(Cursor(ones[..n], zeros[..n], c0, L), zeros[n], L), ones[n], L)
  {
    var o := ones[..n + 1];
    var z := zeros[..n + 1];
    assert o[..|o| - 1] == ones[..n];
    assert z[..|z| - 1] == zeros[..n];
    assert Positive(o);
  }

  /** insert_sorted_noinc of the next value a: a non-decreasing prefix
      holding `placed` grows into one holding placed + [a]. */
  method PlaceNext(col: seq<int>, n: nat, a: int, ghost placed: seq<int>) returns (r: seq<int>)
    requires n < |col| && NonDecreasing(col[..n]) && multiset(col[..n]) == multiset(placed)
    ensures |r| == |col|
    ensures NonDecreasing(r[..n + 1])
    ensures multiset(r[..n + 1]) == multiset(placed + [a])
  {
    ghost var pos;
    r, pos := InsertSortedNoinc(col, a, n);
  }

  /** The partial sums the emission loop counts with never exceed the total. */
  lemma {:induction false} SumPrefix(s: seq<int>, n: nat)
    requires 1 <= n <= |s| && Positive(s)
    ensures Sum(s[..n]) == Sum(s[..n - 1]) + s[n - 1]
    ensures Sum(s[..n]) <= Sum(s)
    decreases |s| - n
  {
    assert s[..n][..n - 1] == s[..n - 1];
    if n < |s| {
      SumPrefix(s, n + 1);
    } else {
      assert s[..n] == s;
    }
  }

  lemma SameElementsInRange(a: seq<int>, b: seq<int>, L: nat)
    requires multiset(a) == multiset(b) && InRange(b, 0, L)
    ensures InRange(a, 0, L)
  {
    forall t | 0 <= t < |a|
      ensures 0 <= a[t] < L
    {
      assert a[t] in multiset(b);
    }
  }

  /** The draws of generate_weak_type2: the weak block k, the step delta - 1,
      the inner bars of the ones and of the zeros, and the other block. The
      shift is drawn from a bound only known once the bars are placed, so it
      comes from an oracle `pickShift` with pickShift(n) in [0, n). */
  datatype Weak2Draws = Weak2Draws(k: nat, step: nat, ones: seq<nat>, zeros: seq<nat>, other: seq<nat>)

  ghost predicate Weak2InRange(d: Weak2Draws, w: nat, L: nat, p: nat)
    requires p < w <= L
  {
    Below(d.k, 2) && Below(d.step, L / 2)
    && FillDraws(d.ones, 1, w - p, w) && FillDraws(d.zeros, 1, w - p, L - w)
    && FillDraws(d.other, 0, w, L)
  }

  /** Lines 56-93 of generate_weak_type2: the bars, the runs, the shift and
      the emission of the weak block. */
  method WeakRuns(w: nat, L: nat, p: nat, d: Weak2Draws, pickShift: nat -> nat)
    returns (weak: seq<int>, count: nat, ghost ones: seq<int>, ghost zeros: seq<int>, ghost shift: nat)
    requires ValidParams(w, L) && p < w && w - p <= L - w
    requires Weak2InRange(d, w, L, p) && forall n :: Below(pickShift(n), n)
    ensures |ones| == |zeros| == w - p && Positive(ones) && Positive(zeros)
    ensures Sum(ones) == w && Sum(zeros) == L - w
    ensures shift < ones[0] + zeros[0]
    ensures count == w && |weak| == w
    ensures NonDecreasing(weak) && InRange(weak, 0, L)
    ensures multiset(weak) == multiset(Emitted(ones, zeros, (L - shift) % L, 1 + d.step, L))
  {
    var s := w - p;
    var ob := Bars(w, s, d.ones);
    var zb := Bars(L - w, s, d.zeros);
    RunsSum(ob);
    RunsSum(zb);
    var o := Runs(ob);
    var z := Runs(zb);
    ones, zeros := o, z;
    var sh := pickShift(o[0] + z[0]);
    shift := sh;
    weak, count := EmitRuns(o, z, sh, 1 + d.step, w, L);
    SameElementsInRange(weak, Emitted(o, z, (L - sh) % L, 1 + d.step, L), L);
  }

  /** generate_weak_type2, lines 55-97: w - p runs of ones separated by
      w - p runs of zeros (stars and bars), laid out cyclically; the weak
      block holds delta times every position of a one, sorted. The source's
      counter reaches exactly w, so every slot of the block is written, and
      the runs of ones and of zeros are positive and fill w and L - w. */
  method GenerateWeakType2(w: nat, L: nat, p: nat, d: Weak2Draws, pickShift: nat -> nat)
    returns (H: Code, count: nat, ghost ones: seq<int>, ghost zeros: seq<int>, ghost shift: nat)
    requires ValidParams(w, L) && p < w && w - p <= L - w
    requires Weak2InRange(d, w, L, p) && forall n :: Below(pickShift(n), n)
    ensures |ones| == |zeros| == w - p && Positive(ones) && Positive(zeros)
    ensures Sum(ones) == w && Sum(zeros) == L - w
    ensures shift < ones[0] + zeros[0]
    ensures count == w && |H.columns| == 2 && |H.columns[d.k]| == w
    ensures NonDecreasing(H.columns[d.k]) && InRange(H.columns[d.k], 0, L)
    ensures multiset(H.columns[d.k]) == multiset(Emitted(ones, zeros, (L - shift) % L, 1 + d.step, L))
    ensures IsBlock(H.columns[1 - d.k], w, L)
  {
    var weak;
    weak, count, ones, zeros, shift := WeakRuns(w, L, p, d, pickShift);
    var other := SparseBlock(w, L, d.other);
    var columns := if d.k == 0 then [weak, other] else [other, weak];
    H := Code(columns, [TransposeRaw(columns[0], L), TransposeRaw(columns[1], L)]);
    assert H.columns[d.k] == weak && H.columns[1 - d.k] == other;
  }

  // ---------------------------------------------------------------------------
  // generate_weak_type3
  // ---------------------------------------------------------------------------

  /** The position x of block 1 faces position (x - shift) mod L of block 0:
      x = (c + shift) mod L exactly when c = Unshift(x). */
  function Unshift(x: int, shift: int, L: nat): (c: int)
    requires 0 < L
    ensures 0 <= c < L
  {
    (x - shift) % L
  }

  lemma ShiftRoundTrip(c: int, x: int, shift: nat, L: nat)
    requires 0 < L && 0 <= c < L && 0 <= x < L
    ensures x == (c + shift) % L <==> c == Unshift(x, shift, L)
  {
    var back: int := -(shift as int);
    ModAddLeft(c + shift, back, L);
    assert c + shift + back == c;
    ModOfSmall(c, L);
    ModAddLeft(x - shift, shift, L);
    assert x - shift + shift == x;
    ModOfSmall(x, L);
  }

  /** The positions of block 1 that face a position of block 0. */
  function Common(col0: seq<int>, col1: seq<int>, shift: nat, L: nat): set<int>
    requires 0 < L
  {
    set x | x in col1 && Unshift(x, shift, L) in col0
  }

  /** The first loop, lines 104-109: draw t is random_lim(L - t) and goes into
      block 0 with insert_sorted; the position it lands on, shifted, goes into
      block 1. Afterwards the two prefixes face each other exactly. */
  method PlaceCommon(col0: seq<int>, col1: seq<int>, p: nat, draws: seq<nat>, shift: nat, L: nat)
    returns (c0: seq<int>, c1: seq<int>)
    requires 0 < L && p <= |col0| && p <= |col1| && FillDraws(draws, 0, p, L)
    ensures |c0| == |col0| && |c1| == |col1|
    ensures StrictlyIncreasing(c0[..p]) && InRange(c0[..p], 0, L)
    ensures StrictlyIncreasing(c1[..p]) && InRange(c1[..p], 0, L)
    ensures forall x :: x in c1[..p] <==> 0 <= x < L && Unshift(x, shift, L) in c0[..p]
  {
    c0, c1 := col0, col1;
    for i := 0 to p
      invariant |c0| == |col0| && |c1| == |col1|
      invariant StrictlyIncreasing(c0[..i]) && InRange(c0[..i], 0, L)
      invariant StrictlyIncreasing(c1[..i]) && InRange(c1[..i], 0, L)
      invariant forall x :: x in c1[..i] <==> 0 <= x < L && Unshift(x, shift, L) in c0[..i]
    {
      ghost var b0 := c0;
      ghost var b1 := c1;
      var v;
      ghost var pos;
      c0, v, pos := InsertSorted(c0, draws[i], i);
      InsertionContents(b0, c0, pos, v, i, 0, L);
      var a := (v + shift) % L;
      ShiftRoundTrip(v, a, shift, L);
      assert a !in b1[..i];
      c1 := InsertNew(c1, a, i, L);
      SameMembers(c1[..i + 1], b1[..i], a);
      forall x
        ensures x in c1[..i + 1] <==> 0 <= x < L && Unshift(x, shift, L) in c0[..i + 1]
      {
        if 0 <= x < L {
          ShiftRoundTrip(v, x, shift, L);
        }
      }
    }
  }

  /** The compensation loop of line 125 (the scan of insert_sorted without the
      insertion): the r-th position, 0-based, that the strictly increasing
      prefix col[..n] does not hold. */
  method Compensate(col: seq<int>, n: nat, r: nat, L: nat) returns (v: int)
    requires n <= |col| && StrictlyIncreasing(col[..n]) && InRange(col[..n], 0, L)
    requires r < L - n
    ensures r <= v < L && v !in col[..n]
    ensures v - CountBelow(col[..n], v) == r
  {
    var j := 0;
    v := r;
    while j < n && col[j] <= v
      invariant 0 <= j <= n && v == r + j
      invariant forall k :: 0 <= k < j ==> col[k] < v
    {
      j := j + 1;
      v := v + 1;
    }
    forall k | j <= k < n
      ensures v < col[k]
    {
      assert col[..n][j] <= col[..n][k];
    }
    CountBelowSplit(col[..n], j, v);
  }

  /** The test of lines 127-131: does v face a position of block 0? */
  method FacesBlock0(col0: seq<int>, v: int, shift: nat, L: nat) returns (hit: bool)
    requires 0 < L && InRange(col0, 0, L) && 0 <= v < L
    ensures hit <==> Unshift(v, shift, L) in col0
  {
    hit := false;
    for k := 0 to |col0|
      invariant hit <==> Unshift(v, shift, L) in col0[..k]
    {
      ShiftRoundTrip(col0[k], v, shift, L);
      if (col0[k] + shift) % L == v {
        hit := true;
      }
      assert col0[..k + 1] == col0[..k] + [col0[k]];
    }
    assert col0[..|col0|] == col0;
  }

  /** a holds the elements of b and v, and nothing else. */
  ghost predicate Extends(a: seq<int>, b: seq<int>, v: int)
  {
    forall x :: x in a <==> x == v || x in b
  }

  lemma SameMembers(a: seq<int>, b: seq<int>, v: int)
    requires multiset(a) == multiset(b) + multiset{v}
    ensures Extends(a, b, v)
  {
    forall x
      ensures x in a <==> x == v || x in b
    {
      assert x in a <==> x in multiset(a);
      assert x in b <==> x in multiset(b);
    }
  }

  /** One slot of the completion loop, lines 113-134: tries are redrawn (the
      `goto gen`) while the compensated draw faces block 0; the first that
      does not is inserted. A finite list of tries stands for the unbounded
      retry; `ok` is false when every try was rejected. */
  method CompleteSlot(col0: seq<int>, col1: seq<int>, i: nat, tries: seq<nat>, shift: nat, L: nat)
    returns (ok: bool, r: seq<int>, ghost v: int)
    requires 0 < L && i < |col1| && InRange(col0, 0, L)
    requires StrictlyIncreasing(col1[..i]) && InRange(col1[..i], 0, L)
    requires forall t :: 0 <= t < |tries| ==> tries[t] < L - i
    ensures ok ==> |r| == |col1| && StrictlyIncreasing(r[..i + 1]) && InRange(r[..i + 1], 0, L)
    ensures ok ==> Unshift(v, shift, L) !in col0
    ensures ok ==> Extends(r[..i + 1], col1[..i], v)
  {
    r := col1;
    v := 0;
    ok := false;
    var t := 0;
    while t < |tries| && !ok
      invariant 0 <= t <= |tries|
      invariant ok ==> |r| == |col1| && StrictlyIncreasing(r[..i + 1]) && InRange(r[..i + 1], 0, L)
      invariant ok ==> Unshift(v, shift, L) !in col0
      invariant ok ==> Extends(r[..i + 1], col1[..i], v)
    {
      var cand := Compensate(col1, i, tries[t], L);
      var hit := FacesBlock0(col0, cand, shift, L);
      if !hit {
        r := InsertNew(col1, cand, i, L);
        v := cand;
        ok := true;
        SameMembers(r[..i + 1], col1[..i], v);
      }
      t := t + 1;
    }
  }

  /** The completion loop, lines 113-134, slot after slot; `base` is what the
      first loop put in block 1. Every position added faces no position of
      block 0. */
  method Complete(col0: seq<int>, col1: seq<int>, p: nat, w: nat, tries: seq<seq<nat>>, shift: nat, L: nat,
                  ghost base: seq<int>)
    returns (ok: bool, r: seq<int>)
    requires 0 < L && p <= w == |col1| && InRange(col0, 0, L) && |tries| == w - p
    requires forall i, t :: 0 <= i < |tries| && 0 <= t < |tries[i]| ==> tries[i][t] < L - (p + i)
    requires StrictlyIncreasing(col1[..p]) && InRange(col1[..p], 0, L) && base == col1[..p]
    requires forall x :: x in base ==> Unshift(x, shift, L) in col0
    ensures ok ==> IsBlock(r, w, L)
    ensures ok ==> forall x :: x in base ==> x in r
    ensures ok ==> forall x :: x in r ==> (Unshift(x, shift, L) in col0 <==> x in base)
  {
    r := col1;
    ok := true;
    var i := p;
    while i < w && ok
      invariant p <= i <= w && |r| == w
      invariant ok ==> StrictlyIncreasing(r[..i]) && InRange(r[..i], 0, L)
      invariant ok ==> forall x :: x in base ==> x in r[..i]
      invariant ok ==> forall x :: x in r[..i] ==> (Unshift(x, shift, L) in col0 <==> x in base)
      decreases w - i, ok
    {
      var done, next;
      ghost var v;
      done, next, v := CompleteSlot(col0, r, i, tries[i - p], shift, L);
      if done {
        r := next;
        i := i + 1;
      } else {
        ok := false;
      }
    }
    if ok {
      assert r[..w] == r;
    }
  }

  lemma {:induction false} DistinctCard(s: seq<int>)
    requires StrictlyIncreasing(s)
    ensures |set x | x in s| == |s|
  {
    if |s| > 0 {
      var n := |s| - 1;
      DistinctCard(s[..n]);
      assert (set x | x in s) == (set x | x in s[..n]) + {s[n]};
      assert s[n] !in s[..n];
    }
  }

  /** The draws of generate_weak_type3: the shift, the p common positions,
      the completion of block 0, and for each slot of block 1 past p the list
      of tries of the rejection loop. */
  datatype Weak3Draws = Weak3Draws(shift: nat, common: seq<nat>, fill: seq<nat>, tries: seq<seq<nat>>)

  /** The length counter of the source is L - i at slot i in all three loops
      (it is decremented on every accepted draw and given back w - p before
      the third), so every draw for slot i is below L - i. */
  ghost predicate Weak3InRange(d: Weak3Draws, w: nat, L: nat, p: nat)
  {
    Below(d.shift, L) && FillDraws(d.common, 0, p, L) && FillDraws(d.fill, p, w, L)
    && |d.tries| == w - p
    && forall i, t :: 0 <= i < |d.tries| && 0 <= t < |d.tries[i]| ==> d.tries[i][t] < L - (p + i)
  }

  /** generate_weak_type3, lines 99-137: block 1 shares exactly p positions
      with block 0 shifted by `shift`. When the tries for every slot suffice,
      both blocks are well formed and exactly p positions x of block 1 have
      x - shift (mod L) in block 0. */
  method GenerateWeakType3(w: nat, L: nat, p: nat, d: Weak3Draws) returns (ok: bool, H: Code)
    requires ValidParams(w, L) && p <= w <= L && Weak3InRange(d, w, L, p)
    ensures ok ==> WellFormed(H, w, L)
    ensures ok ==> |Common(H.columns[0], H.columns[1], d.shift, L)| == p
  {
    var col0, col1 := PlaceCommon(seq(w, _ => 0), seq(w, _ => 0), p, d.common, d.shift, L);
    ghost var base := col1[..p];
    ghost var head := col0[..p];
    col0 := FillSorted(col0, p, w, d.fill, L);
    assert col0[..w] == col0;
    forall x | x in base
      ensures Unshift(x, d.shift, L) in col0
    {
      assert Unshift(x, d.shift, L) in head;
    }
    var full;
    ok, full := Complete(col0, col1, p, w, d.tries, d.shift, L, base);
    H := Code([col0, full], []);
    if ok {
      H := TransposeColumns(H, w, L);
      assert Common(col0, full, d.shift, L) == set x | x in base;
      DistinctCard(base);
    }
  }
}
