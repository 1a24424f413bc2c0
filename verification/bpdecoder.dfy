/** The belief-propagation variant of qcmdpc_decode (src/decoder_bp.c).
    Each iteration runs the check nodes (for every check i: the leave-one-out
    product of tanh(v_to_c / 2) over its 2w edges, mapped back through
    2 * atanh * BP_SCALE), then the variable nodes (the leave-one-out sum of
    the incoming c_to_v plus the channel value), then the hard decision and
    the syndrome of the hard decision.

    llr_t values are exact reals; tanh and atanh are oracle functions. The
    message arrays keep the source's [k][l][j] layout, and the 2w edges of a
    check are the leaves k * w + l of the tree, as messages_c is laid out. */
module BpDecoder {
  import opened Bits
  import opened Cyclic
  import opened QcCode
  import opened Kernel
  import opened Macros
  import opened ExtrinsicTree

  lemma DoubleNotPow2(w: nat)
    requires w >= 1 && !IsPow2(w)
    ensures !IsPow2(2 * w)
  {
  }

  // ---------------------------------------------------------------------------
  // The check/variable index mapping
  // ---------------------------------------------------------------------------

  /** The index computed at lines 140-142 and 148-150,
      ((i > c) ? 0 : L) + i - c. */
  function VarIndexAsWritten(i: int, c: int, L: int): (j: int)
    ensures 0 <= c < i < L ==> j == i - c
  {
    (if i > c then 0 else L) + i - c
  }

  /** When the check index equals the column entry the index is L, one past
      the last position of the row; (i - c) mod L is 0 there. */
  lemma VarIndexOverrun(c: int, L: int)
    requires 0 <= c < L
    ensures VarIndexAsWritten(c, c, L) == L && VarIndex(c, c, L) == 0
  {
  }

  /** The intended index: the position of block k that check i meets through
      columns[k][l], i - c wrapped into [0, L). */
  function VarIndex(i: nat, c: nat, L: nat): (j: nat)
    requires i < L && c < L
    ensures j < L && (i >= c ==> j == i - c) && (i < c ==> j == L + i - c)
  {
    (if i >= c then 0 else L) + i - c
  }

  /** Everywhere else the written index is the intended one. */
  lemma VarIndexAgrees(i: nat, c: nat, L: nat)
    requires i < L && c < L
    ensures i != c <==> VarIndexAsWritten(i, c, L) == VarIndex(i, c, L)
  {
  }

  /** The check that position j meets through column entry c, j + c wrapped
      into [0, L). */
  function CheckIndex(j: nat, c: nat, L: nat): (i: nat)
    requires j < L && c < L
    ensures i < L && (j + c < L ==> i == j + c) && (j + c >= L ==> i == j + c - L)
  {
    if j + c < L then j + c else j + c - L
  }

  /** The index is the one the syndrome reads: bit i of the syndrome sums
      e[k][(i - c) mod L] over the column entries c (sparse_cyclic.c), so the
      edges of check i are exactly the terms of syndrome bit i. Likewise
      position j takes part in check (j + c) mod L. */
  lemma IndexIsCyclic(i: nat, j: nat, c: nat, L: nat)
    requires i < L && j < L && c < L
    ensures VarIndex(i, c, L) == (i - c) % L
    ensures CheckIndex(j, c, L) == (j + c) % L
  {
    if i >= c {
      DivUnique(i - c, 0, i - c, L);
    } else {
      DivUnique(i - c, -1, L + i - c, L);
    }
    if j + c < L {
      DivUnique(j + c, 0, j + c, L);
    } else {
      DivUnique(j + c, 1, j + c - L, L);
    }
  }

  /** The two maps are inverse: each check meets each position through one
      edge of a given column entry, so a pass over all checks writes every
      message slot exactly once. */
  lemma IndexRoundTrip(i: nat, j: nat, c: nat, L: nat)
    requires i < L && j < L && c < L
    ensures j == VarIndex(i, c, L) <==> i == CheckIndex(j, c, L)
  {
  }

  // ---------------------------------------------------------------------------
  // Messages and the decoder state
  // ---------------------------------------------------------------------------

  /** Messages indexed [k][l][j], the layout of v_to_c and c_to_v. */
  type Messages = seq<seq<seq<real>>>

  ghost predicate MessageShape(m: Messages, w: nat, L: nat)
  {
    |m| == 2 && (forall k :: 0 <= k < 2 ==> |m[k]| == w)
    && (forall k, l :: 0 <= k < 2 && 0 <= l < w ==> |m[k][l]| == L)
  }

  /** m with entry [k][l][j] replaced by v. */
  function Put(m: Messages, w: nat, L: nat, k: nat, l: nat, j: nat, v: real): (r: Messages)
    requires MessageShape(m, w, L) && k < 2 && l < w && j < L
    ensures MessageShape(r, w, L)
    ensures forall k', l', j' :: 0 <= k' < 2 && 0 <= l' < w && 0 <= j' < L ==>
      r[k'][l'][j'] == if k' == k && l' == l && j' == j then v else m[k'][l'][j']
  {
    m[k := m[k][l := m[k][l][j := v]]]
  }

  /** struct decoder_bp, with the error weight it reports through e. */
  datatype DecoderBp = DecoderBp(r: seq<seq<real>>, vToC: Messages, cToV: Messages,
                                 bits: seq<seq<Bit>>, syndrome: Syndrome, eWeight: int, iter: int)

  ghost predicate Shaped(dec: DecoderBp, w: nat, L: nat)
  {
    |dec.r| == 2 && |dec.r[0]| == L && |dec.r[1]| == L
    && MessageShape(dec.vToC, w, L) && MessageShape(dec.cToV, w, L)
    && |dec.bits| == 2 && |dec.bits[0]| == 2 * L && |dec.bits[1]| == 2 * L
    && |dec.syndrome.vec| == 2 * L
  }

  // ---------------------------------------------------------------------------
  // Check nodes
  // ---------------------------------------------------------------------------

  /** Leaf number of edge (k, l) of a check: k * w + l. */
  function Slot(w: nat, k: nat, l: nat): nat
  {
    if k == 0 then l else w + l
  }

  /** messages_c before the product, lines 138-144: leaf k * w + l holds
      tanh(v_to_c[k][l][j] / 2) for the position j check i meets through
      columns[k][l]. */
  function CheckInputs(H: Code, w: nat, L: nat, vToC: Messages, tanh: real -> real, i: nat): (m: seq<real>)
    requires ColumnsValid(H, w, L) && MessageShape(vToC, w, L) && i < L
    ensures |m| == 2 * w
  {
    seq(2 * w, s requires 0 <= s < 2 * w =>
      CheckInput(H, w, L, vToC, tanh, i, if s < w then 0 else 1, if s < w then s else s - w))
  }

  /** The leaf of edge (k, l): tanh(v_to_c[k][l][j] / 2), line 143. */
  function CheckInput(H: Code, w: nat, L: nat, vToC: Messages, tanh: real -> real, i: nat, k: nat, l: nat): real
    requires ColumnsValid(H, w, L) && MessageShape(vToC, w, L) && i < L && k < 2 && l < w
  {
    tanh(vToC[k][l][VarIndex(i, Col(H, w, L, k, l), L)] / 2.0)
  }

  /** SATURATE(2 * atanh(p) * BP_SCALE, BP_SATURATE), line 152, with the
      corrected clamp: the message stays within [-BP_SATURATE, BP_SATURATE],
      and it is what the macro as written gives unless the scaled value lies
      below -BP_SATURATE. */
  function Scaled(atanh: real -> real, p: real): (v: real)
    ensures -BpSaturate <= v <= BpSaturate
    ensures -BpSaturate <= 2.0 * atanh(p) * BpScale <= BpSaturate ==> v == 0.8 * atanh(p)
    ensures 2.0 * atanh(p) * BpScale >= -BpSaturate <==> v == SaturateAsWritten(2.0 * atanh(p) * BpScale, BpSaturate)
  {
    Saturate(2.0 * atanh(p) * BpScale, BpSaturate)
  }

  /** The message check i sends back along edge (k, l), lines 145-153:
      SATURATE(2 * atanh(product) * BP_SCALE, BP_SATURATE) of leaf k * w + l
      after extrinsic(tree, 2w, mult). */
  function CheckMessage(H: Code, w: nat, L: nat, vToC: Messages, tanh: real -> real, atanh: real -> real,
                        i: nat, k: nat, l: nat): real
    requires BpParams(w, L) && ColumnsValid(H, w, L) && MessageShape(vToC, w, L) && i < L && k < 2 && l < w
  {
    DoubleNotPow2(w);
    var product := ExtrinsicOf(Mul, CheckInputs(H, w, L, vToC, tanh, i));
    Scaled(atanh, product[Slot(w, k, l)])
  }

  /** The message of check i along edge (k, l) is computed from the other
      2w - 1 edges of check i only: the product leaves out leaf k * w + l. */
  lemma CheckMessageLeavesOut(H: Code, w: nat, L: nat, vToC: Messages, tanh: real -> real, atanh: real -> real,
                              i: nat, k: nat, l: nat)
    requires BpParams(w, L) && ColumnsValid(H, w, L) && MessageShape(vToC, w, L) && i < L && k < 2 && l < w
    ensures CheckMessage(H, w, L, vToC, tanh, atanh, i, k, l)
            == Scaled(atanh, Fold(Mul, 1.0, Without(CheckInputs(H, w, L, vToC, tanh, i), Slot(w, k, l))))
  {
    DoubleNotPow2(w);
    ExtrinsicProduct(CheckInputs(H, w, L, vToC, tanh, i), Slot(w, k, l));
  }

  /** The leaf left out is the one fed by the position the message goes back
      to: with CheckMessageLeavesOut, entry [k][l][j] of c_to_v is computed
      from every edge of its check except v_to_c[k][l][j]. */
  lemma CheckMessageExtrinsic(H: Code, w: nat, L: nat, vToC: Messages, tanh: real -> real, k: nat, l: nat, j: nat)
    requires BpParams(w, L) && ColumnsValid(H, w, L) && MessageShape(vToC, w, L) && k < 2 && l < w && j < L
    ensures CheckInputs(H, w, L, vToC, tanh, CheckIndex(j, Col(H, w, L, k, l), L))[Slot(w, k, l)]
            == tanh(vToC[k][l][j] / 2.0)
  {
    var c := Col(H, w, L, k, l);
    var i := CheckIndex(j, c, L);
    IndexRoundTrip(i, j, c, L);
    CheckInputAt(H, w, L, vToC, tanh, i, k, l);
  }

  /** Leaf k * w + l of check i holds tanh(v_to_c[k][l][j] / 2) for the
      position j that check i meets through columns[k][l]. */
  lemma CheckInputAt(H: Code, w: nat, L: nat, vToC: Messages, tanh: real -> real, i: nat, k: nat, l: nat)
    requires BpParams(w, L) && ColumnsValid(H, w, L) && MessageShape(vToC, w, L) && i < L && k < 2 && l < w
    ensures CheckInputs(H, w, L, vToC, tanh, i)[Slot(w, k, l)]
            == tanh(vToC[k][l][VarIndex(i, Col(H, w, L, k, l), L)] / 2.0)
  {
    var s := Slot(w, k, l);
    assert s < w <==> k == 0;
    assert (if s < w then s else s - w) == l;
    assert CheckInputs(H, w, L, vToC, tanh, i)[s] == CheckInput(H, w, L, vToC, tanh, i, k, l);
  }

  /** Entry (k, l) of column block k, a position of [0, L). */
  function Col(H: Code, w: nat, L: nat, k: nat, l: nat): (c: nat)
    requires ColumnsValid(H, w, L) && k < 2 && l < w
    ensures c < L
  {
    H.columns[k][l]
  }

  /** out is m with check i's messages written on the edges whose leaf is
      below upto. */
  ghost predicate CheckWritten(H: Code, w: nat, L: nat, vToC: Messages, tanh: real -> real, atanh: real -> real,
                               i: nat, m: Messages, out: Messages, upto: nat)
    requires BpParams(w, L) && ColumnsValid(H, w, L) && MessageShape(vToC, w, L) && i < L
    requires MessageShape(m, w, L) && MessageShape(out, w, L)
  {
    forall k, l, j :: 0 <= k < 2 && 0 <= l < w && 0 <= j < L ==>
      out[k][l][j] == if Slot(w, k, l) < upto && j == VarIndex(i, Col(H, w, L, k, l), L)
                      then CheckMessage(H, w, L, vToC, tanh, atanh, i, k, l) else m[k][l][j]
  }

  /** One check node, lines 138-153: write check i's messages to c_to_v at
      the positions it meets; every other entry is left as it was. The two
      nested loops over k and l are one loop over the leaves k * w + l. */
  method CheckNode(H: Code, w: nat, L: nat, vToC: Messages, tanh: real -> real, atanh: real -> real,
                   i: nat, m: Messages) returns (out: Messages)
    requires BpParams(w, L) && ColumnsValid(H, w, L) && MessageShape(vToC, w, L) && MessageShape(m, w, L) && i < L
    ensures MessageShape(out, w, L)
    ensures forall k, l, j :: 0 <= k < 2 && 0 <= l < w && 0 <= j < L ==>
      out[k][l][j] == if j == VarIndex(i, Col(H, w, L, k, l), L) then CheckMessage(H, w, L, vToC, tanh, atanh, i, k, l)
                      else m[k][l][j]
  {
    DoubleNotPow2(w);
    var product := ExtrinsicOf(Mul, CheckInputs(H, w, L, vToC, tanh, i));
    out := m;
    for s := 0 to 2 * w
      invariant MessageShape(out, w, L)
      invariant CheckWritten(H, w, L, vToC, tanh, atanh, i, m, out, s)
    {
      var k := if s < w then 0 else 1;
      var l := if s < w then s else s - w;
      assert Slot(w, k, l) == s;
      var j := VarIndex(i, Col(H, w, L, k, l), L);
      var v := Scaled(atanh, product[s]);
      var next := Put(out, w, L, k, l, j, v);
      WriteStep(H, w, L, vToC, tanh, atanh, i, m, out, k, l, v);
      out := next;
    }
  }

  /** Writing check i's message on leaf k * w + l extends what is written by
      one leaf. */
  lemma WriteStep(H: Code, w: nat, L: nat, vToC: Messages, tanh: real -> real, atanh: real -> real,
                  i: nat, m: Messages, out: Messages, k: nat, l: nat, v: real)
    requires BpParams(w, L) && ColumnsValid(H, w, L) && MessageShape(vToC, w, L) && i < L && k < 2 && l < w
    requires MessageShape(m, w, L) && MessageShape(out, w, L)
    requires CheckWritten(H, w, L, vToC, tanh, atanh, i, m, out, Slot(w, k, l))
    requires v == CheckMessage(H, w, L, vToC, tanh, atanh, i, k, l)
    ensures CheckWritten(H, w, L, vToC, tanh, atanh, i, m, Put(out, w, L, k, l, VarIndex(i, Col(H, w, L, k, l), L), v),
                         Slot(w, k, l) + 1)
  {
  }

  /** The check-node half of an iteration, lines 137-154: every entry of
      c_to_v is overwritten, entry [k][l][j] by the message of the check that
      position j meets through columns[k][l]. */
  method CheckPass(H: Code, w: nat, L: nat, vToC: Messages, cToV: Messages, tanh: real -> real, atanh: real -> real)
    returns (out: Messages)
    requires BpParams(w, L) && ColumnsValid(H, w, L) && MessageShape(vToC, w, L) && MessageShape(cToV, w, L)
    ensures MessageShape(out, w, L)
    ensures forall k, l, j :: 0 <= k < 2 && 0 <= l < w && 0 <= j < L ==>
      out[k][l][j] == CheckMessage(H, w, L, vToC, tanh, atanh, CheckIndex(j, Col(H, w, L, k, l), L), k, l)
  {
    out := cToV;
    for i := 0 to L
      invariant MessageShape(out, w, L)
      invariant forall k, l, j :: 0 <= k < 2 && 0 <= l < w && 0 <= j < L ==>
        out[k][l][j] == if CheckIndex(j, Col(H, w, L, k, l), L) < i
                        then CheckMessage(H, w, L, vToC, tanh, atanh, CheckIndex(j, Col(H, w, L, k, l), L), k, l)
                        else cToV[k][l][j]
    {
      var next := CheckNode(H, w, L, vToC, tanh, atanh, i, out);
      forall k, l, j | 0 <= k < 2 && 0 <= l < w && 0 <= j < L
        ensures j == VarIndex(i, Col(H, w, L, k, l), L) <==> CheckIndex(j, Col(H, w, L, k, l), L) == i
      {
        IndexRoundTrip(i, j, Col(H, w, L, k, l), L);
      }
      out := next;
    }
  }

  // ---------------------------------------------------------------------------
  // Variable nodes
  // ---------------------------------------------------------------------------

  /** messages_v for position j of block k, line 158: c_to_v[k][l][j] for every l. */
  function VariableInputs(cToV: Messages, w: nat, L: nat, k: nat, j: nat): (m: seq<real>)
    requires MessageShape(cToV, w, L) && k < 2 && j < L
    ensures |m| == w
  {
    seq(w, l requires 0 <= l < w => cToV[k][l][j])
  }

  /** The variable-node half, lines 155-165: v_to_c[k][l][j] is the channel
      value plus leaf l of extrinsic(tree, w, add), saturated. */
  function VariablePass(r: seq<seq<real>>, cToV: Messages, w: nat, L: nat): (v: Messages)
    requires BpParams(w, L) && |r| == 2 && |r[0]| == L && |r[1]| == L && MessageShape(cToV, w, L)
    ensures MessageShape(v, w, L)
  {
    seq(2, k requires 0 <= k < 2 =>
      seq(w, l requires 0 <= l < w =>
        seq(L, j requires 0 <= j < L =>
          Saturate(r[k][j] + ExtrinsicOf(Add, VariableInputs(cToV, w, L, k, j))[l], BpSaturate))))
  }

  /** A variable sends along edge l its channel value plus what the OTHER
      checks told it: the sum of its incoming messages minus the one arriving
      on edge l. */
  lemma VariablePassExtrinsic(r: seq<seq<real>>, cToV: Messages, w: nat, L: nat, k: nat, l: nat, j: nat)
    requires BpParams(w, L) && |r| == 2 && |r[0]| == L && |r[1]| == L && MessageShape(cToV, w, L)
    requires k < 2 && l < w && j < L
    ensures VariablePass(r, cToV, w, L)[k][l][j]
            == Saturate(r[k][j] + Fold(Add, 0.0, VariableInputs(cToV, w, L, k, j)) - cToV[k][l][j], BpSaturate)
  {
    ExtrinsicSum(VariableInputs(cToV, w, L, k, j), l);
  }

  // ---------------------------------------------------------------------------
  // to_binary
  // ---------------------------------------------------------------------------

  /** val of to_binary, lines 41-43: the channel value plus every v_to_c[k][l][j]. */
  function Belief(r: seq<seq<real>>, vToC: Messages, w: nat, L: nat, k: nat, j: nat): real
    requires |r| == 2 && |r[0]| == L && |r[1]| == L && MessageShape(vToC, w, L) && k < 2 && j < L
  {
    r[k][j] + Fold(Add, 0.0, seq(w, l requires 0 <= l < w => vToC[k][l][j]))
  }

  /** The hard decision (val < 0). */
  function HardBit(x: real): (b: Bit)
    ensures b == 1 <==> x < 0.0
  {
    if x < 0.0 then 1 else 0
  }

  /** to_binary, lines 37-52: the hard decision of every position, written to
      both halves of the doubled buffer, and as error weight the number of
      positions where it differs from the codeword. */
  method ToBinary(r: seq<seq<real>>, vToC: Messages, codeword: seq<seq<Bit>>, w: nat, L: nat)
    returns (bits: seq<seq<Bit>>, weight: nat)
    requires |r| == 2 && |r[0]| == L && |r[1]| == L && MessageShape(vToC, w, L)
    requires |codeword| == 2 && |codeword[0]| == 2 * L && |codeword[1]| == 2 * L
    ensures |bits| == 2 && |bits[0]| == 2 * L && |bits[1]| == 2 * L
    ensures forall k, j :: 0 <= k < 2 && 0 <= j < L ==>
      bits[k][j] == HardBit(Belief(r, vToC, w, L, k, j)) && bits[k][L + j] == bits[k][j]
    ensures weight == Distance(codeword[0][..L], bits[0][..L]) + Distance(codeword[1][..L], bits[1][..L])
    ensures weight == 0 <==> bits[0][..L] == codeword[0][..L] && bits[1][..L] == codeword[1][..L]
  {
    bits := [HardBlock(r, vToC, w, L, 0), HardBlock(r, vToC, w, L, 1)];
    var d0 := BlockErrors(codeword[0], bits[0], L);
    var d1 := BlockErrors(codeword[1], bits[1], L);
    weight := d0 + d1;
  }

  /** The error count of one block of to_binary: the positions of the first
      L where the hard decision and the codeword differ. */
  method BlockErrors(c: seq<Bit>, b: seq<Bit>, L: nat) returns (d: nat)
    requires L <= |c| && L <= |b|
    ensures d == Distance(c[..L], b[..L])
    ensures d == 0 <==> b[..L] == c[..L]
  {
    var x := XorVec(c[..L], b[..L]);
    d := CountOnes(x, L);
    assert x[..L] == x;
    SuccessMeansEqual(c[..L], b[..L]);
  }

  /** The doubled hard-decision buffer of block k. */
  function HardBlock(r: seq<seq<real>>, vToC: Messages, w: nat, L: nat, k: nat): (b: seq<Bit>)
    requires |r| == 2 && |r[0]| == L && |r[1]| == L && MessageShape(vToC, w, L) && k < 2
    ensures |b| == 2 * L
    ensures forall j :: 0 <= j < L ==> b[j] == HardBit(Belief(r, vToC, w, L, k, j)) && b[L + j] == b[j]
  {
    var h := seq(L, j requires 0 <= j < L => HardBit(Belief(r, vToC, w, L, k, j)));
    h + h
  }

  // ---------------------------------------------------------------------------
  // The loop
  // ---------------------------------------------------------------------------

  /** One pass of the loop body after ++iter, lines 137-167. */
  method Iterate(H: Code, w: nat, L: nat, codeword: seq<seq<Bit>>, dec: DecoderBp,
                 tanh: real -> real, atanh: real -> real) returns (r: DecoderBp)
    requires BpParams(w, L) && ColumnsValid(H, w, L) && Shaped(dec, w, L)
    requires |codeword| == 2 && |codeword[0]| == 2 * L && |codeword[1]| == 2 * L
    ensures Shaped(r, w, L) && r.iter == dec.iter && r.r == dec.r
    ensures forall k, l, j :: 0 <= k < 2 && 0 <= l < w && 0 <= j < L ==>
      r.cToV[k][l][j] == CheckMessage(H, w, L, dec.vToC, tanh, atanh, CheckIndex(j, Col(H, w, L, k, l), L), k, l)
    ensures r.vToC == VariablePass(dec.r, r.cToV, w, L)
    ensures forall k, j :: 0 <= k < 2 && 0 <= j < L ==>
      r.bits[k][j] == HardBit(Belief(r.r, r.vToC, w, L, k, j)) && r.bits[k][L + j] == r.bits[k][j]
    ensures r.eWeight == 0 <==> r.bits[0][..L] == codeword[0][..L] && r.bits[1][..L] == codeword[1][..L]
    ensures r.syndrome.vec[..L] == SyndromeOf(H, r.bits, L) && r.syndrome.weight == Popcount(r.syndrome.vec[..L])
  {
    var cToV := CheckPass(H, w, L, dec.vToC, dec.cToV, tanh, atanh);
    var vToC := VariablePass(dec.r, cToV, w, L);
    var bits, weight := ToBinary(dec.r, vToC, codeword, w, L);
    var syndrome := ComputeSyndrome(H, DenseError(bits, weight), L);
    r := dec.(vToC := vToC, cToV := cToV, bits := bits, syndrome := syndrome, eWeight := weight);
  }

  /** qcmdpc_decode (BP), lines 129-173: at most max_iter iterations, leaving
      early once the syndrome of the hard decision is zero (SYNDROME_STOP is 0,
      since include/param.h rejects Ouroboros with BP); the verdict is whether
      the last hard decision is the codeword. */
  method Decode(H: Code, w: nat, L: nat, codeword: seq<seq<Bit>>, dec0: DecoderBp, maxIter: int,
                tanh: real -> real, atanh: real -> real) returns (ok: bool, dec: DecoderBp)
    requires BpParams(w, L) && ColumnsValid(H, w, L) && Shaped(dec0, w, L)
    requires |codeword| == 2 && |codeword[0]| == 2 * L && |codeword[1]| == 2 * L
    ensures Shaped(dec, w, L) && dec.r == dec0.r
    ensures 0 <= dec.iter && (dec.iter <= maxIter || dec.iter == 0)
    ensures ok <==> dec.eWeight == 0
    ensures dec.iter == 0 ==> dec == dec0.(iter := 0) && maxIter <= 0
    ensures dec.iter > 0 ==>
      (ok <==> dec.bits[0][..L] == codeword[0][..L] && dec.bits[1][..L] == codeword[1][..L])
      && dec.syndrome.vec[..L] == SyndromeOf(H, dec.bits, L)
    ensures dec.iter < maxIter ==> dec.iter > 0 && dec.syndrome.weight == 0
  {
    dec := dec0.(iter := 0);
    while dec.iter < maxIter
      invariant Shaped(dec, w, L) && dec.r == dec0.r && 0 <= dec.iter
      invariant dec.iter <= maxIter || dec.iter == 0
      invariant dec.iter == 0 ==> dec == dec0.(iter := 0)
      invariant dec.iter > 0 ==>
        (dec.eWeight == 0 <==> dec.bits[0][..L] == codeword[0][..L] && dec.bits[1][..L] == codeword[1][..L])
        && dec.syndrome.vec[..L] == SyndromeOf(H, dec.bits, L)
        && dec.syndrome.weight == Popcount(dec.syndrome.vec[..L])
      decreases maxIter - dec.iter
    {
      dec := dec.(iter := dec.iter + 1);
      dec := Iterate(H, w, L, codeword, dec, tanh, atanh);
      if dec.syndrome.weight == 0 {
        break;
      }
    }
    ok := dec.eWeight == 0;
  }

  /** BP_SCALE and BP_SATURATE (include/param.h:277-281). */
  const BpScale: real := 0.4
  const BpSaturate: real := 1000.0

  /** The parameters the decoder accepts: those of include/param.h, and a row
      weight for which extrinsic's level 1 holds two nodes, both for the w
      variable edges and the 2w check edges. */
  ghost predicate BpParams(w: nat, L: nat)
  {
    ValidParams(w, L) && 2 <= w && !IsPow2(w)
  }

}
