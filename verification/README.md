# qcmdpc_decoder in Dafny

qcmdpc_decoder is a simulator for the decoding failure rate of QC-MDPC
codes. A code has two circulant blocks of length L, each given by the w
positions of the ones in its first column; its rows are the transposes. An
error of weight t is drawn, its syndrome computed, and one of several
bit-flipping decoders (CLASSIC, BACKFLIP, BACKFLIP2, GRAY, SBS, SORT) or a
belief-propagation decoder tries to find it back; the number of iterations
each trial took goes into a histogram that a Python script reads back.

This project models the exact, integer part of that simulator and proves
properties of the model:

- the sparse cyclic algebra (sorted insertion, uniform sparse draws, cyclic
  transpose, the modulo-free sparse-by-dense products) and the syndrome,
  counter, error-expansion and codeword kernel built on it (`Cyclic`,
  `QcCode`);
- the decoder state and its invariant, the incremental counter read, the
  column flip and `single_flip` (`Kernel`), and every bit-flipping decoder:
  CLASSIC (`ClassicDecoder`), BACKFLIP and BACKFLIP2 with their doubly-linked
  expiry list and time-to-live rules (`FlipList`, `Backflip`), GRAY
  (`GrayDecoder`), SBS (`SbsDecoder`) and SORT with its bounded min-heap
  (`Heap`, `SortDecoder`);
- the integer skeleton of the threshold rules, with every logarithmic or
  binomial estimate an oracle (`Threshold`);
- the leave-one-out tree of belief propagation over any commutative monoid,
  the check-to-variable index, the hard decision and the decoder loop, with
  the floating-point message arithmetic as oracles (`ExtrinsicTree`,
  `BpDecoder`);
- the code and error-pattern generators, with every draw of the
  pseudo-random generator a parameter in its range (`CodeGen`, `ErrorGen`);
- the macros of include/types.h and include/log2.h (`Macros`), the
  xoroshiro128+ and xoshiro256++ generators (`PrngCore`,
  `Xoroshiro128Plus`, `Xoshiro256PlusPlus`);
- the reading of results files by scripts/qcmdpc_stats.py (`Stats`).

Conventions. Bits are the integers 0 and 1 and a dense block is a sequence
of them; the doubled buffers of the source (two copies of a block, padded to
SIZE_AVX) have length 2L. Block positions are unbounded integers with the
bounds of include/param.h (INDEX = 2, w ≤ 255, L ≤ 65536) as preconditions
where the source relies on them; the uint8 counters of `multiply_add` and
the 64-bit words of the generators are written out with their wrap-around.
The two generators disagree on `random_lim`: inclusive in xoroshiro128+,
exclusive in xoshiro256++; each call site's draw is a parameter with the
range of the generator it calls. A loop that draws until it succeeds runs on
a finite stream of draws and reports when the stream runs out. The
threshold functions are Dafny functions of their arguments, so the cached
threshold of the decoders is the value a fresh call would give.

Where the source and its description disagree, the model follows the code.
Where the code itself is evidently wrong (see "## Findings"), the code as
written is a member of its own with a lemma exhibiting the fault, and the
rest of the model uses the corrected definition; "## Left out" names each
member that builds on a corrected definition rather than on the code.
The majority clamp of `compute_threshold` is (w + 1) / 2 with integer
division, and GRAY recomputes its threshold every round because the
`!blocked` guard it sits behind is always true inside the loop.

## Model

| member | source | states |
|---|---|---|
| Macros.RoundUp | include/types.h:32 | ROUND_UP(N, S) is a multiple of S in [N, N + S) |
| Macros.RoundUpLeast | include/types.h:32 | no multiple of S that is at least N lies below ROUND_UP(N, S): it is the least one |
| Macros.SizeAvx | include/types.h:33 | SIZE_AVX is at least BLOCK_LENGTH, below BLOCK_LENGTH + 512 and a multiple of 512, so a 2·SIZE_AVX buffer holds two block copies |
| Macros.Swap | include/types.h:35-40 | SWAP exchanges the two entries, leaves every other entry alone and keeps the multiset of the array |
| Macros.SwapInvolution | include/types.h:35-40 | swapping the same two entries twice gives the array back |
| Macros.SaturateAsWritten | include/types.h:41 | the macro as written returns SAT or X, never more than X |
| Macros.SaturateMissesLowerClamp | include/types.h:41 | with the repeated `(X) > (SAT)` test, any X below -SAT comes out unchanged, outside [-SAT, SAT] |
| Macros.Saturate | include/types.h:41 | the intended clamp: the result lies in [-SAT, SAT], equals X inside it, SAT above it and -SAT below it |
| Macros.SaturateAgreesAbove | include/types.h:41 | the intended clamp and the macro agree exactly on the inputs X ≥ -SAT |
| Macros.SaturateIdempotent | include/types.h:41 | clamping twice is clamping once |
| Macros.SaturateMonotone | include/types.h:41 | the clamp preserves order |
| Macros.Log2Zero | include/log2.h:1-3 | LOG2(0) = 0 |
| Macros.Log2IsBitLength | include/log2.h:1-20 | below 512, LOG2(v) is the number of binary digits of v: 2^(LOG2(v)-1) ≤ v < 2^LOG2(v) for v ≥ 1 |
| Macros.Log2Saturates | include/log2.h:18-20 | LOG2(v) = 9 for every v ≥ 256, so from 512 on it is below the bit length |
| Macros.Log2Monotone | include/log2.h:1-20 | LOG2 is non-decreasing |
| Cyclic.InsertSortedNoinc | src/sparse_cyclic.c:38-45 | value lands after every entry of the prefix that is at most value and before the first larger one, the tail past max_i is untouched, a non-decreasing prefix stays non-decreasing, and the prefix's multiset gains exactly value |
| Cyclic.InsertKeepsOrder | src/sparse_cyclic.c:38-45 | inserting a value between the entries at most it and the entries at least it keeps a non-decreasing list non-decreasing |
| Cyclic.InsertSorted | src/sparse_cyclic.c:48-56 | on a strictly increasing prefix the inserted and returned value v is absent from the prefix, has exactly `value` non-members of the prefix below it (the value-th unused position), and the prefix stays strictly increasing |
| Cyclic.SparseRand | src/sparse_cyclic.c:60-66 | with weight ≤ length and draw i in [0, length-1-i] (the inclusive random_lim(--length)), the block has weight strictly increasing positions in [0, length) |
| Cyclic.TransposeRaw | src/sparse_cyclic.c:68-81 | transpose keeps the number of entries |
| Cyclic.TransposeRawSorted | src/sparse_cyclic.c:68-81 | the transposed entries of a strictly increasing block in [0, L) are strictly increasing and in [0, L) |
| Cyclic.TransposeRawMembers | src/sparse_cyclic.c:68-81 | x is a transposed entry exactly when (L - x) mod L is an entry of the source |
| Cyclic.Transpose | src/sparse_cyclic.c:68-81 | the transposed block is strictly increasing in [0, L) and its set is {(L - s) mod L : s in src} |
| Cyclic.SortedSameElements | src/sparse_cyclic.c:68-93 | two strictly increasing lists with the same members are equal, so a block is determined by its set |
| Cyclic.TransposeInvolution | src/sparse_cyclic.c:83-93 | transpose_rows after transpose_columns gives the columns back |
| Cyclic.HitsBounds | src/sparse_cyclic.c:131-155 | on a 0/1 vector the integer product at a position is between 0 and the weight of x |
| Cyclic.HitsPrefix | src/sparse_cyclic.c:103-155 | the products read only y[0..L) |
| Cyclic.ParityLinear | src/sparse_cyclic.c:103-127 | the GF(2) product is linear in y: the product with y1 xor y2 is the xor of the two products |
| Cyclic.SegmentsAreCyclic | src/sparse_cyclic.c:110-117 | the no-wrap segment (z + x[k] += y, length L - x[k]) and the wrap segment (z += y + L - x[k], length x[k]) together add y[(j - x[k]) mod L] at every j < L |
| Cyclic.AddSegment | src/sparse_cyclic.c:118-126 | one queued segment adds y[yOff + i] into z[zOff + i] for i < len and changes nothing else |
| Cyclic.AccumulateLo | src/sparse_cyclic.c:110-126 | after the no-wrap segments of every offset, each z[j] with j < L has gained their contribution and z[L..] is untouched |
| Cyclic.AccumulateHi | src/sparse_cyclic.c:110-126 | the wrap segments then add the rest, still leaving z[L..] untouched |
| Cyclic.Accumulate | src/sparse_cyclic.c:103-155 | the modulo-free two-segment evaluation adds the cyclic product Σ_k y[(j - x[k]) mod L] to z[j] for j < L, modulo the cell width, and leaves z[L..] untouched |
| Cyclic.MultiplyXorMod2 | src/sparse_cyclic.c:103-127 | z[j] becomes z[j] xor the parity of #{k : y[(j - x[k]) mod L] = 1} for j < L; z[L..] is untouched |
| Cyclic.MultiplyAdd | src/sparse_cyclic.c:131-155 | z[j] gains Σ_k y[(j - x[k]) mod L] modulo 256 (uint8 cells) for j < L; with a 0/1 vector y and z[j] + w ≤ 255 no cell wraps |
| Cyclic.TransposeHits | src/sparse_cyclic.c:68-81 | reading y along the transposed block (row form) at j counts the same ones as reading it along the original column at j |
| Cyclic.IndicatorPopcount | src/code.c:70-91 | the dense form of a list of distinct positions has as many ones as the list has entries |
| Cyclic.HitsToggle | src/decoder.c:37-73 | toggling y[j] moves the product at p by one for each offset that reads y[j] there, up for a 0 and down for a 1 |
| Cyclic.OccurrencesAreTouches | src/decoder.c:37-73 | the row view (p - x[k] = j) and the column view (j + c[l] = p) count the same incidences |
| Cyclic.TouchesDistinct | src/decoder.c:37-73 | with strictly increasing offsets in [0, L), the column of a bit meets each check at most once |
| Cyclic.ConvCommutes | src/code.c:18-31 | the double cyclic convolution is symmetric in its two sparse factors: cyclic products commute |
| Cyclic.ParityOfProduct | src/code.c:18-52 | multiplying a product that was reduced mod 2 again gives the double convolution mod 2 |
| QcCode.TransposeColumns | src/sparse_cyclic.c:83-87 | transpose_columns keeps the columns and makes each row block the set {(L - s) mod L : s in the column block}, valid as a block |
| QcCode.TransposeRows | src/sparse_cyclic.c:89-93 | transpose_rows keeps the rows and makes each column block the set {(L - s) mod L : s in the row block} |
| QcCode.TransposeRoundTrip | src/sparse_cyclic.c:83-93 | after transpose_columns the code is well formed, and transpose_rows then changes nothing: the columns come back |
| QcCode.ComputeSyndrome | src/code.c:33-52 | the first half of the doubled buffer is the syndrome H·e (bit j is the parity of the two blocks' cyclic products at j), the second half is cleared, and the weight counts the ones in vec[0..L) only |
| QcCode.CountOnes | src/code.c:47-51 | the weight loop counts the ones among the first L cells |
| QcCode.SyndromeLinear | src/code.c:33-52 | the syndrome map is GF(2)-linear: the syndrome of e1 xor e2 is the xor of the syndromes |
| QcCode.SyndromeToggle | src/code.c:33-52 | toggling error bit (k, j) toggles syndrome bit p once per passage of column (k, j) through p, which is the update flip_column applies |
| QcCode.ComputeCounters | src/code.c:56-68 | the syndrome is mirrored into its second half, and counters[i][j] is #{k : syndrome[(j - rows[i][k]) mod L] = 1}, within [0, w] |
| QcCode.CountersMatchColumns | src/code.c:56-68 | with rows the transpose of columns, counters[i][j] counts the unsatisfied checks along column (i, j), which is what get_counter reads |
| QcCode.ErrorSparseToDense | src/code.c:70-91 | bit j of block 0 (block 1) is the parity of the occurrences of j (L + j) in the list, both blocks are mirrored and weight is the number of positions; for a strictly increasing list the bits are exactly the listed positions and their count is weight |
| QcCode.ToggleFirstBlock | src/code.c:75-80 | the first loop stops at the first entry ≥ L and sets bit j to the parity of j among the entries before it |
| QcCode.ToggleSecondBlock | src/code.c:81-84 | the second loop sets bit j of block 1 to the parity of L + j among the remaining entries |
| QcCode.DenseFromDistinct | src/code.c:70-91 | from distinct positions, a bit is set exactly when its position is listed, and the two blocks hold as many ones as positions |
| QcCode.SyndromeAddSparseError | src/code.c:93-98 | each syndrome bit is toggled once per occurrence of its position in the list and the weight field is left as it was; for a strictly increasing list exactly the listed bits change |
| QcCode.ComputeCodeword | src/code.c:18-31 | block k of the word is the GF(2) product of column block 1 - k with the message, and the second halves stay zero |
| QcCode.CodewordHasZeroSyndrome | src/code.c:18-52 | the word compute_codeword builds has the all-zero syndrome under compute_syndrome, because cyclic products commute |
| QcCode.GenerateRandomMessage | src/code.c:100-109 | message bit i is bit i mod 64 of draw i / 64 for i < L, and message[L + i] = message[i] |
| Kernel.ConsistentUpperHalf | src/decoder.c:37-73 | the decoder invariant depends only on syndrome cells below L, so mirroring the upper half (compute_counters) keeps it |
| Kernel.ConsistentBookkeeping | src/decoder.c:100-121 | the invariant does not depend on the iteration count or the blocked flag |
| Kernel.GetCounter | src/decoder.c:37-55 | the two-loop walk (no wrap until the first sum ≥ L, then offset - L) reads syndrome[(j + columns[k][l]) mod L] for every l: the counter is their sum, in [0, w] |
| Kernel.ToggleColumnStep | src/decoder.c:57-73 | adding one more offset toggles exactly cell (j + c[l]) mod L |
| Kernel.ToggleColumnPopcount | src/decoder.c:75-82 | adding a column of distinct offsets moves the syndrome weight by w - 2·counter |
| Kernel.UntouchedBefore | src/decoder.c:57-73 | with distinct offsets no earlier offset has toggled the cell the next one toggles |
| Kernel.FlipColumn | src/decoder.c:57-73 | flip_column toggles exactly the cells (j + columns[k][l]) mod L, once each, and nothing else |
| Kernel.FlipWrapped | src/decoder.c:69-72 | once one sum has wrapped, every later offset wraps too (sorted columns), and the second loop toggles the rest of the column |
| Kernel.FlipColumnIsRecompute | src/code.c:33-52 | flipping column (k, j) of the syndrome equals recomputing the syndrome after toggling error bit (k, j) |
| Kernel.Flipped | src/decoder.c:75-82 | single_flip leaves the iteration count, the blocked flag and the error vector alone |
| Kernel.SingleFlip | src/decoder.c:75-82 | single_flip toggles bit (k, j) and keeps the decoder invariant: the syndrome is the start syndrome xor that of the flips, syndrome.weight its popcount, e.weight the distance between flips and error |
| Kernel.FlippedConsistent | src/decoder.c:75-82 | the state after a flip satisfies the decoder invariant again |
| Kernel.FlippedTracksSyndrome | src/decoder.c:75-77 | after the flip the syndrome is still the start syndrome xor the syndrome of the flips |
| Kernel.FlippedTracksWeight | src/decoder.c:79 | the update weight += w - 2·counter keeps syndrome.weight equal to the popcount of vec[0..L), given distinct columns |
| Kernel.FlippedTracksError | src/decoder.c:80-81 | the update e.weight += 2·(bits ^ e) - 1 keeps e.weight equal to the distance between the flips and the error |
| Kernel.DistanceToggle | src/decoder.c:80-81 | toggling one bit moves the distance by +1 when the bits now differ and -1 when they now agree |
| Kernel.FlippedTwice | src/decoder.c:75-82 | applying single_flip twice at one position restores the whole decoder state |
| Kernel.TwiceColumn | src/decoder.c:57-73 | flipping the same column twice restores the syndrome |
| Kernel.ColumnHitsComplement | src/decoder.c:75-82 | after its column is added, a position reads w minus its old counter |
| Kernel.Reaches | src/decoder.c:114 | the flip test fires exactly when the counter reaches the threshold |
| Kernel.AnyReachesMeans | src/decoder.c:111-117 | the recursive "some counter reaches the threshold" flag means exactly that some counter among the first n does |
| Kernel.ResetDecoder | src/decoder.c:90-97 | reset_decoder zeroes every flip bit and the iteration count and leaves the syndrome and the error alone |
| Kernel.ResetConsistent | src/decoder.c:90-97 | after reset, with the syndrome computed from the error and e.weight the error's weight, the decoder invariant holds |
| Kernel.DistanceFromZero | src/decoder.c:90-97 | the distance from no flips to the error is the error's weight |
| Kernel.ConsistentMeaning | src/decoder.c:120 | under the invariant the syndrome is that of the residual error e xor bits, and e.weight = 0 exactly when the flips equal the error |
| Kernel.SuccessMeansEqual | src/decoder.c:120 | distance zero means equal vectors |
| ClassicDecoder.PassStep | src/decoder.c:114-117 | position (k, j) is flipped, keeping the decoder invariant, exactly when its counter reaches the threshold; nothing changes otherwise |
| ClassicDecoder.PassBlock | src/decoder.c:113-117 | the inner loop over block k flips exactly the positions whose counter reaches the threshold, leaves the other block alone, and reports a flip exactly when some counter reaches it |
| ClassicDecoder.ThresholdPass | src/decoder.c:111-117 | one pass over both blocks flips exactly the positions at or above the threshold; blocked stays set exactly when no counter reaches it, and then nothing changed |
| ClassicDecoder.Decode | src/decoder.c:100-121 | CLASSIC keeps the decoder invariant, returns 1 exactly when e.weight = 0 (when the start syndrome is that of the error: exactly when the flips equal the error), stops only at max_iter, at SYNDROME_STOP or after a pass that flips nothing (and then every counter is below the threshold), and with iter ≥ max_iter on entry flips nothing |
| FlipList.LinkedAt | src/decoder.c:126-148 | in a well-formed list the i-th position's next and prev are its neighbours in list order, -1 at the ends |
| FlipList.ResetLinked | src/decoder.c:92-95 | reset_decoder's first = -1, length = 0 is the well-formed empty list |
| FlipList.AddLinked | src/decoder.c:126-133 | fl_add of a position not in the list gives a well-formed list with that position in front and length one larger |
| FlipList.RemoveLinked | src/decoder.c:135-148 | fl_remove of the i-th position gives a well-formed list of the others in the same order with length one smaller, and leaves the removed node's next intact so the retraction sweep can continue from it (lines 228-241) |
| Backflip.PosInjective | src/decoder.c:198 | the flip-list index k * BLOCK_LENGTH + j names each bit of the two blocks once |
| Backflip.ThresholdWeight | src/decoder.c:174-176 | the weight given to the threshold rule is at least 1, is ERROR_WEIGHT minus the list length while the list is shorter, and never exceeds ERROR_WEIGHT |
| Backflip.AffineTtl | src/decoder.c:151-156 | affine_ttl lies in [1, TTL_SATURATE] and equals the truncated estimate whenever that is already in range |
| Backflip.AffineTtlMonotone | src/decoder.c:151-156 | with a non-negative slope a larger counter excess never gets a shorter time to live |
| Backflip.TierTtlCounts | src/decoder.c:204-214 | with ordered thresholds the BACKFLIP2 ladder gives 1 plus the number of thresholds 2..5 the counter reaches |
| Backflip.TtlFor | src/decoder.c:200-215 | both rules give a time to live in [1, TTL_SATURATE] |
| Backflip.FreshTodDiffers | src/decoder.c:217-219 | a time of death set this iteration differs from this iteration's residue, so the same iteration's sweep keeps the bit |
| Backflip.MatchesToggle | src/decoder.c:196-221 | toggling a bit and its list membership together keeps the list equal to the set bits |
| Backflip.ListRemove | src/decoder.c:197-198 | fl_remove of a set bit leaves a well-formed list of the other entries in order, matching the bits with that bit cleared, with the times of death and the removed node's next untouched |
| Backflip.ListAdd | src/decoder.c:199-219 | fl_add of a clear bit puts it in front of a well-formed list matching the bits with that bit set, with a valid time of death that is not the current residue |
| Backflip.PassStep | src/decoder.c:196-223 | one position of the pass keeps the decoder and list invariants, flips exactly when its counter reaches the threshold, and changes nothing otherwise |
| Backflip.PassBlock | src/decoder.c:195-224 | the inner loop flips exactly the positions of block k at or above the threshold and reports a flip exactly when one exists |
| Backflip.Pass | src/decoder.c:193-225 | the flipping pass flips exactly the positions of both blocks at or above the threshold, keeps the invariants, and reports a flip exactly when some counter reaches the threshold |
| Backflip.KeepMembers | src/decoder.c:229-241 | the sweep keeps exactly the listed positions whose time of death is not the current residue |
| Backflip.FreshFlipSurvives | src/decoder.c:217-219 | a position flipped during this iteration's pass survives this iteration's sweep |
| Backflip.SweepStep | src/decoder.c:230-240 | one node of the sweep removes and flips back the entry exactly when its time has come, and moves on to the node that followed it |
| Backflip.Sweep | src/decoder.c:226-242 | the retraction sweep keeps the invariants and leaves exactly the entries whose time of death is not the current residue, in order, or nothing changes at SYNDROME_STOP or on an empty list |
| Backflip.Decode | src/decoder.c:159-246 | BACKFLIP and BACKFLIP2 keep the decoder and list invariants, return 1 exactly when e.weight = 0 (when the start syndrome is that of the error: exactly when the flips equal the error), stop only at max_iter or SYNDROME_STOP, and with iter ≥ max_iter on entry flip nothing |
| Threshold.MajorityBounds | src/threshold.c:107-108 | the majority (BLOCK_WEIGHT + 1) / 2 lies in [1, BLOCK_WEIGHT], and strictly below BLOCK_WEIGHT once the weight is at least 2 |
| Threshold.ComputeThreshold | src/threshold.c:101-110 | compute_threshold returns a value in [majority, BLOCK_WEIGHT]: BLOCK_WEIGHT when q ≥ 1 or the estimate is above it, the majority when the estimate is below it, and the estimate otherwise |
| Threshold.ComputeThresholdIdempotent | src/threshold.c:105-108 | the two clamps leave an already clamped threshold unchanged |
| Threshold.ComputeThresholdMonotone | src/threshold.c:105-108 | for q < 1 a larger estimate never gives a smaller threshold |
| Threshold.ScanStopMeans | src/threshold.c:128-132 | the do-while stops at the largest threshold below the start that fails the mass test, or at the majority, having passed every threshold above it |
| Threshold.ComputeThresholdAlpha | src/threshold.c:113-137 | compute_threshold_alpha returns BLOCK_WEIGHT when p ≥ 1, otherwise one above where the downward scan stops, capped at BLOCK_WEIGHT, so always in [majority + 1, BLOCK_WEIGHT] once BLOCK_WEIGHT ≥ 2 |
| Threshold.ComputeThresholdAffine | src/threshold.c:141-144 | compute_threshold_affine is at least the majority, and when above it is the truncation of THRESHOLD_C0 + THRESHOLD_C1 * S |
| Threshold.AffineMonotone | src/threshold.c:141-144 | a heavier syndrome never lowers the affine threshold |
| Threshold.WeightedBounds | src/threshold.c:66-69 | with non-negative terms the weighted sum of (i - 1) E_i over odd i lies between 0 and (n - 2) times the plain sum |
| Threshold.OddLimit | src/threshold.c:66 | the loop index runs over exactly the odd i with i < 10 and i < t |
| Threshold.OddSums | src/threshold.c:66-69 | the loop accumulates the weighted and the plain sum of E_i over those odd i |
| Threshold.RatioBounds | src/threshold.c:71 | with non-negative terms and a nonzero denominator the ratio lies in [0, 8] |
| Threshold.XVal | src/threshold.c:59-72 | X_val is the weighted average of i - 1 over the summed odd i, 0 when the denominator is 0 or t ≤ 1, and in [0, 8] for non-negative terms |
| GrayDecoder.Select | src/decoder.c:267-283 | the cells listed for block k are positions below the block length whose counter lies in the band, in increasing order |
| GrayDecoder.SelectComplete | src/decoder.c:267-283 | every position of block k whose counter lies in the band is listed |
| GrayDecoder.SelectMeans | src/decoder.c:267-283 | a cell is listed for block k exactly when its counter lies in the band |
| GrayDecoder.ListedShape | src/decoder.c:273-281 | the black and gray lists hold valid, pairwise distinct cells |
| GrayDecoder.ListedMeans | src/decoder.c:267-283 | a cell is on the black list exactly when its counter reaches the threshold, and on the gray list exactly when it misses it by less than GRAY_DELTA |
| GrayDecoder.BlackGrayDisjoint | src/decoder.c:269-278 | no cell is both black and gray, and a gray cell's counter is below the threshold |
| GrayDecoder.BlockFrom | src/decoder.c:268-283 | the j loop flips exactly the positions of block k at or above the threshold and builds that block's black and gray lists |
| GrayDecoder.MainPass | src/decoder.c:263-283 | the main pass keeps the decoder invariant, flips exactly the positions at or above the threshold and returns the full black and gray lists; nothing changes when the black list is empty |
| GrayDecoder.Recount | src/decoder.c:290-294 | the first recheck loop stores get_counter of every listed cell from the current syndrome |
| GrayDecoder.ToggledMeans | src/decoder.c:295-303 | on a list without repetitions a bit ends toggled exactly when it is listed with a counter at the recheck threshold |
| GrayDecoder.FlipStep | src/decoder.c:296-302 | one cell of the second recheck loop is flipped exactly when its stored counter reaches the recheck threshold |
| GrayDecoder.FlipFrom | src/decoder.c:295-303 | the second recheck loop flips exactly the listed cells whose stored counter reaches the threshold, and reports a flip exactly when one does |
| GrayDecoder.Recheck | src/decoder.c:289-303 | a recheck step flips exactly the listed cells whose counter, from the syndrome at the step's start, reaches (BLOCK_WEIGHT + 1) / 2 + 1, keeps the decoder invariant, and changes nothing when none does |
| GrayDecoder.RoundEndBounds | src/decoder.c:284-326 | a round counts one to three iterations, so a round that starts below max_iter ends at most two past it |
| GrayDecoder.ExtraSteps | src/decoder.c:285-326 | the recheck steps run per variant (GRAY_BGF only while iter < 2, GRAY_BGB's gray step only while iter < 3, GRAY_B never the gray step) and count one iteration each |
| GrayDecoder.BlockedBelow | src/decoder.c:258-271 | when nothing flipped, every counter of the current syndrome is below the threshold |
| GrayDecoder.Round | src/decoder.c:257-326 | one round keeps the decoder invariant, ends at the iteration count its variant prescribes, and when blocked has changed no bit and left every counter below the affine threshold |
| GrayDecoder.GrayIterOverrunsHistogram | src/qcmdpc_decoder.c:235 | with GRAY_BG a round that starts at max_iter - 1 ends at max_iter + 2, past the max_iter + 1 slots of the histogram |
| GrayDecoder.Decode | src/decoder.c:251-330 | GRAY keeps the decoder invariant, returns 1 exactly when e.weight = 0 (the flips equal the error when the start syndrome is the error's), stops at max_iter, SYNDROME_STOP or a blocked round with every counter below the threshold, and returns an iteration count below max_iter + 3 |
| SbsDecoder.PickUnsatisfied | src/decoder.c:363-367 | the rejection loop returns the first drawn position whose syndrome bit is set, every earlier draw having hit a zero; on an exhausted stream every draw hit a zero |
| SbsDecoder.CandidateMeans | src/decoder.c:373-374 | the candidate j is (i + rows[k][l]) mod BLOCK_LENGTH, and when syndrome bit i is set its counter is at least 1 |
| SbsDecoder.HitsAtLeast | src/decoder.c:376 | each syndrome bit a column covers counts toward that column's counter |
| SbsDecoder.Step | src/decoder.c:373-382 | the candidate is flipped, by single_flip, exactly when get_counter reaches the threshold, always when the threshold is at most 1, and the decoder invariant holds either way |
| SbsDecoder.AnyCounterReaches | src/decoder.c:348-353 | the scan finds a counter at or above the threshold exactly when one exists |
| SbsDecoder.Rescan | src/decoder.c:346-357 | recomputing the counters changes only the mirrored half of the syndrome, and nothing is found exactly when every counter of the current syndrome is below the threshold |
| SbsDecoder.Decode | src/decoder.c:334-386 | SBS keeps the decoder invariant, returns 1 exactly when e.weight = 0 (the flips equal the error when the start syndrome is the error's), and stops at max_iter, at SYNDROME_STOP, when no counter reaches the threshold, or when the draws run out; a computed threshold is compute_threshold of the current syndrome and error weights |
| Heap.Parent | src/decoder.c:393 | PARENT(i) of a node i ≥ 1 is the node whose left or right child it is, and PARENT(0) is 0 under truncating division |
| Heap.RootIsMin | src/decoder.c:401-420 | in a min-heap the root's counter is at most every node's |
| Heap.RootIsMinAll | src/decoder.c:401-420 | in a min-heap the root holds a smallest counter of the array |
| Heap.SwapTarget | src/decoder.c:405-412 | the node sift_down swaps with has the smallest counter of the root and its children, and is the root exactly when the root already satisfies the heap order |
| Heap.SiftStep | src/decoder.c:413-418 | one swap moves the out-of-order element one level down and keeps every other node in heap order |
| Heap.SiftDown | src/decoder.c:401-420 | sift_down permutes the array, keeps the entries before start, and leaves every node from start on in heap order |
| Heap.LeavesAreHeap | src/decoder.c:423 | the nodes after PARENT(size - 1) have no children, so they are in heap order |
| Heap.Heapify | src/decoder.c:422-425 | heapify permutes the array into a min-heap on the counters |
| Heap.Insert | src/decoder.c:427-432 | insert replaces the root by pc exactly when the root's counter is smaller, keeps a min-heap, and never lowers the root's counter |
| SortDecoder.InsertDescOrdered | src/decoder.c:434-436 | inserting into a non-increasing sequence keeps it non-increasing, and the result holds the same entries plus the new one |
| SortDecoder.SortDescOrdered | src/decoder.c:458 | the ordering qsort gives by cmp_pos_counter_t is a permutation in non-increasing counter order |
| SortDecoder.EntriesMeans | src/decoder.c:442-447 | the entries visited are exactly the bits of both blocks, each with its own counter |
| SortDecoder.Admit | src/decoder.c:451-455 | one insert keeps the heap a selection of the largest counters seen so far, every excluded entry no larger than any kept one |
| SortDecoder.Collect | src/decoder.c:441-457 | after the loop the array holds `size` of the entries and every entry left out has a counter no larger than any kept one |
| SortDecoder.LeftOutIsSmaller | src/decoder.c:458 | after sorting, an entry left out is no larger than the last kept one |
| SortDecoder.SortCounters | src/decoder.c:438-459 | sort_counters returns GRAY_SIZE distinct bits with their counters in non-increasing order, and every bit left out has a counter no larger than the last |
| SortDecoder.SortedValid | src/decoder.c:470-471 | every sorted entry names a bit of the code |
| SortDecoder.SortedPass | src/decoder.c:467-477 | the loop over the sorted positions keeps the decoder invariant and runs until iter reaches the smaller of 2 * BLOCK_LENGTH and max_iter |
| SortDecoder.Decode | src/decoder.c:461-482 | SORT keeps the decoder invariant, returns 1 exactly when e.weight = 0 (the flips equal the error when the start syndrome is the error's), and never counts past max_iter |
| ExtrinsicTree.AddIsMonoid | src/decoder_bp.c:84 | add is associative and commutative with unit 0, so extrinsic may use it |
| ExtrinsicTree.MulIsMonoid | src/decoder_bp.c:86 | mult is associative and commutative with unit 1, so extrinsic may use it |
| ExtrinsicTree.FoldAppend | src/decoder_bp.c:99-110 | op over two adjacent ranges is op of their two totals |
| ExtrinsicTree.UpSplit | src/decoder_bp.c:99-110 | cutting a level at an even position cuts the level above at half that position |
| ExtrinsicTree.FoldUp | src/decoder_bp.c:99-110 | each level of the bottom-up pass, pairs combined and an odd last node carried, holds the same op-total as the level below |
| ExtrinsicTree.AboveValue | src/decoder_bp.c:99-110 | node p of the level above holds op over the two leaves below it, or the lone carried leaf |
| ExtrinsicTree.DownLeft | src/decoder_bp.c:118-122 | after the swap, the left child of a pair receives op over every leaf but itself |
| ExtrinsicTree.DownRight | src/decoder_bp.c:118-123 | after the swap, the right child of a pair receives op over every leaf but itself |
| ExtrinsicTree.DownCarried | src/decoder_bp.c:124-125 | a carried child receives its parent's leave-one-out value, which is op over every leaf but itself |
| ExtrinsicTree.DownAt | src/decoder_bp.c:113-126 | one level of the top-down pass turns the leave-one-out values of the level above into those of the level below, node by node |
| ExtrinsicTree.DownLeavesOneOut | src/decoder_bp.c:113-126 | the whole level after the top-down step equals the brute-force leave-one-out of that level |
| ExtrinsicTree.ExtrinsicLeavesOneOut | src/decoder_bp.c:91-127 | up the tree, the swap of the two level-1 nodes and back down leave every leaf holding op over all the other leaves, the brute-force reference |
| ExtrinsicTree.ExtrinsicOfLeavesOneOut | src/decoder_bp.c:91-127 | extrinsic(tree, size, op) equals the brute-force leave-one-out for every size from 2 to 511 that is not a power of two |
| ExtrinsicTree.ExtrinsicSum | src/decoder_bp.c:157-160 | with add, leaf i ends as the total minus its own value |
| ExtrinsicTree.ExtrinsicProduct | src/decoder_bp.c:143-145 | with mult, leaf i ends as the product of the other leaves |
| ExtrinsicTree.FoldWithout | src/decoder_bp.c:84 | the sum of all entries but i is the total minus entry i |
| ExtrinsicTree.TopLevelHoldsTwo | src/decoder_bp.c:97-112 | level 1 holds two nodes exactly when the size is not a power of two; for a power of two it holds one, and the swap at line 112 reads a stale tree[3] |
| ExtrinsicTree.LevelInWindow | src/decoder_bp.c:104-105 | every level of the tree fits in its window tree[2^k .. 2^(k+1)), so the levels never overlap |
| ExtrinsicTree.TreeTooSmall | include/types.h:114 | with w ≥ 128 the 2w check-node leaves start at tree[512], past the 512 entries of the tree as declared |
| ExtrinsicTree.TreeFits | src/decoder_bp.c:130-132 | a tree of 2 << LOG2(INDEX * BLOCK_WEIGHT) entries holds the leaves of both calls for every w up to 255 |
| BpDecoder.DoubleNotPow2 | src/decoder_bp.c:145 | when w is not a power of two neither is 2w, so extrinsic accepts the check-node size |
| BpDecoder.VarIndexOverrun | src/decoder_bp.c:140-142 | as written, check i equal to the column entry yields index L, one past the row, where (i - c) mod L is 0 |
| BpDecoder.VarIndex | src/decoder_bp.c:140-150 | the corrected index lies in [0, L) and is i - c, wrapped by L when negative |
| BpDecoder.VarIndexAgrees | src/decoder_bp.c:140-150 | the written and the corrected index differ exactly when i equals the column entry |
| BpDecoder.CheckIndex | src/decoder_bp.c:140-150 | the check a position meets through column entry c is j + c wrapped into [0, L) |
| BpDecoder.IndexIsCyclic | src/decoder_bp.c:140-150 | the edge index is (i - c) mod L, the term of syndrome bit i, and the check index is (j + c) mod L |
| BpDecoder.IndexRoundTrip | src/decoder_bp.c:140-150 | check i meets position j through entry c exactly when position j meets check i through it |
| BpDecoder.Put | src/decoder_bp.c:151 | writing one message changes that entry and no other |
| BpDecoder.CheckInputs | src/decoder_bp.c:137-144 | messages_c holds 2w leaves, one per edge of check i |
| BpDecoder.CheckInputAt | src/decoder_bp.c:143 | leaf k * w + l holds tanh(v_to_c[k][l][j] / 2) for the position j check i meets through that edge |
| BpDecoder.Scaled | src/decoder_bp.c:151-152 | with the corrected clamp the check message is within [-BP_SATURATE, BP_SATURATE] and is 2 * atanh * BP_SCALE when that is in range; it equals SATURATE as written exactly when 2 * atanh * BP_SCALE ≥ -BP_SATURATE |
| BpDecoder.CheckMessageLeavesOut | src/decoder_bp.c:145-153 | the message of check i along an edge is computed from the product over its other 2w - 1 edges only |
| BpDecoder.CheckMessageExtrinsic | src/decoder_bp.c:143-152 | the leaf left out for an edge is the one fed by the very position the message goes back to |
| BpDecoder.CheckNode | src/decoder_bp.c:138-153 | one check node writes its message to exactly one slot per edge, at the corrected index, and leaves every other slot alone |
| BpDecoder.WriteStep | src/decoder_bp.c:146-153 | writing one edge's message extends what the check has written by that edge |
| BpDecoder.CheckPass | src/decoder_bp.c:137-154 | after the check-node half every c_to_v[k][l][j] is the message of the check (j + columns[k][l]) mod L |
| BpDecoder.VariableInputs | src/decoder_bp.c:157-158 | messages_v for position j holds its w incoming c_to_v messages |
| BpDecoder.VariablePass | src/decoder_bp.c:155-165 | the variable-node half writes a message of the right shape for every edge |
| BpDecoder.VariablePassExtrinsic | src/decoder_bp.c:155-165 | a variable sends along edge l its channel value plus the sum of the messages of its other checks, saturated to BP_SATURATE |
| BpDecoder.HardBit | src/decoder_bp.c:44 | the hard decision is 1 exactly when the belief is negative |
| BpDecoder.ToBinary | src/decoder_bp.c:37-52 | to_binary writes the hard decision of every position to both halves and sets e.weight to its Hamming distance from the codeword, 0 exactly when they agree |
| BpDecoder.BlockErrors | src/decoder_bp.c:49-51 | the error count of a block is the Hamming distance of its first L bits, 0 exactly when they agree |
| BpDecoder.HardBlock | src/decoder_bp.c:39-46 | the doubled hard-decision buffer of a block holds the same bit at j and L + j |
| BpDecoder.Iterate | src/decoder_bp.c:136-167 | one iteration runs the check pass, then the variable pass on its output, then to_binary and compute_syndrome on the new hard decision |
| BpDecoder.Decode | src/decoder_bp.c:129-173 | BP runs at most max_iter iterations, stops early only at a zero syndrome, returns 1 exactly when the last hard decision is the codeword, and does nothing when max_iter ≤ 0 |
| PrngCore.PolyBits | xoroshiro128plus.c:86-88 | the jump polynomial has 64 bits per word of JUMP |
| PrngCore.JumpWord | src/xoshiro256plusplus.c:91-99 | the inner loop over the 64 bits of JUMP[i] takes in the current state at each set bit and steps the generator 64 times |
| PrngCore.JumpBitAt | src/xoshiro256plusplus.c:92 | bit 64i + b of the polynomial is the test JUMP[i] & (1 << b) |
| PrngCore.Jump | src/xoshiro256plusplus.c:82-105 | jump returns the XOR of the states reached after p steps over every set bit p of the polynomial, for both generators |
| Xoroshiro128Plus.RotationsAreRotl | xoroshiro128plus.c:33-35 | the rotations of lines 43-44 are rotl(x, 24) and rotl(x, 37), and both are bit rotations |
| Xoroshiro128Plus.RotationsInvert | xoroshiro128plus.c:33-35 | rotl by 24 and by 37 are undone by rotl by 40 and by 27 |
| Xoroshiro128Plus.Jump128 | xoroshiro128plus.c:81-97 | jump steps the generator 128 times and returns the XOR of the states at the set bits of JUMP |
| Xoroshiro128Plus.Divisor | xoroshiro128plus.c:67 | the divisor is at least 1 and (limit + 1) times it does not exceed 2^64 - 1 |
| Xoroshiro128Plus.DivisorWraps | xoroshiro128plus.c:67 | limit + 1 wraps to 0, and the division faults, exactly for limit = 2^64 - 1 |
| Xoroshiro128Plus.RandomLim | xoroshiro128plus.c:66-75 | random_lim returns the quotient of the first draw whose quotient by the divisor is at most limit, all earlier draws having been rejected; the result lies in [0, limit], inclusive |
| Xoroshiro128Plus.Redraw | xoroshiro128plus.c:70-72 | the do-while loop returns the first quotient at most limit, every earlier draw having a quotient above it, or runs out of draws with every quotient above limit |
| Xoroshiro128Plus.RandomLimInclusive | xoroshiro128plus.c:66-75 | every value from 0 to limit, limit itself included, is returned for some draw |
| Xoshiro256PlusPlus.RotationsAreRotl | src/xoshiro256plusplus.c:27-29 | the rotations of lines 32 and 43 are rotl(x, 23) and rotl(x, 45), and both are bit rotations |
| Xoshiro256PlusPlus.RotationsInvert | src/xoshiro256plusplus.c:27-29 | rotl by 23 and by 45 are undone by rotl by 41 and by 19 |
| Xoshiro256PlusPlus.Jump256 | src/xoshiro256plusplus.c:82-105 | jump steps the generator 256 times and returns the XOR of the four-word states at the set bits of JUMP |
| Xoshiro256PlusPlus.HighBound | src/xoshiro256plusplus.c:66-76 | the high 64 bits of the 128-bit product fit in 64 bits and lie below limit when limit > 0 |
| Xoshiro256PlusPlus.Threshold | src/xoshiro256plusplus.c:69 | t = -limit % limit is below limit |
| Xoshiro256PlusPlus.ThresholdIsPowMod | src/xoshiro256plusplus.c:69 | t is 2^64 mod limit, so the draws retried are exactly those whose low part is below it |
| Xoshiro256PlusPlus.RandomLim | src/xoshiro256plusplus.c:64-77 | random_lim returns the high part of the first accepted draw: the first draw when its low part reaches limit, otherwise the first whose low part reaches t, every draw before it rejected; random_lim(0) is 0 without computing t |
| Xoshiro256PlusPlus.Retry | src/xoshiro256plusplus.c:70-74 | the retry loop stops at the first draw whose low part reaches t |
| Xoshiro256PlusPlus.RandomLimExclusive | src/xoshiro256plusplus.c:64-77 | with limit > 0 the result is below limit, exclusive, and with limit = 0 it is 0 |
| CodeGen.InsertionContents | src/sparse_cyclic.c:48-56 | an insertion keeps the old prefix and adds the new value, and nothing else, within the same range |
| CodeGen.InsertStrict | src/sparse_cyclic.c:48-56 | inserting a value between its neighbours keeps the prefix strictly increasing |
| CodeGen.FillSorted | src/codegen.c:44-47 | filling slots with insert_sorted keeps a strictly increasing prefix of positions in [0, L) and every value already there |
| CodeGen.SparseBlock | src/sparse_cyclic.c:60-66 | sparse_rand with in-range draws gives a block of w strictly increasing positions in [0, L) |
| CodeGen.GenerateRandomCode | src/codegen.c:26-31 | generate_random_code gives two blocks of w strictly increasing positions in [0, L), with the rows their transposes |
| CodeGen.Progression | src/codegen.c:39-42 | the progression holds delta * (i + shift) mod L for every i < WEAK_P, each in [0, L) |
| CodeGen.InsertNew | src/sparse_cyclic.c:38-45 | insert_sorted_noinc of a value the prefix lacks keeps it strictly increasing and adds exactly that value |
| CodeGen.InsertProgression | src/codegen.c:39-42 | the progression loop leaves a strictly increasing prefix holding every progression value |
| CodeGen.GenerateWeakType1 | src/codegen.c:33-51 | when the progression values are distinct, both blocks are well formed, the rows are their transposes, and block k holds every progression value |
| CodeGen.Bars | src/codegen.c:61-76 | the bars start at 0, end at the total, and are strictly increasing in between |
| CodeGen.RunsSum | src/codegen.c:78-81 | the run lengths of strictly increasing bars are positive and add up to the last bar minus the first |
| CodeGen.Run | src/codegen.c:88-91 | a run of ones emits delta * (start + l2) mod L for each l2 below its length |
| CodeGen.EmittedLength | src/codegen.c:86-93 | the emission produces exactly one value per star, the sum of the runs of ones |
| CodeGen.EmittedForm | src/codegen.c:89 | every emitted value is delta * q mod L for some q |
| CodeGen.EmitRun | src/codegen.c:88-91 | the inner loop adds one run's values to a non-decreasing prefix, keeping it non-decreasing |
| CodeGen.EmitRuns | src/codegen.c:84-93 | the emission loop writes exactly w values, non-decreasing, which are the emitted values rearranged |
| CodeGen.PlaceNext | src/sparse_cyclic.c:38-45 | insert_sorted_noinc grows a non-decreasing prefix by one value and keeps it non-decreasing |
| CodeGen.WeakRuns | src/codegen.c:56-93 | the runs of ones and of zeros are positive and add up to w and L - w, the shift lies below the first pair of runs, and the weak block is the sorted emission |
| CodeGen.GenerateWeakType2 | src/codegen.c:55-97 | generate_weak_type2 writes exactly w values, sorted and in [0, L), into block k, the emission rearranged, with the other block random and well formed |
| CodeGen.Unshift | src/codegen.c:107 | the position of block 0 that x of block 1 faces is (x - shift) mod L, in [0, L) |
| CodeGen.ShiftRoundTrip | src/codegen.c:107 | x is (c + shift) mod L exactly when c is (x - shift) mod L |
| CodeGen.PlaceCommon | src/codegen.c:104-109 | after the first loop both blocks hold strictly increasing prefixes, and block 1's prefix is exactly the shifts of block 0's |
| CodeGen.Compensate | src/codegen.c:123-126 | the compensated draw r becomes the r-th position of [0, L) not yet in block 1, an unused one |
| CodeGen.FacesBlock0 | src/codegen.c:127-131 | the test rejects a draw exactly when it faces a position of block 0 |
| CodeGen.SameMembers | src/sparse_cyclic.c:38-45 | a prefix grown by one value holds exactly the old values and that one |
| CodeGen.CompleteSlot | src/codegen.c:122-134 | an accepted try inserts a new position that faces no position of block 0, keeping block 1 strictly increasing |
| CodeGen.Complete | src/codegen.c:121-135 | the completion fills block 1 to w positions without adding a position that faces block 0, keeping the common ones |
| CodeGen.DistinctCard | src/codegen.c:103-134 | a strictly increasing block has as many elements as entries |
| CodeGen.GenerateWeakType3 | src/codegen.c:99-137 | when the tries suffice, both blocks are well formed and exactly WEAK_P positions x of block 1 have (x - shift) mod L in block 0 |
| ErrorGen.GenerateRandomError | src/errorgen.c:26-28 | generate_random_error gives weight strictly increasing positions among the 2L of both blocks |
| ErrorGen.GenerateRandomSyndromeError | src/errorgen.c:30-33 | generate_random_syndrome_error gives weight strictly increasing positions among the L of one block |
| ErrorGen.ShiftPos | src/errorgen.c:46-49 | a source position stays in its own block when shifted: one below L stays below L, one at L or above stays in [L, 2L) |
| ErrorGen.ShiftPosOffset | src/errorgen.c:46-49 | a position at offset c of a block moves to offset (c + shift) mod L of the same block |
| ErrorGen.ShiftPosInjective | src/errorgen.c:46-49 | two in-range source positions that shift to the same place are the same position |
| ErrorGen.Word | src/errorgen.c:45-51 | the shifted word has one entry per source entry, in [0, 2L), each in the block of its source entry |
| ErrorGen.WordOfBlock | src/errorgen.c:86-88 | a column placed in block k and shifted is that column rotated by shift within block k |
| ErrorGen.WordAppend | src/errorgen.c:45-51 | the shifted word of two sources joined is the two shifted words joined |
| ErrorGen.MarkWord | src/errorgen.c:41-51 | h is set at a position exactly when the position is in the shifted word |
| ErrorGen.Accept | src/errorgen.c:61-64 | accepting a fresh position keeps the pattern sorted and marked, and adds it to the shared positions exactly when it is in the word |
| ErrorGen.PickShared | src/errorgen.c:53-65 | when the picks suffice, the pattern holds exactly `intersections` positions, all of them in the word |
| ErrorGen.FillOutside | src/errorgen.c:67-75 | when the draws suffice, the pattern grows to weight_dst positions without adding any position of the word |
| ErrorGen.GenerateAroundWord | src/errorgen.c:37-76 | generate_around_word gives weight_dst sorted distinct positions of [0, 2L), exactly `intersections` of them in the shifted source word |
| ErrorGen.GenerateNearCodeword | src/errorgen.c:80-92 | the pattern has t sorted positions, exactly p of them on column k rotated by the shift within block k |
| ErrorGen.SourceBufferOverflow | src/errorgen.c:97-131 | generate_near_codeword2 as written and generate_codeword each fill 2 * BLOCK_WEIGHT entries of e_src, more than the BLOCK_WEIGHT it is declared with |
| ErrorGen.SourceBufferFits | src/errorgen.c:99-131 | on a valid code the corrected near-codeword source and the codeword source are exactly 2 * BLOCK_WEIGHT entries long, the size both generators pass on |
| ErrorGen.Wrap | src/errorgen.c:107 | the intended wrap maps an index of [0, 2L) to the same index mod L |
| ErrorGen.NearCodeword2Escapes | src/errorgen.c:106-108 | as written, an entry of column 1 with value L - shift is placed at 2L, outside block 1 |
| ErrorGen.NearCodeword2EscapesAt | src/errorgen.c:106-108 | with L = 5, columns [0] and [3] and shift 2 the source as written is [0, 10] |
| ErrorGen.NearCodeword2Source | src/errorgen.c:99-109 | with the intended wrap, the source is column 0 in block 0 followed by column 1 rotated by the shift in block 1 |
| ErrorGen.NearCodeword2SameWord | src/errorgen.c:45-51 | the escaped entry changes nothing downstream: the shifted words of the source as written and as intended are equal |
| ErrorGen.NearCodeword2Word | src/errorgen.c:96-112 | the near-codeword2 word is column 0 rotated by shift and column 1 rotated by the sum of both shifts |
| ErrorGen.GenerateNearCodeword2 | src/errorgen.c:96-113 | the pattern has t sorted positions, exactly p of them on column 0 and column 1 rotated by their shifts |
| ErrorGen.BreakAt | src/errorgen.c:122-126 | the first loop stops at the first entry at L or above, or runs through the column |
| ErrorGen.CodewordSourceForm | src/errorgen.c:118-131 | on a valid code the break never happens and the source is column 1 in block 0 and column 0 in block 1 |
| ErrorGen.GenerateCodeword | src/errorgen.c:116-137 | the pattern has t sorted positions, exactly p of them on the codeword (h1, h0) rotated by the shift |
| Stats.TokenLen | scripts/qcmdpc_stats.py:96 | the first token runs up to, and not past, the first whitespace character |
| Stats.Words | scripts/qcmdpc_stats.py:96 | str.split() gives non-empty tokens without whitespace |
| Stats.WordsCons | scripts/qcmdpc_stats.py:96 | a token followed by whitespace or nothing splits off as the first word |
| Stats.WordsSpaced | scripts/qcmdpc_stats.py:96 | splitting tokens written each after a space gives back exactly those tokens |
| Stats.Rstrip | scripts/qcmdpc_stats.py:109 | str.rstrip() keeps a prefix that does not end in whitespace and drops only whitespace |
| Stats.IndexOf | scripts/qcmdpc_stats.py:97 | the first occurrence of the separator, with none before it |
| Stats.SplitOn | scripts/qcmdpc_stats.py:97 | str.split(c) gives at least one piece, none holding c |
| Stats.SplitJoin | scripts/qcmdpc_stats.py:97 | joining the pieces of str.split(c) with c gives the string back |
| Stats.SplitTwo | scripts/qcmdpc_stats.py:121 | a string with one separator splits into the two sides |
| Stats.Lower | scripts/qcmdpc_stats.py:98 | str.lower() maps each upper-case ASCII letter to its lower-case letter and keeps every other character |
| Stats.FormatNat | src/qcmdpc_decoder.c:128-134 | %d of a non-negative number is a non-empty run of digits without a leading zero |
| Stats.ParseFormat | scripts/qcmdpc_stats.py:88 | int() reads back the number %d printed |
| Stats.Dict | scripts/qcmdpc_stats.py:99 | dict(pairs) holds exactly the keys of the pairs, each bound to the value of its last pair |
| Stats.IntFloatStr | scripts/qcmdpc_stats.py:84-94 | int_float_str gives an int exactly when int() parses the text, and the text itself only when float() fails too |
| Stats.ParamPairs | scripts/qcmdpc_stats.py:97-98 | the pairs are read token by token, one per token, and reading fails only when some token fails to read |
| Stats.ParamTokenPair | src/qcmdpc_decoder.c:59-89 | a token -DNAME=value is one word starting with '-' and not ending in a space, and reads as the name lower-cased with int_float_str of the value, n itself for a %d |
| Stats.ParamRoundTrip | scripts/qcmdpc_stats.py:83-99 | parse_param of one token -DNAME=value is the map binding the lower-cased name to int_float_str of the value, to n for a %d |
| Stats.Printed | src/qcmdpc_decoder.c:129-132 | the printed entries are the iterations with a non-zero count, in increasing order, each with its count |
| Stats.PrintedComplete | src/qcmdpc_decoder.c:129-132 | every iteration with a non-zero count is printed |
| Stats.PairsOf | scripts/qcmdpc_stats.py:124 | the pairs read are, piece by piece, the two numbers of each piece |
| Stats.PairsOfAll | scripts/qcmdpc_stats.py:124 | when every piece reads as a pair, the whole list reads |
| Stats.ResultLineRoundTrip | scripts/qcmdpc_stats.py:119-127 | the results line read back is the histogram printed, failures under -1, or no results when nothing was recorded |
| Stats.LastWhere | scripts/qcmdpc_stats.py:107-115 | the loop keeps the last line that matches, and none after it matches |
| Stats.LastWhereAt | scripts/qcmdpc_stats.py:107-115 | a matching line with no match after it is the one kept |
| Stats.FileRoundTrip | scripts/qcmdpc_stats.py:102-127 | a file whose last results line is the one printed reads back as the histogram printed, whatever lines come before |
| Stats.StrLeTotal | scripts/qcmdpc_stats.py:113 | Python's order on strings is total |
| Stats.InsertWord | scripts/qcmdpc_stats.py:113 | inserting a word into a sorted list keeps it sorted and adds exactly that word |
| Stats.SortWords | scripts/qcmdpc_stats.py:113 | sorted() gives a sorted permutation of the words |
| Stats.WordsJoin | scripts/qcmdpc_stats.py:113 | splitting words joined by single spaces gives the words back |
| Stats.GetDataRoundTrip | scripts/qcmdpc_stats.py:102-129 | the two lines the simulator prints read back as its parameters, each name lower-cased and bound to int_float_str of its printed value (its integer for a %d, the text itself for a value such as the ALGO name that neither int() nor float() accepts), and the histogram recorded; with nothing recorded get_data returns None |
| Stats.ParamsRead | scripts/qcmdpc_stats.py:105-117 | the parameter line read back, after sorting, binds exactly the lower-cased names, each to int_float_str of its printed value, the integer itself for a %d |
| Stats.Max | scripts/qcmdpc_stats.py:57 | the largest key of a non-empty set is in it and at least every key |
| Stats.Largest | scripts/qcmdpc_stats.py:57 | the next key of the descending sort is the largest one left |
| Stats.SumValues | scripts/qcmdpc_stats.py:54 | sum(distr.values()) is the sum of the counts over all keys |
| Stats.CumulIteration | scripts/qcmdpc_stats.py:52-62 | cumul has every iteration above -1, each bound to the failures plus the counts of the later iterations, non-increasing for non-negative counts; the total is the sum of all counts |

## Left out

- `seed_random` of both generators: it reads /dev/urandom. The model starts from a given state.
- Floating-point numerics: the logarithms, lgamma and exp of the threshold estimates in src/threshold.c and the tanh, atanh and scaling of the belief-propagation messages in src/decoder_bp.c are parameters (oracles) or real-valued inputs; rounding is not modelled.
- `init_bp` (src/decoder_bp.c:60-79): it draws the message and codeword and computes floating-point log-likelihoods; the BP decoder starts from given input messages.
- src/decoder_bp.c reads `dec->H->columns` and `dec->e->weight`, fields that `struct decoder_bp` in include/types.h:104-116 does not declare; the model follows the evident intent, the code and error of the decoder.
- The AVX kernels and the `#ifdef AVX` branches of src/sparse_cyclic.c and src/code.c: vector intrinsics with the opposite index convention; the scalar paths are modelled.
- The trial harness, threads, signals, getopt and printing of src/qcmdpc_decoder.c and src/cli.c, including the round partition among threads; only the histogram line they print and its indexing are modelled.
- include/param.h: a table of compile-time presets; its bounds on INDEX, w and L and SYNDROME_STOP appear as parameters and preconditions.
- src/weak.c and weak.h: an older revision of the weak-key generators of src/codegen.c; the draw-as-parameter model of src/codegen.c covers the same constructions.
- scripts/ci.py, scripts/extrapolate.py, scripts/summary.py and `get_density`, `get_dfr` of scripts/qcmdpc_stats.py: floating-point statistics and report printing. `get_data` is modelled up to the call of `get_density`.
- Statistical claims (uniformity of the draws, unbiasedness of `random_lim`, decoding failure rates) are not stated.
- The rejection loops of src/errorgen.c:55-75, src/codegen.c:122-134 and src/decoder.c:365-367 run on finite streams of draws: a run that exhausts its stream reports it, and termination of the unbounded loops is not modelled.
- Stats.IntFloatStr: Python's float() syntax is an oracle, and int() and str.split() are modelled on ASCII text only, without Unicode digits, underscores or non-ASCII whitespace.
- Stats.GetDataRoundTrip: the text %lg prints for a floating-point parameter is an input, not computed from a real; the lemma reads it back through int_float_str, and which of int, float or str that gives is left to the float() oracle (%lg prints 1.0 as "1", which int() accepts).
- ErrorGen.CodewordSourceForm: the source word is shown to be the codeword (h1, h0) of the message 1; that this word has the zero syndrome is proved for compute_codeword (QcCode.CodewordHasZeroSyndrome) and not restated here.
- Xoroshiro128Plus.Next: the state update of random_uint64_t is written out as in the source with no inverse; an invertibility proof over 64-bit XOR chains is beyond what the solver closes.
- Xoshiro256PlusPlus.Next: the same as for xoroshiro128+.
- Xoroshiro128Plus.RotationsInvert: rotl(rotl(x, k), 64 - k) = x is proved for the rotation amounts the generator uses, not for every k.
- Xoshiro256PlusPlus.RotationsInvert: likewise, for the amounts 23 and 45 only.
- CodeGen.GenerateWeakType1: requires the WEAK_P progression values to be distinct, the condition under which the source's block is strictly increasing; with repeated values the source inserts duplicates.
- CodeGen.GenerateWeakType2: the weak block is stated non-decreasing rather than strictly increasing, because two emitted values delta·q mod L can coincide.
- SortDecoder.SortDesc: qsort fixes no order among entries with equal counters; the model fixes one (insertion order), and SortDecoder.SortedPass accepts any non-empty list of valid entries, so its contract covers every order qsort may give.
- BpDecoder.Scaled: clamps with the corrected Macros.Saturate; SATURATE as written (include/types.h:41, used at src/decoder_bp.c:151-152) never clamps below, so a scaled check message under -BP_SATURATE passes unchanged in the source and is -BP_SATURATE here. The contract says exactly where the two agree.
- BpDecoder.VariablePass: clamps with the corrected Macros.Saturate, not SATURATE as written (src/decoder_bp.c:162-163); a variable message under -BP_SATURATE is -BP_SATURATE here and unchanged in the source.
- BpDecoder.VariablePassExtrinsic: states the message with the corrected clamp, as BpDecoder.VariablePass computes it.
- BpDecoder.CheckInputs: reads v_to_c at the corrected index BpDecoder.VarIndex; the source's ((i > c) ? 0 : L) + i - c (src/decoder_bp.c:140-143) gives L when check i equals the column entry c, so it reads v_to_c[k][l][L], the first slot of the next edge's row (past the array for k = 1, l = w - 1).
- BpDecoder.CheckInputAt: the same corrected index as BpDecoder.CheckInputs.
- BpDecoder.CheckMessageExtrinsic: the leaf it names is fed at the corrected index of BpDecoder.VarIndex.
- BpDecoder.CheckNode: writes c_to_v at the corrected index; the source writes c_to_v[k][l][L] (src/decoder_bp.c:148-152) when check i equals the column entry, the first slot of the next edge's row or past the array for k = 1, l = w - 1, and leaves c_to_v[k][l][0] unwritten.
- BpDecoder.WriteStep: the same corrected index as BpDecoder.CheckNode.
- BpDecoder.CheckPass: built on BpDecoder.CheckNode, so it states the messages at the corrected index; the source's pass overwrites slot 0 of the next edge's row and leaves slot 0 of its own row stale.
- BpDecoder.Iterate: built on BpDecoder.CheckPass and BpDecoder.VariablePass, so it iterates with the corrected index and the corrected clamp.
- BpDecoder.Decode: runs BpDecoder.Iterate, so it decodes with the corrected index and the corrected clamp. It also uses the corrected tree of ExtrinsicTree.TreeFits: for w ≥ 128, which include/param.h allows (the preset of w = 137), the source's 512-entry tree is overrun by the check-node call (ExtrinsicTree.TreeTooSmall). BpDecoder.BpParams excludes a power-of-two w, for which the source's extrinsic reads a stale tree[3] (ExtrinsicTree.TopLevelHoldsTwo), so the model says nothing about those weights.
- SbsDecoder.Decode: the source retries its random pick of an unsatisfied check without bound; the model draws from a finite list of picks.

## Findings

| source | as written | input that shows it | evidently intended | confidence | as-written member | corrected member |
|---|---|---|---|---|---|---|
| src/qcmdpc_decoder.c:235 | the histogram has max_iter + 1 slots, yet a GRAY_BG round counts up to three iterations, so a round that starts one below max_iter ends at max_iter + 2 and a success is counted out of bounds | max_iter = 1: the round starting at iteration 0 ends at iteration 3, past the slots 0 and 1 | the histogram sized for max_iter + 3 iterations | not executed | GrayDecoder.GrayIterOverrunsHistogram | GrayDecoder.Decode |
| include/types.h:41 | SATURATE tests `(X) > (SAT)` twice, so the lower clamp never fires | X = -5, SAT = 2 gives -5 | X clamped to [-SAT, SAT] | not executed | Macros.SaturateMissesLowerClamp | Macros.Saturate |
| include/types.h:114 | the leave-one-out tree holds 1 << LOG2(INDEX·BLOCK_LENGTH) entries, while the 2w check-node leaves start at 1 << LOG2(2w) | w = 128, L ≥ 128: the leaves start at tree[512], the end of a 512-entry tree | a tree of 2 << LOG2(INDEX·BLOCK_WEIGHT) entries | not executed | ExtrinsicTree.TreeTooSmall | ExtrinsicTree.TreeFits |
| src/decoder_bp.c:140-150 | the index wraps only when i > columns[k][l], so i equal to the column entry gives L instead of 0 | i = c = 0 gives index L | (i - columns[k][l]) mod L | not executed | BpDecoder.VarIndexOverrun | BpDecoder.VarIndex |
| src/errorgen.c:97 | e_src is declared with BLOCK_WEIGHT entries, but generate_near_codeword2 and generate_codeword write 2·BLOCK_WEIGHT | any w ≥ 1: the write at index w is past the end | e_src of 2·BLOCK_WEIGHT entries | not executed | ErrorGen.SourceBufferOverflow | ErrorGen.SourceBufferFits |
| src/errorgen.c:107 | the wrap test `i <= BLOCK_LENGTH` keeps i = L, placing a source position at 2L, outside block 1 | L = 5, column 1 = [3], shift 2 gives position 10 | i mod L, a position in [L, 2L) | not executed | ErrorGen.NearCodeword2Escapes | ErrorGen.NearCodeword2Source |
