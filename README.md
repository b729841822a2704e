# Lepton entropy-coding core in Dafny

Lepton recompresses baseline JPEG files without loss. It decodes the Huffman-coded
quantized DCT coefficients of each 8x8 block (ITU-T T.81) and codes them again with a
VP8-style binary arithmetic coder (section 7 of RFC 6386). Every binary decision is
coded with an adaptive probability. That probability is held by a `Branch`, selected
from a large fixed-shape table (`Model`) by context functions over the block, its
neighbours and the quantization table. This project models that engine in four parts,
one module per source concern:

- `Branches` (branch.dfy): the adaptive estimator `Branch`. It is a class whose methods
  update the false count, the true count, the update counter and the 8-bit probability
  in place. A value-level mirror (`BranchState`, `AfterTrue`, `AfterFalse`) carries the
  invariants: counters in [1, 512] x [0, 512], and the update counter advancing by one
  per bit.
- `Model` (model.dfy): the nine sub-tables of `struct Model`, flattened row-major in
  declaration order. It includes the address arithmetic (`Offset` is injective),
  `Model::forall` as nested loops over an `array<Branch>`, and the `ProbabilityTables`
  constructor and `normalize`.
- `Contexts` (contexts.dfy): the `ProbabilityTables` address functions and integer
  predictors:
  - the nonzero-count, exponent, residual, threshold and sign contexts;
  - `idct_2d_*` and `predict_dc_dct` with truncating C++ division;
  - the DC wrap-around and its round trip;
  - `compute_aavrg*`, `exp_len`, `compute_lak` and `get_max_value`.
  The zig-zag order of T.81 section A.3.6 is both a walk and the model.hh table, and the
  two are proved equal.
- `EncoderGrammar` and `Encoder` (encoder_grammar.dfy, encoder.dfy): the decisions
  `Block::serialize_tokens` makes, as functions, and the imperative encoder proved to
  make exactly those decisions through `VP8BoolEncoder::put`. `put` hands the coder the
  Branch's probability from before the update, then updates that Branch.
- `DecoderGrammar` and `Decoder` (decoder_grammar.dfy, decoder.dfy): the bits
  `parse_tokens`, `decode_edge` and `decode_one_edge` read, as functions over the bit
  stream, and the imperative decoder proved to read exactly those bits and to fill the
  block they describe. The decoder's grammar differs from the encoder's:
  - exponents are unary;
  - the sign comes before the residual;
  - the DC comes last.
  The two are connected only at the level of one coefficient, through the round trips
  of `DecoderGrammar`.
- `Numeric` (numeric.dfy): powers of two, bit lengths, most-significant-first bit
  strings, truncating division and int16 conversion.

The arithmetic coder is a bit sink (the encoder records a `Symbol` of bit and
probability per decision) and a bit source (the decoder hands out the bits of a
`seq<bool>`). Ghost traces record every decision with the Branch address or the
selector it was made under.

## Model

| member | source | states |
|---|---|---|
| Branches.Probability | src/vp8/model/branch.hh:90-100 | the probability `optimize` computes, 256(f+1)/(f+t+2) truncated, is at most 255, and is at least 128 exactly when the false count is at least the true count |
| Branches.Decay | src/vp8/model/branch.hh:28-29 | `n/2 + (n&1)` is n halved and rounded up |
| Branches.AfterTrue | src/vp8/model/branch.hh:23-38 | below 512 the true count grows by one and the false count stays; at 512 both counters are halved, rounding up; the update counter advances modulo 2^32; the probability is recomputed from the new counts |
| Branches.AfterFalse | src/vp8/model/branch.hh:39-54 | the same for a false bit, with the false counter compared with 512 |
| Branches.ObservePreservesBounded | src/vp8/model/branch.hh:23-54 | one update keeps false in [1,512] and true in [0,512], halves a saturated counter to 256, and advances the update counter by one |
| Branches.ObserveAllBounded | src/vp8/model/branch.hh:23-54 | any sequence of updates from a bounded state stays bounded, and the update counter advances by the number of bits modulo 2^32 |
| Branches.ReachableBounded | src/vp8/model/branch.hh:10-12 | every state reachable from a new Branch is bounded, with update counter equal to the number of bits seen |
| Branches.InitialThenTrue | src/vp8/model/branch.hh:10-12 | a new Branch has probability 170 (not the field default 128), and one true bit gives counts (1,1) and probability 128 |
| Branches.ObserveAllSnoc | src/vp8/model/branch.hh:23-54 | a further bit continues from the state the earlier bits produced |
| Branches.Branch.constructor | src/vp8/encoder/encoder.cc:351-354 | a new Branch holds the field defaults with the probability recomputed by `optimize`, which is 170 |
| Branches.Branch.RecordTrue | src/vp8/model/branch.hh:21 | the true count grows by one and nothing else changes; the probability is not recomputed |
| Branches.Branch.RecordFalse | src/vp8/model/branch.hh:22 | the false count grows by one and nothing else changes |
| Branches.Branch.RecordTrueAndUpdate | src/vp8/model/branch.hh:23-38 | the new state is `AfterTrue` of the old one, and boundedness is preserved |
| Branches.Branch.RecordFalseAndUpdate | src/vp8/model/branch.hh:39-54 | the new state is `AfterFalse` of the old one, and boundedness is preserved |
| Branches.Branch.Reset | src/vp8/encoder/encoder.cc:332 | assigning `Branch()` leaves the default state |
| Branches.Branch.Normalize | src/vp8/model/branch.hh:55-89 | no field changes, because every statement of the body is compiled out or commented out |
| Branches.Branch.Optimize | src/vp8/model/branch.hh:90-100 | the probability becomes 256(f+1)/(f+t+2) and is at most 255; the counters are unchanged |
| Model.SizeIsProduct | src/vp8/model/model.hh:75-135 | each sub-table holds the product of its declared axis lengths |
| Model.ExponentSizeIsProduct | src/vp8/model/model.hh:110-129 | the three exponent sub-tables hold the product of their axes |
| Model.LayoutContiguous | src/vp8/model/model.hh:75-135 | the sub-tables follow each other in declaration order, without gap or overlap, and fill the 34044032 Branches of the Model |
| Model.TableOfSegment | src/vp8/model/model.hh:75-135 | a position belongs to a sub-table exactly when it lies in that sub-table's segment |
| Model.RowMajorBound | src/vp8/model/model.hh:75-135 | an in-bounds index tuple has a row-major position below the sub-table size |
| Model.RowMajorInjective | src/vp8/model/model.hh:75-135 | distinct in-bounds index tuples have distinct row-major positions |
| Model.Offset | src/vp8/model/model.hh:75-135 | an in-bounds address lies inside its own sub-table's segment of the Model |
| Model.OffsetInjective | src/vp8/model/model.hh:75-135 | two in-bounds addresses that reach the same Branch are the same address |
| Model.ApplyOp | src/vp8/encoder/encoder.cc:332-338 | the callback `x = Branch()` resets an entry, and `x.normalize()` leaves it as it was |
| Model.ApplyInOrderOnce | src/vp8/model/model.hh:137-239 | the nine sub-table passes of `forall` apply the callback to every entry exactly once |
| Model.ModelTable.constructor | src/vp8/encoder/encoder.cc:329 | `new Model` gives distinct, default-constructed Branches |
| Model.ModelTable.ForallTable | src/vp8/model/model.hh:137-239 | one sub-table pass applies the callback to that sub-table's entries and leaves every other entry alone |
| Model.ModelTable.ForallRange | src/vp8/model/model.hh:137-239 | the loop over a segment applies the callback to each position in it and to no other |
| Model.ModelTable.Forall | src/vp8/model/model.hh:137-239 | `forall` applies the callback to every Branch of the Model |
| Model.ProbabilityTables.constructor | src/vp8/encoder/encoder.cc:328-333 | a new ProbabilityTables has no quantization table, and every Branch is in the default state |
| Model.ProbabilityTables.SetQuantizationTable | src/vp8/model/model.hh:290-292 | the quantization table becomes the given one |
| Model.ProbabilityTables.Normalize | src/vp8/encoder/encoder.cc:336-339 | `normalize` leaves every Branch of the table unchanged |
| Contexts.UnzigzagIsTable | src/vp8/model/model.hh:46-56 | the `unzigzag` table is the zig-zag walk of T.81 section A.3.6 |
| Contexts.ZigzagOfTable | src/vp8/model/model.hh:46-56 | `zigzag` inverts `unzigzag` on zig-zag indices |
| Contexts.TableOfZigzag | src/vp8/model/model.hh:46-56 | `unzigzag` inverts `zigzag` on raster positions |
| Contexts.RasterQuantization | src/vp8/model/model.hh:396-419 | reading `quantization_table_[zigzag[k]]` gives a raster-ordered table, with nonzero 16-bit entries when the JPEG table has them |
| Contexts.Cls | src/vp8/model/model.hh:17 | `min(block_type, BLOCK_TYPES-1)`: type 0 selects class 0 and every type from 1 on selects class 1 |
| Contexts.Bin | src/vp8/model/model.hh:388-392 | a count up to 49 maps to one of the 10 bins |
| Contexts.NonzeroContext | src/vp8/model/model.hh:304-311 | the neighbour-count context is at most 25 for counts up to 49, and 0 without neighbours |
| Contexts.NonzeroContextSymmetric | src/vp8/model/model.hh:304-311 | the context treats left and above alike, and counts a missing neighbour as a copy of the present one |
| Contexts.NonzeroCounts7x7 | src/vp8/model/model.hh:293-316 | the 7x7 count is coded in a row of `num_nonzeros_counts_7x7_` inside the Model, chosen by block class and neighbour context |
| Contexts.NonzeroCounts1x8 | src/vp8/model/model.hh:317-331 | both values of `is_x` address `num_nonzeros_counts_1x8_`, and the count index is (n+3)/7, inside the table |
| Contexts.EdgeBand | src/vp8/model/model.hh:339 | row-0 bands 1..7 map to 0..6 and column-0 bands 8..56 to 8..14, all below 15 |
| Contexts.EdgeBandInjective | src/vp8/model/model.hh:339 | distinct edge bands never share a band slot |
| Contexts.InteriorBand | src/vp8/model/model.hh:359 | `band - 8 - band/8` sends interior position 8y+x to 7(y-1)+(x-1), below 49 |
| Contexts.InteriorBandBijective | src/vp8/model/model.hh:359 | the interior band map is a bijection onto 0..48 |
| Contexts.ExpLen | src/vp8/model/model.hh:567-572 | `exp_len` is at most 10, is 0 only for 0, and is the bit length of \|v\| below 1024 |
| Contexts.ExpLenSymmetric | src/vp8/model/model.hh:567-572 | `exp_len` ignores the sign |
| Contexts.EdgeIdctSumFrame | src/vp8/model/model.hh:393-421 | the partial inverse DCT of row 0 or column 0 reads only the coefficients along that line |
| Contexts.MaxDcIsCeiling | src/vp8/model/model.hh:479 | the DC bound is ceil(1024/q0), the least m with m*q0 >= 1024 |
| Contexts.PredictDcDct | src/vp8/model/model.hh:423-454 | the prediction is 0 without left and above neighbours, and lies within +-ceil(1024/q0) |
| Contexts.RoundedDcBound | src/vp8/model/model.hh:446-453 | the clamp, the truncating divide by q0 and the round-half-away divide by 8192 stay within +-ceil(1024/q0) |
| Contexts.PredictDcIgnoresDc | src/vp8/model/model.hh:429-436 | the prediction does not depend on the block's own DC (`ignore_first`) |
| Contexts.WrapDcRoundTrip | src/vp8/model/model.hh:481-488 | for \|c\|,\|p\| <= m at most one +-(2m+1) adjustment fires, the residual stays in [-m, m], and unpredicting it gives c back |
| Contexts.WrapDcRange | src/vp8/model/model.hh:486-487 | anything within +-2m wraps into +-m |
| Contexts.PredictOrUnpredictDc | src/vp8/model/model.hh:476-489 | a DC within +-ceil(1024/q0) predicts to a value within the same bound |
| Contexts.DcRoundTrip | src/vp8/model/model.hh:476-489 | unpredicting the predicted DC of a block gives its DC back |
| Contexts.NeighborAverage | src/vp8/model/model.hh:490-566 | the weighted average of the present neighbours' magnitudes is never above the largest of them, and is 0 without neighbours |
| Contexts.NeighborAverageOfEqual | src/vp8/model/model.hh:505-523 | when every present neighbour of the block has the same magnitude m at the band and they carry some weight, the rounded weighted average is exactly m |
| Contexts.ComputeAavrgOfEqual | src/vp8/model/model.hh:490-566 | `compute_aavrg` (through `compute_aavrg_dc` for band 0) of a block whose present neighbours agree on magnitude m, with some weight among them, is m |
| Contexts.ComputeAavrgDc | src/vp8/model/model.hh:490-524 | `compute_aavrg_dc` is at most the largest neighbour DC magnitude, and 0 without neighbours |
| Contexts.ComputeAavrg | src/vp8/model/model.hh:525-566 | `compute_aavrg` is at most the largest neighbour magnitude at the band, and 0 without neighbours |
| Contexts.AavrgReadsOnlyNeighbors | src/vp8/model/model.hh:525-566 | the neighbour average reads nothing of the block itself |
| Contexts.DcCosine | src/vp8/model/model.hh:586-597 | `coef_idct[0]` is positive, so the division is defined |
| Contexts.ComputeLak | src/vp8/model/model.hh:573-617 | the edge prediction is 0 when the neighbour in the edge's direction is absent |
| Contexts.ComputeLakByLanes | src/vp8/model/model.hh:573-617 | the lane-by-lane loop computes the same prediction as the function |
| Contexts.SumLanes | src/vp8/model/model.hh:604-608 | the accumulation over lanes 1..7 is the sum of the lane terms |
| Contexts.LakSumFrame | src/vp8/model/model.hh:604-608 | the sum reads the block only at lanes 1..7, never at lane 0 (the coded band, slot 0 being the sentinel) |
| Contexts.LakReadsOnlyInterior | src/vp8/model/model.hh:573-617 | the edge prediction reads only interior coefficients of the block, so not the coefficient being coded |
| Contexts.LaneInterior | src/vp8/model/model.hh:583-594 | lanes 1..7 of an edge band lie in the interior |
| Contexts.GetMaxValue | src/vp8/model/model.hh:694-707 | `get_max_value` lies in 1..1024 |
| Contexts.GetMaxValueIsCeiling | src/vp8/model/model.hh:706 | it is the least r with r times the quantizer reaching `freqmax` |
| Contexts.Freqmax | src/vp8/model/model.hh:695-705 | every `freqmax` entry lies in 837..1024 |
| Contexts.ExponentArrayX | src/vp8/model/model.hh:332-341 | the edge exponent sub-array address is inside `exponent_counts_x_` |
| Contexts.ExponentArray7x7 | src/vp8/model/model.hh:342-361 | the DC uses `exponent_counts_dc_` and an interior band `exponent_counts_`, inside the table |
| Contexts.ResidualNoiseArrayShared | src/vp8/model/model.hh:371-377 | the noise row address is inside `residual_noise_counts_` |
| Contexts.ResidualNoiseArrayX | src/vp8/model/model.hh:362-369 | an edge count is used as the count index as it is |
| Contexts.ResidualNoiseArray7x7 | src/vp8/model/model.hh:378-387 | a 7x7 count goes through its bin first |
| Contexts.ResidualThreshArray | src/vp8/model/model.hh:626-645 | with the encoder's `min_threshold` and an exponent within the bit length of `max_value`, both indices fit, the prediction index below 128 |
| Contexts.ThreshIndexBound | src/vp8/model/model.hh:643 | a value below `max_value` shifted by the encoder's threshold is below 128 |
| Contexts.SignDigit | src/vp8/model/model.hh:667 | the sign digit is 0 for zero, 1 for positive and 2 for negative |
| Contexts.SignArray | src/vp8/model/model.hh:657-693 | the DC uses (0,0); an edge band uses a sign digit below 3 and `exp_len+1` in 1..11; an interior band uses 0 and left+above in 0..8; all fit the 4x12 row |
| Contexts.SignIgnoresOwnCoefficient | src/vp8/model/model.hh:657-693 | the sign context does not depend on the coefficient it codes |
| Contexts.SignEdgeReadsOnlyInterior | src/vp8/model/model.hh:664-670 | the sign context of an edge band reads only the interior of its block |
| Contexts.ExponentIgnoresOwnCoefficient | src/vp8/model/model.hh:332-361 | the exponent contexts do not depend on the coefficient they code |
| Contexts.ThreshIgnoresOwnCoefficient | src/vp8/model/model.hh:626-645 | the threshold context does not depend on the coefficient it codes |
| EncoderGrammar.PrefixRemapRange | src/vp8/encoder/encoder.cc:34-39 | `prefix_remap` is 0 only for 0, and sends lengths 1..12 to length+3 in 4..15, so two clear bits mean length 0 |
| EncoderGrammar.ExponentBits | src/vp8/encoder/encoder.cc:64-74 | length 0 is coded as two clear bits; otherwise 4 bits of value length+3, with one of the first two set |
| EncoderGrammar.CoefficientRoundTrip | src/vp8/encoder/encoder.cc:61-86 | the bits of every coefficient below 4096 in magnitude read back as that coefficient, from exactly those bits, whatever follows |
| EncoderGrammar.ReadNonzero | src/vp8/encoder/encoder.cc:75-86 | four exponent bits, the magnitude bits below the top one and the sign read back as the signed magnitude |
| EncoderGrammar.TreeTokensBits | src/vp8/encoder/encoder.cc:48-55 | a count or exponent tree codes exactly its bits |
| EncoderGrammar.TreeTokensAt | src/vp8/encoder/encoder.cc:50-55 | the j-th tree bit is bit `width-1-j`, coded at row `index` and column `serialized_so_far`, which then takes in that bit |
| EncoderGrammar.TreeInBounds | src/vp8/encoder/encoder.cc:48-55 | a tree stays inside its sub-array when the rows cover the top index and the columns cover `serialized_so_far` |
| EncoderGrammar.NoiseTokensAt | src/vp8/encoder/encoder.cc:79-81 | the j-th residual bit is bit i = count-1-j, coded through `res_prob.at(i)` |
| EncoderGrammar.ThreshTokensAt | src/vp8/encoder/encoder.cc:212-223 | the j-th threshold bit is coded at `encoded_so_far`, which starts at 1 and takes in each bit |
| EncoderGrammar.ThreshInBounds | src/vp8/encoder/encoder.cc:212-223 | `encoded_so_far` stays below 2^width, the row length |
| EncoderGrammar.CoefTokensBits | src/vp8/encoder/encoder.cc:61-86 | a coefficient is coded as its exponent, the magnitude bits below the top one and `coef >= 0` for a nonzero |
| EncoderGrammar.Coef7x7TokensBits | src/vp8/encoder/encoder.cc:97-124 | a DC or interior coefficient is coded as those bits, whatever its contexts |
| EncoderGrammar.SplitResidualTokensBits | src/vp8/encoder/encoder.cc:210-229 | wherever the threshold splits the residual, the bits coded are the magnitude bits below the top one |
| EncoderGrammar.EdgeResidualThresh | src/vp8/encoder/encoder.cc:210-229 | above the threshold, the residual is the threshold run then the noise run, each inside its row |
| EncoderGrammar.EdgeResidualNoise | src/vp8/encoder/encoder.cc:210-229 | below the threshold, the whole residual goes through the noise row, inside it |
| EncoderGrammar.EdgeCoefTokensBits | src/vp8/encoder/encoder.cc:181-240 | an edge coefficient is coded as its bits, whatever its contexts |
| EncoderGrammar.InteriorVisits | src/vp8/encoder/encoder.cc:90-130 | the interior pass visits only interior positions, and no count context exceeds the starting count |
| EncoderGrammar.InteriorVisitsCode | src/vp8/encoder/encoder.cc:97-128 | an interior position is coded before the count is checked, so a count of 0 still codes one position, and the pass stops once the count reaches 0 |
| EncoderGrammar.InteriorVisitsSkip | src/vp8/encoder/encoder.cc:97 | positions outside the 7x7 square code nothing |
| EncoderGrammar.EdgeVisits | src/vp8/encoder/encoder.cc:166-242 | the edge pass visits only row-0 and column-0 positions other than the DC, and no count context exceeds the larger starting edge count |
| EncoderGrammar.EdgeVisitsStep | src/vp8/encoder/encoder.cc:174-240 | a coded edge position uses its line's count as context, and a nonzero takes one from that count |
| EncoderGrammar.CodeInteriorBits | src/vp8/encoder/encoder.cc:90-130 | the interior pass codes exactly the bits of the visited coefficients |
| EncoderGrammar.CodeEdgesBits | src/vp8/encoder/encoder.cc:166-242 | the edge pass codes exactly the bits of the visited coefficients |
| EncoderGrammar.InteriorFromCode | src/vp8/encoder/encoder.cc:97-128 | one interior step: the coefficient with the remaining count, then the rest with one fewer after a nonzero, or stop at 0 |
| EncoderGrammar.EdgeFromCode | src/vp8/encoder/encoder.cc:174-240 | one edge step: the coefficient with its line's count, then the rest with that count one fewer after a nonzero |
| EncoderGrammar.EdgeCodedIsEdge | src/vp8/encoder/encoder.cc:175-181 | only row-0 and column-0 positions other than the DC are coded by the edge pass |
| EncoderGrammar.EobFrom | src/vp8/encoder/encoder.cc:132-144 | `eob_x` and `eob_y` are below 8 |
| EncoderGrammar.EobStep | src/vp8/encoder/encoder.cc:134-144 | folding a position into the running `std::max` keeps the maximum over the rest |
| EncoderGrammar.CodedDc | src/vp8/encoder/encoder.cc:60 | the coded DC is an int16; for a DC within range it is the predicted residual, within +-ceil(1024/q0) |
| EncoderGrammar.BlockTokensParts | src/vp8/encoder/encoder.cc:44-243 | a block is its 7x7 count, the DC, the interior pass, the two edge counts and the edge pass, in that order |
| EncoderGrammar.Coef7x7InBounds | src/vp8/encoder/encoder.cc:63-86 | a DC or interior coefficient below 2048 stays inside its sub-arrays |
| EncoderGrammar.EdgeResidualInBounds | src/vp8/encoder/encoder.cc:210-229 | an edge residual within `get_max_value` stays inside its threshold and noise rows |
| EncoderGrammar.EdgeCoefInBounds | src/vp8/encoder/encoder.cc:181-240 | an edge coefficient within `get_max_value` stays inside its sub-arrays |
| EncoderGrammar.CountTokensInBounds | src/vp8/encoder/encoder.cc:48-55 | the 7x7 count's tree stays inside its sub-array |
| EncoderGrammar.EdgeCountTokensInBounds | src/vp8/encoder/encoder.cc:145-165 | an edge count's tree stays inside its sub-array |
| EncoderGrammar.BlockTokensInBounds | src/vp8/encoder/encoder.cc:44-243 | every decision of a legal block names a Branch inside the Model |
| Encoder.ReplayPerBranch | src/vp8/encoder/encoder.cc:356-364 | each Branch's state after a decision sequence is its origin updated with only the bits decided on it, in order |
| Encoder.ReplayBounded | src/vp8/encoder/encoder.cc:356-364 | from a bounded origin every Branch stays bounded, and its update counter counts its decisions |
| Encoder.BoolEncoder.Put | src/vp8/encoder/encoder.cc:356-364 | the coder receives the bit with the Branch's probability from before the update; then the same Branch observes the same bit; the tracking invariant is kept |
| Encoder.PutCount | src/vp8/encoder/encoder.cc:48-55 | the count loop makes exactly the tree decisions of the count's bits |
| Encoder.PutExponent | src/vp8/encoder/encoder.cc:64-74 | the exponent loop makes the tree decisions of the remapped length, stopping after two bits for length 0 |
| Encoder.PutNoise | src/vp8/encoder/encoder.cc:79-81 | the noise loop makes the decisions of the low bits, bit i through entry i |
| Encoder.PutThresh | src/vp8/encoder/encoder.cc:210-223 | the threshold loop makes the decisions of the bits down to the threshold, through `encoded_so_far` |
| Encoder.PutSign | src/vp8/encoder/encoder.cc:83-86 | a nonzero codes `coef >= 0`, and a zero codes nothing |
| Encoder.PutResidualNoise | src/vp8/encoder/encoder.cc:75-82 | the bits below the top one go through the noise row |
| Encoder.PutCoef | src/vp8/encoder/encoder.cc:61-86 | one coefficient makes its exponent, residual and sign decisions |
| Encoder.PutCoef7x7 | src/vp8/encoder/encoder.cc:98-124 | a DC or interior coefficient makes exactly its grammar decisions |
| Encoder.PutThreshThenNoise | src/vp8/encoder/encoder.cc:210-229 | the threshold run, then the noise run |
| Encoder.PutEdgeResidual | src/vp8/encoder/encoder.cc:200-230 | an edge residual makes exactly its grammar decisions, on both sides of the threshold |
| Encoder.PutEdgeCoef | src/vp8/encoder/encoder.cc:181-240 | an edge coefficient makes exactly its grammar decisions |
| Encoder.SerializeInterior | src/vp8/encoder/encoder.cc:90-130 | the interior loop makes exactly the decisions of the interior pass |
| Encoder.ComputeEob | src/vp8/encoder/encoder.cc:132-144 | the loop computes the largest column and row of a nonzero interior coefficient |
| Encoder.SerializeEdgeAt | src/vp8/encoder/encoder.cc:168-242 | one edge position makes its decisions and returns the counts the rest of the pass continues with, both at most 7 |
| Encoder.SerializeEdges | src/vp8/encoder/encoder.cc:166-243 | the edge loop makes exactly the decisions of the edge pass |
| Encoder.SerializeCountDcInterior | src/vp8/encoder/encoder.cc:48-130 | the 7x7 count, the DC and the interior pass, in that order |
| Encoder.PutEdgeCount | src/vp8/encoder/encoder.cc:145-165 | an edge count is coded as 3 bits in the context of its end-of-block index |
| Encoder.SerializeEdgeCounts | src/vp8/encoder/encoder.cc:132-165 | the row-0 count, then the column-0 count |
| Encoder.SerializeTokens | src/vp8/encoder/encoder.cc:44-243 | `serialize_tokens` makes exactly the decisions of the block grammar, and the Branches track them |
| DecoderGrammar.PrefixUnremapInverts | src/vp8/decoder/decoder.cc:9-14 | `prefix_unremap` inverts `prefix_remap` on every byte but 253, and the remap inverts the unremap on every byte but 3 |
| DecoderGrammar.CountRunValue | src/vp8/decoder/decoder.cc:184-195 | a count read with `decoded_so_far` starting at `sofar` is sofar*2^n plus the value of the n bits |
| DecoderGrammar.CountBits | src/vp8/decoder/decoder.cc:184-195 | a count is the value of its bits, most significant first, so below 2^n |
| DecoderGrammar.EdgeCountFits | src/vp8/decoder/decoder.cc:49-63 | an edge count is at most 7, so the `> 7` check never fires |
| DecoderGrammar.ExponentRun | src/vp8/decoder/decoder.cc:225-236 | the exponent is the number of leading 1 bits, capped at `MAX_EXPONENT`; a 0 closes it below the cap |
| DecoderGrammar.ExponentRunOf | src/vp8/decoder/decoder.cc:225-236 | conversely, a run of 1 bits closed by a 0, or reaching the cap, reads as its length |
| DecoderGrammar.ResidualRunValue | src/vp8/decoder/decoder.cc:250-259 | OR-ing n residual bits into a multiple of 2^n adds their value |
| DecoderGrammar.SignedRunValue | src/vp8/decoder/decoder.cc:239-262 | the magnitude is 2^(len-1) with the residual bits below it, its bit length is len, and the value is negative exactly when the sign bit is 0 |
| DecoderGrammar.CoefRunValue | src/vp8/decoder/decoder.cc:222-263 | a coefficient is nonzero exactly when its exponent is, and then has the magnitude, bit length and sign above |
| DecoderGrammar.CoefRunInt16 | src/vp8/decoder/decoder.cc:237-262 | with `MAX_EXPONENT` at most 15 a decoded coefficient fits an int16 |
| DecoderGrammar.ExponentRoundTrip | src/vp8/decoder/decoder.cc:225-236 | where the stream holds len 1 bits and a closing 0, the exponent read is len, from exactly those bits |
| DecoderGrammar.SignedRoundTrip | src/vp8/decoder/decoder.cc:239-262 | where the stream holds `v > 0` and the bits of \|v\| below the top one, they read as v |
| DecoderGrammar.CoefRoundTrip | src/vp8/decoder/decoder.cc:222-263 | wherever the stream holds the bits of v, the decoder reads v from exactly those bits |
| DecoderGrammar.InteriorRunVisits | src/vp8/decoder/decoder.cc:204-205 | the interior loop follows `unzigzag49` without a gap and stops at its end or as soon as the count is 0 |
| DecoderGrammar.InteriorRunFrame | src/vp8/decoder/decoder.cc:183-269 | the interior loop writes only the positions it visits, so every other position keeps its zero |
| DecoderGrammar.InteriorRunCount | src/vp8/decoder/decoder.cc:204-241 | the starting count is the number of nonzeros decoded plus what is left at the end |
| DecoderGrammar.EdgeRunVisits | src/vp8/decoder/decoder.cc:65-66 | the lanes follow `delta*(lane+1)` without a gap, and stop after lane 6 or as soon as the count is 0 |
| DecoderGrammar.EdgeRunFrame | src/vp8/decoder/decoder.cc:66-137 | an edge pass writes only the lanes it visits |
| DecoderGrammar.EdgeRunCount | src/vp8/decoder/decoder.cc:66-105 | the edge count is the number of nonzeros decoded plus what is left |
| DecoderGrammar.LaneIsEdge | src/vp8/decoder/decoder.cc:40-48 | every lane lies on row 0 (horizontal) or column 0 (vertical), never at the DC |
| DecoderGrammar.EobOfIsMax | src/vp8/decoder/decoder.cc:247-248 | `eob_x`/`eob_y` bound the column and row of every decoded nonzero, and equal one of them unless 0 |
| DecoderGrammar.EobOfFrame | src/vp8/decoder/decoder.cc:247-248 | writing a position that was not visited leaves the end-of-block index alone |
| DecoderGrammar.BlockRunCount | src/vp8/decoder/decoder.cc:184-198 | `STREAM_INCONSISTENT` happens exactly when the six count bits read above 49; otherwise the count reported is their value |
| DecoderGrammar.BlockBodySplit | src/vp8/decoder/decoder.cc:204-342 | the block body is the interior pass, then the edges and the DC |
| DecoderGrammar.EdgesAndDcKeepInterior | src/vp8/decoder/decoder.cc:274-342 | neither the edges nor the DC write an interior position |
| DecoderGrammar.BlockBodyCount | src/vp8/decoder/decoder.cc:199-342 | the decoded block holds, at the positions the interior pass visited, the 7x7 count minus what the pass left unspent |
| Decoder.BoolDecoder.Get | src/vp8/decoder/decoder.cc:189-191 | `get` yields the next bit of the stream and records it with its selector |
| Decoder.ReadCount | src/vp8/decoder/decoder.cc:184-195 | the count loop reads exactly the count run, and its value |
| Decoder.ReadExponent | src/vp8/decoder/decoder.cc:225-236 | the exponent loop reads exactly the exponent run, and its length |
| Decoder.ReadResidual | src/vp8/decoder/decoder.cc:250-259 | the residual loop reads n bits and ORs them in at their places |
| Decoder.ReadEdgeResidual | src/vp8/decoder/decoder.cc:107-131 | the two loops split at `min_threshold` read the same bits into the same value as one loop |
| Decoder.ReadSigned | src/vp8/decoder/decoder.cc:239-262 | sign, top bit and residual give the signed run's value |
| Decoder.ReadEdgeSigned | src/vp8/decoder/decoder.cc:96-135 | the same for an edge coefficient |
| Decoder.ReadCoefficient | src/vp8/decoder/decoder.cc:222-263 | one coefficient: exactly the coefficient run, and its value |
| Decoder.ReadEdgeCoefficient | src/vp8/decoder/decoder.cc:82-136 | one edge coefficient: exactly the coefficient run, and its value |
| Decoder.DecodeInterior | src/vp8/decoder/decoder.cc:200-273 | the interior loop leaves the interior pass's block and reads, and `eob_x`/`eob_y` end as the largest column and row of a decoded nonzero |
| Decoder.DecodeOneEdge | src/vp8/decoder/decoder.cc:28-140 | `decode_one_edge` reads the 3-bit count and the lanes, and leaves the block of the one-edge run |
| Decoder.DecodeEdge | src/vp8/decoder/decoder.cc:142-163 | row 0, then column 0 |
| Decoder.DecodeEdgesAndDc | src/vp8/decoder/decoder.cc:274-342 | the edges, then the DC, stored after unprediction |
| Decoder.DecodeBody | src/vp8/decoder/decoder.cc:199-342 | the rest of the block after the 7x7 count |
| Decoder.ParseTokens | src/vp8/decoder/decoder.cc:169-351 | `parse_tokens` zeroes the block and reads the block run; it stops with the block zeroed exactly at `STREAM_INCONSISTENT` |

## Left out

- The boolean arithmetic coder (`VP8BoolEncoder::put(bool, Probability)`, `BoolDecoder::get`) is an external primitive (section 7 of RFC 6386). The encoder records (bit, probability) symbols, and the decoder hands out the bits of a given sequence. Past the end of that sequence it reads 0.
- The decoder's `UniversalPrior`, `get_universal_prob` and `update_universal_prob` are not part of this model. A decoder read records the `set_*` selector and its arguments instead of a Branch, so the decoder's Branch updates are not modelled.
- `update_coefficient_context*`, `update_by_prior`, `update_nonzero*` and `update_coef` prime that prior. They are not part of this model.
- `raster_to_aligned` is not part of this model. The decoder stores coefficients at raster positions, not at aligned ones.
- `unzigzag49` is not part of this model. The decoder takes the interior order as a parameter `order`. `InteriorOrder` says what the source asserts of it: 49 distinct positions with x > 0 and y > 0.
- `MAX_EXPONENT` (numeric.hh) is not part of this model and is a parameter. `CoefRunInt16` bounds the decoded coefficient for a value of at most 15.
- `get_noise_threshold` is not part of this model and is the parameter `noiseThreshold`. It only decides which of two loops reads a residual bit.
- DC prediction in the decoder (`adv_predict_dc_pix`, `predict_dc_dct` and `adv_predict_or_unpredict_dc`) is the parameter `reconstructDc`. It combines the decoded block with the decoded DC difference. The `advanced_dc_prediction` branch and its `uncertainty` priors are covered only by that parameter.
- `custom_exit(STREAM_INCONSISTENT)` is modelled as the outcome `StreamInconsistent`, not as a process exit.
- Decoder.DecodeOneEdge: the `num_nonzeros_edge > 7` exit is not modelled, because three bits cannot exceed 7 (`EdgeCountFits`).
- `decode_one_edge` never reads `est_eob`. `DecodeBody` drops the `eob_x`/`eob_y` that `DecodeInterior` computes, because `decode_edge` only passes them on to `decode_one_edge`, which ignores them.
- `set_num_nonzeros`, `set_horizontal` and `set_vertical` are not part of this model. They record the decoded block for its neighbours.
- Decoder: storing a decoded coefficient into `int16_t` is not modelled as a truncation. `CoefRunInt16` shows no truncation happens when `MAX_EXPONENT` is at most 15.
- Lookup tables defined outside model.hh are parameters of the datatype `Tables`, with only their shapes required: `nonzero_to_bin`, `icos_idct_linear_8192_scaled`, `icos_base_8192_scaled` and `abs_ctx_weights_*`. `zigzag` is defined as the inverse of the `unzigzag` table of model.hh.
- `NUMBER_OF_EXPONENT_BITS` and `NUMERIC_LENGTH_MAX` (numeric.hh) are taken as 4 and 11. These are the smallest values that fit every index the grammar forms.
- Contexts: the 32-bit products in `idct_2d_*`, `predict_dc_dct` and `compute_lak` are unbounded integers, so int32 overflow is not modelled.
- Contexts.ComputeLak: the prediction is an unbounded integer, so int32 overflow inside it is not modelled. Its uses follow the source: `sign_array` stores it in an `int16_t` and the model wraps it there (`ToInt16`), while `exponent_array_x` and `residual_thresh_array` use the `int` value untruncated.
- `index_to_cat` (model.hh:44-70) returns its argument; the classification after that `return` is unreachable. It has no caller in the modelled core, so it is not modelled.
- `predict_locoi_dc_deprecated` is not modelled: its call in `predict_or_unpredict_dc` is commented out.
- Loading a prior file (`get_probability_tables`, `ProbabilityTables(const Slice&)`) is file I/O and a `memcpy` of the Model's bytes. It is not modelled beyond the byte layout that `LayoutContiguous` states.
- The annotation code (`ANNOTATE_CTX`, `Context`/`gctx`), `Billing` labels, `debug_print`, `filter`, `serialize` and `optimize` of `ProbabilityTables` are debug and telemetry code.
- Vectorised paths (`OPTIMIZED_7x7`, `compute_aavrg_vec`, `MICROVECTORIZE`) and compile-time variants (`STOP_TRAINING`, `JPEG_ENCODER`, `ALLOW_FOUR_COLORS`) are left out; the default build is modelled.
- No block-level round trip between encoder and decoder: the two files code different grammars. They agree on one coefficient's magnitude and sign bits (`SignedRoundTrip`, `CoefRoundTrip`), not on the exponent or on the order.
- EncoderGrammar.Legal: the encoder is modelled for blocks whose 7x7 count is at least the true number of interior nonzeros and at most 49, and whose edge counts are at most 7. Its DC must lie within the prediction range, its interior magnitudes below 2048, and its edge magnitudes within `get_max_value`. These are the coefficient ranges the JPEG reader guarantees and the table axes assume. Out-of-range blocks, which the source codes with indices outside the table, are not modelled.
