/** The address functions and integer predictors of `ProbabilityTables` (model.hh):
    how a block, its neighbours and the quantization table select a Branch of the
    Model, and the predictions those selections are built from. An address is a
    `Key` prefix; the coders append the last one or two indices themselves. */
module Contexts {
  import opened Numeric
  import opened Model

  /** One step of the zig-zag walk of ITU-T T.81 (section A.3.6, Figure A.6) over
      raster positions (column r % 8, row r / 8): up and to the right along an even
      anti-diagonal, down and to the left along an odd one, turning along the border.
      The last position stays put. */
  function ZigzagNext(r: nat): (n: nat)
    requires r < 64
    ensures n < 64
  {
    var x, y := r % 8, r / 8;
    if (x + y) % 2 == 0 then
      if x == 7 then (if y < 7 then r + 8 else r)
      else if y == 0 then r + 1
      else r - 7
    else
      if y == 7 then (if x < 7 then r + 1 else r)
      else if x == 0 then r + 8
      else r + 7
  }

  /** The raster position of the zz-th coefficient in zig-zag order, by walking. */
  function Unzigzag(zz: nat): (r: nat)
    requires zz < 64
    ensures r < 64
  {
    if zz == 0 then 0 else ZigzagNext(Unzigzag(zz - 1))
  }

  /** The zig-zag order of ITU-T T.81 (section A.3.6, Figure A.6): the raster
      position of the zz-th coefficient, the `unzigzag` table of model.hh. */
  function UnzigzagTable(zz: nat): (r: nat)
    requires zz < 64
    ensures r < 64
  {
    if zz == 0 then 0 else if zz == 1 then 1 else if zz == 2 then 8 else if zz == 3 then 16 else
    if zz == 4 then 9 else if zz == 5 then 2 else if zz == 6 then 3 else if zz == 7 then 10 else
    if zz == 8 then 17 else if zz == 9 then 24 else if zz == 10 then 32 else if zz == 11 then 25 else
    if zz == 12 then 18 else if zz == 13 then 11 else if zz == 14 then 4 else if zz == 15 then 5 else
    if zz == 16 then 12 else if zz == 17 then 19 else if zz == 18 then 26 else if zz == 19 then 33 else
    if zz == 20 then 40 else if zz == 21 then 48 else if zz == 22 then 41 else if zz == 23 then 34 else
    if zz == 24 then 27 else if zz == 25 then 20 else if zz == 26 then 13 else if zz == 27 then 6 else
    if zz == 28 then 7 else if zz == 29 then 14 else if zz == 30 then 21 else if zz == 31 then 28 else
    if zz == 32 then 35 else if zz == 33 then 42 else if zz == 34 then 49 else if zz == 35 then 56 else
    if zz == 36 then 57 else if zz == 37 then 50 else if zz == 38 then 43 else if zz == 39 then 36 else
    if zz == 40 then 29 else if zz == 41 then 22 else if zz == 42 then 15 else if zz == 43 then 23 else
    if zz == 44 then 30 else if zz == 45 then 37 else if zz == 46 then 44 else if zz == 47 then 51 else
    if zz == 48 then 58 else if zz == 49 then 59 else if zz == 50 then 52 else if zz == 51 then 45 else
    if zz == 52 then 38 else if zz == 53 then 31 else if zz == 54 then 39 else if zz == 55 then 46 else
    if zz == 56 then 53 else if zz == 57 then 60 else if zz == 58 then 61 else if zz == 59 then 54 else
    if zz == 60 then 47 else if zz == 61 then 55 else if zz == 62 then 62 else 63
  }

  /** Steps of the induction in `UnzigzagIsTable`, split into four ranges to keep each
      proof small: consecutive table entries are one step of the walk apart. */
  lemma TableSteps0(zz: nat)
    requires 0 <= zz < 16
    ensures UnzigzagTable(zz + 1) == ZigzagNext(UnzigzagTable(zz))
  {
  }

  lemma TableSteps16(zz: nat)
    requires 16 <= zz < 32
    ensures UnzigzagTable(zz + 1) == ZigzagNext(UnzigzagTable(zz))
  {
  }

  lemma TableSteps32(zz: nat)
    requires 32 <= zz < 48
    ensures UnzigzagTable(zz + 1) == ZigzagNext(UnzigzagTable(zz))
  {
  }

  lemma TableSteps48(zz: nat)
    requires 48 <= zz < 63
    ensures UnzigzagTable(zz + 1) == ZigzagNext(UnzigzagTable(zz))
  {
  }

  /** The walk visits the positions of the table, in its order. */
  lemma {:induction false} UnzigzagIsTable(zz: nat)
    requires zz < 64
    ensures Unzigzag(zz) == UnzigzagTable(zz)
  {
    if zz > 0 {
      UnzigzagIsTable(zz - 1);
      var p := zz - 1;
      if p < 16 {
        TableSteps0(p);
      } else if p < 32 {
        TableSteps16(p);
      } else if p < 48 {
        TableSteps32(p);
      } else {
        TableSteps48(p);
      }
    }
  }

  /** The zig-zag index of each raster position. */
  function Zigzag(r: nat): (zz: nat)
    requires r < 64
    ensures zz < 64
  {
    if r == 0 then 0 else if r == 1 then 1 else if r == 2 then 5 else if r == 3 then 6 else
    if r == 4 then 14 else if r == 5 then 15 else if r == 6 then 27 else if r == 7 then 28 else
    if r == 8 then 2 else if r == 9 then 4 else if r == 10 then 7 else if r == 11 then 13 else
    if r == 12 then 16 else if r == 13 then 26 else if r == 14 then 29 else if r == 15 then 42 else
    if r == 16 then 3 else if r == 17 then 8 else if r == 18 then 12 else if r == 19 then 17 else
    if r == 20 then 25 else if r == 21 then 30 else if r == 22 then 41 else if r == 23 then 43 else
    if r == 24 then 9 else if r == 25 then 11 else if r == 26 then 18 else if r == 27 then 24 else
    if r == 28 then 31 else if r == 29 then 40 else if r == 30 then 44 else if r == 31 then 53 else
    if r == 32 then 10 else if r == 33 then 19 else if r == 34 then 23 else if r == 35 then 32 else
    if r == 36 then 39 else if r == 37 then 45 else if r == 38 then 52 else if r == 39 then 54 else
    if r == 40 then 20 else if r == 41 then 22 else if r == 42 then 33 else if r == 43 then 38 else
    if r == 44 then 46 else if r == 45 then 51 else if r == 46 then 55 else if r == 47 then 60 else
    if r == 48 then 21 else if r == 49 then 34 else if r == 50 then 37 else if r == 51 then 47 else
    if r == 52 then 50 else if r == 53 then 56 else if r == 54 then 59 else if r == 55 then 61 else
    if r == 56 then 35 else if r == 57 then 36 else if r == 58 then 48 else if r == 59 then 49 else
    if r == 60 then 57 else if r == 61 then 58 else if r == 62 then 62 else 63
  }

  /** The two orders are inverse permutations of 0..63. */
  lemma ZigzagOfTable(zz: nat)
    requires zz < 64
    ensures Zigzag(UnzigzagTable(zz)) == zz
  {
    if zz < 8 {
    } else if zz < 16 {
    } else if zz < 24 {
    } else if zz < 32 {
    } else if zz < 40 {
    } else if zz < 48 {
    } else if zz < 56 {
    } else {
    }
  }

  lemma TableOfZigzag(r: nat)
    requires r < 64
    ensures UnzigzagTable(Zigzag(r)) == r
  {
    if r < 8 {
    } else if r < 16 {
    } else if r < 24 {
    } else if r < 32 {
    } else if r < 40 {
    } else if r < 48 {
    } else if r < 56 {
    } else {
    }
  }

  lemma ZigzagOfUnzigzag(zz: nat)
    requires zz < 64
    ensures Zigzag(Unzigzag(zz)) == zz
  {
    UnzigzagIsTable(zz);
    ZigzagOfTable(zz);
  }

  lemma UnzigzagOfZigzag(r: nat)
    requires r < 64
    ensures Unzigzag(Zigzag(r)) == r
  {
    UnzigzagIsTable(Zigzag(r));
    TableOfZigzag(r);
  }

  /** The three entries of one `abs_ctx_weights_*[zz]` that the average uses:
      [1][1] for the above-left, [1][2] for the above and [2][1] for the left block. */
  datatype Weights = Weights(aboveLeft: nat, above: nat, left: nat)

  /** Constant tables defined outside model.hh. */
  datatype Tables = Tables(
    nonzeroToBin: seq<nat>,     // nonzero_to_bin[NUM_NONZEROS_BINS - 1]
    icosIdctLinear: seq<int>,   // icos_idct_linear_8192_scaled
    icosBase: seq<int>,         // icos_base_8192_scaled
    weightsLum: seq<Weights>,   // abs_ctx_weights_lum
    weightsChr: seq<Weights>)   // abs_ctx_weights_chr

  predicate WellFormed(t: Tables)
  {
    && |t.nonzeroToBin| == 50
    && (forall n :: 0 <= n < 50 ==> t.nonzeroToBin[n] < NUM_NONZEROS_BINS)
    && |t.icosIdctLinear| == 64
    && |t.icosBase| == 64 && t.icosBase[0] > 0
    && |t.weightsLum| == 64 && |t.weightsChr| == 64
  }

  /** `quantization_table_[zigzag[k]]` for every raster position k: the JPEG table,
      stored in zig-zag order, as the predictors read it. */
  function RasterQuantization(zq: seq<nat>): (q: seq<nat>)
    requires |zq| == 64
    ensures |q| == 64 && forall k :: 0 <= k < 64 ==> q[k] == zq[Zigzag(k)]
    ensures (forall k :: 0 <= k < 64 ==> 1 <= zq[k] < 65536) ==> Quantization(q)
  {
    seq(64, k requires 0 <= k < 64 => zq[Zigzag(k)])
  }

  /** A JPEG quantization table as the predictors read it, `quantization_table_[zigzag[k]]`:
      the divisor of raster position k, 64 nonzero 16-bit values (position 0 holds
      the DC divisor either way). */
  predicate Quantization(q: seq<nat>)
  {
    |q| == 64 && forall k :: 0 <= k < 64 ==> 1 <= q[k] < 65536
  }

  predicate Int16(v: int)
  {
    -32768 <= v < 32768
  }

  /** The 64 coefficients of a block in raster order, each an int16_t. */
  predicate Coefficients(c: seq<int>)
  {
    |c| == 64 && forall k :: 0 <= k < 64 ==> Int16(c[k])
  }

  /** What a neighbouring block lends to the contexts. */
  datatype Neighbor = Neighbor(coefficients: seq<int>, numNonzeros7x7: nat)

  /** A block being coded, with the neighbours its context points to
      (`above_right` is fetched by the source but never used). */
  datatype Block = Block(
    blockType: nat,
    coefficients: seq<int>,
    numNonzeros7x7: nat,
    numNonzerosX: nat,
    numNonzerosY: nat,
    left: Option<Neighbor>,
    above: Option<Neighbor>,
    aboveLeft: Option<Neighbor>)

  predicate NeighborOk(n: Option<Neighbor>)
  {
    n.Some? ==> Coefficients(n.value.coefficients) && n.value.numNonzeros7x7 <= 49
  }

  predicate BlockOk(b: Block)
  {
    Coefficients(b.coefficients) && NeighborOk(b.left) && NeighborOk(b.above) && NeighborOk(b.aboveLeft)
  }

  /** Two blocks with the same type and neighbours whose coefficients agree except
      possibly at raster position `band`. */
  predicate SameButAt(b1: Block, b2: Block, band: nat)
  {
    && b1.blockType == b2.blockType
    && b1.left == b2.left && b1.above == b2.above && b1.aboveLeft == b2.aboveLeft
    && |b1.coefficients| == |b2.coefficients|
    && forall k :: 0 <= k < |b1.coefficients| && k != band ==> b1.coefficients[k] == b2.coefficients[k]
  }

  /** Two blocks with the same neighbours that agree on every interior coefficient
      (they may differ anywhere on row 0 and column 0). */
  predicate SameInterior(b1: Block, b2: Block)
  {
    && b1.blockType == b2.blockType
    && b1.left == b2.left && b1.above == b2.above && b1.aboveLeft == b2.aboveLeft
    && |b1.coefficients| == |b2.coefficients|
    && forall k :: 0 <= k < |b1.coefficients| && IsInterior(k) ==> b1.coefficients[k] == b2.coefficients[k]
  }

  /** Blocks that differ only at an edge band agree on the interior. */
  lemma SameButAtEdge(b1: Block, b2: Block, band: nat)
    requires SameButAt(b1, b2, band) && IsEdge(band)
    ensures SameInterior(b1, b2)
  {
  }

  predicate IsInterior(coord: nat)
  {
    coord < 64 && coord % 8 > 0 && coord / 8 > 0
  }

  /** Row 0 or column 0, without the DC position. */
  predicate IsEdge(coord: nat)
  {
    0 < coord < 64 && (coord < 8 || coord % 8 == 0)
  }

  /** The column (`isX`) or row of raster position k. */
  function Line(k: nat, isX: bool): nat
  {
    if isX then k % 8 else k / 8
  }

  /** A Key prefix whose indices are all inside their axes. */
  predicate Addresses(k: Key)
  {
    var dims := Dims(k.table);
    |k.index| <= |dims| && forall i :: 0 <= i < |k.index| ==> k.index[i] < dims[i]
  }

  /** `.at(i)...` on the sub-array a prefix names. */
  function Extend(k: Key, more: seq<nat>): (r: Key)
    ensures r.table == k.table && r.index == k.index + more
  {
    Key(k.table, k.index + more)
  }

  lemma ExtendInBounds(k: Key, more: seq<nat>)
    requires Addresses(k)
    requires |k.index| + |more| == |Dims(k.table)|
    requires forall i :: 0 <= i < |more| ==> more[i] < Dims(k.table)[|k.index| + i]
    ensures InBounds(Extend(k, more))
  {
    var e := Extend(k, more);
    forall i | 0 <= i < |e.index|
      ensures e.index[i] < Dims(k.table)[i]
    {
      if i >= |k.index| {
        assert e.index[i] == more[i - |k.index|];
      }
    }
  }

  /** `std::min(block_type, BLOCK_TYPES - 1)`: every block type from 1 on shares class 1. */
  function Cls(blockType: nat): (c: nat)
    ensures c < BLOCK_TYPES
    ensures blockType == 0 ==> c == 0
    ensures blockType >= 1 ==> c == 1
  {
    if blockType < BLOCK_TYPES - 1 then blockType else BLOCK_TYPES - 1
  }

  /** `num_nonzeros_to_bin` */
  function Bin(t: Tables, n: nat): (r: nat)
    requires WellFormed(t) && n < 50
    ensures r < NUM_NONZEROS_BINS
  {
    t.nonzeroToBin[n]
  }

  function CountOf(n: Option<Neighbor>): Option<nat>
  {
    if n.Some? then Some(n.value.numNonzeros7x7) else None
  }

  /** The neighbour 7x7 count context of `nonzero_counts_7x7`. */
  function NonzeroContext(left: Option<nat>, above: Option<nat>): (ctx: nat)
    ensures (left.Some? ==> left.value <= 49) && (above.Some? ==> above.value <= 49) ==> ctx <= 25
    ensures left.None? && above.None? ==> ctx == 0
  {
    if left.None? then (if above.Some? then above.value + 1 else 1) / 2
    else if above.None? then (left.value + 1) / 2
    else (above.value + left.value + 2) / 4
  }

  /** The context treats its two neighbours alike, and a missing neighbour as a copy
      of the present one. */
  lemma NonzeroContextSymmetric(left: Option<nat>, above: Option<nat>)
    ensures NonzeroContext(left, above) == NonzeroContext(above, left)
    ensures left.Some? ==> NonzeroContext(left, None) == NonzeroContext(left, left)
  {
  }

  /** `nonzero_counts_7x7`: the [6][32] sub-array for the 7x7 count's bits. */
  function NonzeroCounts7x7(t: Tables, b: Block): (k: Key)
    requires WellFormed(t) && BlockOk(b)
    ensures k.table == Nonzero7x7 && |k.index| == 2 && Addresses(k)
  {
    Key(Nonzero7x7, [Cls(b.blockType), Bin(t, NonzeroContext(CountOf(b.left), CountOf(b.above)))])
  }

  /** `nonzero_counts_1x8`: the [3][4] sub-array for an edge count's bits. Both values
      of `is_x` select `num_nonzeros_counts_1x8_`; `num_nonzeros_counts_8x1_` is never
      addressed. */
  function NonzeroCounts1x8(blockType: nat, eob: nat, numNonzeros: nat, isX: bool): (k: Key)
    requires eob < 8 && numNonzeros <= 49
    ensures k.table == Nonzero1x8 && |k.index| == 3 && Addresses(k)
    ensures k.index[2] * 7 <= numNonzeros + 3 < k.index[2] * 7 + 7
  {
    Key(Nonzero1x8, [Cls(blockType), eob, (numNonzeros + 3) / 7])
  }

  /** The band axis of `exponent_counts_x_`: row-0 bands 1..7 go to 0..6 and column-0
      bands 8, 16, .., 56 go to 8..14. */
  function EdgeBand(band: nat): (r: nat)
    requires IsEdge(band)
    ensures r < 15 && r != 7
    ensures band < 8 ==> r == band - 1
    ensures band >= 8 ==> r == band / 8 + 7
  {
    if band % 8 == 0 then band / 8 + 7 else band - 1
  }

  /** Different edge bands never share a band slot. */
  lemma EdgeBandInjective(b1: nat, b2: nat)
    requires IsEdge(b1) && IsEdge(b2) && EdgeBand(b1) == EdgeBand(b2)
    ensures b1 == b2
  {
    if b1 >= 8 && b2 >= 8 {
      assert b1 == 8 * (b1 / 8) && b2 == 8 * (b2 / 8);
    }
  }

  /** The band axis of `exponent_counts_`: interior raster position 8y+x, with x and y
      in 1..7, goes to 7(y-1)+(x-1). */
  function InteriorBand(band: nat): (r: nat)
    requires IsInterior(band)
    ensures r < 49
    ensures r == 7 * (band / 8 - 1) + (band % 8 - 1)
  {
    band - 8 - band / 8
  }

  /** Every slot 0..48 is the image of exactly one interior position. */
  lemma InteriorBandBijective(slot: nat, b1: nat, b2: nat)
    requires slot < 49
    requires IsInterior(b1) && IsInterior(b2) && InteriorBand(b1) == InteriorBand(b2)
    ensures b1 == b2
    ensures IsInterior(8 * (slot / 7 + 1) + slot % 7 + 1)
    ensures InteriorBand(8 * (slot / 7 + 1) + slot % 7 + 1) == slot
  {
    var y1, x1, y2, x2 := b1 / 8, b1 % 8, b2 / 8, b2 % 8;
    assert 7 * (y1 - 1) + (x1 - 1) == 7 * (y2 - 1) + (x2 - 1);
    DivModUnique(7 * (y1 - 1) + (x1 - 1), 7, y1 - 1, x1 - 1);
    DivModUnique(7 * (y2 - 1) + (x2 - 1), 7, y2 - 1, x2 - 1);
    var c := 8 * (slot / 7 + 1) + slot % 7 + 1;
    DivModUnique(c, 8, slot / 7 + 1, slot % 7 + 1);
  }

  /** `exp_len`: the bit length of |v| saturated at 1023, so at most 10. */
  function ExpLen(v: int): (r: nat)
    ensures r <= 10
    ensures r == 0 <==> v == 0
    ensures Abs(v) < 1024 ==> r == BitLength(Abs(v))
  {
    var m := Min(Abs(v), 1023);
    BitLengthMonotone(m, 1023);
    Pow2Table();
    BitLengthUnique(1023, 10);
    BitLength(m)
  }

  /** `exp_len` does not see the sign. */
  lemma ExpLenSymmetric(v: int)
    ensures ExpLen(-v) == ExpLen(v)
  {
  }

  // ----- Partial inverse DCT of one edge -----

  /** Terms j..7 of `idct_2d_8x1` (step 1: row 0) or `idct_2d_1x8` (step 8: column 0):
      coefficient at step*j, times the cosine for pixel row `row` and frequency j,
      times its quantizer. */
  function EdgeIdctSum(t: Tables, q: seq<nat>, c: seq<int>, row: nat, step: nat, j: nat): int
    requires WellFormed(t) && Quantization(q) && |c| == 64
    requires row < 8 && (step == 1 || step == 8) && j <= 8
    decreases 8 - j
  {
    if j == 8 then 0
    else (c[step * j] * t.icosIdctLinear[row * 8 + j] * q[step * j] + EdgeIdctSum(t, q, c, row, step, j + 1))
  }

  /** The sum reads only the coefficients at step*j'.. for j' >= j. */
  lemma {:induction false} EdgeIdctSumFrame(t: Tables, q: seq<nat>, c1: seq<int>, c2: seq<int>, row: nat, step: nat, j: nat)
    requires WellFormed(t) && Quantization(q) && |c1| == 64 && |c2| == 64
    requires row < 8 && (step == 1 || step == 8) && j <= 8
    requires forall i :: j <= i < 8 ==> c1[step * i] == c2[step * i]
    ensures EdgeIdctSum(t, q, c1, row, step, j) == EdgeIdctSum(t, q, c2, row, step, j)
    decreases 8 - j
  {
    if j < 8 {
      EdgeIdctSumFrame(t, q, c1, c2, row, step, j + 1);
    }
  }

  /** `idct_2d_8x1`: row 0 of a block, with or without its DC term. */
  function Idct2d8x1(t: Tables, q: seq<nat>, c: seq<int>, ignoreFirst: bool, row: nat): int
    requires WellFormed(t) && Quantization(q) && |c| == 64 && row < 8
  {
    EdgeIdctSum(t, q, c, row, 1, if ignoreFirst then 1 else 0)
  }

  /** `idct_2d_1x8`: column 0 of a block, with or without its DC term. */
  function Idct2d1x8(t: Tables, q: seq<nat>, c: seq<int>, ignoreFirst: bool, row: nat): int
    requires WellFormed(t) && Quantization(q) && |c| == 64 && row < 8
  {
    EdgeIdctSum(t, q, c, row, 8, if ignoreFirst then 1 else 0)
  }

  /** The largest DC magnitude for a DC quantizer: ceil(1024 / q0). */
  function MaxDc(q0: nat): (m: nat)
    requires q0 > 0
    ensures 1 <= m <= 1024
  {
    MaxValueBound(1024, q0);
    CeilDiv(1024, q0)
  }

  /** The DC bound is the least m with m * q0 >= 1024. */
  lemma MaxDcIsCeiling(q0: nat)
    requires q0 > 0
    ensures MaxDc(q0) * q0 >= 1024 && (MaxDc(q0) - 1) * q0 < 1024
  {
    CeilDivBounds(1024, q0);
  }

  /** `predict_dc_dct`: the DC that makes the block's edge pixels continue the
      neighbours' facing pixels, clamped, divided by the DC quantizer and rounded half
      away from zero (C++ division truncates). */
  function PredictDcDct(t: Tables, q: seq<nat>, b: Block): (r: int)
    requires WellFormed(t) && Quantization(q) && BlockOk(b)
    ensures b.left.None? && b.above.None? ==> r == 0
    ensures Abs(r) <= MaxDc(q[0])
  {
    var leftGap :=
      if b.left.Some? then Idct2d8x1(t, q, b.left.value.coefficients, false, 7) - Idct2d8x1(t, q, b.coefficients, true, 0) else 0;
    var aboveGap :=
      if b.above.Some? then Idct2d1x8(t, q, b.above.value.coefficients, false, 7) - Idct2d1x8(t, q, b.coefficients, true, 0) else 0;
    var prediction :=
      if b.left.Some? && b.above.Some? then (leftGap + aboveGap) * 4
      else if b.left.Some? then leftGap * 8
      else if b.above.Some? then aboveGap * 8
      else 0;
    var clamped := Max(-1024 * 8192, Min(1016 * 8192, prediction));
    var scaled := TruncDiv(clamped, q[0]);
    RoundedDcBound(clamped, q[0], scaled);
    TruncDiv(scaled + (if scaled < 0 then -4096 else 4096), 8192)
  }

  /** The clamp keeps the rounded quotient inside +-ceil(1024 / q0). */
  lemma RoundedDcBound(clamped: int, q0: nat, scaled: int)
    requires q0 > 0 && -1024 * 8192 <= clamped <= 1016 * 8192
    requires scaled == TruncDiv(clamped, q0)
    ensures Abs(TruncDiv(scaled + (if scaled < 0 then -4096 else 4096), 8192)) <= MaxDc(q0)
  {
    var m := MaxDc(q0);
    TruncDivBounds(clamped, q0);
    TruncDivBounds(scaled + (if scaled < 0 then -4096 else 4096), 8192);
    MulMonotone(1024, m * q0, 8192);
    assert 1024 * 8192 <= 8192 * m * q0;
    if clamped >= 0 {
      MulCancel(scaled, 8192 * m, q0);
      DivAtLeast(scaled + 4096, 8192, m + 1);
    } else {
      assert (-scaled) * q0 <= -clamped;
      MulCancel(-scaled, 8192 * m, q0);
      if scaled < 0 {
        DivAtLeast(-scaled + 4096, 8192, m + 1);
      }
    }
  }

  /** The prediction reads the current block's row 0 and column 0 without its DC,
      so it never depends on the DC being coded. */
  lemma PredictDcIgnoresDc(t: Tables, q: seq<nat>, b1: Block, b2: Block)
    requires WellFormed(t) && Quantization(q) && BlockOk(b1) && BlockOk(b2)
    requires SameButAt(b1, b2, 0)
    ensures PredictDcDct(t, q, b1) == PredictDcDct(t, q, b2)
  {
    EdgeIdctSumFrame(t, q, b1.coefficients, b2.coefficients, 0, 1, 1);
    EdgeIdctSumFrame(t, q, b1.coefficients, b2.coefficients, 0, 8, 1);
  }

  /** The wrap of `predict_or_unpredict_dc`: a value more than m below 0 is moved up
      by 2m+1, then a value more than m above 0 is moved down by 2m+1. */
  function WrapDc(v: int, m: int): int
  {
    var r := if v < -m then v + (2 * m + 1) else v;
    if r > m then r - (2 * m + 1) else r
  }

  /** On the range the coefficients come from, at most one adjustment fires, the
      predicted residual stays within +-m, and unpredicting gives the original back. */
  lemma WrapDcRoundTrip(c: int, p: int, m: int)
    requires -m <= c <= m && -m <= p <= m
    ensures -m <= WrapDc(c - p, m) <= m
    ensures c - p < -m ==> WrapDc(c - p, m) == c - p + (2 * m + 1)
    ensures c - p > m ==> WrapDc(c - p, m) == c - p - (2 * m + 1)
    ensures WrapDc(WrapDc(c - p, m) + p, m) == c
  {
  }

  /** `predict_or_unpredict_dc` */
  function PredictOrUnpredictDc(t: Tables, q: seq<nat>, b: Block, recoverOriginal: bool): (r: int)
    requires WellFormed(t) && Quantization(q) && BlockOk(b)
    ensures Abs(b.coefficients[0]) <= MaxDc(q[0]) ==> Abs(r) <= MaxDc(q[0])
  {
    var m := MaxDc(q[0]);
    var p := PredictDcDct(t, q, b);
    WrapDcRange(b.coefficients[0] + (if recoverOriginal then p else -p), m);
    WrapDc(b.coefficients[0] + (if recoverOriginal then p else -p), m)
  }

  /** Anything within +-2m wraps into +-m. */
  lemma WrapDcRange(v: int, m: int)
    requires m >= 0
    ensures -2 * m <= v <= 2 * m ==> Abs(WrapDc(v, m)) <= m
  {
  }

  /** The block with its DC replaced. */
  function WithDc(b: Block, dc: int): (r: Block)
    requires |b.coefficients| == 64
    ensures SameButAt(b, r, 0) && r.coefficients[0] == dc
  {
    b.(coefficients := b.coefficients[0 := dc])
  }

  /** Predicting a legal DC and unpredicting the result in the same neighbourhood
      gives the DC back. */
  lemma {:induction false} DcRoundTrip(t: Tables, q: seq<nat>, b: Block)
    requires WellFormed(t) && Quantization(q) && BlockOk(b)
    requires Abs(b.coefficients[0]) <= MaxDc(q[0])
    ensures var f := PredictOrUnpredictDc(t, q, b, false);
      Abs(f) <= MaxDc(q[0]) && PredictOrUnpredictDc(t, q, WithDc(b, f), true) == b.coefficients[0]
  {
    var m := MaxDc(q[0]);
    var c := b.coefficients[0];
    var p := PredictDcDct(t, q, b);
    var f := PredictOrUnpredictDc(t, q, b, false);
    assert f == WrapDc(c + -p, m);
    WrapDcRoundTrip(c, p, m);
    var b' := WithDc(b, f);
    assert Int16(f);
    assert Coefficients(b'.coefficients);
    PredictDcIgnoresDc(t, q, b, b');
    assert PredictOrUnpredictDc(t, q, b', true) == WrapDc(f + p, m);
  }

  // ----- Neighbour averages -----

  /** The magnitude of a neighbour's coefficient at `band`, 0 when it is absent. */
  function Magnitude(n: Option<Neighbor>, band: nat): nat
    requires NeighborOk(n) && band < 64
  {
    if n.Some? then Abs(n.value.coefficients[band]) else 0
  }

  /** A neighbour's weight, 0 when it is absent. */
  function WeightIf(n: Option<Neighbor>, w: nat): nat
  {
    if n.Some? then w else 0
  }

  /** `(total + weights / 2) / weights` with the weight forced to 1 when it is 0. */
  function Average(total: nat, weights: nat): nat
  {
    var w := if weights == 0 then 1 else weights;
    (total + w / 2) / w
  }

  /** The largest magnitude at `band` among the present neighbours, 0 if none. */
  function Largest(b: Block, band: nat): nat
    requires BlockOk(b) && band < 64
  {
    Max(Magnitude(b.aboveLeft, band), Max(Magnitude(b.above, band), Magnitude(b.left, band)))
  }

  /** The rounded weighted average of the present neighbours' magnitudes at `band`
      with the weights w: never above the largest of them, 0 without neighbours. */
  function NeighborAverage(b: Block, band: nat, w: Weights): (r: nat)
    requires BlockOk(b) && band < 64
    ensures r <= Largest(b, band)
    ensures b.left.None? && b.above.None? && b.aboveLeft.None? ==> r == 0
  {
    var w1, w2, w3 := WeightIf(b.aboveLeft, w.aboveLeft), WeightIf(b.above, w.above), WeightIf(b.left, w.left);
    var m1, m2, m3 := Magnitude(b.aboveLeft, band), Magnitude(b.above, band), Magnitude(b.left, band);
    WeightedAverageBound(w1, m1, w2, m2, w3, m3, Largest(b, band));
    assert b.left.None? && b.above.None? && b.aboveLeft.None? ==> w1 == w2 == w3 == 0;
    Average(WeightedSum(w1, m1, w2, m2, w3, m3), w1 + w2 + w3)
  }

  /** The weighted total of the magnitudes. */
  function WeightedSum(w1: nat, m1: nat, w2: nat, m2: nat, w3: nat, m3: nat): nat
  {
    w1 * m1 + w2 * m2 + w3 * m3
  }

  lemma WeightedAverageBound(w1: nat, m1: nat, w2: nat, m2: nat, w3: nat, m3: nat, m: nat)
    requires m1 <= m && m2 <= m && m3 <= m
    ensures Average(WeightedSum(w1, m1, w2, m2, w3, m3), w1 + w2 + w3) <= m
  {
    var total, weights := WeightedSum(w1, m1, w2, m2, w3, m3), w1 + w2 + w3;
    WeightedSumBound(w1, m1, w2, m2, w3, m3, m);
    AverageBound(total, weights, m);
  }

  lemma WeightedSumBound(w1: nat, m1: nat, w2: nat, m2: nat, w3: nat, m3: nat, m: nat)
    requires m1 <= m && m2 <= m && m3 <= m
    ensures WeightedSum(w1, m1, w2, m2, w3, m3) <= (w1 + w2 + w3) * m
  {
    MulMonotone(m1, m, w1);
    MulMonotone(m2, m, w2);
    MulMonotone(m3, m, w3);
    assert (w1 + w2 + w3) * m == m * w1 + m * w2 + m * w3;
  }

  /** A rounded average of values at most m is at most m. */
  lemma AverageBound(total: nat, weights: nat, m: nat)
    requires total <= weights * m
    ensures Average(total, weights) <= m
  {
    if weights > 0 {
      assert (m + 1) * weights == m * weights + weights;
      DivAtLeast(total + weights / 2, weights, m + 1);
    }
  }

  /** A rounded average of a total of `weights` copies of m is m: the rounding never
      moves it. */
  lemma AverageOfEqual(total: nat, weights: nat, m: nat)
    requires weights > 0 && total == weights * m
    ensures Average(total, weights) == m
  {
    DivModUnique(total + weights / 2, weights, m, weights / 2);
  }

  /** `compute_aavrg_dc`: the luma weights of entry 0 over the neighbours' DCs. */
  function ComputeAavrgDc(t: Tables, b: Block): (r: nat)
    requires WellFormed(t) && BlockOk(b)
    ensures r <= Largest(b, 0)
    ensures b.left.None? && b.above.None? && b.aboveLeft.None? ==> r == 0
  {
    NeighborAverage(b, 0, t.weightsLum[0])
  }

  /** `compute_aavrg`: the weights of the band's zig-zag entry, chroma weights for
      every nonzero component. */
  function ComputeAavrg(t: Tables, component: nat, b: Block, band: nat): (r: nat)
    requires WellFormed(t) && BlockOk(b) && band < 64
    ensures r <= Largest(b, band)
    ensures b.left.None? && b.above.None? && b.aboveLeft.None? ==> r == 0
  {
    if band == 0 then ComputeAavrgDc(t, b)
    else NeighborAverage(b, band, (if component != 0 then t.weightsChr else t.weightsLum)[Zigzag(band)])
  }

  /** The weights `compute_aavrg` applies at `band` (the ones `ComputeAavrg` reads):
      entry 0 of the luma table for the DC, otherwise the band's zig-zag entry of the chroma table for a nonzero
      component and of the luma table for component 0. */
  function AavrgWeights(t: Tables, component: nat, band: nat): Weights
    requires WellFormed(t) && band < 64
  {
    if band == 0 then t.weightsLum[0]
    else (if component != 0 then t.weightsChr else t.weightsLum)[Zigzag(band)]
  }

  /** Every present neighbour has magnitude m at `band`. */
  predicate NeighborsEqual(b: Block, band: nat, m: nat)
    requires BlockOk(b) && band < 64
  {
    && (b.aboveLeft.Some? ==> Magnitude(b.aboveLeft, band) == m)
    && (b.above.Some? ==> Magnitude(b.above, band) == m)
    && (b.left.Some? ==> Magnitude(b.left, band) == m)
  }

  /** The weight the present neighbours carry together under w. */
  function PresentWeight(b: Block, w: Weights): nat
  {
    WeightIf(b.aboveLeft, w.aboveLeft) + WeightIf(b.above, w.above) + WeightIf(b.left, w.left)
  }

  /** When every present neighbour has the same magnitude m at `band` and they carry
      some weight, the rounded weighted average is exactly m. */
  lemma NeighborAverageOfEqual(b: Block, band: nat, w: Weights, m: nat)
    requires BlockOk(b) && band < 64
    requires NeighborsEqual(b, band, m) && PresentWeight(b, w) > 0
    ensures NeighborAverage(b, band, w) == m
  {
    var w1, w2, w3 := WeightIf(b.aboveLeft, w.aboveLeft), WeightIf(b.above, w.above), WeightIf(b.left, w.left);
    var m1, m2, m3 := Magnitude(b.aboveLeft, band), Magnitude(b.above, band), Magnitude(b.left, band);
    assert w1 * m1 == w1 * m && w2 * m2 == w2 * m && w3 * m3 == w3 * m;
    assert WeightedSum(w1, m1, w2, m2, w3, m3) == (w1 + w2 + w3) * m;
    AverageOfEqual(WeightedSum(w1, m1, w2, m2, w3, m3), w1 + w2 + w3, m);
  }

  /** `compute_aavrg` (and `compute_aavrg_dc` for band 0) of a block whose present
      neighbours agree on the magnitude m at `band`, with some weight among them, is m. */
  lemma ComputeAavrgOfEqual(t: Tables, component: nat, b: Block, band: nat, m: nat)
    requires WellFormed(t) && BlockOk(b) && band < 64
    requires NeighborsEqual(b, band, m) && PresentWeight(b, AavrgWeights(t, component, band)) > 0
    ensures ComputeAavrg(t, component, b, band) == m
    ensures band == 0 ==> ComputeAavrgDc(t, b) == m
  {
    NeighborAverageOfEqual(b, band, AavrgWeights(t, component, band), m);
  }

  // ----- Edge predictor -----

  /** Terms i..7 of the sum in `compute_lak`: for i >= 1 the current block's and the
      neighbour's coefficient at band + step*i, with alternating sign, weighted by the
      dequantized cosine. */
  function LakSum(t: Tables, q: seq<nat>, x: seq<int>, a: seq<int>, band: nat, step: nat, i: nat): int
    requires WellFormed(t) && Quantization(q) && |x| == 64 && |a| == 64
    requires 1 <= i <= 8 && band + step * 7 < 64
    decreases 8 - i
  {
    if i == 8 then 0
    else LakTerm(t, q, x[Lane(band, step, i)], a[Lane(band, step, i)], Lane(band, step, i), i) + LakSum(t, q, x, a, band, step, i + 1)
  }

  /** The j-th coefficient along an edge band's column (step 8) or row (step 1). */
  function Lane(band: nat, step: nat, j: nat): nat
  {
    band + step * j
  }

  /** One term: minus the dequantized cosine of frequency i times the current
      coefficient plus (i odd) or minus (i even) the neighbour's. */
  function LakTerm(t: Tables, q: seq<nat>, x: int, a: int, cur: nat, i: nat): int
    requires WellFormed(t) && Quantization(q) && cur < 64 && i < 8
  {
    var sign := if i % 2 == 1 then 1 else -1;
    -(t.icosBase[i * 8] * q[cur] * (x + sign * a))
  }

  /** The sum reads the current block only at band + step*i', i' >= i. */
  lemma {:induction false} LakSumFrame(t: Tables, q: seq<nat>, x1: seq<int>, x2: seq<int>, a: seq<int>, band: nat, step: nat, i: nat)
    requires WellFormed(t) && Quantization(q) && |x1| == 64 && |x2| == 64 && |a| == 64
    requires 1 <= i <= 8 && band + step * 7 < 64
    requires forall j :: i <= j < 8 ==> x1[Lane(band, step, j)] == x2[Lane(band, step, j)]
    ensures LakSum(t, q, x1, a, band, step, i) == LakSum(t, q, x2, a, band, step, i)
    decreases 8 - i
  {
    if i < 8 {
      assert x1[Lane(band, step, i)] == x2[Lane(band, step, i)];
      LakSumFrame(t, q, x1, x2, a, band, step, i + 1);
    }
  }

  /** `coef_idct[0]`: the DC cosine dequantized by the band's quantizer, positive. */
  function DcCosine(t: Tables, q: seq<nat>, band: nat): (d: int)
    requires WellFormed(t) && Quantization(q) && band < 64
    ensures d > 0
  {
    MulPositive(t.icosBase[0], q[band]);
    t.icosBase[0] * q[band]
  }

  /** The prediction from one neighbour: the sum rounded half away from zero, divided
      (truncating) by the dequantized DC cosine, plus the neighbour's own coefficient. */
  function LakFrom(t: Tables, q: seq<nat>, x: seq<int>, a: seq<int>, band: nat, step: nat): int
    requires WellFormed(t) && Quantization(q) && |x| == 64 && |a| == 64 && band + step * 7 < 64
  {
    var d0 := DcCosine(t, q, band);
    var p := LakSum(t, q, x, a, band, step, 1);
    var rounded := if p > 0 then p + TruncDiv(d0, 2) else p - TruncDiv(d0, 2);
    TruncDiv(rounded, d0) + a[band]
  }

  /** `compute_lak` for an edge band: a row-0 band is predicted from the block above
      (step 8, down its column), a column-0 band from the block to the left (step 1,
      along its row); without that neighbour the prediction is 0. */
  function ComputeLak(t: Tables, q: seq<nat>, b: Block, band: nat): (r: int)
    requires WellFormed(t) && Quantization(q) && BlockOk(b)
    requires band < 64 && (band < 8 || band % 8 == 0)
    ensures band % 8 != 0 && b.above.None? ==> r == 0
    ensures band % 8 == 0 && b.left.None? ==> r == 0
  {
    if band % 8 != 0 && b.above.Some? then LakFrom(t, q, b.coefficients, b.above.value.coefficients, band, 8)
    else if band % 8 == 0 && b.left.Some? then LakFrom(t, q, b.coefficients, b.left.value.coefficients, band, 1)
    else 0
  }

  /** `compute_lak` as the source runs it: the prediction accumulated lane by lane,
      then rounded, divided and offset by the neighbour's coefficient. */
  method ComputeLakByLanes(t: Tables, q: seq<nat>, b: Block, band: nat) returns (r: int)
    requires WellFormed(t) && Quantization(q) && BlockOk(b)
    requires band < 64 && (band < 8 || band % 8 == 0)
    ensures r == ComputeLak(t, q, b, band)
  {
    var step: nat, a: seq<int>;
    if band % 8 != 0 && b.above.Some? {
      step, a := 8, b.above.value.coefficients;
    } else if band % 8 == 0 && b.left.Some? {
      step, a := 1, b.left.value.coefficients;
    } else {
      return 0;
    }
    r := LakFromLanes(t, q, b.coefficients, a, band, step);
  }

  /** The prediction from one neighbour, summed lane by lane. */
  method LakFromLanes(t: Tables, q: seq<nat>, x: seq<int>, a: seq<int>, band: nat, step: nat) returns (r: int)
    requires WellFormed(t) && Quantization(q) && |x| == 64 && |a| == 64
    requires (step == 1 || step == 8) && band + step * 7 < 64
    ensures r == LakFrom(t, q, x, a, band, step)
  {
    var prediction := SumLanes(t, q, x, a, band, step);
    var d0 := DcCosine(t, q, band);
    var rounded := if prediction > 0 then prediction + TruncDiv(d0, 2) else prediction - TruncDiv(d0, 2);
    r := TruncDiv(rounded, d0) + a[band];
  }

  /** The loop of `compute_lak` over lanes 1..7. */
  method SumLanes(t: Tables, q: seq<nat>, x: seq<int>, a: seq<int>, band: nat, step: nat) returns (prediction: int)
    requires WellFormed(t) && Quantization(q) && |x| == 64 && |a| == 64
    requires (step == 1 || step == 8) && band + step * 7 < 64
    ensures prediction == LakSum(t, q, x, a, band, step, 1)
  {
    prediction := 0;
    var i := 1;
    while i < 8
      invariant 1 <= i <= 8
      invariant prediction + LakSum(t, q, x, a, band, step, i) == LakSum(t, q, x, a, band, step, 1)
    {
      var cur := Lane(band, step, i);
      assert cur < 64 by {
        if step == 1 {
          assert cur == band + i;
        } else {
          assert cur == band + 8 * i;
        }
      }
      prediction := prediction + LakTerm(t, q, x[cur], a[cur], cur, i);
      i := i + 1;
    }
  }

  /** The edge prediction reads only interior coefficients of the current block (those
      are coded before the edges), in particular never the coefficient at `band`. */
  lemma LakReadsOnlyInterior(t: Tables, q: seq<nat>, b1: Block, b2: Block, band: nat)
    requires WellFormed(t) && Quantization(q) && BlockOk(b1) && BlockOk(b2) && IsEdge(band)
    requires SameInterior(b1, b2)
    ensures ComputeLak(t, q, b1, band) == ComputeLak(t, q, b2, band)
  {
    if band % 8 != 0 && b1.above.Some? {
      forall j | 1 <= j < 8
        ensures b1.coefficients[Lane(band, 8, j)] == b2.coefficients[Lane(band, 8, j)]
      {
        LaneInterior(band, j);
      }
      LakFromFrame(t, q, b1.coefficients, b2.coefficients, b1.above.value.coefficients, band, 8);
    } else if band % 8 == 0 && b1.left.Some? {
      forall j | 1 <= j < 8
        ensures b1.coefficients[Lane(band, 1, j)] == b2.coefficients[Lane(band, 1, j)]
      {
        LaneInterior(band, j);
      }
      LakFromFrame(t, q, b1.coefficients, b2.coefficients, b1.left.value.coefficients, band, 1);
    }
  }

  lemma LakFromFrame(t: Tables, q: seq<nat>, x1: seq<int>, x2: seq<int>, a: seq<int>, band: nat, step: nat)
    requires WellFormed(t) && Quantization(q) && |x1| == 64 && |x2| == 64 && |a| == 64 && band + step * 7 < 64
    requires forall j :: 1 <= j < 8 ==> x1[Lane(band, step, j)] == x2[Lane(band, step, j)]
    ensures LakFrom(t, q, x1, a, band, step) == LakFrom(t, q, x2, a, band, step)
  {
    LakSumFrame(t, q, x1, x2, a, band, step, 1);
  }

  /** Lanes 1..7 of an edge band's column (row-0 band) or row (column-0 band) lie
      in the interior. */
  lemma LaneInterior(band: nat, j: nat)
    requires IsEdge(band) && 1 <= j < 8
    ensures band % 8 != 0 ==> IsInterior(band + 8 * j)
    ensures band % 8 == 0 ==> IsInterior(band + j)
  {
    if band % 8 != 0 {
      DivModUnique(band + 8 * j, 8, j, band);
    } else {
      DivModUnique(band + j, 8, band / 8, j);
    }
  }


  /** `get_max_value`: the largest magnitude a quantized coefficient at raster
      position `coord` can have, ceil(freqmax / quantizer) in zig-zag terms. */
  function GetMaxValue(q: seq<nat>, coord: nat): (r: nat)
    requires Quantization(q) && coord < 64
    ensures 1 <= r <= 1024
  {
    var f, d := Freqmax(Zigzag(coord)), q[coord];
    MaxValueBound(f, d);
    CeilDiv(f, d)
  }

  /** The largest magnitude is the least r with r times the quantizer reaching
      `freqmax`. */
  lemma GetMaxValueIsCeiling(q: seq<nat>, coord: nat)
    requires Quantization(q) && coord < 64
    ensures GetMaxValue(q, coord) * q[coord] >= Freqmax(Zigzag(coord)) > (GetMaxValue(q, coord) - 1) * q[coord]
  {
    CeilDivBounds(Freqmax(Zigzag(coord)), q[coord]);
  }

  lemma MaxValueBound(f: nat, d: nat)
    requires 1 <= f <= 1024 && d >= 1
    ensures 1 <= CeilDiv(f, d) <= 1024
  {
    var r := CeilDiv(f, d);
    CeilDivBounds(f, d);
    if r > 1024 {
      MulMonotone(1024, r - 1, d);
    }
  }

  /** `freqmax` of `get_max_value`: the largest magnitude of an 8-bit DCT coefficient
      before quantization, indexed by zig-zag position. */
  function Freqmax(zz: nat): (r: nat)
    requires zz < 64
    ensures 837 <= r <= 1024
  {
    if zz == 0 then 1024 else if zz == 1 then 931 else if zz == 2 then 932 else if zz == 3 then 985 else
    if zz == 4 then 858 else if zz == 5 then 985 else if zz == 6 then 968 else if zz == 7 then 884 else
    if zz == 8 then 884 else if zz == 9 then 967 else if zz == 10 then 1020 else if zz == 11 then 841 else
    if zz == 12 then 871 else if zz == 13 then 840 else if zz == 14 then 1020 else if zz == 15 then 968 else
    if zz == 16 then 932 else if zz == 17 then 875 else if zz == 18 then 876 else if zz == 19 then 932 else
    if zz == 20 then 969 else if zz == 21 then 1020 else if zz == 22 then 838 else if zz == 23 then 985 else
    if zz == 24 then 844 else if zz == 25 then 985 else if zz == 26 then 838 else if zz == 27 then 1020 else
    if zz == 28 then 1020 else if zz == 29 then 854 else if zz == 30 then 878 else if zz == 31 then 967 else
    if zz == 32 then 967 else if zz == 33 then 878 else if zz == 34 then 854 else if zz == 35 then 1020 else
    if zz == 36 then 854 else if zz == 37 then 871 else if zz == 38 then 886 else if zz == 39 then 1020 else
    if zz == 40 then 886 else if zz == 41 then 871 else if zz == 42 then 854 else if zz == 43 then 854 else
    if zz == 44 then 870 else if zz == 45 then 969 else if zz == 46 then 969 else if zz == 47 then 870 else
    if zz == 48 then 854 else if zz == 49 then 838 else if zz == 50 then 1010 else if zz == 51 then 838 else
    if zz == 52 then 1020 else if zz == 53 then 837 else if zz == 54 then 1020 else if zz == 55 then 969 else
    if zz == 56 then 969 else if zz == 57 then 1020 else if zz == 58 then 838 else if zz == 59 then 1020 else
    if zz == 60 then 838 else if zz == 61 then 1020 else if zz == 62 then 1020 else 838
  }

  // ----- Address functions that use the predictors -----

  /** `exponent_array_x`: the [4][8] sub-array for an edge coefficient's exponent bits,
      chosen by band, remaining edge count and the bit length of the edge prediction. */
  function ExponentArrayX(t: Tables, q: seq<nat>, b: Block, band: nat, numNonzerosX: nat): (k: Key)
    requires WellFormed(t) && Quantization(q) && BlockOk(b) && IsEdge(band) && numNonzerosX < NUM_NONZEROS_BINS
    ensures k.table == ExponentX && |k.index| == 4 && Addresses(k)
  {
    Key(ExponentX, [Cls(b.blockType), EdgeBand(band), numNonzerosX, ExpLen(Abs(ComputeLak(t, q, b, band)))])
  }

  /** `exponent_array_7x7`: for the DC the [4][8] sub-array of `exponent_counts_dc_`,
      for an interior band the one of `exponent_counts_`, chosen by the count bin and
      the bit length of the neighbour average. */
  function ExponentArray7x7(t: Tables, b: Block, band: nat, numNonzeros: nat): (k: Key)
    requires WellFormed(t) && BlockOk(b) && (band == 0 || IsInterior(band)) && numNonzeros < 50
    ensures k.table == (if band == 0 then ExponentDC else Exponent7x7)
    ensures |k.index| == 4 && Addresses(k)
  {
    var e := ExpLen(Abs(ComputeAavrg(t, b.blockType, b, band)));
    if band == 0 then Key(ExponentDC, [Cls(b.blockType), 0, Bin(t, numNonzeros), e])
    else Key(Exponent7x7, [Cls(b.blockType), InteriorBand(band), Bin(t, numNonzeros), e])
  }

  /** `residual_noise_array_shared`: the [10] row of noise bits for a band and count. */
  function ResidualNoiseArrayShared(blockType: nat, band: nat, numNonzeros: nat): (k: Key)
    requires band < 64 && numNonzeros < NUM_NONZEROS_BINS
    ensures k.table == ResidualNoise && |k.index| == 3 && Addresses(k)
  {
    Key(ResidualNoise, [Cls(blockType), band, numNonzeros])
  }

  /** `residual_noise_array_x`: an edge count is used as it is. */
  function ResidualNoiseArrayX(blockType: nat, band: nat, numNonzerosX: nat): (k: Key)
    requires band < 64 && numNonzerosX < NUM_NONZEROS_BINS
    ensures k.table == ResidualNoise && |k.index| == 3 && Addresses(k)
    ensures k.index[2] == numNonzerosX
  {
    ResidualNoiseArrayShared(blockType, band, numNonzerosX)
  }

  /** `residual_noise_array_7x7`: a 7x7 count goes through its bin first. */
  function ResidualNoiseArray7x7(t: Tables, blockType: nat, band: nat, numNonzeros: nat): (k: Key)
    requires WellFormed(t) && band < 64 && numNonzeros < 50
    ensures k.table == ResidualNoise && |k.index| == 3 && Addresses(k)
    ensures k.index[2] == Bin(t, numNonzeros)
  {
    ResidualNoiseArrayShared(blockType, band, Bin(t, numNonzeros))
  }

  /** `residual_thresh_array`: the [128] sub-array for the high residual bits of an edge
      coefficient, chosen by the edge prediction (capped below `maxValue` and shifted
      right by `minThreshold`) and by how far the exponent lies above `minThreshold`.
      Both indices fit their axes whenever `minThreshold` is the one the encoder derives
      from `maxValue` and the exponent does not exceed the bit length of `maxValue`. */
  function ResidualThreshArray(t: Tables, q: seq<nat>, b: Block, band: nat, curExponent: nat, minThreshold: nat, maxValue: nat): (k: Key)
    requires WellFormed(t) && Quantization(q) && BlockOk(b) && IsEdge(band)
    requires maxValue >= 1 && curExponent >= minThreshold
    ensures k.table == ResidualThreshold && |k.index| == 4
    ensures minThreshold == Max(0, BitLength(maxValue) - RESIDUAL_NOISE_FLOOR) && curExponent <= BitLength(maxValue)
      ==> Addresses(k) && k.index[2] < 128
  {
    ThreshKey(Cls(b.blockType), band, Abs(ComputeLak(t, q, b, band)), curExponent, minThreshold, maxValue)
  }

  /** The threshold sub-array for a class, band and edge-prediction magnitude. */
  function ThreshKey(cls: nat, band: nat, lak: nat, curExponent: nat, minThreshold: nat, maxValue: nat): (k: Key)
    requires cls < BLOCK_TYPES && band < 64 && maxValue >= 1 && curExponent >= minThreshold
    ensures k.table == ResidualThreshold && |k.index| == 4
    ensures minThreshold == Max(0, BitLength(maxValue) - RESIDUAL_NOISE_FLOOR) && curExponent <= BitLength(maxValue)
      ==> Addresses(k) && k.index[2] < 128
  {
    var capped := Min(lak, maxValue - 1);
    var k := Key(ResidualThreshold, [cls, band, ShiftRight(capped, minThreshold), curExponent - minThreshold]);
    if minThreshold == Max(0, BitLength(maxValue) - RESIDUAL_NOISE_FLOOR) && curExponent <= BitLength(maxValue) then
      ThreshIndexBound(capped, minThreshold, maxValue);
      k
    else k
  }

  /** A value below `maxValue`, shifted right by the encoder's threshold, is below 128. */
  lemma ThreshIndexBound(capped: nat, minThreshold: nat, maxValue: nat)
    requires maxValue >= 1 && capped <= maxValue - 1
    requires minThreshold == Max(0, BitLength(maxValue) - RESIDUAL_NOISE_FLOOR)
    ensures ShiftRight(capped, minThreshold) < 128
    ensures Pow2(RESIDUAL_NOISE_FLOOR) == 128 && Pow2(1 + RESIDUAL_NOISE_FLOOR) == 256
  {
    var rest := BitLength(maxValue) - minThreshold;
    Pow2Monotone(rest, 7);
    assert Pow2(7) == 128;
    ShiftBelowPow2(capped, minThreshold, rest);
    assert Pow2(RESIDUAL_NOISE_FLOOR) == 128;
    assert Pow2(1 + RESIDUAL_NOISE_FLOOR) == 256;
  }

  /** The sign of an int16 neighbour coefficient as a context digit: 0 zero, 1
      positive, 2 negative. */
  function SignDigit(v: int): (d: nat)
    ensures d < 3 && (d == 0 <==> v == 0) && (d == 1 <==> v > 0)
  {
    if v < 0 then 2 else if v > 0 then 1 else 0
  }

  /** `sign_array`: the Branch for a sign bit. The DC uses (0, 0); an edge band uses
      the sign and exponent of its edge prediction, the exponent shifted by one so that
      it never meets the DC's slot; an interior band uses the signs of the left (units)
      and above (threes) neighbours at the same band. */
  function SignArray(t: Tables, q: seq<nat>, b: Block, band: nat): (k: Key)
    requires WellFormed(t) && Quantization(q) && BlockOk(b) && band < 64
    ensures k.table == Sign && InBounds(k) && k.index[1] == band
    ensures band == 0 ==> k.index[2] == 0 && k.index[3] == 0
    ensures IsEdge(band) ==> k.index[2] < 3 && 1 <= k.index[3] <= 11
    ensures IsInterior(band) ==> k.index[2] == 0 && k.index[3] <= 8
  {
    var k :=
      if band == 0 then Key(Sign, [Cls(b.blockType), band, 0, 0])
      else if band < 8 || band % 8 == 0 then
        var v := ToInt16(ComputeLak(t, q, b, band));
        var d, e := SignDigit(v), ExpLen(Abs(v)) + 1;
        Key(Sign, [Cls(b.blockType), band, d, e])
      else
        var l := if b.left.Some? then SignDigit(b.left.value.coefficients[band]) else 0;
        var a := if b.above.Some? then SignDigit(b.above.value.coefficients[band]) else 0;
        Key(Sign, [Cls(b.blockType), band, 0, l + 3 * a]);
    SignInBounds(k);
    k
  }

  lemma SignInBounds(k: Key)
    requires k.table == Sign && |k.index| == 4
    requires k.index[0] < BLOCK_TYPES && k.index[1] < 64 && k.index[2] < 4 && k.index[3] < 12
    ensures InBounds(k)
  {
  }

  /** No context function reads the coefficient it selects a Branch for: the sign
      context, */
  lemma SignIgnoresOwnCoefficient(t: Tables, q: seq<nat>, b1: Block, b2: Block, band: nat)
    requires WellFormed(t) && Quantization(q) && BlockOk(b1) && BlockOk(b2) && band < 64
    requires SameButAt(b1, b2, band)
    ensures SignArray(t, q, b1, band) == SignArray(t, q, b2, band)
  {
    if IsEdge(band) {
      SameButAtEdge(b1, b2, band);
      SignEdgeReadsOnlyInterior(t, q, b1, b2, band);
    }
  }

  /** The sign context of an edge band reads only the interior of its block. */
  lemma SignEdgeReadsOnlyInterior(t: Tables, q: seq<nat>, b1: Block, b2: Block, band: nat)
    requires WellFormed(t) && Quantization(q) && BlockOk(b1) && BlockOk(b2) && IsEdge(band)
    requires SameInterior(b1, b2)
    ensures SignArray(t, q, b1, band) == SignArray(t, q, b2, band)
  {
    LakReadsOnlyInterior(t, q, b1, b2, band);
  }

  /** the exponent contexts, */
  lemma ExponentIgnoresOwnCoefficient(t: Tables, q: seq<nat>, b1: Block, b2: Block, band: nat, n: nat)
    requires WellFormed(t) && Quantization(q) && BlockOk(b1) && BlockOk(b2) && band < 64
    requires SameButAt(b1, b2, band)
    ensures IsEdge(band) && n < NUM_NONZEROS_BINS ==>
      ExponentArrayX(t, q, b1, band, n) == ExponentArrayX(t, q, b2, band, n)
    ensures (band == 0 || IsInterior(band)) && n < 50 ==>
      ExponentArray7x7(t, b1, band, n) == ExponentArray7x7(t, b2, band, n)
  {
    if IsEdge(band) {
      SameButAtEdge(b1, b2, band);
      LakReadsOnlyInterior(t, q, b1, b2, band);
    } else {
      AavrgReadsOnlyNeighbors(t, b1, b2, band);
    }
  }

  /** The neighbour average reads the neighbours and nothing of the block itself. */
  lemma AavrgReadsOnlyNeighbors(t: Tables, b1: Block, b2: Block, band: nat)
    requires WellFormed(t) && BlockOk(b1) && BlockOk(b2) && band < 64
    requires b1.left == b2.left && b1.above == b2.above && b1.aboveLeft == b2.aboveLeft
    ensures ComputeAavrg(t, b1.blockType, b1, band) == ComputeAavrg(t, b1.blockType, b2, band)
  {
  }

  /** and the threshold context. */
  lemma ThreshIgnoresOwnCoefficient(t: Tables, q: seq<nat>, b1: Block, b2: Block, band: nat, e: nat, m: nat, v: nat)
    requires WellFormed(t) && Quantization(q) && BlockOk(b1) && BlockOk(b2) && IsEdge(band)
    requires SameButAt(b1, b2, band) && v >= 1 && e >= m
    ensures ResidualThreshArray(t, q, b1, band, e, m, v) == ResidualThreshArray(t, q, b2, band, e, m, v)
  {
    SameButAtEdge(b1, b2, band);
    LakReadsOnlyInterior(t, q, b1, b2, band);
  }
}
