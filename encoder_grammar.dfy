/** The token grammar of `Block::serialize_tokens` (encoder.cc): which decisions a
    block is coded as, in which order, and with which Branch of the Model. A
    decision is a Branch address and a bit; the coder itself is not part of the
    grammar. The functions here are the specification the imperative encoder is
    proved against, and `ReadCoefficient` shows that the bits of each coefficient
    alone give the coefficient back. */
module EncoderGrammar {
  import opened Numeric
  import opened Model
  import opened Contexts

  /** One call of `VP8BoolEncoder::put`: the Branch it names and the bit it codes. */
  datatype Decision = Decision(key: Key, bit: bool)

  /** The bits of a decision sequence. */
  function Bits(ds: seq<Decision>): (r: seq<bool>)
    ensures |r| == |ds| && forall i :: 0 <= i < |ds| ==> r[i] == ds[i].bit
  {
    seq(|ds|, i requires 0 <= i < |ds| => ds[i].bit)
  }

  lemma BitsAppend(a: seq<Decision>, b: seq<Decision>)
    ensures Bits(a + b) == Bits(a) + Bits(b)
  {
  }

  /** Every decision names a Branch inside the Model. */
  predicate AllInBounds(ds: seq<Decision>)
  {
    forall i :: 0 <= i < |ds| ==> InBounds(ds[i].key)
  }

  lemma AllInBoundsAppend(a: seq<Decision>, b: seq<Decision>)
    requires AllInBounds(a) && AllInBounds(b)
    ensures AllInBounds(a + b)
  {
    assert forall i :: |a| <= i < |a + b| ==> (a + b)[i] == b[i - |a|];
  }

  lemma AllInBoundsParts(a: seq<Decision>, b: seq<Decision>)
    requires AllInBounds(a + b)
    ensures AllInBounds(a) && AllInBounds(b)
  {
    assert forall i :: 0 <= i < |a| ==> (a + b)[i] == a[i];
    assert forall i :: 0 <= i < |b| ==> (a + b)[|a| + i] == b[i];
  }

  /** Solver helper, not a property of the coder: regrouping six parts appended one
      after the other. */
  lemma RegroupSix(start: seq<Decision>, a: seq<Decision>, b: seq<Decision>, c: seq<Decision>, d: seq<Decision>, e: seq<Decision>, f: seq<Decision>)
    ensures start + (a + b + c + d + e + f) == start + a + b + c + d + e + f
  {
  }

  /** Solver helper, not a property of the coder: regrouping two parts appended one
      after the other. */
  lemma RegroupTwo(start: seq<Decision>, a: seq<Decision>, b: seq<Decision>)
    ensures start + a + b == start + (a + b)
  {
  }

  // ----- Exponents and coefficients -----

  /** `prefix_remap` on a uint8_t: 0 stays 0 and every other length moves up by 3
      (wrapping modulo 256, which no coded length reaches). */
  function PrefixRemap(v: nat): (r: nat)
    requires v < 256
    ensures r < 256
  {
    if v == 0 then 0 else (v + 3) % 256
  }

  /** A length is remapped to 0 exactly when it is 0, and a length from 1 to 12 to a
      4-bit value of at least 4: its first two bits are never both clear, so two
      clear bits identify length 0 without ambiguity. */
  lemma PrefixRemapRange(v: nat)
    requires v < 253
    ensures PrefixRemap(v) == 0 <==> v == 0
    ensures 1 <= v <= 12 ==> PrefixRemap(v) == v + 3 && 4 <= PrefixRemap(v) < 16
  {
  }

  /** The exponent bits of a coefficient of bit length `len`: the 4 bits of the
      remapped length, most significant first, cut after the second for length 0. */
  function ExponentBits(len: nat): (r: seq<bool>)
    requires len < 256
    ensures |r| <= 4
    ensures len == 0 ==> r == [false, false]
    ensures 0 < len <= 12 ==> |r| == 4 && MsbValue(r) == len + 3 && (r[0] || r[1])
  {
    var s := LowBits(PrefixRemap(len), 4);
    if len == 0 then
      assert s == [false, false, false, false];
      s[..2]
    else if len <= 12 then
      var m := PrefixRemap(len);
      assert m == len + 3;
      Pow2Table();
      LowBitsValue(m, 4);
      LowValueSmall(m, 4);
      MsbValueOfFour(s);
      assert MsbValue(s) == m;
      s
    else s
  }

  /** The value of four bits, most significant first. */
  lemma MsbValueOfFour(s: seq<bool>)
    requires |s| == 4
    ensures MsbValue(s) == 8 * (if s[0] then 1 else 0) + 4 * (if s[1] then 1 else 0)
      + 2 * (if s[2] then 1 else 0) + (if s[3] then 1 else 0)
  {
    var s3, s2, s1 := s[..3], s[..2], s[..1];
    assert s3[..2] == s2 && s2[..1] == s1 && s1[..0] == [];
    assert MsbValue(s1) == (if s[0] then 1 else 0);
    assert MsbValue(s2) == 2 * MsbValue(s1) + (if s[1] then 1 else 0);
    assert MsbValue(s3) == 2 * MsbValue(s2) + (if s[2] then 1 else 0);
    assert s[..|s| - 1] == s3;
  }

  /** Every int16_t has a bit length of at most 16. */
  lemma Int16BitLength(v: int)
    requires Int16(v)
    ensures BitLength(Abs(v)) <= 16
  {
    Pow2Table();
    BitLengthBelow(Abs(v), 16);
  }

  /** The bits one coefficient is coded as, in coding order: the exponent, the
      magnitude bits below the top one, and the sign (`coef >= 0`) of a nonzero. */
  function CoefBits(v: int): (r: seq<bool>)
    requires Int16(v)
  {
    var a := Abs(v);
    var len := BitLength(a);
    Int16BitLength(v);
    ExponentBits(len) + (if len > 1 then LowBits(a, len - 1) else []) + (if len != 0 then [v >= 0] else [])
  }

  /** A coefficient read back from the front of a bit string, and how many bits it took. */
  datatype Coefficient = Coefficient(value: int, used: nat)

  /** Reads one coefficient in the layout `CoefBits` writes: two clear bits are a
      zero; otherwise four exponent bits give the length, then come the magnitude
      bits below the top one and the sign. */
  function ReadCoefficient(bits: seq<bool>): (r: Option<Coefficient>)
    ensures r.Some? ==> 2 <= r.value.used <= |bits|
  {
    if |bits| < 2 then None
    else if !bits[0] && !bits[1] then Some(Coefficient(0, 2))
    else if |bits| < 4 then None
    else
      MsbValueOfFour(bits[..4]);
      var len: nat := MsbValue(bits[..4]) - 3;
      if |bits| < 4 + len then None
      else
        var mag := Pow2(len - 1) + MsbValue(bits[4..3 + len]);
        Some(Coefficient(if bits[3 + len] then mag else -mag, 4 + len))
  }

  /** Every coefficient of bit length at most 12 is read back from its bits, whatever
      follows them. */
  lemma CoefficientRoundTrip(v: int, rest: seq<bool>)
    requires Abs(v) < 4096
    ensures ReadCoefficient(CoefBits(v) + rest) == Some(Coefficient(v, |CoefBits(v)|))
  {
    if v == 0 {
      assert CoefBits(v) == [false, false];
    } else {
      NonzeroRoundTrip(v, rest);
    }
  }

  lemma NonzeroRoundTrip(v: int, rest: seq<bool>)
    requires Abs(v) < 4096 && v != 0
    ensures ReadCoefficient(CoefBits(v) + rest) == Some(Coefficient(v, |CoefBits(v)|))
  {
    var a := Abs(v);
    var len := BitLength(a);
    assert 0 < len <= 12 by {
      Pow2Table();
      BitLengthBelow(a, 12);
    }
    var e := ExponentBits(len);
    var m := LowBits(a, len - 1);
    assert CoefBits(v) == e + m + [v >= 0];
    MagnitudeFromBits(a, len);
    ReadNonzero(e, m, v >= 0, rest, len, v);
  }

  /** The magnitude bits below the top one, with the top one put back, are the magnitude. */
  lemma MagnitudeFromBits(a: nat, len: nat)
    requires len == BitLength(a) && len > 0
    ensures Pow2(len - 1) + MsbValue(LowBits(a, len - 1)) == a
  {
    LowBitsValue(a, len - 1);
    LowValueTop(a, len);
  }

  /** The reading of a nonzero coefficient from its four exponent bits, its
      magnitude bits and its sign. */
  lemma ReadNonzero(e: seq<bool>, m: seq<bool>, sign: bool, rest: seq<bool>, len: nat, value: int)
    requires |e| == 4 && MsbValue(e) == len + 3 && (e[0] || e[1]) && len >= 1 && |m| == len - 1
    requires value == if sign then Pow2(len - 1) + MsbValue(m) else -(Pow2(len - 1) + MsbValue(m))
    ensures ReadCoefficient(e + m + [sign] + rest) == Some(Coefficient(value, |e + m + [sign]|))
  {
    var bits := e + m + [sign] + rest;
    assert bits[..4] == e;
    assert bits[4..3 + len] == m;
    assert bits[3 + len] == sign;
  }

  // ----- The three shapes of coded bit runs -----

  /** Bits coded most significant first through a [rows][columns] sub-array: the j-th
      bit uses row `top - j` and the column holding the bits before it
      (`serialized_so_far`). The 7x7 count, the exponents and the edge counts are
      coded this way. */
  function TreeTokens(prefix: Key, bits: seq<bool>, top: nat): (r: seq<Decision>)
    requires |bits| <= top + 1
    ensures |r| == |bits|
  {
    seq(|bits|, j requires 0 <= j < |bits| => Decision(Extend(prefix, [top - j, MsbValue(bits[..j])]), bits[j]))
  }

  /** A tree run codes exactly its bits. */
  lemma TreeTokensBits(prefix: Key, bits: seq<bool>, top: nat)
    requires |bits| <= top + 1
    ensures Bits(TreeTokens(prefix, bits, top)) == bits
  {
  }

  /** Cutting the bits cuts the decisions: the keys of the first k bits depend
      only on those bits. */
  lemma TreeTokensPrefix(prefix: Key, bits: seq<bool>, top: nat, k: nat)
    requires |bits| <= top + 1 && k <= |bits|
    ensures TreeTokens(prefix, bits[..k], top) == TreeTokens(prefix, bits, top)[..k]
  {
    forall j | 0 <= j < k
      ensures bits[..k][..j] == bits[..j]
    {
    }
  }

  /** The j-th decision of a tree run over the low `width` bits of `v` codes bit
      `index = width - 1 - j` with the value `sofar` of the bits before it as the
      column, and shifting that bit into `sofar` gives the next column. */
  lemma TreeTokensAt(prefix: Key, v: nat, width: nat, top: nat, j: nat, index: nat, sofar: nat)
    requires width == top + 1 && j < width && index == width - 1 - j
    requires sofar == MsbValue(LowBits(v, width)[..j])
    ensures TreeTokens(prefix, LowBits(v, width), top)[j] == Decision(Extend(prefix, [index, sofar]), Bit(v, index))
    ensures MsbValue(LowBits(v, width)[..j + 1]) == 2 * sofar + (if Bit(v, index) then 1 else 0)
  {
    var bits := LowBits(v, width);
    LowBitsAt(v, width, j);
    assert bits[..j + 1][..j] == bits[..j];
  }

  /** A tree run stays inside the sub-array when the rows cover `top` and the
      columns cover every value of the bits before the last one. */
  lemma TreeInBounds(prefix: Key, bits: seq<bool>, top: nat)
    requires Addresses(prefix) && |prefix.index| + 2 == |Dims(prefix.table)|
    requires |bits| <= top + 1 && top < Dims(prefix.table)[|prefix.index|]
    requires Pow2(top) <= Dims(prefix.table)[|prefix.index| + 1]
    ensures AllInBounds(TreeTokens(prefix, bits, top))
  {
    var r := TreeTokens(prefix, bits, top);
    forall j | 0 <= j < |bits|
      ensures InBounds(r[j].key)
    {
      Pow2Monotone(j, top);
      ExtendInBounds(prefix, [top - j, MsbValue(bits[..j])]);
    }
  }

  /** Residual bits coded through a row indexed by bit position: the j-th of n bits
      is bit n-1-j and uses entry n-1-j (`res_prob.at(i)`). */
  function NoiseTokens(prefix: Key, bits: seq<bool>): (r: seq<Decision>)
    ensures |r| == |bits|
  {
    seq(|bits|, j requires 0 <= j < |bits| => Decision(Extend(prefix, [|bits| - 1 - j]), bits[j]))
  }

  /** A noise run codes exactly its bits. */
  lemma NoiseTokensBits(prefix: Key, bits: seq<bool>)
    ensures Bits(NoiseTokens(prefix, bits)) == bits
  {
  }

  /** The j-th decision of a noise run over the low `count` bits of `v` codes bit
      `index = count - 1 - j` through entry `index`. */
  lemma NoiseTokensAt(prefix: Key, v: nat, count: nat, j: nat, index: nat)
    requires j < count && index == count - 1 - j
    ensures NoiseTokens(prefix, LowBits(v, count))[j] == Decision(Extend(prefix, [index]), Bit(v, index))
  {
    LowBitsAt(v, count, j);
  }

  lemma NoiseInBounds(prefix: Key, bits: seq<bool>)
    requires Addresses(prefix) && |prefix.index| + 1 == |Dims(prefix.table)|
    requires |bits| <= Dims(prefix.table)[|prefix.index|]
    ensures AllInBounds(NoiseTokens(prefix, bits))
  {
    var r := NoiseTokens(prefix, bits);
    forall j | 0 <= j < |bits|
      ensures InBounds(r[j].key)
    {
      ExtendInBounds(prefix, [|bits| - 1 - j]);
    }
  }

  /** High residual bits coded through a row indexed by the bits so far behind a
      leading one (`encoded_so_far`, which starts at 1). */
  function ThreshTokens(prefix: Key, bits: seq<bool>): (r: seq<Decision>)
    ensures |r| == |bits|
  {
    seq(|bits|, j requires 0 <= j < |bits| => Decision(Extend(prefix, [MsbValue([true] + bits[..j])]), bits[j]))
  }

  /** A threshold run codes exactly its bits. */
  lemma ThreshTokensBits(prefix: Key, bits: seq<bool>)
    ensures Bits(ThreshTokens(prefix, bits)) == bits
  {
  }

  /** The j-th decision of a threshold run over bits `length - 2` down to `m` of `v`
      codes bit `index = length - 2 - j` with the value `sofar` of the bits before it
      behind a leading one as the entry, and shifting that bit into `sofar` gives the
      next entry. */
  lemma ThreshTokensAt(prefix: Key, v: nat, length: nat, m: nat, j: nat, index: nat, sofar: nat)
    requires m + 1 <= length && j < length - 1 - m && index == length - 2 - j
    requires sofar == MsbValue([true] + LowBits(ShiftRight(v, m), length - 1 - m)[..j])
    ensures ThreshTokens(prefix, LowBits(ShiftRight(v, m), length - 1 - m))[j] == Decision(Extend(prefix, [sofar]), Bit(v, index))
    ensures MsbValue([true] + LowBits(ShiftRight(v, m), length - 1 - m)[..j + 1]) == 2 * sofar + (if Bit(v, index) then 1 else 0)
  {
    var bits := LowBits(ShiftRight(v, m), length - 1 - m);
    LowBitsAt(ShiftRight(v, m), length - 1 - m, j);
    BitShift(v, m, length - 2 - j - m);
    assert ([true] + bits[..j + 1])[..j + 1] == [true] + bits[..j];
  }

  lemma ThreshInBounds(prefix: Key, bits: seq<bool>, width: nat)
    requires Addresses(prefix) && |prefix.index| + 1 == |Dims(prefix.table)|
    requires |bits| <= width && Pow2(width) <= Dims(prefix.table)[|prefix.index|]
    ensures AllInBounds(ThreshTokens(prefix, bits))
  {
    var r := ThreshTokens(prefix, bits);
    forall j | 0 <= j < |bits|
      ensures InBounds(r[j].key)
    {
      Pow2Monotone(j + 1, width);
      ExtendInBounds(prefix, [MsbValue([true] + bits[..j])]);
    }
  }

  // ----- One coefficient -----

  /** The magnitude bits of a coefficient below its top bit. */
  function ResidualBits(v: int): (r: seq<bool>)
  {
    var len := BitLength(Abs(v));
    if len > 1 then LowBits(Abs(v), len - 1) else []
  }

  /** The sign decision of a nonzero coefficient, `coef >= 0`; none for a zero. */
  function SignTokens(sign: Key, v: int): (r: seq<Decision>)
    ensures |r| <= 1
  {
    if v != 0 then [Decision(sign, v >= 0)] else []
  }

  /** One coefficient in coding order: the exponent through the [4][8] sub-array
      `exponent`, the residual decisions, and for a nonzero the sign (`coef >= 0`)
      through `sign`. */
  function CoefTokens(exponent: Key, residual: seq<Decision>, sign: Key, v: int): (r: seq<Decision>)
    requires Int16(v)
  {
    Int16BitLength(v);
    TreeTokens(exponent, ExponentBits(BitLength(Abs(v))), 3)
    + residual
    + SignTokens(sign, v)
  }

  /** Whatever the Branches, a coefficient whose residual decisions carry its
      residual bits is coded as the bits of `CoefBits`. */
  lemma CoefTokensBits(exponent: Key, residual: seq<Decision>, sign: Key, v: int)
    requires Int16(v) && Bits(residual) == ResidualBits(v)
    ensures Bits(CoefTokens(exponent, residual, sign, v)) == CoefBits(v)
  {
    Int16BitLength(v);
    var e := TreeTokens(exponent, ExponentBits(BitLength(Abs(v))), 3);
    TreeTokensBits(exponent, ExponentBits(BitLength(Abs(v))), 3);
    var s := SignTokens(sign, v);
    BitsAppend(e, residual);
    BitsAppend(e + residual, s);
  }

  /** The DC or an interior coefficient: exponent through `exponent_array_7x7`,
      residual bits through `residual_noise_array_7x7`, then the sign. `n` is the
      count the contexts see (`num_nonzeros_7x7_` for the DC, the remaining count
      for an interior band). */
  function Coef7x7Tokens(t: Tables, q: seq<nat>, b: Block, coord: nat, v: int, n: nat): (r: seq<Decision>)
    requires WellFormed(t) && Quantization(q) && BlockOk(b) && (coord == 0 || IsInterior(coord))
    requires n < 50 && Int16(v)
  {
    var residual := NoiseTokens(ResidualNoiseArray7x7(t, b.blockType, coord, n), ResidualBits(v));
    CoefTokens(ExponentArray7x7(t, b, coord, n), residual, SignArray(t, q, b, coord), v)
  }

  /** The DC or an interior coefficient is coded as its bits, whatever its contexts. */
  lemma Coef7x7TokensBits(t: Tables, q: seq<nat>, b: Block, coord: nat, v: int, n: nat)
    requires WellFormed(t) && Quantization(q) && BlockOk(b) && (coord == 0 || IsInterior(coord))
    requires n < 50 && Int16(v)
    ensures Bits(Coef7x7Tokens(t, q, b, coord, v, n)) == CoefBits(v)
  {
    var residual := NoiseTokens(ResidualNoiseArray7x7(t, b.blockType, coord, n), ResidualBits(v));
    NoiseTokensBits(ResidualNoiseArray7x7(t, b.blockType, coord, n), ResidualBits(v));
    CoefTokensBits(ExponentArray7x7(t, b, coord, n), residual, SignArray(t, q, b, coord), v);
  }

  /** `max(0, bit_length(max_val) - RESIDUAL_NOISE_FLOOR)`: how many low residual
      bits of an edge coefficient are always coded as noise. */
  function MinThreshold(maxValue: nat): (m: nat)
    ensures m == Max(0, BitLength(maxValue) - RESIDUAL_NOISE_FLOOR)
  {
    if BitLength(maxValue) > RESIDUAL_NOISE_FLOOR then BitLength(maxValue) - RESIDUAL_NOISE_FLOOR else 0
  }

  /** The residual decisions of a magnitude `a` of bit length `len` whose low
      `minThreshold` bits are noise: when bit `len - 2` lies at or above the
      threshold, the bits down to the threshold go through the threshold row and the
      rest through the noise row; otherwise all of them are noise. The split changes
      the Branches, not the bits. */
  function SplitResidualTokens(thresh: Key, noise: Key, a: nat, minThreshold: nat): (r: seq<Decision>)
  {
    var len := BitLength(a);
    if len <= 1 then []
    else if len - 2 >= minThreshold then
      ThreshTokens(thresh, LowBits(ShiftRight(a, minThreshold), len - 1 - minThreshold))
      + NoiseTokens(noise, LowBits(a, minThreshold))
    else
      NoiseTokens(noise, LowBits(a, len - 1))
  }

  /** Wherever the split falls, the residual decisions code the magnitude bits
      below the top one. */
  lemma SplitResidualTokensBits(thresh: Key, noise: Key, a: nat, minThreshold: nat)
    ensures Bits(SplitResidualTokens(thresh, noise, a, minThreshold))
      == if BitLength(a) > 1 then LowBits(a, BitLength(a) - 1) else []
  {
    var len := BitLength(a);
    if len > 1 && len - 2 >= minThreshold {
      var hi := ThreshTokens(thresh, LowBits(ShiftRight(a, minThreshold), len - 1 - minThreshold));
      var lo := NoiseTokens(noise, LowBits(a, minThreshold));
      ThreshTokensBits(thresh, LowBits(ShiftRight(a, minThreshold), len - 1 - minThreshold));
      NoiseTokensBits(noise, LowBits(a, minThreshold));
      LowBitsSplit(a, len - 1, minThreshold);
      BitsAppend(hi, lo);
    } else if len > 1 {
      NoiseTokensBits(noise, LowBits(a, len - 1));
    }
  }

  /** The residual decisions of an edge coefficient, with the threshold row of
      `residual_thresh_array` and the noise row of `residual_noise_array_x`. */
  function EdgeResidualTokens(t: Tables, q: seq<nat>, b: Block, coord: nat, v: int, ne: nat): (r: seq<Decision>)
    requires WellFormed(t) && Quantization(q) && BlockOk(b) && IsEdge(coord) && ne < NUM_NONZEROS_BINS
  {
    var a := Abs(v);
    var len := BitLength(a);
    var maxValue := GetMaxValue(q, coord);
    var minThreshold := MinThreshold(maxValue);
    // The threshold row is not used when the exponent lies below the threshold.
    var thresh := if len >= minThreshold then ResidualThreshArray(t, q, b, coord, len, minThreshold, maxValue)
      else Key(ResidualThreshold, []);
    SplitResidualTokens(thresh, ResidualNoiseArrayX(b.blockType, coord, ne), a, minThreshold)
  }

  /** An edge residual whose top bit lies at or above the threshold is its
      threshold run followed by its noise run, each inside its row when the
      magnitude is within `get_max_value`. `a`, `len`, `maxValue` and `minThreshold`
      are the encoder's `abs_coef`, `length`, `max_val` and `min_threshold`. */
  lemma EdgeResidualThresh(t: Tables, q: seq<nat>, b: Block, coord: nat, v: int, ne: nat,
                           a: nat, len: nat, maxValue: nat, minThreshold: nat)
    requires WellFormed(t) && Quantization(q) && BlockOk(b) && IsEdge(coord) && ne < NUM_NONZEROS_BINS
    requires a == Abs(v) && len == BitLength(a) && maxValue == GetMaxValue(q, coord)
    requires minThreshold == MinThreshold(maxValue) && a <= maxValue
    requires len > 1 && len - 2 >= minThreshold
    ensures maxValue >= 1
    ensures EdgeResidualTokens(t, q, b, coord, v, ne)
      == ThreshTokens(ResidualThreshArray(t, q, b, coord, len, minThreshold, maxValue), LowBits(ShiftRight(a, minThreshold), len - 1 - minThreshold))
         + NoiseTokens(ResidualNoiseArrayX(b.blockType, coord, ne), LowBits(a, minThreshold))
    ensures AllInBounds(ThreshTokens(ResidualThreshArray(t, q, b, coord, len, minThreshold, maxValue), LowBits(ShiftRight(a, minThreshold), len - 1 - minThreshold)))
    ensures AllInBounds(NoiseTokens(ResidualNoiseArrayX(b.blockType, coord, ne), LowBits(a, minThreshold)))
  {
    Pow2Table();
    BitLengthMonotone(a, maxValue);
    BitLengthBelow(maxValue, 11);
    var thresh := ResidualThreshArray(t, q, b, coord, len, minThreshold, maxValue);
    var noise := ResidualNoiseArrayX(b.blockType, coord, ne);
    assert EdgeResidualTokens(t, q, b, coord, v, ne) == SplitResidualTokens(thresh, noise, a, minThreshold);
    SplitResidualInBounds(thresh, noise, a, minThreshold);
  }

  /** An edge residual whose top bit lies below the threshold is one noise run,
      inside its row. */
  lemma EdgeResidualNoise(t: Tables, q: seq<nat>, b: Block, coord: nat, v: int, ne: nat,
                          a: nat, len: nat, maxValue: nat, minThreshold: nat)
    requires WellFormed(t) && Quantization(q) && BlockOk(b) && IsEdge(coord) && ne < NUM_NONZEROS_BINS
    requires a == Abs(v) && len == BitLength(a) && maxValue == GetMaxValue(q, coord)
    requires minThreshold == MinThreshold(maxValue) && a <= maxValue
    requires len > 1 && len - 2 < minThreshold
    ensures EdgeResidualTokens(t, q, b, coord, v, ne) == NoiseTokens(ResidualNoiseArrayX(b.blockType, coord, ne), LowBits(a, len - 1))
    ensures AllInBounds(NoiseTokens(ResidualNoiseArrayX(b.blockType, coord, ne), LowBits(a, len - 1)))
  {
    Pow2Table();
    BitLengthMonotone(a, maxValue);
    BitLengthBelow(maxValue, 11);
    var thresh := if len >= minThreshold then ResidualThreshArray(t, q, b, coord, len, minThreshold, maxValue)
      else Key(ResidualThreshold, []);
    SplitResidualInBounds(thresh, ResidualNoiseArrayX(b.blockType, coord, ne), a, minThreshold);
  }

  /** An edge coefficient: exponent through `exponent_array_x`, the residual bits,
      then the sign. `ne` is the remaining count of its row or column. */
  function EdgeCoefTokens(t: Tables, q: seq<nat>, b: Block, coord: nat, v: int, ne: nat): (r: seq<Decision>)
    requires WellFormed(t) && Quantization(q) && BlockOk(b) && IsEdge(coord)
    requires ne < NUM_NONZEROS_BINS && Int16(v)
  {
    CoefTokens(ExponentArrayX(t, q, b, coord, ne), EdgeResidualTokens(t, q, b, coord, v, ne), SignArray(t, q, b, coord), v)
  }

  /** An edge coefficient is coded as its bits, whatever its contexts and wherever
      its residual splits. */
  lemma EdgeCoefTokensBits(t: Tables, q: seq<nat>, b: Block, coord: nat, v: int, ne: nat)
    requires WellFormed(t) && Quantization(q) && BlockOk(b) && IsEdge(coord)
    requires ne < NUM_NONZEROS_BINS && Int16(v)
    ensures Bits(EdgeCoefTokens(t, q, b, coord, v, ne)) == CoefBits(v)
  {
    var a := Abs(v);
    var maxValue := GetMaxValue(q, coord);
    var minThreshold := MinThreshold(maxValue);
    var thresh := if BitLength(a) >= minThreshold then ResidualThreshArray(t, q, b, coord, BitLength(a), minThreshold, maxValue)
      else Key(ResidualThreshold, []);
    SplitResidualTokensBits(thresh, ResidualNoiseArrayX(b.blockType, coord, ne), a, minThreshold);
    CoefTokensBits(ExponentArrayX(t, q, b, coord, ne), EdgeResidualTokens(t, q, b, coord, v, ne), SignArray(t, q, b, coord), v);
  }


  // ----- Whole blocks -----

  /** The number of nonzero interior coefficients at zig-zag positions zz and later. */
  function InteriorNonzerosFrom(c: seq<int>, zz: nat): (n: nat)
    requires |c| == 64 && zz <= 64
    ensures n <= 64 - zz
    decreases |c| - zz
  {
    if zz == 64 then 0
    else (if IsInterior(Unzigzag(zz)) && c[Unzigzag(zz)] != 0 then 1 else 0) + InteriorNonzerosFrom(c, zz + 1)
  }

  /** A coded position and the count its contexts see. */
  datatype Visit = Visit(coord: nat, count: nat)

  /** The positions the interior pass codes from zig-zag position zz on, with `left`
      nonzeros still to code (`num_nonzeros_left_7x7`): every interior position in
      zig-zag order, each with the remaining count as context, stopping right after
      the one that brings the count to 0. The count is checked only after coding, so
      a block whose count is 0 still codes its first interior position. A count at
      least the number of nonzeros left never wraps around. */
  function InteriorVisits(c: seq<int>, zz: nat, left: nat): (r: seq<Visit>)
    requires |c| == 64 && zz <= 64 && InteriorNonzerosFrom(c, zz) <= left
    ensures forall i :: 0 <= i < |r| ==> IsInterior(r[i].coord) && r[i].count <= left
    decreases |c| - zz
  {
    if zz == 64 then []
    else
      var coord := Unzigzag(zz);
      if !IsInterior(coord) then InteriorVisits(c, zz + 1, left)
      else
        var left' := if c[coord] != 0 then left - 1 else left;
        [Visit(coord, left)] + (if left' == 0 then [] else InteriorVisits(c, zz + 1, left'))
  }

  /** The count of interior nonzeros from zz on, one position at a time. */
  lemma InteriorNonzerosStep(c: seq<int>, zz: nat)
    requires |c| == 64 && zz < 64
    ensures InteriorNonzerosFrom(c, zz)
      == (if IsInterior(Unzigzag(zz)) && c[Unzigzag(zz)] != 0 then 1 else 0) + InteriorNonzerosFrom(c, zz + 1)
  {
  }

  /** One step of the interior pass at a position outside the 7x7 square: nothing
      is coded there. */
  lemma InteriorVisitsSkip(c: seq<int>, zz: nat, left: nat)
    requires |c| == 64 && zz < 64 && InteriorNonzerosFrom(c, zz) <= left && !IsInterior(Unzigzag(zz))
    ensures InteriorNonzerosFrom(c, zz + 1) <= left
    ensures InteriorVisits(c, zz, left) == InteriorVisits(c, zz + 1, left)
  {
  }

  /** One step of the interior pass at a position inside the 7x7 square: it is
      coded with the remaining count as context, a nonzero uses one up (leaving
      `next`), and the pass ends when none are left. */
  lemma InteriorVisitsCode(c: seq<int>, zz: nat, left: nat, next: nat)
    requires |c| == 64 && zz < 64 && InteriorNonzerosFrom(c, zz) <= left && IsInterior(Unzigzag(zz))
    requires next + (if c[Unzigzag(zz)] != 0 then 1 else 0) == left
    ensures InteriorNonzerosFrom(c, zz + 1) <= next
    ensures InteriorVisits(c, zz, left) == [Visit(Unzigzag(zz), left)] + (if next == 0 then [] else InteriorVisits(c, zz + 1, next))
  {
  }

  /** Whether the edge pass codes raster position `coord`: a row-0 position while
      `num_nonzeros_left_x` is positive, a column-0 position while
      `num_nonzeros_left_y` is. */
  predicate EdgeCoded(coord: nat, leftX: nat, leftY: nat)
  {
    (coord % 8 == 0 && leftY > 0) || (coord / 8 == 0 && leftX > 0)
  }

  /** The positions the edge pass codes from zig-zag position zz on. Each nonzero
      uses up one of its own line's count, and that count is its context. */
  function EdgeVisits(c: seq<int>, zz: nat, leftX: nat, leftY: nat): (r: seq<Visit>)
    requires |c| == 64 && 1 <= zz <= 64
    ensures forall i :: 0 <= i < |r| ==> IsEdge(r[i].coord) && (r[i].count <= leftX || r[i].count <= leftY)
    decreases |c| - zz
  {
    if zz == 64 then []
    else
      var coord := Unzigzag(zz);
      var x, y := coord % 8, coord / 8;
      if EdgeCoded(coord, leftX, leftY) then
        ZigzagOfUnzigzag(zz);
        var v := c[coord];
        var ne := if x == 0 && leftY > 0 then leftY else leftX;
        var leftX' := if v != 0 && y == 0 then leftX - 1 else leftX;
        var leftY' := if v != 0 && x == 0 then leftY - 1 else leftY;
        [Visit(coord, ne)] + EdgeVisits(c, zz + 1, leftX', leftY')
      else
        EdgeVisits(c, zz + 1, leftX, leftY)
  }

  /** The bits of the coefficients at the visited positions, in visiting order. */
  function VisitBits(c: seq<int>, vs: seq<Visit>): (r: seq<bool>)
    requires Coefficients(c) && forall i :: 0 <= i < |vs| ==> vs[i].coord < 64
  {
    if vs == [] then [] else CoefBits(c[vs[0].coord]) + VisitBits(c, vs[1..])
  }

  /** The interior pass: each visited position coded as a DC-or-interior coefficient. */
  function CodeInterior(t: Tables, q: seq<nat>, b: Block, vs: seq<Visit>): seq<Decision>
    requires WellFormed(t) && Quantization(q) && BlockOk(b)
    requires forall i :: 0 <= i < |vs| ==> IsInterior(vs[i].coord) && vs[i].count < 50
    decreases |vs|
  {
    if vs == [] then []
    else
      assert IsInterior(vs[0].coord);
      Coef7x7Tokens(t, q, b, vs[0].coord, b.coefficients[vs[0].coord], vs[0].count) + CodeInterior(t, q, b, vs[1..])
  }

  /** The interior pass codes exactly the bits of the visited coefficients. */
  lemma {:induction false} CodeInteriorBits(t: Tables, q: seq<nat>, b: Block, vs: seq<Visit>)
    requires WellFormed(t) && Quantization(q) && BlockOk(b)
    requires forall i :: 0 <= i < |vs| ==> IsInterior(vs[i].coord) && vs[i].count < 50
    ensures (forall i :: 0 <= i < |vs| ==> vs[i].coord < 64) && Bits(CodeInterior(t, q, b, vs)) == VisitBits(b.coefficients, vs)
    decreases |vs|
  {
    if vs != [] {
      assert IsInterior(vs[0].coord);
      var head := Coef7x7Tokens(t, q, b, vs[0].coord, b.coefficients[vs[0].coord], vs[0].count);
      Coef7x7TokensBits(t, q, b, vs[0].coord, b.coefficients[vs[0].coord], vs[0].count);
      CodeInteriorBits(t, q, b, vs[1..]);
      BitsAppend(head, CodeInterior(t, q, b, vs[1..]));
    }
  }

  /** The interior pass from zig-zag position zz on with `left` nonzeros to come. */
  function InteriorFrom(t: Tables, q: seq<nat>, b: Block, zz: nat, left: nat): seq<Decision>
    requires WellFormed(t) && Quantization(q) && BlockOk(b)
    requires zz <= 64 && InteriorNonzerosFrom(b.coefficients, zz) <= left <= 49
  {
    CodeInterior(t, q, b, InteriorVisits(b.coefficients, zz, left))
  }

  /** An interior position codes its coefficient with the remaining count as
      context, and the pass goes on with one fewer to come after a nonzero, or stops
      when none are left. */
  lemma InteriorFromCode(t: Tables, q: seq<nat>, b: Block, zz: nat, left: nat, next: nat)
    requires WellFormed(t) && Quantization(q) && BlockOk(b)
    requires zz < 64 && InteriorNonzerosFrom(b.coefficients, zz) <= left <= 49
    requires IsInterior(Unzigzag(zz))
    requires next + (if b.coefficients[Unzigzag(zz)] != 0 then 1 else 0) == left
    ensures InteriorNonzerosFrom(b.coefficients, zz + 1) <= next
    ensures InteriorFrom(t, q, b, zz, left)
      == Coef7x7Tokens(t, q, b, Unzigzag(zz), b.coefficients[Unzigzag(zz)], left)
         + (if next == 0 then [] else InteriorFrom(t, q, b, zz + 1, next))
  {
    var c := b.coefficients;
    InteriorVisitsCode(c, zz, left, next);
    CodeInteriorCons(t, q, b, Visit(Unzigzag(zz), left), if next == 0 then [] else InteriorVisits(c, zz + 1, next));
  }

  /** The same step after a prefix `before` already coded. */
  lemma InteriorFromAfter(t: Tables, q: seq<nat>, b: Block, zz: nat, left: nat, next: nat, before: seq<Decision>)
    requires WellFormed(t) && Quantization(q) && BlockOk(b)
    requires zz < 64 && InteriorNonzerosFrom(b.coefficients, zz) <= left <= 49
    requires IsInterior(Unzigzag(zz))
    requires next + (if b.coefficients[Unzigzag(zz)] != 0 then 1 else 0) == left
    ensures InteriorNonzerosFrom(b.coefficients, zz + 1) <= next
    ensures before + InteriorFrom(t, q, b, zz, left)
      == before + Coef7x7Tokens(t, q, b, Unzigzag(zz), b.coefficients[Unzigzag(zz)], left)
         + (if next == 0 then [] else InteriorFrom(t, q, b, zz + 1, next))
  {
    InteriorFromCode(t, q, b, zz, left, next);
  }

  lemma CodeInteriorCons(t: Tables, q: seq<nat>, b: Block, v: Visit, rest: seq<Visit>)
    requires WellFormed(t) && Quantization(q) && BlockOk(b)
    requires IsInterior(v.coord) && v.count < 50
    requires forall i :: 0 <= i < |rest| ==> IsInterior(rest[i].coord) && rest[i].count < 50
    ensures CodeInterior(t, q, b, [v] + rest)
      == Coef7x7Tokens(t, q, b, v.coord, b.coefficients[v.coord], v.count) + CodeInterior(t, q, b, rest)
  {
    assert ([v] + rest)[0] == v && ([v] + rest)[1..] == rest;
  }

  /** A position outside the 7x7 square codes nothing. */
  lemma InteriorFromSkip(t: Tables, q: seq<nat>, b: Block, zz: nat, left: nat)
    requires WellFormed(t) && Quantization(q) && BlockOk(b)
    requires zz < 64 && InteriorNonzerosFrom(b.coefficients, zz) <= left <= 49
    requires !IsInterior(Unzigzag(zz))
    ensures InteriorNonzerosFrom(b.coefficients, zz + 1) <= left
    ensures InteriorFrom(t, q, b, zz, left) == InteriorFrom(t, q, b, zz + 1, left)
  {
    InteriorVisitsSkip(b.coefficients, zz, left);
  }

  /** The edge pass: each visited position coded as an edge coefficient. */
  function CodeEdges(t: Tables, q: seq<nat>, b: Block, vs: seq<Visit>): seq<Decision>
    requires WellFormed(t) && Quantization(q) && BlockOk(b)
    requires forall i :: 0 <= i < |vs| ==> IsEdge(vs[i].coord) && vs[i].count < NUM_NONZEROS_BINS
    decreases |vs|
  {
    if vs == [] then []
    else
      assert IsEdge(vs[0].coord);
      EdgeCoefTokens(t, q, b, vs[0].coord, b.coefficients[vs[0].coord], vs[0].count) + CodeEdges(t, q, b, vs[1..])
  }

  /** The edge pass codes exactly the bits of the visited coefficients. */
  lemma {:induction false} CodeEdgesBits(t: Tables, q: seq<nat>, b: Block, vs: seq<Visit>)
    requires WellFormed(t) && Quantization(q) && BlockOk(b)
    requires forall i :: 0 <= i < |vs| ==> IsEdge(vs[i].coord) && vs[i].count < NUM_NONZEROS_BINS
    ensures (forall i :: 0 <= i < |vs| ==> vs[i].coord < 64) && Bits(CodeEdges(t, q, b, vs)) == VisitBits(b.coefficients, vs)
    decreases |vs|
  {
    if vs != [] {
      assert IsEdge(vs[0].coord);
      var head := EdgeCoefTokens(t, q, b, vs[0].coord, b.coefficients[vs[0].coord], vs[0].count);
      EdgeCoefTokensBits(t, q, b, vs[0].coord, b.coefficients[vs[0].coord], vs[0].count);
      CodeEdgesBits(t, q, b, vs[1..]);
      BitsAppend(head, CodeEdges(t, q, b, vs[1..]));
    }
  }


  /** The edge pass from zig-zag position zz on with `leftX` row-0 and `leftY`
      column-0 nonzeros to come. */
  function EdgeFrom(t: Tables, q: seq<nat>, b: Block, zz: nat, leftX: nat, leftY: nat): seq<Decision>
    requires WellFormed(t) && Quantization(q) && BlockOk(b)
    requires 1 <= zz <= 64 && leftX <= 7 && leftY <= 7
  {
    CodeEdges(t, q, b, EdgeVisits(b.coefficients, zz, leftX, leftY))
  }

  /** A position the edge pass codes: its coefficient in the context of its own
      line's count, then the rest of the pass with that count one fewer after a
      nonzero. */
  lemma EdgeFromCode(t: Tables, q: seq<nat>, b: Block, zz: nat, leftX: nat, leftY: nat, ne: nat, nextX: nat, nextY: nat)
    requires WellFormed(t) && Quantization(q) && BlockOk(b)
    requires 1 <= zz < 64 && leftX <= 7 && leftY <= 7
    requires EdgeCoded(Unzigzag(zz), leftX, leftY)
    requires ne == if Unzigzag(zz) % 8 == 0 && leftY > 0 then leftY else leftX
    requires nextX == if b.coefficients[Unzigzag(zz)] != 0 && Unzigzag(zz) / 8 == 0 then leftX - 1 else leftX
    requires nextY == if b.coefficients[Unzigzag(zz)] != 0 && Unzigzag(zz) % 8 == 0 then leftY - 1 else leftY
    ensures IsEdge(Unzigzag(zz)) && ne < NUM_NONZEROS_BINS
    ensures EdgeFrom(t, q, b, zz, leftX, leftY)
      == EdgeCoefTokens(t, q, b, Unzigzag(zz), b.coefficients[Unzigzag(zz)], ne) + EdgeFrom(t, q, b, zz + 1, nextX, nextY)
  {
    var rest := EdgeVisits(b.coefficients, zz + 1, nextX, nextY);
    var v := Visit(Unzigzag(zz), ne);
    EdgeVisitsStep(b.coefficients, zz, leftX, leftY, ne, nextX, nextY);
    assert ([v] + rest)[0] == v && ([v] + rest)[1..] == rest;
  }

  /** The edge visit order one step at a time: a coded position is visited with its
      line's count, and the counts drop after a nonzero. */
  lemma EdgeVisitsStep(c: seq<int>, zz: nat, leftX: nat, leftY: nat, ne: nat, nextX: nat, nextY: nat)
    requires |c| == 64 && 1 <= zz < 64
    requires EdgeCoded(Unzigzag(zz), leftX, leftY)
    requires ne == if Unzigzag(zz) % 8 == 0 && leftY > 0 then leftY else leftX
    requires nextX == if c[Unzigzag(zz)] != 0 && Unzigzag(zz) / 8 == 0 then leftX - 1 else leftX
    requires nextY == if c[Unzigzag(zz)] != 0 && Unzigzag(zz) % 8 == 0 then leftY - 1 else leftY
    ensures EdgeVisits(c, zz, leftX, leftY) == [Visit(Unzigzag(zz), ne)] + EdgeVisits(c, zz + 1, nextX, nextY)
  {
  }

  /** The same step after a prefix `before` already coded: once the position's
      decisions are appended, giving `after`, the rest of the pass is left. */
  lemma EdgeFromAfter(t: Tables, q: seq<nat>, b: Block, zz: nat, leftX: nat, leftY: nat, ne: nat, nextX: nat, nextY: nat,
                      before: seq<Decision>, after: seq<Decision>)
    requires WellFormed(t) && Quantization(q) && BlockOk(b)
    requires 1 <= zz < 64 && leftX <= 7 && leftY <= 7
    requires EdgeCoded(Unzigzag(zz), leftX, leftY)
    requires ne == if Unzigzag(zz) % 8 == 0 && leftY > 0 then leftY else leftX
    requires nextX == if b.coefficients[Unzigzag(zz)] != 0 && Unzigzag(zz) / 8 == 0 then leftX - 1 else leftX
    requires nextY == if b.coefficients[Unzigzag(zz)] != 0 && Unzigzag(zz) % 8 == 0 then leftY - 1 else leftY
    requires IsEdge(Unzigzag(zz)) && ne < NUM_NONZEROS_BINS
    requires after == before + EdgeCoefTokens(t, q, b, Unzigzag(zz), b.coefficients[Unzigzag(zz)], ne)
    ensures before + EdgeFrom(t, q, b, zz, leftX, leftY) == after + EdgeFrom(t, q, b, zz + 1, nextX, nextY)
  {
    EdgeFromCode(t, q, b, zz, leftX, leftY, ne, nextX, nextY);
    RegroupTwo(before, EdgeCoefTokens(t, q, b, Unzigzag(zz), b.coefficients[Unzigzag(zz)], ne), EdgeFrom(t, q, b, zz + 1, nextX, nextY));
  }

  /** Only row-0 and column-0 positions other than the DC are coded by the edge pass. */
  lemma EdgeCodedIsEdge(zz: nat, leftX: nat, leftY: nat)
    requires 1 <= zz < 64 && EdgeCoded(Unzigzag(zz), leftX, leftY)
    ensures IsEdge(Unzigzag(zz))
  {
    ZigzagOfUnzigzag(zz);
  }

  /** A position the edge pass does not code. */
  lemma EdgeFromSkip(t: Tables, q: seq<nat>, b: Block, zz: nat, leftX: nat, leftY: nat)
    requires WellFormed(t) && Quantization(q) && BlockOk(b)
    requires 1 <= zz < 64 && leftX <= 7 && leftY <= 7
    requires !EdgeCoded(Unzigzag(zz), leftX, leftY)
    ensures EdgeFrom(t, q, b, zz, leftX, leftY) == EdgeFrom(t, q, b, zz + 1, leftX, leftY)
  {
  }

  /** The largest column (`isX`) or row of a nonzero interior coefficient at zig-zag
      position zz or later, 0 if there is none; from 0 on, `eob_x` and `eob_y`. */
  function EobFrom(c: seq<int>, zz: nat, isX: bool): (e: nat)
    requires |c| == 64 && zz <= 64
    ensures e < 8
    decreases |c| - zz
  {
    if zz == 64 then 0
    else
      var coord := Unzigzag(zz);
      var e := EobFrom(c, zz + 1, isX);
      if IsInterior(coord) && c[coord] != 0 then Max(Line(coord, isX), e) else e
  }

  /** Folding position zz into a running maximum `e` leaves the maximum over the
      positions after it to come. */
  lemma EobStep(c: seq<int>, zz: nat, isX: bool, e: nat, coord: nat, line: nat)
    requires |c| == 64 && zz < 64 && coord == Unzigzag(zz) && line == Line(coord, isX)
    ensures Max(e, EobFrom(c, zz, isX))
      == Max(if IsInterior(coord) && c[coord] != 0 then Max(e, line) else e, EobFrom(c, zz + 1, isX))
  {
  }

  /** What the source requires of a block it codes: well-formed tables, a count of
      interior nonzeros that is at least the true number and at most 49, edge counts
      of at most 7 (three bits are coded), a DC within the range of its prediction,
      interior magnitudes below 2048 and edge magnitudes within `get_max_value`. */
  predicate Legal(t: Tables, q: seq<nat>, b: Block)
  {
    && WellFormed(t) && Quantization(q) && BlockOk(b)
    && InteriorNonzerosFrom(b.coefficients, 0) <= b.numNonzeros7x7 <= 49
    && b.numNonzerosX <= 7 && b.numNonzerosY <= 7
    && Abs(b.coefficients[0]) <= MaxDc(q[0])
    && (forall k :: 0 <= k < 64 && IsInterior(k) ==> Abs(b.coefficients[k]) < 2048)
    && EdgesWithinMax(q, b)
  }

  /** Every edge coefficient lies within `get_max_value` of its position. */
  predicate EdgesWithinMax(q: seq<nat>, b: Block)
    requires Quantization(q) && |b.coefficients| == 64
  {
    forall k {:trigger GetMaxValue(q, k)} :: 0 <= k < 64 && IsEdge(k) ==> Abs(b.coefficients[k]) <= GetMaxValue(q, k)
  }

  /** The coded DC: the difference to its prediction, as the int16_t the encoder
      stores. */
  function CodedDc(t: Tables, q: seq<nat>, b: Block): (dc: int)
    requires WellFormed(t) && Quantization(q) && BlockOk(b)
    ensures Int16(dc)
    ensures Abs(b.coefficients[0]) <= MaxDc(q[0]) ==> Abs(dc) <= MaxDc(q[0]) && dc == PredictOrUnpredictDc(t, q, b, false)
  {
    ToInt16(PredictOrUnpredictDc(t, q, b, false))
  }

  /** The 7x7 count, 6 bits most significant first, in the context of the
      neighbours' counts. */
  function CountTokens(t: Tables, b: Block): (r: seq<Decision>)
    requires WellFormed(t) && BlockOk(b) && b.numNonzeros7x7 < 64
  {
    TreeTokens(NonzeroCounts7x7(t, b), LowBits(b.numNonzeros7x7, 6), 5)
  }

  /** The row-0 (`isX`) or column-0 count, 3 bits most significant first, in the
      context of `eob_x` or `eob_y` and the 7x7 count. */
  function EdgeCountTokens(b: Block, isX: bool): (r: seq<Decision>)
    requires |b.coefficients| == 64 && b.numNonzeros7x7 <= 49
  {
    var key := NonzeroCounts1x8(b.blockType, EobFrom(b.coefficients, 0, isX), b.numNonzeros7x7, isX);
    TreeTokens(key, LowBits(if isX then b.numNonzerosX else b.numNonzerosY, 3), 2)
  }

  /** `Block::serialize_tokens`: the 7x7 count, the DC, the interior pass, the row-0
      and column-0 counts and the edge pass. */
  function BlockTokens(t: Tables, q: seq<nat>, b: Block): (r: seq<Decision>)
    requires Legal(t, q, b)
  {
    var n := b.numNonzeros7x7;
    CountTokens(t, b)
    + Coef7x7Tokens(t, q, b, 0, CodedDc(t, q, b), n)
    + InteriorFrom(t, q, b, 0, n)
    + EdgeCountTokens(b, true)
    + EdgeCountTokens(b, false)
    + EdgeFrom(t, q, b, 1, b.numNonzerosX, b.numNonzerosY)
  }

  /** The parts of a block's decisions, appended one after the other. */
  lemma BlockTokensParts(start: seq<Decision>, t: Tables, q: seq<nat>, b: Block)
    requires Legal(t, q, b)
    ensures start + BlockTokens(t, q, b)
      == start + CountTokens(t, b) + Coef7x7Tokens(t, q, b, 0, CodedDc(t, q, b), b.numNonzeros7x7)
         + InteriorFrom(t, q, b, 0, b.numNonzeros7x7) + EdgeCountTokens(b, true) + EdgeCountTokens(b, false)
         + EdgeFrom(t, q, b, 1, b.numNonzerosX, b.numNonzerosY)
  {
    var n := b.numNonzeros7x7;
    RegroupSix(start, CountTokens(t, b), Coef7x7Tokens(t, q, b, 0, CodedDc(t, q, b), n), InteriorFrom(t, q, b, 0, n),
      EdgeCountTokens(b, true), EdgeCountTokens(b, false), EdgeFrom(t, q, b, 1, b.numNonzerosX, b.numNonzerosY));
  }

  // ----- Every decision names a Branch of the Model -----

  lemma CoefTokensInBounds(exponent: Key, residual: seq<Decision>, sign: Key, v: int)
    requires Int16(v) && Addresses(exponent) && |exponent.index| == 4
    requires exponent.table == Exponent7x7 || exponent.table == ExponentX || exponent.table == ExponentDC
    requires AllInBounds(residual) && InBounds(sign)
    ensures AllInBounds(CoefTokens(exponent, residual, sign, v))
  {
    Int16BitLength(v);
    Pow2Table();
    var e := TreeTokens(exponent, ExponentBits(BitLength(Abs(v))), 3);
    TreeInBounds(exponent, ExponentBits(BitLength(Abs(v))), 3);
    var s := SignTokens(sign, v);
    AllInBoundsAppend(e, residual);
    AllInBoundsAppend(e + residual, s);
  }

  /** The exponent rows (`serialized_so_far` < 8), the noise rows (at most 10 bits)
      and the sign of a DC or interior coefficient below 2048 in magnitude stay in
      their sub-arrays. */
  lemma Coef7x7InBounds(t: Tables, q: seq<nat>, b: Block, coord: nat, v: int, n: nat)
    requires WellFormed(t) && Quantization(q) && BlockOk(b) && (coord == 0 || IsInterior(coord))
    requires n < 50 && Int16(v) && Abs(v) < 2048
    ensures AllInBounds(Coef7x7Tokens(t, q, b, coord, v, n))
  {
    Pow2Table();
    BitLengthBelow(Abs(v), 11);
    var noise := ResidualNoiseArray7x7(t, b.blockType, coord, n);
    NoiseInBounds(noise, ResidualBits(v));
    CoefTokensInBounds(ExponentArray7x7(t, b, coord, n), NoiseTokens(noise, ResidualBits(v)), SignArray(t, q, b, coord), v);
  }

  lemma SplitResidualInBounds(thresh: Key, noise: Key, a: nat, minThreshold: nat)
    requires BitLength(a) > 1 && BitLength(a) - 2 >= minThreshold ==>
      thresh.table == ResidualThreshold && |thresh.index| == 4 && Addresses(thresh)
      && BitLength(a) - 1 - minThreshold <= 7
    requires noise.table == ResidualNoise && |noise.index| == 3 && Addresses(noise)
    requires BitLength(a) <= 11
    ensures AllInBounds(SplitResidualTokens(thresh, noise, a, minThreshold))
    ensures BitLength(a) > 1 && BitLength(a) - 2 >= minThreshold ==>
      && AllInBounds(ThreshTokens(thresh, LowBits(ShiftRight(a, minThreshold), BitLength(a) - 1 - minThreshold)))
      && AllInBounds(NoiseTokens(noise, LowBits(a, minThreshold)))
    ensures BitLength(a) > 1 && BitLength(a) - 2 < minThreshold ==> AllInBounds(NoiseTokens(noise, LowBits(a, BitLength(a) - 1)))
    ensures BitLength(a) > 1 && BitLength(a) - 2 >= minThreshold ==>
      SplitResidualTokens(thresh, noise, a, minThreshold)
        == ThreshTokens(thresh, LowBits(ShiftRight(a, minThreshold), BitLength(a) - 1 - minThreshold)) + NoiseTokens(noise, LowBits(a, minThreshold))
  {
    var len := BitLength(a);
    Pow2Table();
    if len > 1 {
      if len - 2 >= minThreshold {
        var hi := ThreshTokens(thresh, LowBits(ShiftRight(a, minThreshold), len - 1 - minThreshold));
        var lo := NoiseTokens(noise, LowBits(a, minThreshold));
        ThreshInBounds(thresh, LowBits(ShiftRight(a, minThreshold), len - 1 - minThreshold), 7);
        NoiseInBounds(noise, LowBits(a, minThreshold));
        AllInBoundsAppend(hi, lo);
        assert SplitResidualTokens(thresh, noise, a, minThreshold) == hi + lo;
      } else {
        NoiseInBounds(noise, LowBits(a, len - 1));
        assert SplitResidualTokens(thresh, noise, a, minThreshold) == NoiseTokens(noise, LowBits(a, len - 1));
      }
    }
  }

  /** The residual decisions of an edge coefficient within `get_max_value` stay in
      their rows; in particular `encoded_so_far` stays below 128. */
  lemma EdgeResidualInBounds(t: Tables, q: seq<nat>, b: Block, coord: nat, v: int, ne: nat)
    requires WellFormed(t) && Quantization(q) && BlockOk(b) && IsEdge(coord)
    requires ne < NUM_NONZEROS_BINS && Abs(v) <= GetMaxValue(q, coord)
    ensures AllInBounds(EdgeResidualTokens(t, q, b, coord, v, ne))
  {
    var a := Abs(v);
    var len := BitLength(a);
    var maxValue := GetMaxValue(q, coord);
    var minThreshold := MinThreshold(maxValue);
    Pow2Table();
    BitLengthMonotone(a, maxValue);
    BitLengthBelow(maxValue, 11);
    var thresh := if len >= minThreshold then ResidualThreshArray(t, q, b, coord, len, minThreshold, maxValue)
      else Key(ResidualThreshold, []);
    var noise := ResidualNoiseArrayX(b.blockType, coord, ne);
    SplitResidualInBounds(thresh, noise, a, minThreshold);
    assert EdgeResidualTokens(t, q, b, coord, v, ne) == SplitResidualTokens(thresh, noise, a, minThreshold);
  }

  /** An edge coefficient within `get_max_value` stays in its sub-arrays. */
  lemma EdgeCoefInBounds(t: Tables, q: seq<nat>, b: Block, coord: nat, v: int, ne: nat)
    requires WellFormed(t) && Quantization(q) && BlockOk(b) && IsEdge(coord)
    requires ne < NUM_NONZEROS_BINS && Int16(v) && Abs(v) <= GetMaxValue(q, coord)
    ensures AllInBounds(EdgeCoefTokens(t, q, b, coord, v, ne))
  {
    EdgeResidualInBounds(t, q, b, coord, v, ne);
    CoefTokensInBounds(ExponentArrayX(t, q, b, coord, ne), EdgeResidualTokens(t, q, b, coord, v, ne), SignArray(t, q, b, coord), v);
  }

  lemma {:induction false} CodeInteriorInBounds(t: Tables, q: seq<nat>, b: Block, vs: seq<Visit>)
    requires WellFormed(t) && Quantization(q) && BlockOk(b)
    requires forall i :: 0 <= i < |vs| ==> IsInterior(vs[i].coord) && vs[i].count < 50
    requires forall k :: 0 <= k < 64 && IsInterior(k) ==> Abs(b.coefficients[k]) < 2048
    ensures AllInBounds(CodeInterior(t, q, b, vs))
    decreases |vs|
  {
    if vs != [] {
      var coord := vs[0].coord;
      Coef7x7InBounds(t, q, b, coord, b.coefficients[coord], vs[0].count);
      CodeInteriorInBounds(t, q, b, vs[1..]);
      AllInBoundsAppend(Coef7x7Tokens(t, q, b, coord, b.coefficients[coord], vs[0].count), CodeInterior(t, q, b, vs[1..]));
    }
  }

  lemma {:induction false} CodeEdgesInBounds(t: Tables, q: seq<nat>, b: Block, vs: seq<Visit>)
    requires WellFormed(t) && Quantization(q) && BlockOk(b)
    requires forall i :: 0 <= i < |vs| ==> IsEdge(vs[i].coord) && vs[i].count < NUM_NONZEROS_BINS
    requires EdgesWithinMax(q, b)
    ensures AllInBounds(CodeEdges(t, q, b, vs))
    decreases |vs|
  {
    if vs != [] {
      var coord := vs[0].coord;
      EdgeCoefInBounds(t, q, b, coord, b.coefficients[coord], vs[0].count);
      CodeEdgesInBounds(t, q, b, vs[1..]);
      AllInBoundsAppend(EdgeCoefTokens(t, q, b, coord, b.coefficients[coord], vs[0].count), CodeEdges(t, q, b, vs[1..]));
    }
  }

  /** The interior pass of a block names only Branches inside the Model. */
  lemma InteriorFromInBounds(t: Tables, q: seq<nat>, b: Block, n: nat)
    requires WellFormed(t) && Quantization(q) && BlockOk(b)
    requires InteriorNonzerosFrom(b.coefficients, 0) <= n <= 49
    requires forall k :: 0 <= k < 64 && IsInterior(k) ==> Abs(b.coefficients[k]) < 2048
    ensures AllInBounds(InteriorFrom(t, q, b, 0, n))
  {
    CodeInteriorInBounds(t, q, b, InteriorVisits(b.coefficients, 0, n));
  }

  /** The edge pass of a block names only Branches inside the Model. */
  lemma EdgeFromInBounds(t: Tables, q: seq<nat>, b: Block, nX: nat, nY: nat)
    requires WellFormed(t) && Quantization(q) && BlockOk(b) && nX <= 7 && nY <= 7
    requires EdgesWithinMax(q, b)
    ensures AllInBounds(EdgeFrom(t, q, b, 1, nX, nY))
  {
    var vs := EdgeVisits(b.coefficients, 1, nX, nY);
    assert forall i :: 0 <= i < |vs| ==> IsEdge(vs[i].coord) && vs[i].count < NUM_NONZEROS_BINS;
    CodeEdgesInBounds(t, q, b, vs);
  }

  /** The count trees stay in their sub-arrays: `serialized_so_far` < 32 for the
      7x7 count and < 4 for an edge count. */
  lemma CountTokensInBounds(t: Tables, b: Block)
    requires WellFormed(t) && BlockOk(b) && b.numNonzeros7x7 <= 49
    ensures AllInBounds(CountTokens(t, b))
  {
    Pow2Table();
    TreeInBounds(NonzeroCounts7x7(t, b), LowBits(b.numNonzeros7x7, 6), 5);
  }

  lemma EdgeCountTokensInBounds(b: Block, isX: bool)
    requires |b.coefficients| == 64 && b.numNonzeros7x7 <= 49
    ensures AllInBounds(EdgeCountTokens(b, isX))
  {
    Pow2Table();
    var key := NonzeroCounts1x8(b.blockType, EobFrom(b.coefficients, 0, isX), b.numNonzeros7x7, isX);
    TreeInBounds(key, LowBits(if isX then b.numNonzerosX else b.numNonzerosY, 3), 2);
  }

  /** Every decision of a legal block names a Branch inside the Model: the count
      trees, the exponent trees, the noise and threshold rows and the sign contexts
      all stay inside their axes. */
  lemma BlockTokensInBounds(t: Tables, q: seq<nat>, b: Block)
    requires Legal(t, q, b)
    ensures AllInBounds(BlockTokens(t, q, b))
  {
    var c := b.coefficients;
    var n := b.numNonzeros7x7;
    var count := CountTokens(t, b);
    var dc := Coef7x7Tokens(t, q, b, 0, CodedDc(t, q, b), n);
    var interior := InteriorFrom(t, q, b, 0, n);
    var countX, countY := EdgeCountTokens(b, true), EdgeCountTokens(b, false);
    var edges := EdgeFrom(t, q, b, 1, b.numNonzerosX, b.numNonzerosY);
    CountTokensInBounds(t, b);
    EdgeCountTokensInBounds(b, true);
    EdgeCountTokensInBounds(b, false);
    Coef7x7InBounds(t, q, b, 0, CodedDc(t, q, b), n);
    InteriorFromInBounds(t, q, b, n);
    EdgeFromInBounds(t, q, b, b.numNonzerosX, b.numNonzerosY);
    AllInBoundsSix(count, dc, interior, countX, countY, edges);
  }

  /** Solver helper: six in-bounds runs appended stay in bounds. */
  lemma AllInBoundsSix(a: seq<Decision>, b: seq<Decision>, c: seq<Decision>, d: seq<Decision>, e: seq<Decision>, f: seq<Decision>)
    requires AllInBounds(a) && AllInBounds(b) && AllInBounds(c) && AllInBounds(d) && AllInBounds(e) && AllInBounds(f)
    ensures AllInBounds(a + b + c + d + e + f)
  {
    AllInBoundsAppend(a, b);
    AllInBoundsAppend(a + b, c);
    AllInBoundsAppend(a + b + c, d);
    AllInBoundsAppend(a + b + c + d, e);
    AllInBoundsAppend(a + b + c + d + e, f);
  }
}
