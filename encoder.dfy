/** `Block::serialize_tokens` and `VP8BoolEncoder::put` (encoder.cc) over the
    Model's Branches. The arithmetic coder is a sink of (bit, probability)
    symbols; every method is proved to make exactly the decisions of the grammar
    in module EncoderGrammar, and the encoder keeps the invariant `Tracks`: each
    symbol carries the probability its Branch had learned from the earlier
    decisions on that same Branch, and each Branch holds what it learned from all
    of them. */
module Encoder {
  import opened Numeric
  import opened Branches
  import opened Model
  import opened Contexts
  import opened EncoderGrammar

  /** What the arithmetic coder receives for one bit: `put(value, branch.prob())`. */
  datatype Symbol = Symbol(bit: bool, probability: nat)

  /** The state of the Branch at offset o after the decisions `ds`, starting from
      the states `origin`: each decision updates the one Branch it names with its bit. */
  function ReplayAt(origin: seq<BranchState>, ds: seq<Decision>, o: nat): BranchState
    requires |origin| == TOTAL && o < TOTAL
    decreases |ds|
  {
    if ds == [] then origin[o]
    else
      var d := ds[|ds| - 1];
      var s := ReplayAt(origin, ds[..|ds| - 1], o);
      if InBounds(d.key) && Offset(d.key) == o then Observe(s, d.bit) else s
  }

  /** What the arithmetic coder receives for decision d made after the decisions
      `before`: its bit, with the probability its Branch has at that moment. */
  function SymbolFor(origin: seq<BranchState>, before: seq<Decision>, d: Decision): Symbol
    requires |origin| == TOTAL
  {
    Symbol(d.bit, if InBounds(d.key) then ReplayAt(origin, before, Offset(d.key)).probability else 0)
  }

  /** The bits of the decisions that name the Branch at offset o, in order. */
  function BitsAt(ds: seq<Decision>, o: nat): (r: seq<bool>)
    ensures |r| <= |ds|
    decreases |ds|
  {
    if ds == [] then []
    else
      var d := ds[|ds| - 1];
      BitsAt(ds[..|ds| - 1], o) + (if InBounds(d.key) && Offset(d.key) == o then [d.bit] else [])
  }

  /** Each Branch learns from its own decisions only: its state after a decision
      sequence is its origin state updated with the bits decided on it, in order,
      whatever was decided on the other Branches in between. */
  lemma {:induction false} ReplayPerBranch(origin: seq<BranchState>, ds: seq<Decision>, o: nat)
    requires |origin| == TOTAL && o < TOTAL
    ensures ReplayAt(origin, ds, o) == ObserveAll(origin[o], BitsAt(ds, o))
    decreases |ds|
  {
    if ds != [] {
      var d := ds[|ds| - 1];
      var before := ds[..|ds| - 1];
      ReplayPerBranch(origin, before, o);
      if InBounds(d.key) && Offset(d.key) == o {
        assert BitsAt(ds, o) == BitsAt(before, o) + [d.bit];
        ObserveAllSnoc(origin[o], BitsAt(before, o), d.bit);
      } else {
        assert BitsAt(ds, o) == BitsAt(before, o);
      }
    }
  }

  /** From a Bounded origin every Branch stays Bounded, and its update counter
      advances by one per decision on it, modulo 2^32. */
  lemma ReplayBounded(origin: seq<BranchState>, ds: seq<Decision>, o: nat)
    requires |origin| == TOTAL && o < TOTAL && Bounded(origin[o])
    ensures Bounded(ReplayAt(origin, ds, o))
    ensures ReplayAt(origin, ds, o).fullCount == (origin[o].fullCount + |BitsAt(ds, o)|) % UINT32_RANGE
  {
    ReplayPerBranch(origin, ds, o);
    ObserveAllBounded(origin[o], BitsAt(ds, o));
  }

  /** `VP8BoolEncoder`, as far as the Model sees it: the symbols handed to the
      arithmetic coder, and (ghost) the decisions made and the Branch states when
      the encoder was attached to the Model. */
  class BoolEncoder {
    var output: seq<Symbol>
    ghost var decisions: seq<Decision>
    ghost var origin: seq<BranchState>

    /** The encoder and the Model agree: each symbol is the bit of a decision with the
        probability its Branch had just before it, and every Branch holds the state
        the decisions led it to. */
    ghost predicate Tracks(m: ModelTable)
      reads this, m, m.branches, m.entries
    {
      && m.Valid() && |origin| == TOTAL && |output| == |decisions|
      && (forall i :: 0 <= i < |decisions| ==> output[i] == SymbolFor(origin, decisions[..i], decisions[i]))
      && (forall o :: 0 <= o < TOTAL ==> m.branches[o].State() == ReplayAt(origin, decisions, o))
    }

    /** A coder with nothing written yet, attached to the Model in its current state. */
    constructor (m: ModelTable)
      requires m.Valid()
      ensures output == [] && decisions == [] && Tracks(m)
      ensures forall o :: 0 <= o < TOTAL ==> origin[o] == m.branches[o].State()
    {
      output := [];
      decisions := [];
      origin := m.States();
    }

    /** `VP8BoolEncoder::put(value, branch)`: the coder gets the bit with the
        probability the Branch has before the update, then the Branch records the
        same bit. */
    method Put(value: bool, branch: Branch, ghost m: ModelTable, ghost key: Key)
      requires Tracks(m) && InBounds(key) && branch == m.At(key)
      modifies this, branch
      ensures output == old(output) + [Symbol(value, old(branch.Prob()))]
      ensures decisions == old(decisions) + [Decision(key, value)] && origin == old(origin)
      ensures branch.State() == Observe(old(branch.State()), value)
      ensures Tracks(m)
    {
      ghost var o := Offset(key);
      ghost var before := decisions;
      ghost var s := branch.State();
      output := output + [Symbol(value, branch.Prob())];
      if value {
        branch.RecordTrueAndUpdate();
      } else {
        branch.RecordFalseAndUpdate();
      }
      decisions := decisions + [Decision(key, value)];
      assert decisions[..|before|] == before;
      ObservePreservesBounded(s, value);
      forall p | 0 <= p < TOTAL
        ensures m.branches[p].State() == ReplayAt(origin, decisions, p)
        ensures Bounded(m.branches[p].State())
      {
        if p != o {
          assert m.branches[p] != branch;
        }
      }
      forall i | 0 <= i < |decisions|
        ensures output[i] == SymbolFor(origin, decisions[..i], decisions[i])
      {
        if i < |before| {
          assert decisions[..i] == before[..i];
        }
      }
    }
  }

  /** Solver helper, not a property of the coder: regrouping three parts a method
      appends one after the other. */
  lemma Regroup(start: seq<Decision>, a: seq<Decision>, b: seq<Decision>, c: seq<Decision>)
    ensures start + a + b + c == start + (a + b + c)
  {
  }

  /** Appending the next decision of a run extends the coded prefix of the run by one. */
  lemma TakeOneMore(start: seq<Decision>, run: seq<Decision>, k: nat, d: Decision)
    requires k < |run| && d == run[k]
    ensures start + run[..k] + [d] == start + run[..k + 1]
  {
    assert run[..k + 1] == run[..k] + [d];
  }

  /** Codes decision k of a run through the Branch its key names: the coded
      prefix of the run grows by that decision. */
  method PutNext(e: BoolEncoder, m: ModelTable, ghost start: seq<Decision>, ghost run: seq<Decision>, ghost k: nat, key: Key, bit: bool)
    requires e.Tracks(m) && k < |run| && e.decisions == start + run[..k]
    requires run[k] == Decision(key, bit) && InBounds(key)
    modifies e, m.entries
    ensures e.Tracks(m) && e.origin == old(e.origin)
    ensures e.decisions == start + run[..k + 1]
  {
    m.AtInEntries(key);
    e.Put(bit, m.At(key), m, key);
    TakeOneMore(start, run, k, Decision(key, bit));
  }

  /** A count loop (encoder.cc:48-55, 151-165): bits `width - 1` down to 0 of `count`,
      each through `prob.at(index).at(serialized_so_far)`. */
  method PutCount(e: BoolEncoder, m: ModelTable, prob: Key, count: nat, width: nat)
    requires e.Tracks(m) && width >= 1
    requires AllInBounds(TreeTokens(prob, LowBits(count, width), width - 1))
    modifies e, m.entries
    ensures e.Tracks(m) && e.origin == old(e.origin)
    ensures e.decisions == old(e.decisions) + TreeTokens(prob, LowBits(count, width), width - 1)
  {
    ghost var bits := LowBits(count, width);
    ghost var spec := TreeTokens(prob, bits, width - 1);
    ghost var done := 0;
    var serializedSoFar := 0;
    var index: int := width - 1;
    while index >= 0
      invariant -1 <= index < width && done == width - 1 - index
      invariant e.Tracks(m) && e.origin == old(e.origin)
      invariant e.decisions == old(e.decisions) + spec[..done]
      invariant serializedSoFar == MsbValue(bits[..done])
    {
      var curBit := Bit(count, index);
      TreeTokensAt(prob, count, width, width - 1, done, index, serializedSoFar);
      var key := Extend(prob, [index as nat, serializedSoFar]);
      PutNext(e, m, old(e.decisions), spec, done, key, curBit);
      serializedSoFar := 2 * serializedSoFar + (if curBit then 1 else 0);
      done := done + 1;
      index := index - 1;
    }
  }

  /** An exponent loop (encoder.cc:64-74): the 4 bits of `prefix_remap(length)`,
      each through `exp_prob.at(i).at(serialized_so_far)`, stopping after two for
      length 0. */
  method PutExponent(e: BoolEncoder, m: ModelTable, expProb: Key, length: nat)
    requires e.Tracks(m) && length < 256
    requires AllInBounds(TreeTokens(expProb, ExponentBits(length), 3))
    modifies e, m.entries
    ensures e.Tracks(m) && e.origin == old(e.origin)
    ensures e.decisions == old(e.decisions) + TreeTokens(expProb, ExponentBits(length), 3)
  {
    var slen := PrefixRemap(length);
    ghost var bits := LowBits(slen, 4);
    ghost var spec := TreeTokens(expProb, bits, 3);
    assert ExponentBits(length) == if length == 0 then bits[..2] else bits;
    TreeTokensPrefix(expProb, bits, 3, |ExponentBits(length)|);
    ghost var done := 0;
    var serializedSoFar := 0;
    var i: int := 3;
    while i >= 0
      invariant -1 <= i <= 3 && done == 3 - i
      invariant length == 0 ==> i >= 2
      invariant e.Tracks(m) && e.origin == old(e.origin)
      invariant e.decisions == old(e.decisions) + spec[..done]
      invariant serializedSoFar == MsbValue(bits[..done])
    {
      var curBit := Bit(slen, i);
      TreeTokensAt(expProb, slen, 4, 3, done, i, serializedSoFar);
      var key := Extend(expProb, [i as nat, serializedSoFar]);
      assert InBounds(key) by {
        assert spec[..|ExponentBits(length)|][done] == spec[done];
      }
      PutNext(e, m, old(e.decisions), spec, done, key, curBit);
      serializedSoFar := 2 * serializedSoFar + (if curBit then 1 else 0);
      done := done + 1;
      if i == 2 && length == 0 {
        break;
      }
      i := i - 1;
    }
  }

  /** A noise loop (encoder.cc:79-81, 226-229): bits `count - 1` down to 0 of `absCoef`,
      bit i through `res_prob.at(i)`. */
  method PutNoise(e: BoolEncoder, m: ModelTable, resProb: Key, absCoef: nat, count: nat)
    requires e.Tracks(m)
    requires AllInBounds(NoiseTokens(resProb, LowBits(absCoef, count)))
    modifies e, m.entries
    ensures e.Tracks(m) && e.origin == old(e.origin)
    ensures e.decisions == old(e.decisions) + NoiseTokens(resProb, LowBits(absCoef, count))
  {
    ghost var spec := NoiseTokens(resProb, LowBits(absCoef, count));
    ghost var done := 0;
    var i: int := count - 1;
    while i >= 0
      invariant -1 <= i < count && done == count - 1 - i
      invariant e.Tracks(m) && e.origin == old(e.origin)
      invariant e.decisions == old(e.decisions) + spec[..done]
    {
      NoiseTokensAt(resProb, absCoef, count, done, i);
      var curBit := Bit(absCoef, i);
      var key := Extend(resProb, [i as nat]);
      PutNext(e, m, old(e.decisions), spec, done, key, curBit);
      done := done + 1;
      i := i - 1;
    }
  }

  /** The threshold loop (encoder.cc:210-223): bits `length - 2` down to
      `min_threshold` of `absCoef`, each through `thresh_prob.at(encoded_so_far)`,
      where `encoded_so_far` starts at 1 and takes in each bit coded. */
  method PutThresh(e: BoolEncoder, m: ModelTable, threshProb: Key, absCoef: nat, length: nat, minThreshold: nat)
    requires e.Tracks(m) && minThreshold + 1 <= length
    requires AllInBounds(ThreshTokens(threshProb, LowBits(ShiftRight(absCoef, minThreshold), length - 1 - minThreshold)))
    modifies e, m.entries
    ensures e.Tracks(m) && e.origin == old(e.origin)
    ensures e.decisions == old(e.decisions)
      + ThreshTokens(threshProb, LowBits(ShiftRight(absCoef, minThreshold), length - 1 - minThreshold))
  {
    ghost var bits := LowBits(ShiftRight(absCoef, minThreshold), length - 1 - minThreshold);
    ghost var spec := ThreshTokens(threshProb, bits);
    ghost var done := 0;
    var encodedSoFar := 1;
    var i: int := length - 2;
    while i >= minThreshold
      invariant minThreshold - 1 <= i <= length - 2 && done == length - 2 - i
      invariant e.Tracks(m) && e.origin == old(e.origin)
      invariant e.decisions == old(e.decisions) + spec[..done]
      invariant encodedSoFar == MsbValue([true] + bits[..done])
    {
      var curBit := Bit(absCoef, i);
      ThreshTokensAt(threshProb, absCoef, length, minThreshold, done, i, encodedSoFar);
      var key := Extend(threshProb, [encodedSoFar]);
      PutNext(e, m, old(e.decisions), spec, done, key, curBit);
      encodedSoFar := 2 * encodedSoFar + (if curBit then 1 else 0);
      done := done + 1;
      i := i - 1;
    }
  }

  /** The sign of a nonzero coefficient, `coef >= 0`, through `sign_prob`; nothing
      for a zero (encoder.cc:84-87, 120-124, 234-236). */
  method PutSign(e: BoolEncoder, m: ModelTable, signProb: Key, coef: int)
    requires e.Tracks(m) && (coef != 0 ==> InBounds(signProb))
    modifies e, m.entries
    ensures e.Tracks(m) && e.origin == old(e.origin)
    ensures e.decisions == old(e.decisions) + SignTokens(signProb, coef)
  {
    if coef != 0 {
      m.AtInEntries(signProb);
      e.Put(coef >= 0, m.At(signProb), m, signProb);
    }
  }

  /** The bits of a DC or interior coefficient below its top one, all through the
      noise row (encoder.cc:76-83, 113-119). */
  method PutResidualNoise(e: BoolEncoder, m: ModelTable, resProb: Key, coef: int)
    requires e.Tracks(m) && AllInBounds(NoiseTokens(resProb, ResidualBits(coef)))
    modifies e, m.entries
    ensures e.Tracks(m) && e.origin == old(e.origin)
    ensures e.decisions == old(e.decisions) + NoiseTokens(resProb, ResidualBits(coef))
  {
    var absCoef := Abs(coef);
    var length := BitLength(absCoef);
    if length > 1 {
      PutNoise(e, m, resProb, absCoef, length - 1);
    } else {
      assert NoiseTokens(resProb, ResidualBits(coef)) == [];
    }
  }

  /** One DC or interior coefficient through the three sub-arrays its contexts
      picked (encoder.cc:63-88, 101-126): the exponent tree, the bits below the top
      one through the noise row, and for a nonzero the sign. */
  method PutCoef(e: BoolEncoder, m: ModelTable, expProb: Key, resProb: Key, signProb: Key, coef: int)
    requires e.Tracks(m) && Int16(coef)
    requires AllInBounds(CoefTokens(expProb, NoiseTokens(resProb, ResidualBits(coef)), signProb, coef))
    modifies e, m.entries
    ensures e.Tracks(m) && e.origin == old(e.origin)
    ensures e.decisions == old(e.decisions) + CoefTokens(expProb, NoiseTokens(resProb, ResidualBits(coef)), signProb, coef)
  {
    ghost var start := e.decisions;
    var absCoef := Abs(coef);
    var length := BitLength(absCoef);
    Int16BitLength(coef);
    ghost var exp := TreeTokens(expProb, ExponentBits(length), 3);
    ghost var res := NoiseTokens(resProb, ResidualBits(coef));
    ghost var sgn := SignTokens(signProb, coef);
    assert CoefTokens(expProb, res, signProb, coef) == exp + res + sgn;
    AllInBoundsParts(exp + res, sgn);
    AllInBoundsParts(exp, res);
    PutExponent(e, m, expProb, length);
    PutResidualNoise(e, m, resProb, coef);
    assert sgn != [] ==> sgn[0].key == signProb;
    PutSign(e, m, signProb, coef);
    Regroup(start, exp, res, sgn);
  }

  /** The DC or an interior coefficient with the Branches of `exponent_array_7x7`,
      `residual_noise_array_7x7` and `sign_array`, in the context of count n. */
  method PutCoef7x7(e: BoolEncoder, m: ModelTable, t: Tables, q: seq<nat>, b: Block, coord: nat, coef: int, n: nat)
    requires e.Tracks(m) && WellFormed(t) && Quantization(q) && BlockOk(b) && (coord == 0 || IsInterior(coord))
    requires n < 50 && Int16(coef) && Abs(coef) < 2048
    modifies e, m.entries
    ensures e.Tracks(m) && e.origin == old(e.origin)
    ensures e.decisions == old(e.decisions) + Coef7x7Tokens(t, q, b, coord, coef, n)
  {
    Coef7x7InBounds(t, q, b, coord, coef, n);
    var expProb := ExponentArray7x7(t, b, coord, n);
    var resProb := ResidualNoiseArray7x7(t, b.blockType, coord, n);
    var signProb := SignArray(t, q, b, coord);
    PutCoef(e, m, expProb, resProb, signProb, coef);
  }

  /** Bits `length - 2` down to `minThreshold` through the threshold row, then the
      bits below through the noise row (encoder.cc:210-229). */
  method PutThreshThenNoise(e: BoolEncoder, m: ModelTable, threshProb: Key, noiseProb: Key, absCoef: nat, length: nat, minThreshold: nat)
    requires e.Tracks(m) && minThreshold + 1 <= length
    requires AllInBounds(ThreshTokens(threshProb, LowBits(ShiftRight(absCoef, minThreshold), length - 1 - minThreshold)))
    requires AllInBounds(NoiseTokens(noiseProb, LowBits(absCoef, minThreshold)))
    modifies e, m.entries
    ensures e.Tracks(m) && e.origin == old(e.origin)
    ensures e.decisions == old(e.decisions)
      + (ThreshTokens(threshProb, LowBits(ShiftRight(absCoef, minThreshold), length - 1 - minThreshold))
         + NoiseTokens(noiseProb, LowBits(absCoef, minThreshold)))
  {
    ghost var start := e.decisions;
    ghost var hi := ThreshTokens(threshProb, LowBits(ShiftRight(absCoef, minThreshold), length - 1 - minThreshold));
    ghost var lo := NoiseTokens(noiseProb, LowBits(absCoef, minThreshold));
    PutThresh(e, m, threshProb, absCoef, length, minThreshold);
    PutNoise(e, m, noiseProb, absCoef, minThreshold);
    RegroupTwo(start, hi, lo);
  }

  /** The bits of an edge coefficient below its top one (encoder.cc:199-232): when
      bit `length - 2` lies at or above `min_threshold`, the bits down to the
      threshold go through `residual_thresh_array` and the rest through
      `residual_noise_array_x`; otherwise all of them go through the noise row. */
  method PutEdgeResidual(e: BoolEncoder, m: ModelTable, t: Tables, q: seq<nat>, b: Block, coord: nat, coef: int, ne: nat)
    requires e.Tracks(m) && WellFormed(t) && Quantization(q) && BlockOk(b) && IsEdge(coord)
    requires ne < NUM_NONZEROS_BINS && Abs(coef) <= GetMaxValue(q, coord)
    modifies e, m.entries
    ensures e.Tracks(m) && e.origin == old(e.origin)
    ensures e.decisions == old(e.decisions) + EdgeResidualTokens(t, q, b, coord, coef, ne)
  {
    var absCoef := Abs(coef);
    var length := BitLength(absCoef);
    if length > 1 {
      var minThreshold := 0;
      var maxVal := GetMaxValue(q, coord);
      var maxLen := BitLength(maxVal);
      if maxLen > RESIDUAL_NOISE_FLOOR {
        minThreshold := maxLen - RESIDUAL_NOISE_FLOOR;
      }
      assert minThreshold == MinThreshold(maxVal);
      var noiseProb := ResidualNoiseArrayX(b.blockType, coord, ne);
      if length - 2 >= minThreshold {
        EdgeResidualThresh(t, q, b, coord, coef, ne, absCoef, length, maxVal, minThreshold);
        var threshProb := ResidualThreshArray(t, q, b, coord, length, minThreshold, maxVal);
        PutThreshThenNoise(e, m, threshProb, noiseProb, absCoef, length, minThreshold);
      } else {
        EdgeResidualNoise(t, q, b, coord, coef, ne, absCoef, length, maxVal, minThreshold);
        PutNoise(e, m, noiseProb, absCoef, length - 1);
      }
    }
  }

  /** An edge coefficient (encoder.cc:181-243) with the Branches of
      `exponent_array_x`, the residual rows and `sign_array`, in the context of the
      remaining count `ne` of its row or column. */
  method PutEdgeCoef(e: BoolEncoder, m: ModelTable, t: Tables, q: seq<nat>, b: Block, coord: nat, coef: int, ne: nat)
    requires e.Tracks(m) && WellFormed(t) && Quantization(q) && BlockOk(b) && IsEdge(coord)
    requires ne < NUM_NONZEROS_BINS && Int16(coef) && Abs(coef) <= GetMaxValue(q, coord)
    modifies e, m.entries
    ensures e.Tracks(m) && e.origin == old(e.origin)
    ensures e.decisions == old(e.decisions) + EdgeCoefTokens(t, q, b, coord, coef, ne)
  {
    ghost var start := e.decisions;
    EdgeCoefInBounds(t, q, b, coord, coef, ne);
    var length := BitLength(Abs(coef));
    Int16BitLength(coef);
    var expProb := ExponentArrayX(t, q, b, coord, ne);
    var signProb := SignArray(t, q, b, coord);
    ghost var exp := TreeTokens(expProb, ExponentBits(length), 3);
    ghost var res := EdgeResidualTokens(t, q, b, coord, coef, ne);
    ghost var sgn := SignTokens(signProb, coef);
    assert EdgeCoefTokens(t, q, b, coord, coef, ne) == exp + res + sgn;
    AllInBoundsParts(exp + res, sgn);
    AllInBoundsParts(exp, res);
    PutExponent(e, m, expProb, length);
    PutEdgeResidual(e, m, t, q, b, coord, coef, ne);
    assert sgn != [] ==> sgn[0].key == signProb;
    PutSign(e, m, signProb, coef);
    Regroup(start, exp, res, sgn);
  }

  /** The interior pass (encoder.cc:91-131): the interior positions in zig-zag
      order, each coded in the context of the nonzeros still to come, until none
      are left. */
  method SerializeInterior(e: BoolEncoder, m: ModelTable, t: Tables, q: seq<nat>, b: Block)
    requires e.Tracks(m) && Legal(t, q, b)
    modifies e, m.entries
    ensures e.Tracks(m) && e.origin == old(e.origin)
    ensures e.decisions == old(e.decisions) + InteriorFrom(t, q, b, 0, b.numNonzeros7x7)
  {
    var c := b.coefficients;
    var numNonzerosLeft := b.numNonzeros7x7;
    var zz := 0;
    while zz < 64
      invariant 0 <= zz <= 64 && InteriorNonzerosFrom(c, zz) <= numNonzerosLeft <= 49
      invariant e.Tracks(m) && e.origin == old(e.origin)
      invariant old(e.decisions) + InteriorFrom(t, q, b, 0, b.numNonzeros7x7)
        == e.decisions + InteriorFrom(t, q, b, zz, numNonzerosLeft)
    {
      var coord := Unzigzag(zz);
      if IsInterior(coord) {
        InteriorNonzerosStep(c, zz);
        ghost var left := numNonzerosLeft;
        ghost var before := e.decisions;
        PutCoef7x7(e, m, t, q, b, coord, c[coord], numNonzerosLeft);
        if c[coord] != 0 {
          numNonzerosLeft := numNonzerosLeft - 1;
        }
        InteriorFromAfter(t, q, b, zz, left, numNonzerosLeft, before);
        if numNonzerosLeft == 0 {
          break;
        }
      } else {
        InteriorFromSkip(t, q, b, zz, numNonzerosLeft);
      }
      zz := zz + 1;
    }
  }

  /** `eob_x` and `eob_y` (encoder.cc:132-144): the largest column and row of a
      nonzero interior coefficient. */
  method ComputeEob(c: seq<int>) returns (eobX: nat, eobY: nat)
    requires |c| == 64
    ensures eobX == EobFrom(c, 0, true) && eobY == EobFrom(c, 0, false)
  {
    eobX, eobY := 0, 0;
    for zz := 0 to 64
      invariant eobX < 8 && eobY < 8
      invariant Max(eobX, EobFrom(c, zz, true)) == EobFrom(c, 0, true)
      invariant Max(eobY, EobFrom(c, zz, false)) == EobFrom(c, 0, false)
    {
      var coord := Unzigzag(zz);
      var x, y := coord % 8, coord / 8;
      EobStep(c, zz, true, eobX, coord, x);
      EobStep(c, zz, false, eobY, coord, y);
      if x > 0 && y > 0 {
        if c[coord] != 0 {
          eobX := Max(eobX, x);
          eobY := Max(eobY, y);
        }
      }
    }
  }

  /** One position of the edge pass (encoder.cc:169-242): coded when it lies in row 0
      while `num_nonzeros_left_x` is positive or in column 0 while
      `num_nonzeros_left_y` is, with the count of its own line as context; a nonzero
      uses up one of that count. */
  method SerializeEdgeAt(e: BoolEncoder, m: ModelTable, t: Tables, q: seq<nat>, b: Block, zz: nat, leftX: nat, leftY: nat)
      returns (nextX: nat, nextY: nat)
    requires e.Tracks(m) && WellFormed(t) && Quantization(q) && BlockOk(b) && EdgesWithinMax(q, b)
    requires 1 <= zz < 64 && leftX <= 7 && leftY <= 7
    modifies e, m.entries
    ensures e.Tracks(m) && e.origin == old(e.origin) && nextX <= 7 && nextY <= 7
    ensures old(e.decisions) + EdgeFrom(t, q, b, zz, leftX, leftY) == e.decisions + EdgeFrom(t, q, b, zz + 1, nextX, nextY)
  {
    var c := b.coefficients;
    var coord := Unzigzag(zz);
    var x, y := coord % 8, coord / 8;
    nextX, nextY := leftX, leftY;
    // the column-0 count overrides the row-0 one
    var numNonzerosEdge := if x == 0 && leftY > 0 then leftY else if y == 0 && leftX > 0 then leftX else 0;
    if (x == 0 && leftY > 0) || (y == 0 && leftX > 0) {
      EdgeCodedIsEdge(zz, leftX, leftY);
      PutEdgeCoef(e, m, t, q, b, coord, c[coord], numNonzerosEdge);
      if c[coord] != 0 {
        if x == 0 {
          nextY := leftY - 1;
        }
        if y == 0 {
          nextX := leftX - 1;
        }
      }
      EdgeFromAfter(t, q, b, zz, leftX, leftY, numNonzerosEdge, nextX, nextY, old(e.decisions), e.decisions);
    } else {
      EdgeFromSkip(t, q, b, zz, leftX, leftY);
    }
  }

  /** The edge pass (encoder.cc:166-243): row-0 positions while `num_nonzeros_left_x`
      is positive and column-0 positions while `num_nonzeros_left_y` is, in zig-zag
      order, each coded in the context of its own line's count. */
  method SerializeEdges(e: BoolEncoder, m: ModelTable, t: Tables, q: seq<nat>, b: Block)
    requires e.Tracks(m) && Legal(t, q, b)
    modifies e, m.entries
    ensures e.Tracks(m) && e.origin == old(e.origin)
    ensures e.decisions == old(e.decisions) + EdgeFrom(t, q, b, 1, b.numNonzerosX, b.numNonzerosY)
  {
    var numNonzerosLeftX := b.numNonzerosX;
    var numNonzerosLeftY := b.numNonzerosY;
    for zz := 1 to 64
      invariant numNonzerosLeftX <= 7 && numNonzerosLeftY <= 7
      invariant e.Tracks(m) && e.origin == old(e.origin)
      invariant old(e.decisions) + EdgeFrom(t, q, b, 1, b.numNonzerosX, b.numNonzerosY)
        == e.decisions + EdgeFrom(t, q, b, zz, numNonzerosLeftX, numNonzerosLeftY)
    {
      numNonzerosLeftX, numNonzerosLeftY := SerializeEdgeAt(e, m, t, q, b, zz, numNonzerosLeftX, numNonzerosLeftY);
    }
  }

  /** The 7x7 count, the DC in the context of that count (predicted, then stored as an
      int16_t) and the interior pass (encoder.cc:48-130). */
  method SerializeCountDcInterior(e: BoolEncoder, m: ModelTable, t: Tables, q: seq<nat>, b: Block)
    requires e.Tracks(m) && Legal(t, q, b)
    modifies e, m.entries
    ensures e.Tracks(m) && e.origin == old(e.origin)
    ensures e.decisions == old(e.decisions) + CountTokens(t, b)
      + Coef7x7Tokens(t, q, b, 0, CodedDc(t, q, b), b.numNonzeros7x7) + InteriorFrom(t, q, b, 0, b.numNonzeros7x7)
  {
    var n := b.numNonzeros7x7;
    CountTokensInBounds(t, b);
    PutCount(e, m, NonzeroCounts7x7(t, b), n, 6);
    var coef := ToInt16(PredictOrUnpredictDc(t, q, b, false));
    PutCoef7x7(e, m, t, q, b, 0, coef, n);
    SerializeInterior(e, m, t, q, b);
  }

  /** The row-0 (`isX`) or column-0 count, 3 bits in the context of `eob` and the
      7x7 count (encoder.cc:145-165). */
  method PutEdgeCount(e: BoolEncoder, m: ModelTable, b: Block, eob: nat, isX: bool)
    requires e.Tracks(m) && |b.coefficients| == 64 && b.numNonzeros7x7 <= 49
    requires eob == EobFrom(b.coefficients, 0, isX)
    modifies e, m.entries
    ensures e.Tracks(m) && e.origin == old(e.origin)
    ensures e.decisions == old(e.decisions) + EdgeCountTokens(b, isX)
  {
    EdgeCountTokensInBounds(b, isX);
    var prob := NonzeroCounts1x8(b.blockType, eob, b.numNonzeros7x7, isX);
    PutCount(e, m, prob, if isX then b.numNonzerosX else b.numNonzerosY, 3);
  }

  /** `eob_x` and `eob_y`, then the row-0 and column-0 counts in their context
      (encoder.cc:132-165). */
  method SerializeEdgeCounts(e: BoolEncoder, m: ModelTable, b: Block)
    requires e.Tracks(m) && |b.coefficients| == 64 && b.numNonzeros7x7 <= 49
    modifies e, m.entries
    ensures e.Tracks(m) && e.origin == old(e.origin)
    ensures e.decisions == old(e.decisions) + EdgeCountTokens(b, true) + EdgeCountTokens(b, false)
  {
    var eobX, eobY := ComputeEob(b.coefficients);
    PutEdgeCount(e, m, b, eobX, true);
    PutEdgeCount(e, m, b, eobY, false);
  }

  /** `Block::serialize_tokens` (encoder.cc:44-243): every decision of the block, in
      the order of the grammar. */
  method SerializeTokens(e: BoolEncoder, m: ModelTable, t: Tables, q: seq<nat>, b: Block)
    requires e.Tracks(m) && Legal(t, q, b)
    modifies e, m.entries
    ensures e.Tracks(m) && e.origin == old(e.origin)
    ensures e.decisions == old(e.decisions) + BlockTokens(t, q, b)
  {
    SerializeCountDcInterior(e, m, t, q, b);
    SerializeEdgeCounts(e, m, b);
    SerializeEdges(e, m, t, q, b);
    BlockTokensParts(old(e.decisions), t, q, b);
  }
}
