/** The adaptive binary probability estimator `Branch` of branch.hh: a false count,
    a true count, an update counter and the 8-bit probability that the next bit is
    false, in the convention of the VP8 boolean coder (section 7 of RFC 6386). */
module Branches {
  import opened Numeric

  /** A counter that has reached this value is not incremented any more: both
      counters are halved instead. */
  const COUNT_LIMIT: nat := 512

  /** Counters are uint32_t; `full_count_` wraps around modulo 2^32. */
  const UINT32_RANGE: nat := 0x1_0000_0000

  /** The value of a Branch: its four fields. */
  datatype BranchState = BranchState(falseCount: nat, trueCount: nat, fullCount: nat, probability: nat)

  /** What `optimize` stores: 256 * (false + 1) / (false + true + 2), truncated.
      It always fits the 8-bit Probability, and it says "false is at least as
      likely as true" exactly when the false count is at least the true count. */
  function Probability(falseCount: nat, trueCount: nat): (p: nat)
    ensures p <= 255
    ensures p >= 128 <==> falseCount >= trueCount
  {
    var n, d := 256 * (falseCount + 1), falseCount + trueCount + 2;
    DivAtLeast(n, d, 256);
    DivAtLeast(n, d, 128);
    n / d
  }

  /** `n / 2 + (n & 1)`: half of n, rounded up. */
  function Decay(n: nat): (r: nat)
    ensures n == 2 * r || n == 2 * r - 1
  {
    n / 2 + n % 2
  }

  /** The state the constructor produces: the field defaults (1, 0, 0) with the
      probability recomputed by `optimize`, not the field default 128. */
  const Initial: BranchState := BranchState(1, 0, 0, Probability(1, 0))

  /** `record_true_and_update` */
  function AfterTrue(s: BranchState): (s': BranchState)
    ensures s.trueCount < COUNT_LIMIT ==> s'.trueCount == s.trueCount + 1 && s'.falseCount == s.falseCount
    ensures s.trueCount >= COUNT_LIMIT ==>
      s'.trueCount == Decay(s.trueCount) && s'.falseCount == Decay(s.falseCount)
    ensures s'.fullCount == (s.fullCount + 1) % UINT32_RANGE
    ensures s'.probability == Probability(s'.falseCount, s'.trueCount)
  {
    var f, t :=
      if s.trueCount < COUNT_LIMIT then s.falseCount else Decay(s.falseCount),
      if s.trueCount < COUNT_LIMIT then s.trueCount + 1 else Decay(s.trueCount);
    BranchState(f, t, (s.fullCount + 1) % UINT32_RANGE, Probability(f, t))
  }

  /** `record_false_and_update` */
  function AfterFalse(s: BranchState): (s': BranchState)
    ensures s.falseCount < COUNT_LIMIT ==> s'.falseCount == s.falseCount + 1 && s'.trueCount == s.trueCount
    ensures s.falseCount >= COUNT_LIMIT ==>
      s'.trueCount == Decay(s.trueCount) && s'.falseCount == Decay(s.falseCount)
    ensures s'.fullCount == (s.fullCount + 1) % UINT32_RANGE
    ensures s'.probability == Probability(s'.falseCount, s'.trueCount)
  {
    var f, t :=
      if s.falseCount < COUNT_LIMIT then s.falseCount + 1 else Decay(s.falseCount),
      if s.falseCount < COUNT_LIMIT then s.trueCount else Decay(s.trueCount);
    BranchState(f, t, (s.fullCount + 1) % UINT32_RANGE, Probability(f, t))
  }

  /** One observed bit, as the coders feed it back. */
  function Observe(s: BranchState, bit: bool): BranchState
  {
    if bit then AfterTrue(s) else AfterFalse(s)
  }

  /** A sequence of observed bits, first to last. */
  function ObserveAll(s: BranchState, bits: seq<bool>): BranchState
    decreases |bits|
  {
    if bits == [] then s else ObserveAll(Observe(s, bits[0]), bits[1..])
  }

  /** Observing one more bit continues from the state the earlier bits led to. */
  lemma {:induction false} ObserveAllSnoc(s: BranchState, bits: seq<bool>, b: bool)
    ensures ObserveAll(s, bits + [b]) == Observe(ObserveAll(s, bits), b)
    decreases |bits|
  {
    if bits != [] {
      assert (bits + [b])[1..] == bits[1..] + [b];
      ObserveAllSnoc(Observe(s, bits[0]), bits[1..], b);
    }
  }

  /** The invariant of every Branch updated only through `record_*_and_update`. */
  predicate Bounded(s: BranchState)
  {
    && 1 <= s.falseCount <= COUNT_LIMIT
    && s.trueCount <= COUNT_LIMIT
    && s.fullCount < UINT32_RANGE
    && s.probability == Probability(s.falseCount, s.trueCount)
  }

  /** One update keeps the counters within [1, 512] x [0, 512]; a saturated
      counter is halved together with the other one and not incremented. */
  lemma ObservePreservesBounded(s: BranchState, bit: bool)
    requires Bounded(s)
    ensures Bounded(Observe(s, bit))
    ensures bit && s.trueCount == COUNT_LIMIT ==> Observe(s, bit).trueCount == COUNT_LIMIT / 2
    ensures !bit && s.falseCount == COUNT_LIMIT ==> Observe(s, bit).falseCount == COUNT_LIMIT / 2
    ensures Observe(s, bit).fullCount == (s.fullCount + 1) % UINT32_RANGE
  {
  }

  /** From any bounded state, every sequence of updates stays bounded, and the
      update counter advances by exactly one per bit, modulo 2^32. */
  lemma {:induction false} ObserveAllBounded(s: BranchState, bits: seq<bool>)
    requires Bounded(s)
    ensures Bounded(ObserveAll(s, bits))
    ensures ObserveAll(s, bits).fullCount == (s.fullCount + |bits|) % UINT32_RANGE
    decreases |bits|
  {
    if bits != [] {
      var s1 := Observe(s, bits[0]);
      ObservePreservesBounded(s, bits[0]);
      ObserveAllBounded(s1, bits[1..]);
      ModAddOne(s.fullCount, s1.fullCount, |bits| - 1);
    }
  }

  lemma ModAddOne(x: nat, y: nat, n: nat)
    requires y == (x + 1) % UINT32_RANGE
    ensures (y + n) % UINT32_RANGE == (x + (n + 1)) % UINT32_RANGE
  {
  }

  /** Every state reachable from a freshly constructed Branch is bounded. */
  lemma {:induction false} ReachableBounded(bits: seq<bool>)
    ensures Bounded(ObserveAll(Initial, bits))
    ensures ObserveAll(Initial, bits).fullCount == |bits| % UINT32_RANGE
  {
    ObserveAllBounded(Initial, bits);
  }

  /** The source's own arithmetic example: a new Branch says 170, and after one
      true bit the counts are (1, 1) and the probability 128. */
  lemma InitialThenTrue()
    ensures Initial.probability == 170
    ensures AfterTrue(Initial) == BranchState(1, 1, 1, 128)
  {
  }

  /** Branch: the four fields of branch.hh:10-12, updated in place. */
  class Branch {
    var falseCount: nat
    var trueCount: nat
    var fullCount: nat
    var probability: nat

    /** The value of this Branch. */
    function State(): BranchState
      reads this
    {
      BranchState(falseCount, trueCount, fullCount, probability)
    }

    /** `Branch::Branch()`: the member defaults, then `optimize()`. */
    constructor ()
      ensures State() == Initial
      ensures probability == 170
    {
      falseCount, trueCount, fullCount, probability := 1, 0, 0, 128;
      new;
      Optimize();
    }

    function Prob(): nat
      reads this
    {
      probability
    }

    function TrueCount(): nat
      reads this
    {
      trueCount
    }

    function FalseCount(): nat
      reads this
    {
      falseCount
    }

    /** `record_true`: bumps the true count and does not recompute the probability. */
    method RecordTrue()
      modifies this`trueCount
      ensures trueCount == (old(trueCount) + 1) % UINT32_RANGE
    {
      trueCount := (trueCount + 1) % UINT32_RANGE;
    }

    /** `record_false`: bumps the false count and does not recompute the probability. */
    method RecordFalse()
      modifies this`falseCount
      ensures falseCount == (old(falseCount) + 1) % UINT32_RANGE
    {
      falseCount := (falseCount + 1) % UINT32_RANGE;
    }

    method RecordTrueAndUpdate()
      modifies this
      ensures State() == AfterTrue(old(State()))
      ensures old(Bounded(State())) ==> Bounded(State())
    {
      fullCount := (fullCount + 1) % UINT32_RANGE;
      if trueCount < COUNT_LIMIT {
        trueCount := trueCount + 1;
      } else {
        trueCount := Decay(trueCount);
        falseCount := Decay(falseCount);
      }
      Normalize();
      Optimize();
    }

    method RecordFalseAndUpdate()
      modifies this
      ensures State() == AfterFalse(old(State()))
      ensures old(Bounded(State())) ==> Bounded(State())
    {
      fullCount := (fullCount + 1) % UINT32_RANGE;
      if falseCount < COUNT_LIMIT {
        falseCount := falseCount + 1;
      } else {
        trueCount := Decay(trueCount);
        falseCount := Decay(falseCount);
      }
      Normalize();
      Optimize();
    }

    /** `x = Branch()` in the reset pass of encoder.cc:332: the entry is
        overwritten with a default-constructed Branch. */
    method Reset()
      modifies this
      ensures State() == Initial
    {
      falseCount, trueCount, fullCount := 1, 0, 0;
      Optimize();
    }

    /** `normalize`: every statement of its body is compiled out or commented
        out, so it changes no field. */
    method Normalize()
      modifies this
      ensures State() == old(State())
    {
    }

    /** `optimize`: recomputes the probability from the counts. */
    method Optimize()
      modifies this`probability
      ensures probability == Probability(falseCount, trueCount)
      ensures probability <= 255
    {
      probability := Probability(falseCount, trueCount);
    }
  }
}
