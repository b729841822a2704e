/** The token grammar `parse_tokens` reads (decoder.cc). It is not the grammar the
    encoder writes: exponents are read in unary, the sign comes before the residual
    bits, and the DC is read last, after both edges. A read is the UniversalPrior
    selector it is made under and the bit it yields; which Branch a selector picks is
    decided by code that is not part of this model. The functions here are the
    specification the imperative decoder is proved against. */
module DecoderGrammar {
  import opened Numeric
  import opened Contexts
  import EncoderGrammar

  /** `prefix_unremap`: 0 stays 0, anything else goes down by 3, as a uint8_t. */
  function PrefixUnremap(v: nat): (r: nat)
    requires v < 256
    ensures r < 256
  {
    if v == 0 then 0 else (v + 253) % 256
  }

  /** `prefix_unremap` undoes `prefix_remap` on every byte but 253, which the remap
      sends to 0 by wrap-around; and `prefix_remap` undoes `prefix_unremap` on every
      byte but 3, which the unremap sends to 0. */
  lemma PrefixUnremapInverts(v: nat)
    requires v < 256
    ensures PrefixUnremap(EncoderGrammar.PrefixRemap(v)) == v <==> v != 253
    ensures EncoderGrammar.PrefixRemap(PrefixUnremap(v)) == v <==> v != 3
  {
  }

  // ----- Reads -----

  /** Which count a count bit belongs to: the 6-bit 7x7 count, or the 3-bit count of
      the row-0 (`horizontal`) or column-0 edge. */
  datatype CountKind = Count7x7 | CountEdge(horizontal: bool)

  /** The visible arguments of the `update_coefficient_context*` call that primes the
      UniversalPrior before a coefficient is read: the zig-zag index and the count
      still to come for an interior position, the lane and the count of its edge for
      an edge position, the 7x7 count for the DC. */
  datatype Region =
    | Interior(zz: nat, left: nat)
    | Edge(horizontal: bool, lane: nat, left: nat)
    | Dc(count: nat)

  /** The UniversalPrior `set_*` call a bit is read under, with its arguments: the
      count bit ids (with the bits read so far), the exponent ids, the sign, and the
      residual ids (with the coefficient decoded so far). */
  datatype Selector =
    | CountBit(kind: CountKind, index: nat, sofar: nat)
    | ExponentBit(region: Region, length: nat)
    | SignBit(region: Region)
    | ResidualBit(region: Region, index: nat, sofar: nat)

  /** One `decoder.get`: the selector and the bit read. */
  datatype Read = Read(selector: Selector, bit: bool)

  /** The bit at position p of the stream; past its end the stream reads as 0. */
  function BitAt(s: seq<bool>, p: nat): bool
  {
    if p < |s| then s[p] else false
  }

  /** The n bits of the stream from position p on. */
  function Window(s: seq<bool>, p: nat, n: nat): (w: seq<bool>)
    ensures |w| == n && forall i :: 0 <= i < n ==> w[i] == BitAt(s, p + i)
  {
    seq(n, i requires 0 <= i < n => BitAt(s, p + i))
  }

  lemma WindowCons(s: seq<bool>, p: nat, n: nat)
    requires n > 0
    ensures Window(s, p, n) == [BitAt(s, p)] + Window(s, p + 1, n - 1)
  {
    var w, v := Window(s, p, n), Window(s, p + 1, n - 1);
    assert w[1..] == v by {
      forall i | 0 <= i < n - 1
        ensures w[1..][i] == v[i]
      {
        assert w[i + 1] == BitAt(s, p + (i + 1));
      }
    }
    assert w == [w[0]] + w[1..];
  }

  /** Every bit is 1. */
  predicate Ones(w: seq<bool>)
  {
    forall k :: 0 <= k < |w| ==> w[k]
  }

  /** A window is its first m bits followed by the next n. */
  lemma WindowSplit(s: seq<bool>, p: nat, m: nat, n: nat)
    ensures Window(s, p, m + n)[..m] == Window(s, p, m)
    ensures Window(s, p, m + n)[m..] == Window(s, p + m, n)
  {
    var w, u := Window(s, p, m + n), Window(s, p + m, n);
    forall i | 0 <= i < n
      ensures w[m..][i] == u[i]
    {
      assert w[m + i] == BitAt(s, p + (m + i));
    }
  }

  /** The reads take their bits from the stream in order, one each, from p on. */
  predicate Consumes(s: seq<bool>, p: nat, rs: seq<Read>)
  {
    forall i :: 0 <= i < |rs| ==> rs[i].bit == BitAt(s, p + i)
  }

  lemma ConsumesAppend(s: seq<bool>, p: nat, a: seq<Read>, b: seq<Read>)
    requires Consumes(s, p, a) && Consumes(s, p + |a|, b)
    ensures Consumes(s, p, a + b)
  {
    assert forall i :: |a| <= i < |a| + |b| ==> (a + b)[i] == b[i - |a|];
  }

  lemma ConsumesCons(s: seq<bool>, p: nat, r: Read, rest: seq<Read>)
    requires r.bit == BitAt(s, p) && Consumes(s, p + 1, rest)
    ensures Consumes(s, p, [r] + rest)
  {
    assert forall i :: 1 <= i < 1 + |rest| ==> ([r] + rest)[i] == rest[i - 1];
  }

  /** A decoded value and the reads that decoded it. */
  datatype Run = Run(value: int, trace: seq<Read>)

  // ----- Counts -----

  /** `num_nonzeros_7x7` or `num_nonzeros_edge`: n bits, most significant first, each
      read under its index and the bits already read (`decoded_so_far`), which start
      at `sofar`. */
  function CountRun(s: seq<bool>, p: nat, kind: CountKind, n: nat, sofar: nat): (r: Run)
    ensures |r.trace| == n && Consumes(s, p, r.trace) && r.value >= 0
    decreases n
  {
    if n == 0 then Run(sofar, [])
    else
      var b := BitAt(s, p);
      var rest := CountRun(s, p + 1, kind, n - 1, 2 * sofar + (if b then 1 else 0));
      ConsumesCons(s, p, Read(CountBit(kind, n - 1, sofar), b), rest.trace);
      Run(rest.value, [Read(CountBit(kind, n - 1, sofar), b)] + rest.trace)
  }

  lemma {:induction false} CountRunValue(s: seq<bool>, p: nat, kind: CountKind, n: nat, sofar: nat)
    ensures CountRun(s, p, kind, n, sofar).value == sofar * Pow2(n) + MsbValue(Window(s, p, n))
    decreases n
  {
    if n > 0 {
      var b := BitAt(s, p);
      var bv := if b then 1 else 0;
      CountRunValue(s, p + 1, kind, n - 1, 2 * sofar + bv);
      WindowCons(s, p, n);
      MsbValueCons(b, Window(s, p + 1, n - 1));
      DoubleAdd(sofar, bv, Pow2(n - 1));
    }
  }

  lemma DoubleAdd(a: nat, b: nat, x: nat)
    ensures (2 * a + b) * x == a * (2 * x) + b * x
  {
  }

  /** A count is the value of its n bits, most significant first, so below 2^n: the
      7x7 count is at most 63 and an edge count at most 7. */
  lemma CountBits(s: seq<bool>, p: nat, kind: CountKind, n: nat)
    ensures CountRun(s, p, kind, n, 0).value == MsbValue(Window(s, p, n)) < Pow2(n)
  {
    CountRunValue(s, p, kind, n, 0);
  }

  /** An edge count fits its three bits, so the `num_nonzeros_edge > 7` check of
      `decode_one_edge` never fires. */
  lemma EdgeCountFits(s: seq<bool>, p: nat, horizontal: bool)
    ensures CountRun(s, p, CountEdge(horizontal), 3, 0).value <= 7
  {
    CountBits(s, p, CountEdge(horizontal), 3);
    Pow2Table();
  }

  // ----- Coefficients -----

  /** The exponent: continue bits, each read under `set_*_exp_id(length)`, until a 0
      bit or until `MAX_EXPONENT` of them were 1. The value is the number of 1 bits:
      all bits before it are 1, and the bit that ends it, if any, is 0. */
  function ExponentRun(s: seq<bool>, p: nat, region: Region, length: nat, maxExp: nat): (r: Run)
    requires length <= maxExp
    ensures length <= r.value <= maxExp
    ensures |r.trace| == r.value - length + (if r.value < maxExp then 1 else 0)
    ensures Consumes(s, p, r.trace)
    ensures Ones(Window(s, p, r.value - length))
    ensures r.value < maxExp ==> !BitAt(s, p + r.value - length)
    decreases maxExp - length
  {
    if length == maxExp then Run(length, [])
    else if !BitAt(s, p) then Run(length, [Read(ExponentBit(region, length), false)])
    else
      var rest := ExponentRun(s, p + 1, region, length + 1, maxExp);
      ConsumesCons(s, p, Read(ExponentBit(region, length), true), rest.trace);
      WindowCons(s, p, rest.value - length);
      Run(rest.value, [Read(ExponentBit(region, length), true)] + rest.trace)
  }

  /** The converse: a run of 1 bits closed by a 0 (or reaching `MAX_EXPONENT`) reads
      as its length. */
  lemma {:induction false} ExponentRunOf(s: seq<bool>, p: nat, region: Region, length: nat, maxExp: nat, len: nat)
    requires length <= len <= maxExp
    requires Ones(Window(s, p, len - length))
    requires len < maxExp ==> !BitAt(s, p + (len - length))
    ensures ExponentRun(s, p, region, length, maxExp).value == len
    decreases len - length
  {
    if length < len {
      WindowCons(s, p, len - length);
      assert Window(s, p, len - length)[0];
      var u, w := Window(s, p + 1, len - (length + 1)), Window(s, p, len - length);
      assert u == w[1..];
      assert Ones(u) by {
        forall k | 0 <= k < |u|
          ensures u[k]
        {
          assert u[k] == w[k + 1];
        }
      }
      ExponentRunOf(s, p + 1, region, length + 1, maxExp, len);
    }
  }

  /** The residual bits below the top bit, most significant first, each OR'd into the
      coefficient at its place (`coef |= cur_bit << i`) and read under the
      coefficient decoded so far. */
  function ResidualRun(s: seq<bool>, p: nat, region: Region, n: nat, coef: nat): (r: Run)
    ensures |r.trace| == n && Consumes(s, p, r.trace)
    decreases n
  {
    if n == 0 then Run(coef, [])
    else
      var b := BitAt(s, p);
      var rest := ResidualRun(s, p + 1, region, n - 1, OrBit(coef, n - 1, b));
      ConsumesCons(s, p, Read(ResidualBit(region, n - 1, coef), b), rest.trace);
      Run(rest.value, [Read(ResidualBit(region, n - 1, coef), b)] + rest.trace)
  }

  /** OR-ing n bits into a multiple of 2^n adds their value. */
  lemma {:induction false} ResidualRunValue(s: seq<bool>, p: nat, region: Region, n: nat, k: nat)
    ensures ResidualRun(s, p, region, n, k * Pow2(n)).value == k * Pow2(n) + MsbValue(Window(s, p, n))
    decreases n
  {
    if n > 0 {
      var b := BitAt(s, p);
      var bv := if b then 1 else 0;
      OrBitIntoMultiple(k, n, b);
      DoubleAdd(k, bv, Pow2(n - 1));
      ResidualRunValue(s, p + 1, region, n - 1, 2 * k + bv);
      WindowCons(s, p, n);
      MsbValueCons(b, Window(s, p + 1, n - 1));
    }
  }

  /** What follows a nonzero exponent `len`: the sign (1 for positive, 0 for `neg`),
      then the residual bits under the top bit `1 << (len - 1)`; the value negated
      for `neg`. */
  function SignedRun(s: seq<bool>, q: nat, region: Region, len: nat): (r: Run)
    requires len > 0
    ensures |r.trace| == len && Consumes(s, q, r.trace)
  {
    var positive := BitAt(s, q);
    var m := ResidualRun(s, q + 1, region, len - 1, Pow2(len - 1));
    ConsumesCons(s, q, Read(SignBit(region), positive), m.trace);
    Run(if positive then m.value else -m.value, [Read(SignBit(region), positive)] + m.trace)
  }

  /** One coefficient as `parse_tokens` and `decode_one_edge` read it: the exponent,
      then for a nonzero one the sign and the residual. */
  function CoefRun(s: seq<bool>, p: nat, region: Region, maxExp: nat): (r: Run)
    ensures Consumes(s, p, r.trace)
  {
    var e := ExponentRun(s, p, region, 0, maxExp);
    if e.value == 0 then Run(0, e.trace)
    else
      var m := SignedRun(s, p + |e.trace|, region, e.value);
      ConsumesAppend(s, p, e.trace, m.trace);
      Run(m.value, e.trace + m.trace)
  }

  /** The value after a nonzero exponent `len`: its magnitude is `2^(len-1)` with the
      residual bits below it, so its bit length is `len` and it is never 0; it is
      negative exactly when the sign bit is 0 (the encoder writes `coef >= 0`). */
  lemma SignedRunValue(s: seq<bool>, q: nat, region: Region, len: nat)
    requires len > 0
    ensures var r := SignedRun(s, q, region, len).value;
      && Abs(r) == Pow2(len - 1) + MsbValue(Window(s, q + 1, len - 1))
      && BitLength(Abs(r)) == len
      && (r < 0 <==> !BitAt(s, q))
  {
    ResidualRunValue(s, q + 1, region, len - 1, 1);
    assert 1 * Pow2(len - 1) == Pow2(len - 1);
    var m := ResidualRun(s, q + 1, region, len - 1, Pow2(len - 1)).value;
    assert Pow2(len) == 2 * Pow2(len - 1);
    BitLengthUnique(m, len);
  }

  /** A decoded coefficient is nonzero exactly when its exponent is, and then its
      magnitude, bit length and sign are those `SignedRunValue` states. */
  lemma CoefRunValue(s: seq<bool>, p: nat, region: Region, maxExp: nat)
    ensures var e := ExponentRun(s, p, region, 0, maxExp);
      var r := CoefRun(s, p, region, maxExp);
      var q := p + |e.trace|;
      && (r.value == 0 <==> e.value == 0)
      && (e.value > 0 ==>
            && Abs(r.value) == Pow2(e.value - 1) + MsbValue(Window(s, q + 1, e.value - 1))
            && BitLength(Abs(r.value)) == e.value
            && (r.value < 0 <==> !BitAt(s, q)))
  {
    var e := ExponentRun(s, p, region, 0, maxExp);
    var r := CoefRun(s, p, region, maxExp);
    if e.value > 0 {
      var q := p + |e.trace|;
      var v := SignedRun(s, q, region, e.value).value;
      assert r.value == v;
      SignedRunValue(s, q, region, e.value);
      assert Abs(r.value) == Abs(v);
      assert Abs(r.value) == Pow2(e.value - 1) + MsbValue(Window(s, q + 1, e.value - 1));
      assert BitLength(Abs(r.value)) == e.value && r.value != 0;
      assert r.value < 0 <==> !BitAt(s, q);
    } else {
      assert r.value == 0;
    }
  }

  /** With `MAX_EXPONENT` at most 15 a decoded coefficient fits an int16_t. */
  lemma CoefRunInt16(s: seq<bool>, p: nat, region: Region, maxExp: nat)
    requires maxExp <= 15
    ensures Int16(CoefRun(s, p, region, maxExp).value)
  {
    CoefRunValue(s, p, region, maxExp);
    var len := ExponentRun(s, p, region, 0, maxExp).value;
    Pow2Monotone(len, 15);
    Pow2Table();
    assert Pow2(16) == 2 * Pow2(15);
  }

  /** The exponent part of `CoefStream`: as many 1 bits as the bit length, and a
      closing 0 unless that is `MAX_EXPONENT`. */
  function ExponentStream(len: nat, maxExp: nat): (w: seq<bool>)
    ensures |w| == len + (if len < maxExp then 1 else 0)
  {
    seq(len, _ => true) + (if len < maxExp then [false] else [])
  }

  /** The bits `parse_tokens` reads for coefficient v: its exponent, then for a
      nonzero v its sign (1 for positive) and the bits of |v| below the top one. */
  function CoefStream(v: int, maxExp: nat): (w: seq<bool>)
    requires BitLength(Abs(v)) <= maxExp
  {
    var len := BitLength(Abs(v));
    ExponentStream(len, maxExp) + (if len == 0 then [] else [v > 0] + LowBits(Abs(v), len - 1))
  }

  /** Reading an exponent back: where the stream holds `ExponentStream(len)`, the
      exponent read is len, from exactly those bits. */
  lemma ExponentRoundTrip(s: seq<bool>, p: nat, region: Region, maxExp: nat, len: nat)
    requires len <= maxExp
    requires Window(s, p, |ExponentStream(len, maxExp)|) == ExponentStream(len, maxExp)
    ensures ExponentRun(s, p, region, 0, maxExp).value == len
    ensures |ExponentRun(s, p, region, 0, maxExp).trace| == |ExponentStream(len, maxExp)|
  {
    var w := ExponentStream(len, maxExp);
    var u := Window(s, p, len);
    assert Ones(u) by {
      forall k | 0 <= k < len
        ensures u[k]
      {
        assert u[k] == Window(s, p, |w|)[k] == w[k];
      }
    }
    if len < maxExp {
      assert Window(s, p, |w|)[len] == w[len] == false;
    }
    ExponentRunOf(s, p, region, 0, maxExp, len);
  }

  /** Reading the sign and residual back: where the stream holds the sign of a nonzero
      v and the bits of |v| below its top one, they read as v. */
  lemma SignedRoundTrip(s: seq<bool>, q: nat, region: Region, v: int)
    requires v != 0
    requires Window(s, q, BitLength(Abs(v))) == [v > 0] + LowBits(Abs(v), BitLength(Abs(v)) - 1)
    ensures SignedRun(s, q, region, BitLength(Abs(v))).value == v
  {
    var a, len := Abs(v), BitLength(Abs(v));
    var w := Window(s, q, len);
    var u, lb := Window(s, q + 1, len - 1), LowBits(a, len - 1);
    assert u == lb by {
      forall i | 0 <= i < len - 1
        ensures u[i] == lb[i]
      {
        assert u[i] == w[i + 1];
      }
    }
    assert BitAt(s, q) == w[0] == (v > 0);
    var r := SignedRun(s, q, region, len).value;
    SignedRunValue(s, q, region, len);
    LowBitsValue(a, len - 1);
    assert MsbValue(u) == LowValue(a, len - 1);
    LowValueTop(a, len);
    assert Abs(r) == a;
  }

  /** Reading a coefficient back: wherever the stream holds the bits of v, the
      decoder reads v from them, and exactly them. */
  lemma CoefRoundTrip(s: seq<bool>, p: nat, region: Region, maxExp: nat, v: int)
    requires BitLength(Abs(v)) <= maxExp
    requires Window(s, p, |CoefStream(v, maxExp)|) == CoefStream(v, maxExp)
    ensures CoefRun(s, p, region, maxExp).value == v
    ensures |CoefRun(s, p, region, maxExp).trace| == |CoefStream(v, maxExp)|
  {
    var w := CoefStream(v, maxExp);
    var len := BitLength(Abs(v));
    var x := ExponentStream(len, maxExp);
    WindowSplit(s, p, |x|, |w| - |x|);
    assert w[..|x|] == x;
    ExponentRoundTrip(s, p, region, maxExp, len);
    if len > 0 {
      assert w[|x|..] == [v > 0] + LowBits(Abs(v), len - 1);
      SignedRoundTrip(s, p + |x|, region, v);
    }
  }

  // ----- Passes -----

  /** The zig-zag order of the 49 interior positions (`unzigzag49`, a table that is
      not part of this model): 49 distinct positions with x > 0 and y > 0, the
      condition `parse_tokens` asserts in debug builds. */
  predicate InteriorOrder(order: seq<nat>)
  {
    && ScanOrder(order)
    && (forall i :: 0 <= i < 49 ==> IsInterior(order[i]))
  }

  /** What the passes need of the order: 49 distinct positions in the block. */
  predicate ScanOrder(order: seq<nat>)
  {
    |order| == 49 && InBlock(order) && Distinct(order)
  }

  /** Every position lies in the 8x8 block. */
  predicate InBlock(vs: seq<nat>)
  {
    forall i :: 0 <= i < |vs| ==> vs[i] < 64
  }

  predicate Distinct(vs: seq<nat>)
  {
    forall i, j :: 0 <= i < j < |vs| ==> vs[i] != vs[j]
  }

  /** What a pass leaves: the coefficients, the reads, the positions it decoded in
      order, and the count still left. */
  datatype Pass = Pass(coefficients: seq<int>, trace: seq<Read>, visits: seq<nat>, left: nat)

  /** A coefficient reader: the coefficient read from position p of the stream under
      the given context. The passes are stated for any reader; `CoefReader` is the
      one `parse_tokens` uses. */
  type Reader = (nat, Region) -> Run

  function CoefReader(s: seq<bool>, maxExp: nat): Reader
  {
    (q: nat, region: Region) => CoefRun(s, q, region, maxExp)
  }

  /** The interior loop of `parse_tokens` from zig-zag index zz on, with `left` nonzeros
      still to come: while positions remain and the count is positive, read the
      coefficient at `unzigzag49[zz]` and write it, one fewer to come after a
      nonzero. */
  function InteriorRun(read: Reader, p: nat, order: seq<nat>, zz: nat, left: nat, c: seq<int>): (r: Pass)
    requires |order| == 49 && InBlock(order) && |c| == 64 && zz <= 49
    ensures |r.coefficients| == 64
    decreases |order| - zz
  {
    if zz == 49 || left == 0 then Pass(c, [], [], left)
    else
      var coord := order[zz];
      var k := read(p, Interior(zz, left));
      var rest := InteriorRun(read, p + |k.trace|, order, zz + 1,
                              if k.value != 0 then left - 1 else left, c[coord := k.value]);
      Pass(rest.coefficients, k.trace + rest.trace, [coord] + rest.visits, rest.left)
  }

  /** One step of the interior pass, with the coefficient read named. */
  lemma InteriorRunStep(read: Reader, p: nat, order: seq<nat>, zz: nat, left: nat, c: seq<int>, k: Run)
    requires |order| == 49 && InBlock(order) && |c| == 64 && zz < 49 && left > 0
    requires k == read(p, Interior(zz, left))
    ensures var rest := InteriorRun(read, p + |k.trace|, order, zz + 1,
                                    if k.value != 0 then left - 1 else left, c[order[zz] := k.value]);
      InteriorRun(read, p, order, zz, left, c) == Pass(rest.coefficients, k.trace + rest.trace, [order[zz]] + rest.visits, rest.left)
  {
  }

  /** The raster position of edge lane `lane`: `delta * (lane + 1)`, with `delta` 1 along
      row 0 and 8 down column 0. */
  function LaneCoord(horizontal: bool, lane: nat): nat
  {
    if horizontal then lane + 1 else 8 * (lane + 1)
  }

  /** The lane loop of `decode_one_edge` from lane `lane` on, with `left` nonzeros still
      to come on this edge: while lanes remain and the count is positive, read the
      coefficient of the lane and write it. The noise threshold only decides which
      of two loops reads a residual bit; both read it under the same selector and OR
      it in the same way, so it does not appear here. */
  function EdgeRun(read: Reader, p: nat, horizontal: bool, lane: nat, left: nat, c: seq<int>): (r: Pass)
    requires |c| == 64 && lane <= 7
    ensures |r.coefficients| == 64
    decreases |c| - lane
  {
    if lane == 7 || left == 0 then Pass(c, [], [], left)
    else
      var coord := LaneCoord(horizontal, lane);
      var k := read(p, Edge(horizontal, lane, left));
      var rest := EdgeRun(read, p + |k.trace|, horizontal, lane + 1,
                          if k.value != 0 then left - 1 else left, c[coord := k.value]);
      Pass(rest.coefficients, k.trace + rest.trace, [coord] + rest.visits, rest.left)
  }

  /** One step of an edge pass, with the coefficient read named. */
  lemma EdgeRunStep(read: Reader, p: nat, horizontal: bool, lane: nat, left: nat, c: seq<int>, k: Run)
    requires |c| == 64 && lane < 7 && left > 0
    requires k == read(p, Edge(horizontal, lane, left))
    ensures var rest := EdgeRun(read, p + |k.trace|, horizontal, lane + 1,
                                if k.value != 0 then left - 1 else left, c[LaneCoord(horizontal, lane) := k.value]);
      EdgeRun(read, p, horizontal, lane, left, c) == Pass(rest.coefficients, k.trace + rest.trace, [LaneCoord(horizontal, lane)] + rest.visits, rest.left)
  {
  }

  /** How many of the positions vs hold a nonzero coefficient. */
  function NonzerosAt(c: seq<int>, vs: seq<nat>): (n: nat)
    ensures n <= |vs|
  {
    if vs == [] then 0
    else (if vs[0] < |c| && c[vs[0]] != 0 then 1 else 0) + NonzerosAt(c, vs[1..])
  }

  /** The interior pass from zz on leaves the positions of the order before zz alone. */
  lemma {:induction false} InteriorRunKeepsEarlier(read: Reader, p: nat, order: seq<nat>, zz: nat, left: nat,
                                                   c: seq<int>, j: nat)
    requires |order| == 49 && InBlock(order) && Distinct(order) && |c| == 64 && j < zz <= 49
    ensures InteriorRun(read, p, order, zz, left, c).coefficients[order[j]] == c[order[j]]
    decreases 49 - zz
  {
    if zz < 49 && left > 0 {
      var k := read(p, Interior(zz, left));
      var left' := if k.value != 0 then left - 1 else left;
      InteriorRunStep(read, p, order, zz, left, c, k);
      InteriorRunKeepsEarlier(read, p + |k.trace|, order, zz + 1, left', c[order[zz] := k.value], j);
    }
  }

  /** An edge pass from lane on leaves the lanes before it alone. */
  lemma {:induction false} EdgeRunKeepsEarlier(read: Reader, p: nat, horizontal: bool, lane: nat, left: nat,
                                               c: seq<int>, j: nat)
    requires |c| == 64 && j < lane <= 7
    ensures EdgeRun(read, p, horizontal, lane, left, c).coefficients[LaneCoord(horizontal, j)] == c[LaneCoord(horizontal, j)]
    decreases 7 - lane
  {
    if lane < 7 && left > 0 {
      var k := read(p, Edge(horizontal, lane, left));
      var left' := if k.value != 0 then left - 1 else left;
      EdgeRunStep(read, p, horizontal, lane, left, c, k);
      EdgeRunKeepsEarlier(read, p + |k.trace|, horizontal, lane + 1, left', c[LaneCoord(horizontal, lane) := k.value], j);
    }
  }

  /** One step of the interior pass keeps the count, given that the rest of the pass does. */
  lemma InteriorCountStep(read: Reader, p: nat, order: seq<nat>, zz: nat, left: nat, c: seq<int>, k: Run)
    requires |order| == 49 && InBlock(order) && Distinct(order) && |c| == 64 && zz < 49 && left > 0
    requires k == read(p, Interior(zz, left))
    requires var rest := InteriorRun(read, p + |k.trace|, order, zz + 1, if k.value != 0 then left - 1 else left,
                                     c[order[zz] := k.value]);
      NonzerosAt(rest.coefficients, rest.visits) + rest.left == if k.value != 0 then left - 1 else left
    ensures var r := InteriorRun(read, p, order, zz, left, c);
      NonzerosAt(r.coefficients, r.visits) + r.left == left
  {
    var left' := if k.value != 0 then left - 1 else left;
    var c' := c[order[zz] := k.value];
    var rest := InteriorRun(read, p + |k.trace|, order, zz + 1, left', c');
    InteriorRunStep(read, p, order, zz, left, c, k);
    InteriorRunKeepsEarlier(read, p + |k.trace|, order, zz + 1, left', c', zz);
    CountCons(InteriorRun(read, p, order, zz, left, c), rest, k.trace, order[zz], k.value, left, left');
  }

  /** One step of an edge pass keeps the count, given that the rest of the pass does. */
  lemma EdgeCountStep(read: Reader, p: nat, horizontal: bool, lane: nat, left: nat, c: seq<int>, k: Run)
    requires |c| == 64 && lane < 7 && left > 0
    requires k == read(p, Edge(horizontal, lane, left))
    requires var rest := EdgeRun(read, p + |k.trace|, horizontal, lane + 1, if k.value != 0 then left - 1 else left,
                                 c[LaneCoord(horizontal, lane) := k.value]);
      NonzerosAt(rest.coefficients, rest.visits) + rest.left == if k.value != 0 then left - 1 else left
    ensures var r := EdgeRun(read, p, horizontal, lane, left, c);
      NonzerosAt(r.coefficients, r.visits) + r.left == left
  {
    var left' := if k.value != 0 then left - 1 else left;
    var c' := c[LaneCoord(horizontal, lane) := k.value];
    var rest := EdgeRun(read, p + |k.trace|, horizontal, lane + 1, left', c');
    EdgeRunStep(read, p, horizontal, lane, left, c, k);
    EdgeRunKeepsEarlier(read, p + |k.trace|, horizontal, lane + 1, left', c', lane);
    CountCons(EdgeRun(read, p, horizontal, lane, left, c), rest, k.trace, LaneCoord(horizontal, lane), k.value, left, left');
  }

  /** A pass that writes `value` at `coord` and then runs on keeps the count. */
  lemma CountCons(r: Pass, rest: Pass, kTrace: seq<Read>, coord: nat, value: int, left: nat, left': nat)
    requires r == Pass(rest.coefficients, kTrace + rest.trace, [coord] + rest.visits, rest.left)
    requires coord < |rest.coefficients| && rest.coefficients[coord] == value
    requires left' == (if value != 0 then left - 1 else left)
    requires NonzerosAt(rest.coefficients, rest.visits) + rest.left == left'
    ensures NonzerosAt(r.coefficients, r.visits) + r.left == left
  {
    CountStep(rest.coefficients, coord, rest.visits, left, left', rest.left);
  }

  /** One step of a pass keeps the count: a position decoded nonzero takes one from
      what is left. */
  lemma CountStep(c: seq<int>, v: nat, vs: seq<nat>, left: nat, left': nat, rest: nat)
    requires v < |c| && left' == (if c[v] != 0 then left - 1 else left)
    requires NonzerosAt(c, vs) + rest == left'
    ensures NonzerosAt(c, [v] + vs) + rest == left
  {
    assert ([v] + vs)[1..] == vs;
  }

  /** The interior pass visits the zig-zag order from zz on without a gap, and stops at
      its end or as soon as the count runs out. */
  lemma {:induction false} InteriorRunVisits(read: Reader, p: nat, order: seq<nat>, zz: nat, left: nat, c: seq<int>)
    requires |order| == 49 && InBlock(order) && |c| == 64 && zz <= 49
    ensures var r := InteriorRun(read, p, order, zz, left, c);
      && zz + |r.visits| <= 49
      && (forall i :: 0 <= i < |r.visits| ==> r.visits[i] == order[zz + i])
      && (zz + |r.visits| == 49 || r.left == 0)
    decreases 49 - zz
  {
    if zz < 49 && left > 0 {
      var k := read(p, Interior(zz, left));
      var left' := if k.value != 0 then left - 1 else left;
      var c' := c[order[zz] := k.value];
      var rest := InteriorRun(read, p + |k.trace|, order, zz + 1, left', c');
      InteriorRunVisits(read, p + |k.trace|, order, zz + 1, left', c');
      var r := InteriorRun(read, p, order, zz, left, c);
      assert r.visits == [order[zz]] + rest.visits && r.left == rest.left;
      assert forall i :: 1 <= i < |r.visits| ==> r.visits[i] == rest.visits[i - 1];
    }
  }

  /** The interior pass writes only the positions it visits. */
  lemma {:induction false} InteriorRunFrame(read: Reader, p: nat, order: seq<nat>, zz: nat, left: nat, c: seq<int>)
    requires |order| == 49 && InBlock(order) && |c| == 64 && zz <= 49
    ensures var r := InteriorRun(read, p, order, zz, left, c);
      forall k :: 0 <= k < 64 && k !in r.visits ==> r.coefficients[k] == c[k]
    decreases 49 - zz
  {
    if zz < 49 && left > 0 {
      var k := read(p, Interior(zz, left));
      var left' := if k.value != 0 then left - 1 else left;
      var rest := InteriorRun(read, p + |k.trace|, order, zz + 1, left', c[order[zz] := k.value]);
      InteriorRunFrame(read, p + |k.trace|, order, zz + 1, left', c[order[zz] := k.value]);
      var r := InteriorRun(read, p, order, zz, left, c);
      assert r.visits == [order[zz]] + rest.visits && r.coefficients == rest.coefficients;
      forall j | 0 <= j < 64 && j !in r.visits
        ensures r.coefficients[j] == c[j]
      {
        assert j != order[zz] && j !in rest.visits;
        assert rest.coefficients[j] == c[order[zz] := k.value][j];
      }
    }
  }

  /** The count the interior pass starts with is the number of nonzeros it decodes
      plus what is left at its end. */
  lemma {:induction false} InteriorRunCount(read: Reader, p: nat, order: seq<nat>, zz: nat, left: nat, c: seq<int>)
    requires |order| == 49 && InBlock(order) && Distinct(order) && |c| == 64 && zz <= 49
    ensures var r := InteriorRun(read, p, order, zz, left, c);
      NonzerosAt(r.coefficients, r.visits) + r.left == left
    decreases 49 - zz
  {
    if zz < 49 && left > 0 {
      var k := read(p, Interior(zz, left));
      InteriorRunCount(read, p + |k.trace|, order, zz + 1, if k.value != 0 then left - 1 else left,
                       c[order[zz] := k.value]);
      InteriorCountStep(read, p, order, zz, left, c, k);
    }
  }

  /** The edge pass visits the lanes from `lane` on without a gap, and stops after
      lane 6 or as soon as the count runs out. */
  lemma {:induction false} EdgeRunVisits(read: Reader, p: nat, horizontal: bool, lane: nat, left: nat, c: seq<int>)
    requires |c| == 64 && lane <= 7
    ensures var r := EdgeRun(read, p, horizontal, lane, left, c);
      && lane + |r.visits| <= 7
      && (forall i :: 0 <= i < |r.visits| ==> r.visits[i] == LaneCoord(horizontal, lane + i))
      && (lane + |r.visits| == 7 || r.left == 0)
    decreases 7 - lane
  {
    if lane < 7 && left > 0 {
      var coord := LaneCoord(horizontal, lane);
      var k := read(p, Edge(horizontal, lane, left));
      var left' := if k.value != 0 then left - 1 else left;
      var c' := c[coord := k.value];
      var rest := EdgeRun(read, p + |k.trace|, horizontal, lane + 1, left', c');
      EdgeRunVisits(read, p + |k.trace|, horizontal, lane + 1, left', c');
      var r := EdgeRun(read, p, horizontal, lane, left, c);
      assert r.visits == [coord] + rest.visits && r.left == rest.left;
      forall i | 1 <= i < |r.visits|
        ensures r.visits[i] == LaneCoord(horizontal, lane + i)
      {
        assert r.visits[i] == rest.visits[i - 1] == LaneCoord(horizontal, lane + 1 + (i - 1));
      }
    }
  }

  /** The edge pass writes only the positions it visits. */
  lemma {:induction false} EdgeRunFrame(read: Reader, p: nat, horizontal: bool, lane: nat, left: nat, c: seq<int>)
    requires |c| == 64 && lane <= 7
    ensures var r := EdgeRun(read, p, horizontal, lane, left, c);
      forall k :: 0 <= k < 64 && k !in r.visits ==> r.coefficients[k] == c[k]
    decreases 7 - lane
  {
    if lane < 7 && left > 0 {
      var k := read(p, Edge(horizontal, lane, left));
      var left' := if k.value != 0 then left - 1 else left;
      var rest := EdgeRun(read, p + |k.trace|, horizontal, lane + 1, left', c[LaneCoord(horizontal, lane) := k.value]);
      EdgeRunFrame(read, p + |k.trace|, horizontal, lane + 1, left', c[LaneCoord(horizontal, lane) := k.value]);
      var r := EdgeRun(read, p, horizontal, lane, left, c);
      assert r.visits == [LaneCoord(horizontal, lane)] + rest.visits && r.coefficients == rest.coefficients;
      forall j | 0 <= j < 64 && j !in r.visits
        ensures r.coefficients[j] == c[j]
      {
        assert j != LaneCoord(horizontal, lane) && j !in rest.visits;
        assert rest.coefficients[j] == c[LaneCoord(horizontal, lane) := k.value][j];
      }
    }
  }

  /** The count an edge pass starts with is the number of nonzeros it decodes plus
      what is left at its end. */
  lemma {:induction false} EdgeRunCount(read: Reader, p: nat, horizontal: bool, lane: nat, left: nat, c: seq<int>)
    requires |c| == 64 && lane <= 7
    ensures var r := EdgeRun(read, p, horizontal, lane, left, c);
      NonzerosAt(r.coefficients, r.visits) + r.left == left
    decreases 7 - lane
  {
    if lane < 7 && left > 0 {
      var k := read(p, Edge(horizontal, lane, left));
      EdgeRunCount(read, p + |k.trace|, horizontal, lane + 1, if k.value != 0 then left - 1 else left,
                   c[LaneCoord(horizontal, lane) := k.value]);
      EdgeCountStep(read, p, horizontal, lane, left, c, k);
    }
  }

  /** Every lane of an edge is an edge position: row 0 for `horizontal`, column 0
      otherwise. */
  lemma LaneIsEdge(horizontal: bool, lane: nat)
    requires lane < 7
    ensures IsEdge(LaneCoord(horizontal, lane))
    ensures Line(LaneCoord(horizontal, lane), !horizontal) == 0
  {
  }

  /** `eob_x` or `eob_y` after the interior pass: the largest column (`isX`) or row
      index among the visited positions that were decoded nonzero, 0 if none. */
  function EobOf(c: seq<int>, vs: seq<nat>, isX: bool): nat
  {
    if vs == [] then 0
    else
      var v := vs[|vs| - 1];
      var e := EobOf(c, vs[..|vs| - 1], isX);
      if v < |c| && c[v] != 0 then Max(e, Line(v, isX)) else e
  }

  /** The end-of-block index is the maximum the source's running `std::max` keeps: no
      nonzero visited position lies beyond it, and a nonzero one lies on it unless it
      is 0. */
  lemma {:induction false} EobOfIsMax(c: seq<int>, vs: seq<nat>, isX: bool)
    ensures forall i :: 0 <= i < |vs| && vs[i] < |c| && c[vs[i]] != 0 ==> Line(vs[i], isX) <= EobOf(c, vs, isX)
    ensures EobOf(c, vs, isX) == 0
      || exists i :: 0 <= i < |vs| && vs[i] < |c| && c[vs[i]] != 0 && Line(vs[i], isX) == EobOf(c, vs, isX)
  {
    if vs != [] {
      var init := vs[..|vs| - 1];
      EobOfIsMax(c, init, isX);
      assert forall i :: 0 <= i < |init| ==> vs[i] == init[i];
      if EobOf(c, vs, isX) != EobOf(c, init, isX) {
        assert Line(vs[|vs| - 1], isX) == EobOf(c, vs, isX);
      } else if EobOf(c, vs, isX) != 0 {
        var i :| 0 <= i < |init| && init[i] < |c| && c[init[i]] != 0 && Line(init[i], isX) == EobOf(c, init, isX);
        assert vs[i] == init[i];
      }
    }
  }

  /** Writing a position outside vs leaves the end-of-block index of vs alone. */
  lemma {:induction false} EobOfFrame(c: seq<int>, vs: seq<nat>, isX: bool, x: nat, v: int)
    requires x < |c| && x !in vs
    ensures EobOf(c[x := v], vs, isX) == EobOf(c, vs, isX)
  {
    if vs != [] {
      EobOfFrame(c, vs[..|vs| - 1], isX, x, v);
    }
  }

  // ----- Whole blocks -----

  /** `parse_tokens` either stops at a 7x7 count above 49 (`STREAM_INCONSISTENT`) or
      yields the block's coefficients and its 7x7 count. */
  datatype Outcome = StreamInconsistent | Decoded(coefficients: seq<int>, numNonzeros7x7: nat)

  datatype Parse = Parse(outcome: Outcome, trace: seq<Read>)

  /** The block's coefficients and the reads that gave them. */
  datatype Tokens = Tokens(coefficients: seq<int>, trace: seq<Read>)

  /** A block as `parse_tokens` reads it: the 7x7 count, then, when it is at most 49,
      the rest of the block (`BlockBody`). */
  function BlockRun(s: seq<bool>, p: nat, order: seq<nat>, maxExp: nat, reconstructDc: (seq<int>, int) -> int): (r: Parse)
    requires ScanOrder(order)
  {
    var count := CountRun(s, p, Count7x7, 6, 0);
    var n := count.value;
    if n > 49 then Parse(StreamInconsistent, count.trace)
    else
      var body := BlockBody(s, p + 6, order, maxExp, n, reconstructDc, Zeros());
      Parse(Decoded(body.coefficients, n), count.trace + body.trace)
  }

  /** A block after its 7x7 count n, starting from block c (zeroed by the caller):
      the interior pass, then the edges and the DC. */
  function BlockBody(s: seq<bool>, p: nat, order: seq<nat>, maxExp: nat, n: nat, reconstructDc: (seq<int>, int) -> int,
                     c: seq<int>): (r: Tokens)
    requires ScanOrder(order) && |c| == 64
  {
    var interior := InteriorRun(CoefReader(s, maxExp), p, order, 0, n, c);
    var rest := EdgesAndDc(s, p + |interior.trace|, maxExp, n, reconstructDc, interior.coefficients);
    Tokens(rest.coefficients, interior.trace + rest.trace)
  }

  /** The edges, then the DC last. The DC read is a difference to a prediction;
      `reconstructDc` stands for `adv_predict_or_unpredict_dc` with the prediction
      made from the decoded block, code that is not part of this model. */
  function EdgesAndDc(s: seq<bool>, p: nat, maxExp: nat, n: nat, reconstructDc: (seq<int>, int) -> int, c: seq<int>): (r: Tokens)
    requires |c| == 64
  {
    var edges := EdgesRun(s, p, maxExp, c);
    var dc := CoefRun(s, p + |edges.trace|, Dc(n), maxExp);
    Tokens(edges.coefficients[0 := reconstructDc(edges.coefficients, dc.value)], edges.trace + dc.trace)
  }

  /** `decode_edge`: row 0, then column 0. */
  function EdgesRun(s: seq<bool>, p: nat, maxExp: nat, c: seq<int>): (r: Tokens)
    requires |c| == 64
    ensures |r.coefficients| == 64
  {
    var row := OneEdgeRun(s, p, true, maxExp, c);
    var column := OneEdgeRun(s, p + |row.trace|, false, maxExp, row.coefficients);
    Tokens(column.coefficients, row.trace + column.trace)
  }

  /** `decode_one_edge`: the edge's 3-bit count, then its lane pass. */
  function OneEdgeRun(s: seq<bool>, p: nat, horizontal: bool, maxExp: nat, c: seq<int>): (r: Tokens)
    requires |c| == 64
    ensures |r.coefficients| == 64
  {
    var count := CountRun(s, p, CountEdge(horizontal), 3, 0);
    var lanes := EdgeRun(CoefReader(s, maxExp), p + 3, horizontal, 0, count.value, c);
    Tokens(lanes.coefficients, count.trace + lanes.trace)
  }

  /** The block `bzero` leaves. */
  function Zeros(): (z: seq<int>)
    ensures |z| == 64 && forall k :: 0 <= k < 64 ==> z[k] == 0
  {
    seq(64, _ => 0)
  }

  /** The block body is the interior pass followed by the edges and the DC. */
  lemma BlockBodySplit(s: seq<bool>, p: nat, order: seq<nat>, maxExp: nat, n: nat,
                       reconstructDc: (seq<int>, int) -> int, c: seq<int>,
                       interior: Pass, q: nat, c2: seq<int>, rest: Tokens)
    requires ScanOrder(order)
    requires |c| == 64 && interior == InteriorRun(CoefReader(s, maxExp), p, order, 0, n, c)
    requires q == p + |interior.trace| && c2 == interior.coefficients
    requires rest == EdgesAndDc(s, q, maxExp, n, reconstructDc, c2)
    ensures BlockBody(s, p, order, maxExp, n, reconstructDc, c) == Tokens(rest.coefficients, interior.trace + rest.trace)
  {
  }

  /** `parse_tokens` stops with `STREAM_INCONSISTENT` exactly when the six count bits
      read above 49; otherwise the 7x7 count it reports is their value. */
  lemma BlockRunCount(s: seq<bool>, p: nat, order: seq<nat>, maxExp: nat, reconstructDc: (seq<int>, int) -> int)
    requires ScanOrder(order)
    ensures var r := BlockRun(s, p, order, maxExp, reconstructDc);
      && (r.outcome.StreamInconsistent? <==> MsbValue(Window(s, p, 6)) > 49)
      && (r.outcome.Decoded? ==> r.outcome.numNonzeros7x7 == MsbValue(Window(s, p, 6)))
  {
    CountBits(s, p, Count7x7, 6);
  }

  /** An edge pass never writes an interior position. */
  lemma {:induction false} EdgeRunKeepsInterior(read: Reader, p: nat, horizontal: bool, lane: nat, left: nat,
                                                c: seq<int>, k: nat)
    requires |c| == 64 && lane <= 7 && IsInterior(k)
    ensures EdgeRun(read, p, horizontal, lane, left, c).coefficients[k] == c[k]
    decreases 7 - lane
  {
    if lane < 7 && left > 0 {
      var r := read(p, Edge(horizontal, lane, left));
      EdgeRunStep(read, p, horizontal, lane, left, c, r);
      LaneIsEdge(horizontal, lane);
      EdgeRunKeepsInterior(read, p + |r.trace|, horizontal, lane + 1, if r.value != 0 then left - 1 else left,
                           c[LaneCoord(horizontal, lane) := r.value], k);
    }
  }

  /** `decode_one_edge` never writes an interior position. */
  lemma OneEdgeKeepsInterior(s: seq<bool>, p: nat, horizontal: bool, maxExp: nat, c: seq<int>, k: nat)
    requires |c| == 64 && IsInterior(k)
    ensures OneEdgeRun(s, p, horizontal, maxExp, c).coefficients[k] == c[k]
  {
    var count := CountRun(s, p, CountEdge(horizontal), 3, 0);
    EdgeRunKeepsInterior(CoefReader(s, maxExp), p + 3, horizontal, 0, count.value, c, k);
  }

  /** Neither the edges nor the DC write an interior position. */
  lemma EdgesAndDcKeepInterior(s: seq<bool>, p: nat, maxExp: nat, n: nat, reconstructDc: (seq<int>, int) -> int,
                               c: seq<int>, k: nat)
    requires |c| == 64 && IsInterior(k)
    ensures EdgesAndDc(s, p, maxExp, n, reconstructDc, c).coefficients[k] == c[k]
  {
    var row := OneEdgeRun(s, p, true, maxExp, c);
    OneEdgeKeepsInterior(s, p, true, maxExp, c, k);
    OneEdgeKeepsInterior(s, p + |row.trace|, false, maxExp, row.coefficients, k);
  }

  /** Blocks that agree on the positions vs have as many nonzeros there. */
  lemma {:induction false} NonzerosAtAgree(c1: seq<int>, c2: seq<int>, vs: seq<nat>)
    requires |c1| == |c2| && forall i :: 0 <= i < |vs| ==> vs[i] < |c1| && c1[vs[i]] == c2[vs[i]]
    ensures NonzerosAt(c1, vs) == NonzerosAt(c2, vs)
  {
    if vs != [] {
      assert forall i :: 0 <= i < |vs| - 1 ==> vs[1..][i] == vs[i + 1];
      NonzerosAtAgree(c1, c2, vs[1..]);
    }
  }

  /** With the zig-zag order on the interior, the decoded block holds, at the positions
      the interior pass visited, the 7x7 count less what the pass left unspent: the
      edges and the DC read after it do not disturb it. */
  lemma BlockBodyCount(s: seq<bool>, p: nat, order: seq<nat>, maxExp: nat, n: nat,
                       reconstructDc: (seq<int>, int) -> int, c: seq<int>)
    requires InteriorOrder(order) && |c| == 64
    ensures var interior := InteriorRun(CoefReader(s, maxExp), p, order, 0, n, c);
      NonzerosAt(BlockBody(s, p, order, maxExp, n, reconstructDc, c).coefficients, interior.visits) + interior.left == n
  {
    var read := CoefReader(s, maxExp);
    var interior := InteriorRun(read, p, order, 0, n, c);
    var q, c2 := p + |interior.trace|, interior.coefficients;
    var rest := EdgesAndDc(s, q, maxExp, n, reconstructDc, c2);
    BlockBodySplit(s, p, order, maxExp, n, reconstructDc, c, interior, q, c2, rest);
    InteriorRunCount(read, p, order, 0, n, c);
    InteriorRunVisits(read, p, order, 0, n, c);
    forall i | 0 <= i < |interior.visits|
      ensures interior.visits[i] < 64 && rest.coefficients[interior.visits[i]] == c2[interior.visits[i]]
    {
      assert interior.visits[i] == order[i];
      EdgesAndDcKeepInterior(s, q, maxExp, n, reconstructDc, c2, interior.visits[i]);
    }
    NonzerosAtAgree(rest.coefficients, c2, interior.visits);
  }
}
