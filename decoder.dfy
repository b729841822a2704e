/** `parse_tokens`, `decode_edge` and `decode_one_edge` (decoder.cc) as loops over a
    bool decoder that hands out the decoded decisions one at a time. Every method
    is proved to read exactly the bits, under exactly the selectors, that the
    grammar in module DecoderGrammar prescribes, and to leave the block that
    grammar describes. */
module Decoder {
  import opened Numeric
  import opened Contexts
  import opened DecoderGrammar

  /** `BoolDecoder`, as far as `parse_tokens` sees it: the decisions it yields, in
      order, and (ghost) the reads made so far. */
  class BoolDecoder {
    const stream: seq<bool>
    var pos: nat
    ghost var trace: seq<Read>

    /** The decoder has handed out the first `pos` decisions of the stream, in order,
        one per read. */
    ghost predicate Valid()
      reads this
    {
      pos == |trace| && Consumes(stream, 0, trace)
    }

    constructor (s: seq<bool>)
      ensures stream == s && pos == 0 && trace == [] && Valid()
    {
      stream := s;
      pos := 0;
      trace := [];
    }

    /** `decoder.get(branch)`: the next decision, read under `sel`. */
    method Get(sel: Selector) returns (bit: bool)
      requires Valid()
      modifies this
      ensures Valid()
      ensures bit == BitAt(stream, old(pos)) && pos == old(pos) + 1
      ensures trace == old(trace) + [Read(sel, bit)]
    {
      bit := if pos < |stream| then stream[pos] else false;
      trace := trace + [Read(sel, bit)];
      pos := pos + 1;
    }
  }

  /** `CountAt(s, all, start, kind, index, sofar, pos, trace)`: the count loop has read
      `trace` (from `start` on), with `index` bits and the bits `sofar` still to come,
      on its way to the whole run `all`. */
  ghost predicate CountAt(s: seq<bool>, all: Run, start: seq<Read>, kind: CountKind, index: nat, sofar: nat,
                          pos: nat, trace: seq<Read>)
  {
    var rest := CountRun(s, pos, kind, index, sofar);
    all.value == rest.value && start + all.trace == trace + rest.trace
  }

  /** One bit of the count loop. */
  lemma CountAdvance(s: seq<bool>, all: Run, start: seq<Read>, kind: CountKind, index: nat, sofar: nat,
                     pos: nat, trace: seq<Read>)
    requires index > 0 && CountAt(s, all, start, kind, index, sofar, pos, trace)
    ensures CountAt(s, all, start, kind, index - 1, 2 * sofar + (if BitAt(s, pos) then 1 else 0), pos + 1,
                    trace + [Read(CountBit(kind, index - 1, sofar), BitAt(s, pos))])
  {
    var rest := CountRun(s, pos + 1, kind, index - 1, 2 * sofar + (if BitAt(s, pos) then 1 else 0));
    TraceAssoc(trace, [Read(CountBit(kind, index - 1, sofar), BitAt(s, pos))], rest.trace);
  }

  /** With no bits left the count loop has read the whole run. */
  lemma CountDone(s: seq<bool>, all: Run, start: seq<Read>, kind: CountKind, sofar: nat, pos: nat, trace: seq<Read>)
    requires CountAt(s, all, start, kind, 0, sofar, pos, trace)
    ensures all.value == sofar && start + all.trace == trace
  {
    assert trace + [] == trace;
  }

  /** A count loop (decoder.cc:50-60, 186-195): `width` bits, most significant first,
      each read under its index and the bits read so far, OR'd into the count at
      their place. */
  method ReadCount(d: BoolDecoder, kind: CountKind, width: nat) returns (num: nat)
    requires d.Valid()
    modifies d
    ensures d.Valid()
    ensures var r := CountRun(d.stream, old(d.pos), kind, width, 0);
      num == r.value && d.trace == old(d.trace) + r.trace && d.pos == old(d.pos) + width
  {
    ghost var all := CountRun(d.stream, d.pos, kind, width, 0);
    ghost var start := d.trace;
    num := 0;
    var decodedSoFar := 0;
    var index: nat := width;
    while index > 0
      invariant d.Valid() && index <= width && d.pos == old(d.pos) + (width - index)
      invariant num == decodedSoFar * Pow2(index)
      invariant CountAt(d.stream, all, start, kind, index, decodedSoFar, d.pos, d.trace)
    {
      index := index - 1;
      ghost var pos, before := d.pos, d.trace;
      var curBit := d.Get(CountBit(kind, index, decodedSoFar));
      CountAdvance(d.stream, all, start, kind, index + 1, decodedSoFar, pos, before);
      var b := if curBit then 1 else 0;
      OrBitIntoMultiple(decodedSoFar, index + 1, curBit);
      DoubleAdd(decodedSoFar, b, Pow2(index));
      num := OrBit(num, index, curBit);
      decodedSoFar := 2 * decodedSoFar + b;
    }
    CountDone(d.stream, all, start, kind, decodedSoFar, d.pos, d.trace);
  }

  /** `ExponentAt(s, all, start, region, length, maxExp, pos, trace)`: the exponent loop
      has read `trace` (from `start` on) and stands at bit `length`, stream position `pos`,
      on its way to the whole run `all`. */
  ghost predicate ExponentAt(s: seq<bool>, all: Run, start: seq<Read>, region: Region, length: nat, maxExp: nat,
                             pos: nat, trace: seq<Read>)
    requires length <= maxExp
  {
    var rest := ExponentRun(s, pos, region, length, maxExp);
    all.value == rest.value && start + all.trace == trace + rest.trace
  }

  /** A one bit continues the exponent loop. */
  lemma ExponentAdvance(s: seq<bool>, all: Run, start: seq<Read>, region: Region, length: nat, maxExp: nat,
                        pos: nat, trace: seq<Read>)
    requires length < maxExp && BitAt(s, pos)
    requires ExponentAt(s, all, start, region, length, maxExp, pos, trace)
    ensures ExponentAt(s, all, start, region, length + 1, maxExp, pos + 1, trace + [Read(ExponentBit(region, length), true)])
  {
    var rest := ExponentRun(s, pos + 1, region, length + 1, maxExp);
    TraceAssoc(trace, [Read(ExponentBit(region, length), true)], rest.trace);
  }

  /** A zero bit ends the exponent at `length`. */
  lemma ExponentZero(s: seq<bool>, all: Run, start: seq<Read>, region: Region, length: nat, maxExp: nat,
                     pos: nat, trace: seq<Read>)
    requires length < maxExp && !BitAt(s, pos)
    requires ExponentAt(s, all, start, region, length, maxExp, pos, trace)
    ensures all.value == length && start + all.trace == trace + [Read(ExponentBit(region, length), false)]
  {
  }

  /** At `maxExp` the exponent loop ends without reading a stop bit. */
  lemma ExponentStop(s: seq<bool>, all: Run, start: seq<Read>, region: Region, length: nat, maxExp: nat,
                     pos: nat, trace: seq<Read>)
    requires length == maxExp
    requires ExponentAt(s, all, start, region, length, maxExp, pos, trace)
    ensures all.value == length && start + all.trace == trace
  {
    assert trace + [] == trace;
  }

  /** An exponent loop (decoder.cc:84-94, 225-236, 306-316): continue bits until a 0
      or until `MAX_EXPONENT` of them were 1. */
  method ReadExponent(d: BoolDecoder, region: Region, maxExp: nat) returns (length: nat)
    requires d.Valid()
    modifies d
    ensures d.Valid()
    ensures var r := ExponentRun(d.stream, old(d.pos), region, 0, maxExp);
      length == r.value && d.trace == old(d.trace) + r.trace && d.pos == old(d.pos) + |r.trace|
  {
    ghost var all := ExponentRun(d.stream, d.pos, region, 0, maxExp);
    ghost var start := d.trace;
    length := 0;
    while length != maxExp
      invariant d.Valid() && length <= maxExp
      invariant ExponentAt(d.stream, all, start, region, length, maxExp, d.pos, d.trace)
      decreases maxExp - length
    {
      ghost var pos, before := d.pos, d.trace;
      var curBit := d.Get(ExponentBit(region, length));
      if !curBit {
        ExponentZero(d.stream, all, start, region, length, maxExp, pos, before);
        return;
      }
      ExponentAdvance(d.stream, all, start, region, length, maxExp, pos, before);
      length := length + 1;
    }
    ExponentStop(d.stream, all, start, region, length, maxExp, d.pos, d.trace);
  }

  /** A residual loop (decoder.cc:249-259, 324-333): the bits below the top one, from
      bit `n - 1` down, each read under its index and the coefficient so far and OR'd
      in at its place. */
  method ReadResidual(d: BoolDecoder, region: Region, n: nat, top: nat) returns (coef: nat)
    requires d.Valid()
    modifies d
    ensures d.Valid()
    ensures var r := ResidualRun(d.stream, old(d.pos), region, n, top);
      coef == r.value && d.trace == old(d.trace) + r.trace && d.pos == old(d.pos) + n
  {
    coef := top;
    var i: nat := n;
    while i > 0
      invariant d.Valid() && i <= n && d.pos == old(d.pos) + (n - i)
      invariant var r := ResidualRun(d.stream, old(d.pos), region, n, top);
        var rest := ResidualRun(d.stream, d.pos, region, i, coef);
        r.value == rest.value && old(d.trace) + r.trace == d.trace + rest.trace
    {
      i := i - 1;
      coef := ResidualStep(d, region, i, coef);
    }
  }

  /** One residual bit: read under (i, coef) and OR'd into bit i. */
  method ResidualStep(d: BoolDecoder, region: Region, i: nat, coef: nat) returns (next: nat)
    requires d.Valid()
    modifies d
    ensures d.Valid() && d.pos == old(d.pos) + 1
    ensures var r := ResidualRun(d.stream, old(d.pos), region, i + 1, coef);
      var rest := ResidualRun(d.stream, d.pos, region, i, next);
      r.value == rest.value && d.trace + rest.trace == old(d.trace) + r.trace
  {
    ghost var before := d.trace;
    var curBit := d.Get(ResidualBit(region, i, coef));
    next := OrBit(coef, i, curBit);
    assert before + [Read(ResidualBit(region, i, coef), curBit)] + ResidualRun(d.stream, d.pos, region, i, next).trace
      == before + ([Read(ResidualBit(region, i, coef), curBit)] + ResidualRun(d.stream, d.pos, region, i, next).trace);
  }

  /** The edge residual (decoder.cc:105-129): the same bits as `ReadResidual`, read in
      two loops split at `min_threshold`. Both loops read under the same selector
      and OR the bit in the same way, so the split point makes no difference. */
  method ReadEdgeResidual(d: BoolDecoder, region: Region, n: nat, top: nat, minThreshold: nat) returns (coef: nat)
    requires d.Valid()
    modifies d
    ensures d.Valid()
    ensures var r := ResidualRun(d.stream, old(d.pos), region, n, top);
      coef == r.value && d.trace == old(d.trace) + r.trace && d.pos == old(d.pos) + n
  {
    coef := top;
    var i: int := n - 1;
    if i >= minThreshold {
      while i >= minThreshold
        invariant d.Valid() && -1 <= i < n && d.pos == old(d.pos) + (n - 1 - i)
        invariant var r := ResidualRun(d.stream, old(d.pos), region, n, top);
          var rest := ResidualRun(d.stream, d.pos, region, i + 1, coef);
          r.value == rest.value && old(d.trace) + r.trace == d.trace + rest.trace
      {
        coef := ResidualStep(d, region, i, coef);
        i := i - 1;
      }
    }
    while i >= 0
      invariant d.Valid() && -1 <= i < n && d.pos == old(d.pos) + (n - 1 - i)
      invariant var r := ResidualRun(d.stream, old(d.pos), region, n, top);
        var rest := ResidualRun(d.stream, d.pos, region, i + 1, coef);
        r.value == rest.value && old(d.trace) + r.trace == d.trace + rest.trace
    {
      coef := ResidualStep(d, region, i, coef);
      i := i - 1;
    }
  }

  /** What follows a nonzero exponent (decoder.cc:239-262, 318-336): the sign
      (`neg = !bit`), the top bit `1 << (length - 1)` and the residual below it; the
      value negated for `neg`. */
  method ReadSigned(d: BoolDecoder, region: Region, length: nat) returns (coef: int)
    requires d.Valid() && length > 0
    modifies d
    ensures d.Valid()
    ensures var r := SignedRun(d.stream, old(d.pos), region, length);
      coef == r.value && d.trace == old(d.trace) + r.trace && d.pos == old(d.pos) + length
  {
    ghost var before := d.trace;
    var positive := d.Get(SignBit(region));
    var neg := !positive;
    ghost var m := ResidualRun(d.stream, d.pos, region, length - 1, Pow2(length - 1));
    var magnitude := ReadResidual(d, region, length - 1, Pow2(length - 1));
    coef := if neg then -(magnitude as int) else magnitude;
    assert before + [Read(SignBit(region), positive)] + m.trace == before + ([Read(SignBit(region), positive)] + m.trace);
  }

  /** The same for an edge coefficient (decoder.cc:96-133), with the residual read by
      `ReadEdgeResidual`. */
  method ReadEdgeSigned(d: BoolDecoder, region: Region, length: nat, minThreshold: nat) returns (coef: int)
    requires d.Valid() && length > 0
    modifies d
    ensures d.Valid()
    ensures var r := SignedRun(d.stream, old(d.pos), region, length);
      coef == r.value && d.trace == old(d.trace) + r.trace && d.pos == old(d.pos) + length
  {
    ghost var before := d.trace;
    var positive := d.Get(SignBit(region));
    var neg := !positive;
    ghost var m := ResidualRun(d.stream, d.pos, region, length - 1, Pow2(length - 1));
    var magnitude := ReadEdgeResidual(d, region, length - 1, Pow2(length - 1), minThreshold);
    coef := if neg then -(magnitude as int) else magnitude;
    assert before + [Read(SignBit(region), positive)] + m.trace == before + ([Read(SignBit(region), positive)] + m.trace);
  }

  /** One coefficient (decoder.cc:222-263, 304-337): the exponent, and for a nonzero
      one what `ReadSigned` reads. */
  method ReadCoefficient(d: BoolDecoder, region: Region, maxExp: nat) returns (coef: int)
    requires d.Valid()
    modifies d
    ensures d.Valid()
    ensures var r := CoefRun(d.stream, old(d.pos), region, maxExp);
      coef == r.value && d.trace == old(d.trace) + r.trace && d.pos == old(d.pos) + |r.trace|
  {
    var length := ReadExponent(d, region, maxExp);
    ghost var e := ExponentRun(d.stream, old(d.pos), region, 0, maxExp);
    ghost var afterExponent := d.trace;
    coef := 0;
    if length > 0 {
      ghost var signed := SignedRun(d.stream, d.pos, region, length);
      coef := ReadSigned(d, region, length);
      assert CoefRun(d.stream, old(d.pos), region, maxExp) == Run(coef, e.trace + signed.trace);
      assert afterExponent + signed.trace == old(d.trace) + (e.trace + signed.trace);
    } else {
      assert CoefRun(d.stream, old(d.pos), region, maxExp) == Run(0, e.trace);
    }
  }

  /** One edge coefficient (decoder.cc:81-136): as `ReadCoefficient`, with the sign
      and residual read by `ReadEdgeSigned`. */
  method ReadEdgeCoefficient(d: BoolDecoder, region: Region, maxExp: nat, minThreshold: nat) returns (coef: int)
    requires d.Valid()
    modifies d
    ensures d.Valid()
    ensures var r := CoefRun(d.stream, old(d.pos), region, maxExp);
      coef == r.value && d.trace == old(d.trace) + r.trace && d.pos == old(d.pos) + |r.trace|
  {
    var length := ReadExponent(d, region, maxExp);
    ghost var e := ExponentRun(d.stream, old(d.pos), region, 0, maxExp);
    ghost var afterExponent := d.trace;
    coef := 0;
    if length > 0 {
      ghost var signed := SignedRun(d.stream, d.pos, region, length);
      coef := ReadEdgeSigned(d, region, length, minThreshold);
      assert CoefRun(d.stream, old(d.pos), region, maxExp) == Run(coef, e.trace + signed.trace);
      assert afterExponent + signed.trace == old(d.trace) + (e.trace + signed.trace);
    } else {
      assert CoefRun(d.stream, old(d.pos), region, maxExp) == Run(0, e.trace);
    }
  }

  /** Where the interior loop stands against the whole interior pass `all`: the part
      still to come is the pass from zz on, and what came before it is `order[..zz]`
      and the reads from `start` to `trace`. */
  ghost predicate InteriorAt(read: Reader, order: seq<nat>, all: Pass, start: seq<Read>,
                             zz: nat, left: nat, c: seq<int>, pos: nat, trace: seq<Read>)
    requires |order| == 49 && InBlock(order) && |c| == 64 && zz <= 49
  {
    var rest := InteriorRun(read, pos, order, zz, left, c);
    && all.coefficients == rest.coefficients && all.left == rest.left
    && all.visits == order[..zz] + rest.visits
    && start + all.trace == trace + rest.trace
  }

  /** One turn of the interior loop keeps `InteriorAt`. */
  lemma InteriorAdvance(read: Reader, order: seq<nat>, all: Pass, start: seq<Read>,
                        zz: nat, left: nat, c: seq<int>, pos: nat, trace: seq<Read>, k: Run)
    requires |order| == 49 && InBlock(order) && |c| == 64 && zz < 49 && left > 0
    requires k == read(pos, Interior(zz, left))
    requires InteriorAt(read, order, all, start, zz, left, c, pos, trace)
    ensures InteriorAt(read, order, all, start, zz + 1, if k.value != 0 then left - 1 else left,
                       c[order[zz] := k.value], pos + |k.trace|, trace + k.trace)
  {
    var rest := InteriorRun(read, pos + |k.trace|, order, zz + 1, if k.value != 0 then left - 1 else left, c[order[zz] := k.value]);
    InteriorRunStep(read, pos, order, zz, left, c, k);
    assert trace + (k.trace + rest.trace) == (trace + k.trace) + rest.trace;
    assert order[..zz] + ([order[zz]] + rest.visits) == order[..zz + 1] + rest.visits;
  }

  /** When the interior loop stops, the pass is complete. */
  lemma InteriorDone(read: Reader, order: seq<nat>, all: Pass, start: seq<Read>,
                     zz: nat, left: nat, c: seq<int>, pos: nat, trace: seq<Read>)
    requires |order| == 49 && InBlock(order) && |c| == 64 && zz <= 49 && (zz == 49 || left == 0)
    requires InteriorAt(read, order, all, start, zz, left, c, pos, trace)
    ensures all.coefficients == c && start + all.trace == trace && all.visits == order[..zz]
  {
    assert InteriorRun(read, pos, order, zz, left, c) == Pass(c, [], [], left);
    assert order[..zz] + [] == order[..zz];
    assert trace + [] == trace;
  }

  /** One turn of the interior loop keeps `eob_x` and `eob_y`: positions already
      visited are not written again. */
  lemma EobAdvance(c: seq<int>, order: seq<nat>, zz: nat, coef: int, isX: bool)
    requires |c| == 64 && |order| == 49 && InBlock(order) && Distinct(order) && zz < 49
    ensures EobOf(c[order[zz] := coef], order[..zz + 1], isX)
      == if coef != 0 then Max(EobOf(c, order[..zz], isX), Line(order[zz], isX)) else EobOf(c, order[..zz], isX)
  {
    assert order[zz] !in order[..zz];
    EobOfFrame(c, order[..zz], isX, order[zz], coef);
    assert order[..zz + 1][..zz] == order[..zz];
  }

  /** Concatenation of traces is associative. */
  lemma TraceAssoc(a: seq<Read>, b: seq<Read>, c: seq<Read>)
    ensures a + b + c == a + (b + c)
  {
  }

  /** One turn of the interior loop: the coefficient at `unzigzag49[zz]` read and
      written into the block. */
  method InteriorStep(d: BoolDecoder, raw: array<int>, order: seq<nat>, maxExp: nat, zz: nat, left: nat,
                      ghost all: Pass, ghost start: seq<Read>)
    returns (coef: int, nextLeft: nat)
    requires d.Valid() && raw.Length == 64
    requires |order| == 49 && InBlock(order) && Distinct(order) && zz < 49 && left > 0
    requires InteriorAt(CoefReader(d.stream, maxExp), order, all, start, zz, left, raw[..], d.pos, d.trace)
    modifies d, raw
    ensures d.Valid()
    ensures nextLeft == if coef != 0 then left - 1 else left
    ensures InteriorAt(CoefReader(d.stream, maxExp), order, all, start, zz + 1, nextLeft, raw[..], d.pos, d.trace)
    ensures forall isX :: (EobOf(raw[..], order[..zz + 1], isX)
      == if coef != 0 then Max(EobOf(old(raw[..]), order[..zz], isX), Line(order[zz], isX)) else EobOf(old(raw[..]), order[..zz], isX))
  {
    ghost var read := CoefReader(d.stream, maxExp);
    ghost var before, pos, c := d.trace, d.pos, raw[..];
    coef := ReadCoefficient(d, Interior(zz, left), maxExp);
    ghost var k := read(pos, Interior(zz, left));
    assert k == CoefRun(d.stream, pos, Interior(zz, left), maxExp);
    assert d.pos == pos + |k.trace| && d.trace == before + k.trace && coef == k.value;
    InteriorAdvance(read, order, all, start, zz, left, c, pos, before, k);
    forall isX: bool {
      EobAdvance(c, order, zz, coef, isX);
    }
    raw[order[zz]] := coef;
    assert raw[..] == c[order[zz] := coef];
    nextLeft := if coef != 0 then left - 1 else left;
  }

  /** The interior loop of `parse_tokens` (decoder.cc:199-272): along the zig-zag order
      while positions remain and `num_nonzeros_left_7x7` is positive, read a coefficient,
      write it into the block, and after a nonzero one take one from the count and
      raise `eob_x` and `eob_y` to its column and row. */
  method DecodeInterior(d: BoolDecoder, raw: array<int>, order: seq<nat>, maxExp: nat, n: nat)
    returns (eobX: nat, eobY: nat)
    requires d.Valid() && raw.Length == 64
    requires |order| == 49 && InBlock(order) && Distinct(order)
    modifies d, raw
    ensures d.Valid()
    ensures var r := InteriorRun(CoefReader(d.stream, maxExp), old(d.pos), order, 0, n, old(raw[..]));
      && raw[..] == r.coefficients
      && d.trace == old(d.trace) + r.trace && d.pos == old(d.pos) + |r.trace|
      && eobX == EobOf(r.coefficients, r.visits, true) && eobY == EobOf(r.coefficients, r.visits, false)
  {
    ghost var read := CoefReader(d.stream, maxExp);
    ghost var all := InteriorRun(read, d.pos, order, 0, n, raw[..]);
    ghost var start := d.trace;
    eobX, eobY := 0, 0;
    var left := n;
    var zz := 0;
    while zz < 49 && left > 0
      invariant d.Valid() && zz <= 49
      invariant InteriorAt(read, order, all, start, zz, left, raw[..], d.pos, d.trace)
      invariant eobX == EobOf(raw[..], order[..zz], true) && eobY == EobOf(raw[..], order[..zz], false)
      decreases 49 - zz
    {
      var coef;
      coef, left := InteriorStep(d, raw, order, maxExp, zz, left, all, start);
      if coef != 0 {
        eobX := Max(eobX, Line(order[zz], true));
        eobY := Max(eobY, Line(order[zz], false));
      }
      zz := zz + 1;
    }
    InteriorDone(read, order, all, start, zz, left, raw[..], d.pos, d.trace);
  }

  /** Where an edge loop stands against the whole edge pass `all`: the part still to
      come is the pass from `lane` on, and what came before it is the reads from
      `start` to `trace`. */
  ghost predicate EdgeAt(read: Reader, horizontal: bool, all: Pass, start: seq<Read>,
                         lane: nat, left: nat, c: seq<int>, pos: nat, trace: seq<Read>)
    requires |c| == 64 && lane <= 7
  {
    var rest := EdgeRun(read, pos, horizontal, lane, left, c);
    && all.coefficients == rest.coefficients && start + all.trace == trace + rest.trace
  }

  /** One turn of an edge loop keeps `EdgeAt`. */
  lemma EdgeAdvance(read: Reader, horizontal: bool, all: Pass, start: seq<Read>,
                    lane: nat, left: nat, c: seq<int>, pos: nat, trace: seq<Read>, k: Run)
    requires |c| == 64 && lane < 7 && left > 0
    requires k == read(pos, Edge(horizontal, lane, left))
    requires EdgeAt(read, horizontal, all, start, lane, left, c, pos, trace)
    ensures EdgeAt(read, horizontal, all, start, lane + 1, if k.value != 0 then left - 1 else left,
                   c[LaneCoord(horizontal, lane) := k.value], pos + |k.trace|, trace + k.trace)
  {
    var rest := EdgeRun(read, pos + |k.trace|, horizontal, lane + 1, if k.value != 0 then left - 1 else left,
                        c[LaneCoord(horizontal, lane) := k.value]);
    EdgeRunStep(read, pos, horizontal, lane, left, c, k);
    assert trace + (k.trace + rest.trace) == (trace + k.trace) + rest.trace;
  }

  /** When an edge loop stops, its pass is complete. */
  lemma EdgeDone(read: Reader, horizontal: bool, all: Pass, start: seq<Read>,
                 lane: nat, left: nat, c: seq<int>, pos: nat, trace: seq<Read>)
    requires |c| == 64 && lane <= 7 && (lane == 7 || left == 0)
    requires EdgeAt(read, horizontal, all, start, lane, left, c, pos, trace)
    ensures all.coefficients == c && start + all.trace == trace
  {
    assert EdgeRun(read, pos, horizontal, lane, left, c) == Pass(c, [], [], left);
    assert trace + [] == trace;
  }

  /** One edge lane (decoder.cc:66-138): the coefficient at `coord` read and written
      into the block. */
  method EdgeStep(d: BoolDecoder, raw: array<int>, horizontal: bool, maxExp: nat, lane: nat, left: nat,
                  coord: nat, minThreshold: nat, ghost all: Pass, ghost start: seq<Read>)
    returns (coef: int, nextLeft: nat)
    requires d.Valid() && raw.Length == 64 && lane < 7 && left > 0 && coord == LaneCoord(horizontal, lane)
    requires EdgeAt(CoefReader(d.stream, maxExp), horizontal, all, start, lane, left, raw[..], d.pos, d.trace)
    modifies d, raw
    ensures d.Valid()
    ensures nextLeft == if coef != 0 then left - 1 else left
    ensures EdgeAt(CoefReader(d.stream, maxExp), horizontal, all, start, lane + 1, nextLeft, raw[..], d.pos, d.trace)
  {
    ghost var read := CoefReader(d.stream, maxExp);
    ghost var before, pos, c := d.trace, d.pos, raw[..];
    coef := ReadEdgeCoefficient(d, Edge(horizontal, lane, left), maxExp, minThreshold);
    ghost var k := read(pos, Edge(horizontal, lane, left));
    assert k == CoefRun(d.stream, pos, Edge(horizontal, lane, left), maxExp);
    assert d.pos == pos + |k.trace| && d.trace == before + k.trace && coef == k.value;
    EdgeAdvance(read, horizontal, all, start, lane, left, c, pos, before, k);
    raw[coord] := coef;
    assert raw[..] == c[coord := coef];
    nextLeft := if coef != 0 then left - 1 else left;
  }

  /** `decode_one_edge` (decoder.cc:28-140): the edge's 3-bit count, then its lanes at
      raster positions `delta`, `2 * delta`, ... while lanes remain and the count is
      positive. `noiseThreshold` stands for `get_noise_threshold`. The source's exit
      for a count above 7 cannot be taken (`EdgeCountFits`) and is not modelled. */
  method DecodeOneEdge(d: BoolDecoder, raw: array<int>, horizontal: bool, maxExp: nat, noiseThreshold: nat -> nat)
    requires d.Valid() && raw.Length == 64
    modifies d, raw
    ensures d.Valid()
    ensures var r := OneEdgeRun(d.stream, old(d.pos), horizontal, maxExp, old(raw[..]));
      raw[..] == r.coefficients && d.trace == old(d.trace) + r.trace && d.pos == old(d.pos) + |r.trace|
  {
    var left := ReadCount(d, CountEdge(horizontal), 3);
    ghost var read := CoefReader(d.stream, maxExp);
    ghost var all := EdgeRun(read, d.pos, horizontal, 0, left, raw[..]);
    ghost var start := d.trace;
    var delta := if horizontal then 1 else 8;
    var coord := delta;
    var lane := 0;
    while lane < 7 && left > 0
      invariant d.Valid() && lane <= 7 && coord == LaneCoord(horizontal, lane)
      invariant EdgeAt(read, horizontal, all, start, lane, left, raw[..], d.pos, d.trace)
      decreases 7 - lane
    {
      var coef;
      coef, left := EdgeStep(d, raw, horizontal, maxExp, lane, left, coord, noiseThreshold(coord), all, start);
      lane := lane + 1;
      coord := coord + delta;
    }
    EdgeDone(read, horizontal, all, start, lane, left, raw[..], d.pos, d.trace);
    assert d.trace == old(d.trace) + (start[|old(d.trace)|..] + all.trace);
  }

  /** `decode_edge` (decoder.cc:142-163): row 0, then column 0. The end-of-block
      estimates the source passes along are not used by `decode_one_edge`. */
  method DecodeEdge(d: BoolDecoder, raw: array<int>, maxExp: nat, noiseThreshold: nat -> nat)
    requires d.Valid() && raw.Length == 64
    modifies d, raw
    ensures d.Valid()
    ensures var r := EdgesRun(d.stream, old(d.pos), maxExp, old(raw[..]));
      raw[..] == r.coefficients && d.trace == old(d.trace) + r.trace && d.pos == old(d.pos) + |r.trace|
  {
    ghost var row := OneEdgeRun(d.stream, d.pos, true, maxExp, raw[..]);
    DecodeOneEdge(d, raw, true, maxExp, noiseThreshold);
    ghost var column := OneEdgeRun(d.stream, d.pos, false, maxExp, raw[..]);
    DecodeOneEdge(d, raw, false, maxExp, noiseThreshold);
    TraceAssoc(old(d.trace), row.trace, column.trace);
  }

  /** `parse_tokens` after the 7x7 count (decoder.cc:199-343), on a zeroed block. */
  method DecodeBody(d: BoolDecoder, raw: array<int>, order: seq<nat>, maxExp: nat, n: nat,
                    noiseThreshold: nat -> nat, reconstructDc: (seq<int>, int) -> int)
    requires d.Valid() && raw.Length == 64 && ScanOrder(order)
    modifies d, raw
    ensures d.Valid()
    ensures var r := BlockBody(d.stream, old(d.pos), order, maxExp, n, reconstructDc, old(raw[..]));
      raw[..] == r.coefficients && d.trace == old(d.trace) + r.trace
  {
    ghost var p0, t0, c := d.pos, d.trace, raw[..];
    ghost var interior := InteriorRun(CoefReader(d.stream, maxExp), p0, order, 0, n, c);
    var eobX, eobY := DecodeInterior(d, raw, order, maxExp, n);
    assert raw[..] == interior.coefficients && d.trace == t0 + interior.trace && d.pos == p0 + |interior.trace|;
    ghost var q, c2 := d.pos, raw[..];
    ghost var rest := EdgesAndDc(d.stream, q, maxExp, n, reconstructDc, c2);
    DecodeEdgesAndDc(d, raw, maxExp, n, noiseThreshold, reconstructDc);
    assert raw[..] == rest.coefficients && d.trace == t0 + interior.trace + rest.trace;
    TraceAssoc(t0, interior.trace, rest.trace);
    BlockBodySplit(d.stream, p0, order, maxExp, n, reconstructDc, c, interior, q, c2, rest);
  }

  /** `parse_tokens` after the interior pass (decoder.cc:274-342): `decode_edge`, then
      the DC, stored as `reconstructDc` makes it from the decoded block and the
      decoded difference. */
  method DecodeEdgesAndDc(d: BoolDecoder, raw: array<int>, maxExp: nat, n: nat,
                          noiseThreshold: nat -> nat, reconstructDc: (seq<int>, int) -> int)
    requires d.Valid() && raw.Length == 64
    modifies d, raw
    ensures d.Valid()
    ensures var r := EdgesAndDc(d.stream, old(d.pos), maxExp, n, reconstructDc, old(raw[..]));
      raw[..] == r.coefficients && d.trace == old(d.trace) + r.trace && d.pos == old(d.pos) + |r.trace|
  {
    ghost var edges := EdgesRun(d.stream, d.pos, maxExp, raw[..]);
    DecodeEdge(d, raw, maxExp, noiseThreshold);
    ghost var dcRun := CoefRun(d.stream, d.pos, Dc(n), maxExp);
    var dc := ReadCoefficient(d, Dc(n), maxExp);
    raw[0] := reconstructDc(raw[..], dc);
    TraceAssoc(old(d.trace), edges.trace, dcRun.trace);
  }

  /** `parse_tokens` (decoder.cc:169-351) for one block: `bzero`, the 7x7 count, and
      the rest of the block. A 7x7 count above 49 is `STREAM_INCONSISTENT`: `ok` is
      false and the block stays zeroed. */
  method ParseTokens(d: BoolDecoder, raw: array<int>, order: seq<nat>, maxExp: nat,
                     noiseThreshold: nat -> nat, reconstructDc: (seq<int>, int) -> int)
    returns (ok: bool, numNonzeros: nat)
    requires d.Valid() && raw.Length == 64 && ScanOrder(order)
    modifies d, raw
    ensures d.Valid()
    ensures var r := BlockRun(d.stream, old(d.pos), order, maxExp, reconstructDc);
      && d.trace == old(d.trace) + r.trace
      && (ok <==> r.outcome.Decoded?)
      && (ok ==> raw[..] == r.outcome.coefficients && numNonzeros == r.outcome.numNonzeros7x7)
      && (!ok ==> raw[..] == Zeros())
  {
    for i := 0 to 64
      modifies raw
      invariant forall j :: 0 <= j < i ==> raw[j] == 0
    {
      raw[i] := 0;
    }
    assert raw[..] == Zeros();
    ghost var t0 := d.trace;
    numNonzeros := ReadCount(d, Count7x7, 6);
    if numNonzeros > 49 {
      return false, numNonzeros;
    }
    ghost var t1 := d.trace;
    DecodeBody(d, raw, order, maxExp, numNonzeros, noiseThreshold, reconstructDc);
    ok := true;
    assert d.trace == t0 + (t1[|t0|..] + d.trace[|t1|..]);
  }
}
