/** The fixed-shape context table `Model` of model.hh: nine sub-tables of Branches,
    each a row-major nested array, laid out one after the other in the order the
    struct declares them (the byte image a prior file copies). The owner
    `ProbabilityTables` holds the table and the quantization table. */
module Model {
  import opened Numeric
  import opened Branches

  const BLOCK_TYPES: nat := 2
  const NUM_NONZEROS_BINS: nat := 10
  const COEF_BANDS: nat := 64
  const RESIDUAL_NOISE_FLOOR: nat := 7
  const COEF_BITS: nat := 10
  /** Defined in numeric.hh, which is not part of this model: the smallest values
      for which every index the coding grammar forms is inside its axis. */
  const NUMBER_OF_EXPONENT_BITS: nat := 4
  const NUMERIC_LENGTH_MAX: nat := 11

  /** The sub-tables of `struct Model`, in declaration order. */
  datatype Table =
    | Nonzero7x7          // num_nonzeros_counts_7x7_
    | Nonzero1x8          // num_nonzeros_counts_1x8_
    | Nonzero8x1          // num_nonzeros_counts_8x1_
    | ResidualNoise       // residual_noise_counts_
    | ResidualThreshold   // residual_threshold_counts_
    | Exponent7x7         // exponent_counts_
    | ExponentX           // exponent_counts_x_
    | ExponentDC          // exponent_counts_dc_
    | Sign                // sign_counts_

  /** The axis lengths of each sub-table, outermost first. */
  function Dims(t: Table): seq<nat>
  {
    match t
    case Nonzero7x7 => [BLOCK_TYPES, 26, 6, 32]
    case Nonzero1x8 => [BLOCK_TYPES, 8, 8, 3, 4]
    case Nonzero8x1 => [BLOCK_TYPES, 8, 8, 3, 4]
    case ResidualNoise => [BLOCK_TYPES, COEF_BANDS, Max(8, NUM_NONZEROS_BINS), COEF_BITS]
    case ResidualThreshold =>
      [BLOCK_TYPES, COEF_BANDS, Pow2(1 + RESIDUAL_NOISE_FLOOR), 1 + RESIDUAL_NOISE_FLOOR, Pow2(RESIDUAL_NOISE_FLOOR)]
    case Exponent7x7 =>
      [BLOCK_TYPES, 49, NUM_NONZEROS_BINS, NUMERIC_LENGTH_MAX, NUMBER_OF_EXPONENT_BITS, Pow2(NUMBER_OF_EXPONENT_BITS - 1)]
    case ExponentX =>
      [BLOCK_TYPES, 15, NUM_NONZEROS_BINS, NUMERIC_LENGTH_MAX, NUMBER_OF_EXPONENT_BITS, Pow2(NUMBER_OF_EXPONENT_BITS - 1)]
    case ExponentDC =>
      [BLOCK_TYPES, 1, NUM_NONZEROS_BINS, NUMERIC_LENGTH_MAX, NUMBER_OF_EXPONENT_BITS, Pow2(NUMBER_OF_EXPONENT_BITS - 1)]
    case Sign => [BLOCK_TYPES, COEF_BANDS, 4, Max(COEF_BITS + 2, 9)]
  }

  function Product(dims: seq<nat>): nat
  {
    if dims == [] then 1 else dims[0] * Product(dims[1..])
  }

  /** Number of Branches in a sub-table. */
  function Size(t: Table): nat
  {
    match t
    case Nonzero7x7 => 9984
    case Nonzero1x8 => 1536
    case Nonzero8x1 => 1536
    case ResidualNoise => 12800
    case ResidualThreshold => 33554432
    case Exponent7x7 => 344960
    case ExponentX => 105600
    case ExponentDC => 7040
    case Sign => 6144
  }

  lemma SizeIsProduct(t: Table)
    ensures Size(t) == Product(Dims(t))
  {
    Pow2Table();
    match t
    case Nonzero7x7 =>
      assert Product([6, 32]) == 192;
      assert Product(Dims(t)) == 9984;
    case Nonzero1x8 =>
      assert Product([8, 3, 4]) == 96;
      assert Product(Dims(t)) == 1536;
    case Nonzero8x1 =>
      assert Product([8, 3, 4]) == 96;
      assert Product(Dims(t)) == 1536;
    case ResidualNoise =>
      assert Product([10, 10]) == 100;
      assert Product(Dims(t)) == 12800;
    case ResidualThreshold =>
      assert Product([8, 128]) == 1024;
      assert Product([256, 8, 128]) == 262144;
      assert Product(Dims(t)) == 33554432;
    case Sign =>
      assert Product([4, 12]) == 48;
      assert Product(Dims(t)) == 6144;
    case _ =>
      ExponentSizeIsProduct(t);
  }

  /** The three exponent sub-tables share their inner axes. */
  lemma ExponentSizeIsProduct(t: Table)
    requires t.Exponent7x7? || t.ExponentX? || t.ExponentDC?
    ensures Size(t) == Product(Dims(t))
  {
    Pow2Table();
    assert Product([4, 8]) == 32;
    assert Product([10, 11, 4, 8]) == 3520;
    match t
    case Exponent7x7 =>
      assert Product([49, 10, 11, 4, 8]) == 172480;
      assert Product(Dims(t)) == 344960;
    case ExponentX =>
      assert Product([15, 10, 11, 4, 8]) == 52800;
      assert Product(Dims(t)) == 105600;
    case ExponentDC =>
      assert Product([1, 10, 11, 4, 8]) == 3520;
      assert Product(Dims(t)) == 7040;
  }

  /** Where a sub-table starts in the whole table. */
  function Base(t: Table): nat
  {
    match t
    case Nonzero7x7 => 0
    case Nonzero1x8 => 9984
    case Nonzero8x1 => 11520
    case ResidualNoise => 13056
    case ResidualThreshold => 25856
    case Exponent7x7 => 33580288
    case ExponentX => 33925248
    case ExponentDC => 34030848
    case Sign => 34037888
  }

  /** Number of Branches in the whole Model. */
  const TOTAL: nat := 34044032

  /** The sub-tables follow each other without gap or overlap and fill the Model. */
  lemma LayoutContiguous()
    ensures Base(Nonzero7x7) == 0
    ensures Base(Nonzero1x8) == Base(Nonzero7x7) + Size(Nonzero7x7)
    ensures Base(Nonzero8x1) == Base(Nonzero1x8) + Size(Nonzero1x8)
    ensures Base(ResidualNoise) == Base(Nonzero8x1) + Size(Nonzero8x1)
    ensures Base(ResidualThreshold) == Base(ResidualNoise) + Size(ResidualNoise)
    ensures Base(Exponent7x7) == Base(ResidualThreshold) + Size(ResidualThreshold)
    ensures Base(ExponentX) == Base(Exponent7x7) + Size(Exponent7x7)
    ensures Base(ExponentDC) == Base(ExponentX) + Size(ExponentX)
    ensures Base(Sign) == Base(ExponentDC) + Size(ExponentDC)
    ensures TOTAL == Base(Sign) + Size(Sign)
  {
  }

  /** The sub-table a position of the whole Model belongs to. */
  function TableOf(o: nat): Table
    requires o < TOTAL
  {
    if o < Base(Nonzero1x8) then Nonzero7x7
    else if o < Base(Nonzero8x1) then Nonzero1x8
    else if o < Base(ResidualNoise) then Nonzero8x1
    else if o < Base(ResidualThreshold) then ResidualNoise
    else if o < Base(Exponent7x7) then ResidualThreshold
    else if o < Base(ExponentX) then Exponent7x7
    else if o < Base(ExponentDC) then ExponentX
    else if o < Base(Sign) then ExponentDC
    else Sign
  }

  /** A position belongs to a sub-table exactly when it lies in that sub-table's segment. */
  lemma TableOfSegment(o: nat, t: Table)
    requires o < TOTAL
    ensures TableOf(o) == t <==> Base(t) <= o < Base(t) + Size(t)
  {
    LayoutContiguous();
  }

  /** The address of one Branch: a sub-table and one index per axis. */
  datatype Key = Key(table: Table, index: seq<nat>)

  predicate InBounds(k: Key)
  {
    var dims := Dims(k.table);
    |k.index| == |dims| && forall i :: 0 <= i < |dims| ==> k.index[i] < dims[i]
  }

  /** Row-major position of an index tuple. */
  function RowMajor(index: seq<nat>, dims: seq<nat>): nat
    requires |index| == |dims|
  {
    if dims == [] then 0 else index[0] * Product(dims[1..]) + RowMajor(index[1..], dims[1..])
  }

  lemma {:induction false} RowMajorBound(index: seq<nat>, dims: seq<nat>)
    requires |index| == |dims|
    requires forall i :: 0 <= i < |dims| ==> index[i] < dims[i]
    ensures RowMajor(index, dims) < Product(dims)
  {
    if dims != [] {
      RowMajorBound(index[1..], dims[1..]);
      DigitBelow(index[0], dims[0], Product(dims[1..]), RowMajor(index[1..], dims[1..]));
    }
  }

  /** A digit below its base followed by a value below the weight of the digit stays
      below base times weight. */
  lemma DigitBelow(i: nat, d: nat, p: nat, r: nat)
    requires i < d && r < p
    ensures i * p + r < d * p
  {
    MulMonotone(i + 1, d, p);
    assert (i + 1) * p == i * p + p;
  }

  /** Different in-bounds index tuples have different row-major positions. */
  lemma {:induction false} RowMajorInjective(a: seq<nat>, b: seq<nat>, dims: seq<nat>)
    requires |a| == |dims| && |b| == |dims|
    requires forall i :: 0 <= i < |dims| ==> a[i] < dims[i]
    requires forall i :: 0 <= i < |dims| ==> b[i] < dims[i]
    requires RowMajor(a, dims) == RowMajor(b, dims)
    ensures a == b
  {
    if dims != [] {
      var p := Product(dims[1..]);
      RowMajorBound(a[1..], dims[1..]);
      RowMajorBound(b[1..], dims[1..]);
      var v := RowMajor(a, dims);
      DivModUnique(v, p, a[0], RowMajor(a[1..], dims[1..]));
      DivModUnique(v, p, b[0], RowMajor(b[1..], dims[1..]));
      RowMajorInjective(a[1..], b[1..], dims[1..]);
      assert a == [a[0]] + a[1..] && b == [b[0]] + b[1..];
    }
  }

  /** The position of a Branch in the whole Model. */
  function Offset(k: Key): (o: nat)
    requires InBounds(k)
    ensures Base(k.table) <= o < Base(k.table) + Size(k.table)
    ensures o < TOTAL
  {
    RowMajorBound(k.index, Dims(k.table));
    SizeIsProduct(k.table);
    Base(k.table) + RowMajor(k.index, Dims(k.table))
  }

  /** Distinct addresses never share a Branch: the address functions cannot
      make two contexts collide. */
  lemma OffsetInjective(k1: Key, k2: Key)
    requires InBounds(k1) && InBounds(k2)
    requires Offset(k1) == Offset(k2)
    ensures k1 == k2
  {
    LayoutContiguous();
    if k1.table == k2.table {
      RowMajorInjective(k1.index, k2.index, Dims(k1.table));
    }
  }

  /** The two callbacks the source passes to `Model::forall`. */
  datatype BranchOp =
    | AssignDefault    // `x = Branch()`, from the ProbabilityTables constructor
    | NormalizeEach    // `x.normalize()`, from ProbabilityTables::normalize

  function OpResult(op: BranchOp, s: BranchState): BranchState
  {
    match op
    case AssignDefault => Initial
    case NormalizeEach => s
  }

  /** The callback on one entry. */
  method ApplyOp(op: BranchOp, b: Branch)
    modifies b
    ensures b.State() == OpResult(op, old(b.State()))
  {
    match op {
      case AssignDefault => b.Reset();
      case NormalizeEach => b.Normalize();
    }
  }

  /** One sub-table pass of `forall` on the value of the Model: the entries of
      sub-table t get the callback, every other entry keeps its state. */
  function ApplyTable(op: BranchOp, s: seq<BranchState>, t: Table): (r: seq<BranchState>)
    requires |s| == TOTAL
    ensures |r| == TOTAL
  {
    seq(TOTAL, o requires 0 <= o < TOTAL => if TableOf(o) == t then OpResult(op, s[o]) else s[o])
  }

  /** The nine passes of `forall`, in the order model.hh:140-238 runs them. */
  function ApplyInOrder(op: BranchOp, s: seq<BranchState>): (r: seq<BranchState>)
    requires |s| == TOTAL
    ensures |r| == TOTAL
  {
    var s1 := ApplyTable(op, s, Nonzero7x7);
    var s2 := ApplyTable(op, s1, Nonzero1x8);
    var s3 := ApplyTable(op, s2, Nonzero8x1);
    var s4 := ApplyTable(op, s3, Sign);
    var s5 := ApplyTable(op, s4, ResidualNoise);
    var s6 := ApplyTable(op, s5, ResidualThreshold);
    var s7 := ApplyTable(op, s6, Exponent7x7);
    var s8 := ApplyTable(op, s7, ExponentDC);
    ApplyTable(op, s8, ExponentX)
  }

  /** The nine passes together visit every entry exactly once: each sub-table
      appears once in the order, and every position belongs to one sub-table. */
  lemma ApplyInOrderOnce(op: BranchOp, s: seq<BranchState>)
    requires |s| == TOTAL
    ensures forall o :: 0 <= o < TOTAL ==> ApplyInOrder(op, s)[o] == OpResult(op, s[o])
  {
    forall o | 0 <= o < TOTAL
      ensures ApplyInOrder(op, s)[o] == OpResult(op, s[o])
    {
      var t := TableOf(o);
      var s1 := ApplyTable(op, s, Nonzero7x7);
      var s2 := ApplyTable(op, s1, Nonzero1x8);
      var s3 := ApplyTable(op, s2, Nonzero8x1);
      var s4 := ApplyTable(op, s3, Sign);
      var s5 := ApplyTable(op, s4, ResidualNoise);
      var s6 := ApplyTable(op, s5, ResidualThreshold);
      var s7 := ApplyTable(op, s6, Exponent7x7);
      var s8 := ApplyTable(op, s7, ExponentDC);
      assert s8[o] == if t == ExponentX then s[o] else OpResult(op, s[o]);
    }
  }

  /** `struct Model`: all Branches, flattened row-major in declaration order. */
  class ModelTable {
    const branches: array<Branch>
    /** The Branch objects of the table (at least), the frame of every update. */
    ghost const entries: set<Branch>

    /** Every entry is its own Branch (entries are values in the source) and is bounded. */
    ghost predicate Valid()
      reads this, branches, entries
    {
      && branches.Length == TOTAL
      && (forall o :: 0 <= o < branches.Length ==> branches[o] in entries)
      && (forall i, j :: 0 <= i < j < branches.Length ==> branches[i] != branches[j])
      && (forall o :: 0 <= o < branches.Length ==> Bounded(branches[o].State()))
    }

    /** The state of every Branch, position by position. */
    ghost function States(): (s: seq<BranchState>)
      requires Valid()
      reads this, branches, entries
      ensures |s| == TOTAL && forall o :: 0 <= o < TOTAL ==> s[o] == branches[o].State()
    {
      seq(TOTAL, o requires 0 <= o < branches.Length && branches[o] in entries reads branches, entries => branches[o].State())
    }

    /** The Branch at an address. */
    function At(k: Key): (b: Branch)
      requires InBounds(k)
      requires branches.Length == TOTAL
      reads this, branches
    {
      branches[Offset(k)]
    }

    /** The Branch at an in-bounds address is one of the entries. */
    lemma AtInEntries(k: Key)
      requires InBounds(k) && Valid()
      ensures At(k) in entries && At(k) == branches[Offset(k)]
    {
    }

    /** `new Model`: every entry default-constructed. */
    constructor ()
      ensures Valid() && fresh(branches) && fresh(entries)
      ensures forall o :: 0 <= o < TOTAL ==> branches[o].State() == Initial
    {
      var placeholder := new Branch();
      var a := new Branch[TOTAL](_ => placeholder);
      var i := 0;
      while i < TOTAL
        invariant 0 <= i <= TOTAL
        invariant forall o :: 0 <= o < i ==> fresh(a[o]) && a[o] != placeholder
        invariant forall o :: 0 <= o < i ==> a[o].State() == Initial
        invariant forall o, p :: 0 <= o < p < i ==> a[o] != a[p]
      {
        var b := new Branch();
        a[i] := b;
        i := i + 1;
      }
      branches := a;
      entries := set o | 0 <= o < a.Length :: a[o];
    }

    /** `Model::forall` over one sub-table: its nested loops visit the sub-table's
        entries in row-major order, which is the order of the flattened segment. */
    method ForallTable(op: BranchOp, t: Table)
      requires Valid()
      modifies entries
      ensures Valid()
      ensures States() == ApplyTable(op, old(States()), t)
    {
      LayoutContiguous();
      ForallRange(op, Base(t), Base(t) + Size(t));
      forall p | 0 <= p < TOTAL
        ensures States()[p] == ApplyTable(op, old(States()), t)[p]
      {
        TableOfSegment(p, t);
      }
    }

    /** The entries of positions lo to hi - 1, one after the other. */
    method ForallRange(op: BranchOp, lo: nat, hi: nat)
      requires Valid() && lo <= hi <= TOTAL
      modifies entries
      ensures Valid()
      ensures forall p :: lo <= p < hi ==> branches[p].State() == OpResult(op, old(branches[p].State()))
      ensures forall p :: 0 <= p < TOTAL && !(lo <= p < hi) ==> branches[p].State() == old(branches[p].State())
    {
      var o := lo;
      while o < hi
        invariant lo <= o <= hi && Valid()
        invariant forall p :: lo <= p < o ==> branches[p].State() == OpResult(op, old(branches[p].State()))
        invariant forall p :: 0 <= p < TOTAL && !(lo <= p < o) ==> branches[p].State() == old(branches[p].State())
      {
        ApplyOp(op, branches[o]);
        o := o + 1;
      }
    }

    /** `Model::forall(proc)`: applies the callback to every Branch exactly once,
        sub-table by sub-table in the order of model.hh:140-238. */
    method Forall(op: BranchOp)
      requires Valid()
      modifies entries
      ensures Valid()
      ensures forall o :: 0 <= o < TOTAL ==> branches[o].State() == OpResult(op, old(branches[o].State()))
    {
      ghost var before := States();
      ForallTable(op, Nonzero7x7);
      ForallTable(op, Nonzero1x8);
      ForallTable(op, Nonzero8x1);
      ForallTable(op, Sign);
      ForallTable(op, ResidualNoise);
      ForallTable(op, ResidualThreshold);
      ForallTable(op, Exponent7x7);
      ForallTable(op, ExponentDC);
      ForallTable(op, ExponentX);
      ApplyInOrderOnce(op, before);
    }
  }

  /** The owner of the Model and of the quantization table (model.hh:282-292). */
  class ProbabilityTables {
    const model: ModelTable
    var quantizationTable: Option<seq<nat>>

    ghost predicate Valid()
      reads this, model, model.branches, model.entries
    {
      model.Valid()
    }

    /** `ProbabilityTables()`: a new Model, no quantization table, and every Branch
        reset to its default state through `forall`. */
    constructor ()
      ensures Valid() && fresh(model) && fresh(model.entries)
      ensures quantizationTable == None
      ensures forall o :: 0 <= o < TOTAL ==> model.branches[o].State() == Initial
    {
      var m := new ModelTable();
      m.Forall(AssignDefault);
      model := m;
      quantizationTable := None;
    }

    method SetQuantizationTable(q: seq<nat>)
      requires |q| == 64
      modifies this`quantizationTable
      ensures quantizationTable == Some(q)
    {
      quantizationTable := Some(q);
    }

    /** `ProbabilityTables::normalize`: `Branch::normalize` on every entry, which
        leaves the whole table unchanged. */
    method Normalize()
      requires Valid()
      modifies model.entries
      ensures Valid()
      ensures forall o :: 0 <= o < TOTAL ==> model.branches[o].State() == old(model.branches[o].State())
    {
      model.Forall(NormalizeEach);
    }
  }
}
