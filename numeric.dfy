/** Integer helpers shared by the model: powers of two, bit lengths, C++ integer
    semantics (truncating division, int16 truncation) and most-significant-bit-first
    bit strings. */
module Numeric {

  datatype Option<T> = None | Some(value: T)

  /** 2^n */
  function Pow2(n: nat): (r: nat)
    ensures r >= 1
  {
    if n == 0 then 1 else 2 * Pow2(n - 1)
  }

  lemma {:induction false} Pow2Monotone(m: nat, n: nat)
    requires m <= n
    ensures Pow2(m) <= Pow2(n)
  {
    if m < n {
      Pow2Monotone(m, n - 1);
    }
  }

  /** The powers of two the coders' bit widths use. */
  lemma Pow2Table()
    ensures Pow2(2) == 4 && Pow2(3) == 8 && Pow2(4) == 16 && Pow2(5) == 32 && Pow2(6) == 64
    ensures Pow2(7) == 128 && Pow2(8) == 256 && Pow2(9) == 512 && Pow2(10) == 1024 && Pow2(11) == 2048 && Pow2(12) == 4096
    ensures Pow2(16) == 65536
  {
    assert Pow2(1) == 2 && Pow2(2) == 4 && Pow2(3) == 8 && Pow2(4) == 16;
    assert Pow2(5) == 32 && Pow2(6) == 64 && Pow2(7) == 128 && Pow2(8) == 256;
    assert Pow2(9) == 512 && Pow2(10) == 1024 && Pow2(11) == 2048 && Pow2(12) == 4096;
    assert Pow2(13) == 8192 && Pow2(14) == 16384 && Pow2(15) == 32768;
  }

  /** bit_length(v): the number of binary digits of v, 0 for v == 0. */
  function BitLength(v: nat): (r: nat)
    ensures v == 0 <==> r == 0
    ensures r > 0 ==> Pow2(r - 1) <= v < Pow2(r)
  {
    if v == 0 then 0 else 1 + BitLength(v / 2)
  }

  /** A bit length is determined by the power-of-two interval the value lies in. */
  lemma BitLengthUnique(v: nat, k: nat)
    requires k > 0 && Pow2(k - 1) <= v < Pow2(k)
    ensures BitLength(v) == k
  {
    var r := BitLength(v);
    if r < k {
      Pow2Monotone(r, k - 1);
    } else if r > k {
      Pow2Monotone(k, r - 1);
    }
  }

  lemma BitLengthMonotone(u: nat, v: nat)
    requires u <= v
    ensures BitLength(u) <= BitLength(v)
  {
    if u > 0 && BitLength(u) > BitLength(v) {
      Pow2Monotone(BitLength(v), BitLength(u) - 1);
    }
  }

  /** Bit i of v, the C++ test `v & (1 << i)`. */
  predicate Bit(v: nat, i: nat)
  {
    if i == 0 then v % 2 == 1 else Bit(v / 2, i - 1)
  }

  /** `c | (1 << i)` when b holds, `c` otherwise: one bit OR'd into c. */
  function OrBit(c: nat, i: nat, b: bool): nat
  {
    if b && !Bit(c, i) then c + Pow2(i) else c
  }

  /** The value of the low k bits of v (v modulo 2^k), built by halving. */
  function LowValue(v: nat, k: nat): (r: nat)
    ensures r < Pow2(k)
  {
    if k == 0 then 0 else 2 * LowValue(v / 2, k - 1) + v % 2
  }

  /** A value below 2^k is its own low k bits. */
  lemma {:induction false} LowValueSmall(v: nat, k: nat)
    requires v < Pow2(k)
    ensures LowValue(v, k) == v
  {
    if k > 0 {
      LowValueSmall(v / 2, k - 1);
    }
  }

  /** A value of bit length k is 2^(k-1) plus its low k-1 bits. */
  lemma {:induction false} LowValueTop(v: nat, k: nat)
    requires k > 0 && Pow2(k - 1) <= v < Pow2(k)
    ensures v == Pow2(k - 1) + LowValue(v, k - 1)
  {
    if k > 1 {
      LowValueTop(v / 2, k - 1);
    }
  }

  /** The top bit of a nonzero value is set. */
  lemma {:induction false} TopBitSet(v: nat, k: nat)
    requires k > 0 && Pow2(k - 1) <= v < Pow2(k)
    ensures Bit(v, k - 1)
  {
    if k > 1 {
      TopBitSet(v / 2, k - 1);
    }
  }

  /** A multiple of 2^(i+1) has bit i clear. */
  lemma {:induction false} MultipleBitClear(m: nat, i: nat)
    ensures !Bit(m * Pow2(i + 1), i)
  {
    var c := m * Pow2(i + 1);
    assert c == 2 * (m * Pow2(i));
    if i > 0 {
      MultipleBitClear(m, i - 1);
    }
  }

  /** The value of a bit string read most significant bit first. */
  function MsbValue(bits: seq<bool>): (r: nat)
    ensures r < Pow2(|bits|)
  {
    if bits == [] then 0
    else 2 * MsbValue(bits[..|bits| - 1]) + (if bits[|bits| - 1] then 1 else 0)
  }

  /** A bit in front of a bit string is worth 2^(length of the string). */
  lemma {:induction false} MsbValueCons(b: bool, w: seq<bool>)
    ensures MsbValue([b] + w) == (if b then Pow2(|w|) else 0) + MsbValue(w)
  {
    if w != [] {
      var bw := [b] + w;
      assert bw[..|bw| - 1] == [b] + w[..|w| - 1];
      MsbValueCons(b, w[..|w| - 1]);
    }
  }

  /** OR-ing bit n-1 into a multiple of 2^n adds 2^(n-1): the bit was clear. */
  lemma OrBitIntoMultiple(k: nat, n: nat, b: bool)
    requires n > 0
    ensures OrBit(k * Pow2(n), n - 1, b) == k * Pow2(n) + (if b then Pow2(n - 1) else 0)
  {
    MultipleBitClear(k, n - 1);
  }

  /** Bits k-1 .. 0 of v, most significant first: what the coders emit as residual bits. */
  function LowBits(v: nat, k: nat): (r: seq<bool>)
    ensures |r| == k
  {
    if k == 0 then [] else LowBits(v / 2, k - 1) + [v % 2 == 1]
  }

  lemma {:induction false} LowBitsAt(v: nat, k: nat, j: nat)
    requires j < k
    ensures LowBits(v, k)[j] == Bit(v, k - 1 - j)
  {
    if j < k - 1 {
      LowBitsAt(v / 2, k - 1, j);
    }
  }

  /** Reading back the low k bits of v gives the value of those bits. */
  lemma {:induction false} LowBitsValue(v: nat, k: nat)
    ensures MsbValue(LowBits(v, k)) == LowValue(v, k)
  {
    if k > 0 {
      LowBitsValue(v / 2, k - 1);
      var b := LowBits(v, k);
      assert b[..|b| - 1] == LowBits(v / 2, k - 1);
    }
  }

  /** `v >> m`: v halved m times. */
  function ShiftRight(v: nat, m: nat): nat
  {
    if m == 0 then v else ShiftRight(v / 2, m - 1)
  }

  /** Bit i of v shifted right by m is bit i + m of v. */
  lemma {:induction false} BitShift(v: nat, m: nat, i: nat)
    ensures Bit(ShiftRight(v, m), i) == Bit(v, i + m)
  {
    if m > 0 {
      BitShift(v / 2, m - 1, i);
    }
  }

  /** The low n bits of v are its bits n-1..k followed by its low k bits. */
  lemma {:induction false} LowBitsSplit(v: nat, n: nat, k: nat)
    requires k <= n
    ensures LowBits(v, n) == LowBits(ShiftRight(v, k), n - k) + LowBits(v, k)
  {
    if k > 0 {
      LowBitsSplit(v / 2, n - 1, k - 1);
    }
  }

  /** Bit lengths are bounded by the power of two a value stays below. */
  lemma BitLengthBelow(v: nat, k: nat)
    requires v < Pow2(k)
    ensures BitLength(v) <= k
  {
  }

  /** Integer division by a positive divisor reaches k exactly when the dividend reaches k * d. */
  lemma DivAtLeast(n: nat, d: nat, k: nat)
    requires d > 0
    ensures n / d >= k <==> n >= k * d
  {
    var q, r := n / d, n % d;
    assert n == q * d + r;
    if q >= k {
      MulMonotone(k, q, d);
    } else {
      MulMonotone(q + 1, k, d);
      assert (q + 1) * d == q * d + d;
    }
  }

  /** Quotient and remainder are unique. */
  lemma DivModUnique(v: nat, d: nat, q: nat, r: nat)
    requires d > 0 && v == q * d + r && r < d
    ensures v / d == q && v % d == r
  {
    DivAtLeast(v, d, q);
    DivAtLeast(v, d, q + 1);
    assert (q + 1) * d == q * d + d;
    assert v == (v / d) * d + v % d;
  }

  /** Arithmetic helper for the proofs, not a property of the coder: multiplying by
      the same factor keeps the order. */
  lemma MulMonotone(a: nat, b: nat, d: nat)
    requires a <= b
    ensures a * d <= b * d
  {
    assert b * d == a * d + (b - a) * d;
  }

  /** A product with a positive factor can be cancelled. */
  lemma MulCancel(a: int, b: int, d: nat)
    requires d > 0 && a * d <= b * d
    ensures a <= b
  {
    if a > b {
      assert a * d - b * d == (a - b) * d;
      MulMonotone(1, a - b, d);
    }
  }

  /** A value below 2^(a+b) shifted right by a is below 2^b. */
  lemma {:induction false} ShiftBelowPow2(m: nat, a: nat, b: nat)
    requires m < Pow2(a + b)
    ensures ShiftRight(m, a) < Pow2(b)
  {
    if a > 0 {
      ShiftBelowPow2(m / 2, a - 1, b);
    }
  }

  /** The rounded-up quotient `(n + d - 1) / d`. */
  function CeilDiv(n: nat, d: nat): nat
    requires d > 0
  {
    (n + d - 1) / d
  }

  /** Arithmetic helper for the proofs: the rounded-up quotient is the least r with
      r * d >= n. */
  lemma CeilDivBounds(n: nat, d: nat)
    requires d > 0
    ensures CeilDiv(n, d) * d >= n
    ensures CeilDiv(n, d) > 0 ==> (CeilDiv(n, d) - 1) * d < n
  {
    var m := n + d - 1;
    assert m == (m / d) * d + m % d;
    assert (m / d - 1) * d == (m / d) * d - d;
  }

  /** C++ `a / b` on int with a positive divisor: the quotient truncated toward zero
      (Dafny's own `/` rounds toward negative infinity for a negative dividend). */
  function TruncDiv(a: int, b: int): (r: int)
    requires b > 0
    ensures a >= 0 ==> r == a / b
    ensures a < 0 ==> r == -((-a) / b)
  {
    if a >= 0 then a / b else -((-a) / b)
  }

  /** The quotient rounds toward zero: its magnitude is the floor of |a| / b. */
  lemma TruncDivBounds(a: int, b: int)
    requires b > 0
    ensures a >= 0 ==> 0 <= TruncDiv(a, b) && TruncDiv(a, b) * b <= a < TruncDiv(a, b) * b + b
    ensures a < 0 ==> TruncDiv(a, b) <= 0 && TruncDiv(a, b) * b - b < a <= TruncDiv(a, b) * b
  {
  }

  /** Arithmetic helper for the proofs, not a property of the coder: a product of
      positive factors is positive. */
  lemma MulPositive(a: int, b: int)
    requires a > 0 && b > 0
    ensures a * b > 0
  {
    MulMonotone(1, a, b);
  }

  function Abs(x: int): (r: nat)
    ensures r == x || r == -x
  {
    if x < 0 then -x else x
  }

  function Min(a: int, b: int): int { if a < b then a else b }
  function Max(a: int, b: int): int { if a < b then b else a }

  /** Conversion of an int to int16_t: wrap-around into [-32768, 32767]. */
  function ToInt16(v: int): (r: int)
    ensures -32768 <= r < 32768
    ensures -32768 <= v < 32768 ==> r == v
  {
    (v + 32768) % 65536 - 32768
  }
}
