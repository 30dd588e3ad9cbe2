/** Fixed-point decimal arithmetic on scaled integers.

    A `BigDecimal` of scale `s` is represented by its unscaled integer (the value times
    10^s). Multiplication, addition and subtraction are exact; `divide(d, scale, HALF_UP)`
    becomes `DivHalfUp` applied to a numerator pre-multiplied by the right power of ten. */
module Decimal {

  function Abs(x: int): nat {
    if x < 0 then -x else x
  }

  function Pow(base: int, exp: nat): (p: int)
    ensures base >= 0 ==> p >= 0
  {
    if exp == 0 then 1 else base * Pow(base, exp - 1)
  }

  /** a / b rounded to the nearest integer, a tie rounding up. */
  function RoundHalfUpNat(a: nat, b: nat): (q: nat)
    requires b > 0
    ensures 2 * q * b <= 2 * a + b < 2 * q * b + 2 * b
  {
    (2 * a + b) / (2 * b)
  }

  /** `q` is n / d rounded to the nearest integer, a tie rounding away from zero: the
      magnitude is within half of |d| of |n| / |d| (a tie taking the larger one), and a
      nonzero `q` has the sign of n / d. */
  predicate IsHalfUpQuotient(q: int, n: int, d: int) {
    && 2 * Abs(q) * Abs(d) <= 2 * Abs(n) + Abs(d) < 2 * Abs(q) * Abs(d) + 2 * Abs(d)
    && (q != 0 ==> (q > 0 <==> (n > 0) == (d > 0)))
  }

  /** n / d rounded with the `RoundingMode.HALF_UP` of `BigDecimal`, which rounds the
      magnitude and keeps the sign. */
  function DivHalfUp(n: int, d: int): (q: int)
    requires d != 0
    ensures IsHalfUpQuotient(q, n, d)
  {
    var m: int := RoundHalfUpNat(Abs(n), Abs(d));
    if (n < 0) != (d < 0) then -m else m
  }

  lemma MulLeft(a: int, b: int, m: nat)
    requires a <= b
    ensures m * a <= m * b
  {
    var k := b - a;
    assert m * b == m * a + m * k;
  }

  lemma DivMonotone(x: int, y: int, m: int)
    requires x <= y
    requires m > 0
    ensures x / m <= y / m
  {
    var qx, qy := x / m, y / m;
    assert x == m * qx + x % m;
    assert y == m * qy + y % m;
    if qy < qx {
      MulLeft(qy + 1, qx, m);
    }
  }

  lemma RoundHalfUpNatMonotone(a1: nat, a2: nat, b: nat)
    requires a1 <= a2
    requires b > 0
    ensures RoundHalfUpNat(a1, b) <= RoundHalfUpNat(a2, b)
  {
    DivMonotone(2 * a1 + b, 2 * a2 + b, 2 * b);
  }

  /** Rounding half-up never reverses the order of two numerators over one positive divisor. */
  lemma DivHalfUpMonotone(n1: int, n2: int, d: int)
    requires n1 <= n2
    requires d > 0
    ensures DivHalfUp(n1, d) <= DivHalfUp(n2, d)
  {
    if 0 <= n1 {
      RoundHalfUpNatMonotone(n1, n2, d);
    } else if n2 < 0 {
      RoundHalfUpNatMonotone(-n2, -n1, d);
    }
  }

  /** Only one natural number is within half a divisor of a given numerator. */
  lemma RoundHalfUpNatUnique(a: nat, b: nat, q: nat)
    requires b > 0
    requires 2 * q * b <= 2 * a + b < 2 * q * b + 2 * b
    ensures q == RoundHalfUpNat(a, b)
  {
    var r := RoundHalfUpNat(a, b);
    if q < r {
      MulLeft(q + 1, r, 2 * b);
    } else if r < q {
      MulLeft(r + 1, q, 2 * b);
    }
  }

  /** The rounding contract of `DivHalfUp` pins its result down: no other integer meets it. */
  lemma DivHalfUpUnique(n: int, d: int, q: int)
    requires d != 0
    requires IsHalfUpQuotient(q, n, d)
    ensures q == DivHalfUp(n, d)
  {
    RoundHalfUpNatUnique(Abs(n), Abs(d), Abs(q));
  }

  lemma {:induction false} PowPositive(base: int, exp: nat)
    requires base > 0
    ensures Pow(base, exp) > 0
  {
    if exp > 0 {
      PowPositive(base, exp - 1);
    }
  }

  lemma {:induction false} PowMonotoneBase(a: int, b: int, exp: nat)
    requires 0 < a <= b
    ensures Pow(a, exp) <= Pow(b, exp)
  {
    if exp > 0 {
      PowMonotoneBase(a, b, exp - 1);
      PowPositive(a, exp - 1);
      MulLeft(a, b, Pow(a, exp - 1));
      MulLeft(Pow(a, exp - 1), Pow(b, exp - 1), b);
    }
  }

  lemma {:induction false} PowAdd(base: int, m: nat, n: nat)
    ensures Pow(base, m + n) == Pow(base, m) * Pow(base, n)
  {
    if m > 0 {
      PowAdd(base, m - 1, n);
      assert Pow(base, m + n) == base * Pow(base, m - 1 + n);
      assert Pow(base, m) * Pow(base, n) == base * (Pow(base, m - 1) * Pow(base, n));
    }
  }

  // ---------------------------------------------------------------------------------
  // The limits of `BigDecimal.pow(int)`, as the JDK 21 class library sets them

  /** The largest `int`. */
  const MaxInt: nat := 0x7fff_ffff
  /** A `BigInteger` magnitude holds at most 2^26 words of 32 bits (`MAX_MAG_LENGTH`). */
  const MaxMagLength: nat := 0x400_0000
  /** The largest exponent `BigDecimal.pow(int)` accepts; it refuses anything above it and
      anything negative. */
  const MaxPower: nat := 999_999_999

  /** The number of binary digits of `x`, which is `BigInteger.bitLength()` of a
      non-negative value. */
  function BitLength(x: nat): (b: nat)
    ensures x == 0 <==> b == 0
  {
    if x == 0 then 0 else 1 + BitLength(x / 2)
  }

  /** A positive number with b binary digits lies in [2^(b−1), 2^b). */
  lemma {:induction false} BitLengthBounds(x: nat)
    requires x > 0
    ensures Pow(2, BitLength(x) - 1) <= x < Pow(2, BitLength(x))
  {
    if x > 1 {
      BitLengthBounds(x / 2);
      assert Pow(2, BitLength(x)) == 2 * Pow(2, BitLength(x / 2));
    }
  }

  /** `BigInteger.bitLength()` of any value: a negative one counts the bits of its two's
      complement without the sign bit, which are those of |x| − 1. */
  function SignedBitLength(x: int): nat {
    if x >= 0 then BitLength(x) else BitLength(-x - 1)
  }

  predicate IsPowerOfTwo(x: nat) {
    x == 1 || (x > 1 && x % 2 == 0 && IsPowerOfTwo(x / 2))
  }

  /** `BigInteger.pow(n)` throws "BigInteger would overflow supported range".

      A `BigInteger` must stay below 2^(2^31 − 1), so the power fails once |u|^n has more
      than `MaxInt` bits. Before multiplying, a base that is not a power of two also fails
      the cheaper estimate `bitLength() * n / 32 > MAX_MAG_LENGTH`, which can fire for a power
      that would fit (`BitLengthOfPower` shows the estimate is an upper bound). A power of two
      is shifted instead and meets only the first limit. */
  predicate BigIntegerPowOverflows(u: int, n: nat) {
    && u != 0
    && ((!IsPowerOfTwo(Abs(u)) && SignedBitLength(u) * n / 32 > MaxMagLength)
        || BitLength(Pow(Abs(u), n)) > MaxInt)
  }

  /** `BigDecimal.pow(n)` throws on a value of unscaled `u` and scale `s`: the exponent is
      outside 0..999,999,999 ("Invalid operation"), the scale `s·n` of a nonzero result
      does not fit an `int` ("Underflow"), or `BigInteger.pow` overflows. */
  predicate PowRefused(u: int, s: nat, n: int) {
    || n < 0 || n > MaxPower
    || (u != 0 && s * n > MaxInt)
    || BigIntegerPowOverflows(u, n)
  }

  /** A number below 2^m has at most m binary digits. */
  lemma {:induction false} BitLengthAtMost(x: nat, m: nat)
    requires x < Pow(2, m)
    ensures BitLength(x) <= m
  {
    if x > 0 {
      assert m > 0 && x / 2 < Pow(2, m - 1);
      BitLengthAtMost(x / 2, m - 1);
    }
  }

  /** The bounds of `BitLength`'s contract determine it. */
  lemma {:induction false} BitLengthExact(x: nat, b: nat)
    requires b >= 1 && Pow(2, b - 1) <= x < Pow(2, b)
    ensures BitLength(x) == b
  {
    if b > 1 {
      assert Pow(2, b - 2) <= x / 2 < Pow(2, b - 1);
      BitLengthExact(x / 2, b - 1);
    }
  }

  /** A product `z` has at most as many binary digits as its factors together. */
  lemma BitLengthOfProduct(x: nat, y: nat, z: nat)
    requires x > 0 && y > 0 && z == x * y
    ensures BitLength(z) <= BitLength(x) + BitLength(y)
  {
    var a, b := BitLength(x), BitLength(y);
    var pa, pb := Pow(2, a), Pow(2, b);
    BitLengthBounds(x);
    BitLengthBounds(y);
    ProductBelow(x, pa, y, pb);
    PowAdd(2, a, b);
    BitLengthAtMost(z, a + b);
  }

  lemma ProductBelow(x: int, a: int, y: int, b: int)
    requires 0 < x < a && 0 < y < b
    ensures x * y < a * b
  {
    MulLeft(x, a - 1, y);
    MulLeft(y, b, a);
    assert y * (a - 1) == y * a - y;
  }

  /** The estimate `BigInteger.pow` makes before multiplying is an upper bound: the n-th
      power (n ≥ 1) of a positive number has at most n times its binary digits. */
  lemma {:induction false} BitLengthOfPower(x: nat, n: nat)
    requires x > 0 && n >= 1
    ensures BitLength(Pow(x, n)) <= n * BitLength(x)
  {
    if n == 1 {
      assert Pow(x, n) == x;
    } else {
      var prev := Pow(x, n - 1);
      BitLengthOfPower(x, n - 1);
      PowPositive(x, n - 1);
      assert Pow(x, n) == x * prev;
      BitLengthOfProduct(x, prev, Pow(x, n));
      OneMoreFactor(BitLength(Pow(x, n)), BitLength(prev), n, BitLength(x));
    }
  }

  lemma OneMoreFactor(a: int, b: int, n: nat, l: int)
    requires n >= 1 && a <= l + b && b <= (n - 1) * l
    ensures a <= n * l
  {
  }

  lemma {:induction false} PowOfPow(x: int, k: nat, j: nat)
    ensures Pow(x, k * j) == Pow(Pow(x, k), j)
  {
    if j > 0 {
      PowOfPow(x, k, j - 1);
      PowAdd(x, k, k * (j - 1));
      assert k * j == k + k * (j - 1);
    }
  }

  /** At one percent a month (a base of 1.0100 at scale four) `BigDecimal.pow` refuses
      exactly the negative tenors and those from 153,391,692 on, where the estimate of
      `BigInteger.pow` first exceeds its limit; below that the power fits. */
  lemma OnePercentPowerLimit(n: int)
    ensures PowRefused(10_100, 4, n) <==> n < 0 || n >= 153_391_692
  {
    OnePercentBitLengths();
    assert !IsPowerOfTwo(10_100);
    if 0 <= n < 153_391_692 {
      OnePercentPowerFits(n);
    }
  }

  /** The binary lengths of 1.0100 at scale four and of its square. */
  lemma OnePercentBitLengths()
    ensures SignedBitLength(10_100) == 14
    ensures Pow(10_100, 2) == 102_010_000 && BitLength(102_010_000) == 27
  {
    assert Pow(2, 13) == 8192 && Pow(2, 14) == 16384;
    BitLengthExact(10_100, 14);
    PowAdd(2, 13, 13);
    PowAdd(2, 13, 14);
    BitLengthExact(102_010_000, 27);
  }

  /** Below 153,391,692 the power of 1.0100 has fewer than 2^31 bits: its square has 27
      bits, so every second factor adds at most 27. */
  lemma OnePercentPowerFits(n: nat)
    requires n < 153_391_692
    ensures BitLength(Pow(10_100, n)) <= MaxInt
  {
    OnePercentBitLengths();
    PowerBitsBySquares(10_100, 102_010_000, n);
    SquaresFit(n / 2, BitLength(Pow(10_100, n)) - 14, 27);
  }

  lemma SquaresFit(j: int, a: int, t: int)
    requires j < 76_695_846 && t == 27 && a <= j * t
    ensures a <= MaxInt - 14
  {
  }

  /** x^n has at most ⌊n/2⌋ times the binary digits of x² plus those of x: the square
      bounds the growth of every second factor more tightly than x alone. */
  lemma PowerBitsBySquares(x: nat, sq: nat, n: nat)
    requires x > 0 && sq == Pow(x, 2)
    ensures BitLength(Pow(x, n)) <= (n / 2) * BitLength(sq) + BitLength(x)
  {
    if n == 0 {
      BitLengthExact(1, 1);
    } else if n > 1 {
      var j := n / 2;
      var evenPower := Pow(x, 2 * j);
      PowOfPow(x, 2, j);
      assert evenPower == Pow(sq, j);
      PowPositive(x, 2);
      BitLengthOfPower(sq, j);
      if n % 2 == 1 {
        PowAdd(x, 2 * j, 1);
        assert Pow(x, n) == evenPower * x;
        PowPositive(x, 2 * j);
        BitLengthOfProduct(evenPower, x, Pow(x, n));
      } else {
        assert n == 2 * j;
      }
    }
  }

  // ---------------------------------------------------------------------------------
  // The limits of `BigDecimal.ONE.divide(divisor, scale, mode)`

  /** `BigDecimal` keeps powers of ten below 16·19 in a table and computes larger ones
      with `BigInteger.TEN.pow` (`BIG_TEN_POWERS_TABLE_MAX`). */
  const TenPowersTableMax: nat := 304

  /** `BigDecimal.ONE.divide(divisor, scale, mode)` throws before it divides, whatever the
      divisor's value, when the divisor has scale `divisorScale`: the dividend 1 must be
      raised to scale `scale + divisorScale`, which either does not fit an `int`
      ("Underflow") or needs a power of ten that `BigInteger.TEN.pow` refuses. */
  predicate UnitDivideRefused(divisorScale: int, scale: int) {
    var raise := scale + divisorScale;
    || raise > MaxInt
    || (raise >= TenPowersTableMax && BigIntegerPowOverflows(10, raise))
  }

  /** Dividing one to ten places fails exactly for a divisor of scale 536,870,910 or more:
      from there on 10^(10 + scale) trips the size estimate of `BigInteger.pow`, long before
      it would really have 2^31 bits. */
  lemma UnitDivideLimit(divisorScale: nat)
    ensures UnitDivideRefused(divisorScale, 10) <==> divisorScale >= 536_870_910
  {
    if 10 + divisorScale <= MaxInt {
      TenPowerLimit(10 + divisorScale);
    }
  }

  /** `BigInteger.TEN.pow(k)` overflows exactly from k = 536,870,920 on. */
  lemma TenPowerLimit(k: nat)
    ensures BigIntegerPowOverflows(10, k) <==> k >= 536_870_920
  {
    TenBitLengths();
    assert !IsPowerOfTwo(10);
    if k < 536_870_920 {
      PowerBitsBySquares(10, 100, k);
      HalvesFit(k / 2, BitLength(Pow(10, k)) - 4, 7);
    }
  }

  /** The binary lengths of ten and of its square. */
  lemma TenBitLengths()
    ensures Abs(10) == 10 && SignedBitLength(10) == 4
    ensures Pow(10, 2) == 100 && BitLength(100) == 7
  {
    assert Pow(2, 3) == 8 && Pow(2, 4) == 16 && Pow(2, 6) == 64 && Pow(2, 7) == 128;
    BitLengthExact(10, 4);
    BitLengthExact(100, 7);
  }

  lemma HalvesFit(j: int, a: int, t: int)
    requires j < 268_435_460 && t == 7 && a <= j * t
    ensures a <= MaxInt - 4
  {
  }
}
