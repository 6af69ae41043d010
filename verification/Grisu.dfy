// Grisu2: scaling a float by a cached power of ten and generating the digits that read back as that float.
module Grisu {
  import opened Powers
  import opened DiyFps
  import opened Boundaries
  import opened CachedPowers
  import opened Decimals
  import opened DigitGen

  /** The real number V * 10^n. */
  function Decimal(V: nat, n: int): real {
    RProduct(V as real, RPow(10, n))
  }

  // ---------------------------------------------------------------- the table entry as a real number

  /** c = f * 2^e approximates 10^k with an error of at most half a unit in the last place. */
  predicate NearPowerOfTen(c: CachedPower) {
    Scaled(2 * c.f - 1, c.e - 1) <= RPow(10, c.k) <= Scaled(2 * c.f + 1, c.e - 1)
  }

  lemma AccurateIsNear(c: CachedPower)
    requires Accurate(c)
    ensures NearPowerOfTen(c)
  {
    hide Scaled, Pow, RPow, Shl;
    if c.k < 0 {
      NearNegative(2 * c.f - 1, 2 * c.f + 1, -c.k, -c.e);
    } else if c.e >= 0 {
      NearPositive(2 * c.f - 1, 2 * c.f + 1, c.k, c.e);
    } else {
      NearExact(c.f, c.k, -c.e);
    }
  }

  lemma ScaledAtMost(a: int, b: int, e: int)
    requires a <= b
    ensures Scaled(a, e) <= Scaled(b, e)
  {
    hide Scaled;
    if a < b { ScaledLess(a, b, e); }
  }

  /** n = (n << m) * 2^-m */
  lemma IntegerAsScaled(n: nat, m: int)
    requires m >= 0
    ensures n as real == Scaled(Shl(n, m), -m)
  {
    MoveFactor(n, 0, Shl(n, m), -m, m);
    assert RPow(2, 0) == 1.0;
  }

  lemma ScaledTimes(a: int, t: int, e: int)
    ensures Scaled(a * t, e) == RProduct(Scaled(a, e), t as real)
  {
    var q := RPow(2, e);
    hide RPow;
    RealProduct(a, t);
    RegroupRight(a as real, t as real, q);
  }

  lemma RegroupRight(a: real, t: real, q: real)
    ensures (a * t) * q == (a * q) * t
  {}

  lemma NearPositive(lo: int, hi: int, k: nat, e: nat)
    requires lo * Pow(2, e) <= 2 * Pow(10, k) <= hi * Pow(2, e)
    ensures Scaled(lo, e - 1) <= RPow(10, k) <= Scaled(hi, e - 1)
  {
    RPowOfNat(10, k);
    IntegerAsScaled(Pow(10, k), 1);
    assert Shl(Pow(10, k), 1) == 2 * Pow(10, k) by { assert Pow(2, 1) == 2; }
    MoveFactor(lo, e - 1, Shl(lo, e), -1, e);
    MoveFactor(hi, e - 1, Shl(hi, e), -1, e);
    assert Shl(lo, e) <= 2 * Pow(10, k) <= Shl(hi, e);
    hide Scaled, Shl, Pow, RPow;
    ScaledAtMost(Shl(lo, e), 2 * Pow(10, k), -1);
    ScaledAtMost(2 * Pow(10, k), Shl(hi, e), -1);
  }

  lemma NearExact(f: nat, k: nat, m: int)
    requires m >= 0 && f == Pow(2, m) * Pow(10, k)
    ensures Scaled(2 * f - 1, -m - 1) <= RPow(10, k) <= Scaled(2 * f + 1, -m - 1)
  {
    RPowOfNat(10, k);
    ExactShift(f, k, m);
    hide Scaled, Shl, Pow, RPow;
    IntegerAsScaled(Pow(10, k), m);
    MoveFactor(f, -m, 2 * f, -m - 1, 1);
    ScaledAtMost(2 * f - 1, 2 * f, -m - 1);
    ScaledAtMost(2 * f, 2 * f + 1, -m - 1);
  }

  lemma ExactShift(f: nat, k: nat, m: nat)
    requires f == Pow(2, m) * Pow(10, k)
    ensures Shl(Pow(10, k), m) == f
    ensures 2 * f == Shl(f, 1)
    ensures Shl(1, m + 1) == 2 * Pow(2, m)
  {
    assert Pow(2, 1) == 2;
  }

  lemma NearNegative(lo: int, hi: int, n: int, m: int)
    requires n > 0 && m > 0
    requires lo * Pow(10, n) <= 2 * Pow(2, m) <= hi * Pow(10, n)
    ensures Scaled(lo, -m - 1) <= RPow(10, -n) <= Scaled(hi, -m - 1)
  {
    var t, x := Pow(10, n), RPow(10, -n);
    TenInverse(n);
    ExactShift(Pow(2, m) * Pow(10, 0), 0, m);
    IntegerAsScaled(1, m + 1);
    hide Scaled, Shl, Pow, RPow;
    ScaledAtMost(lo * t, 2 * Pow(2, m), -m - 1);
    ScaledAtMost(2 * Pow(2, m), hi * t, -m - 1);
    ScaledTimes(lo, t, -m - 1);
    ScaledTimes(hi, t, -m - 1);
    hide RProduct;
    DivideOut(t as real, x, Scaled(lo, -m - 1), Scaled(hi, -m - 1));
  }

  lemma TenInverse(n: nat)
    ensures RProduct(Pow(10, n) as real, RPow(10, -(n as int))) == 1.0
  {
    RPowOfNat(10, n);
    RPowAdd(10, n, -(n as int));
    assert RPow(10, 0) == 1.0;
  }

  lemma DivideOut(t: real, x: real, a: real, b: real)
    requires t > 0.0 && RProduct(t, x) == 1.0 && RProduct(a, t) <= 1.0 <= RProduct(b, t)
    ensures a <= x <= b
  {
    DivideOutOnce(t, x, a);
    DivideOutOnce(t, x, b);
  }

  lemma DivideOutOnce(t: real, x: real, a: real)
    requires t > 0.0 && RProduct(t, x) == 1.0
    ensures RProduct(a, t) <= 1.0 <==> a <= x
    ensures 1.0 <= RProduct(a, t) <==> x <= a
  {
    assert x * t == 1.0 by { assert t * x == 1.0; }
    RMulLess(t, a, x);
    RMulLess(t, x, a);
  }

  // ---------------------------------------------------------------- one product

  lemma ShlBy65(n: int)
    ensures Shl(n, 65) == 2 * TWO_64 * n
  {
    PowerConstants();
    assert Pow(2, 65) == 2 * Pow(2, 64);
  }

  lemma RMulAtMost(c: real, x: real, y: real)
    requires c > 0.0 && x <= y
    ensures RProduct(c, x) <= RProduct(c, y)
  {
    RMulLess(c, x, y);
  }

  lemma ScaledPositive(n: int, e: int)
    requires n > 0
    ensures Scaled(n, e) > 0.0
  {
    ScaledLess(0, n, e);
    RMulPos(n as real, RPow(2, e));
  }

  lemma UpperArithmetic(x: u64, c: u64, p: int)
    requires 2 * TWO_64 * p <= 2 * (x * c) + TWO_64
    ensures Shl(p - 1, 65) < Product(x, 2 * c - 1)
  {
    ShlBy65(p - 1);
    hide Shl;
    assert x * (2 * c - 1) == 2 * (x * c) - x;
  }

  lemma LowerArithmetic(x: u64, c: u64, p: int)
    requires 2 * (x * c) - TWO_64 < 2 * TWO_64 * p
    ensures Product(x, 2 * c + 1) < Shl(p + 1, 65)
  {
    ShlBy65(p + 1);
    hide Shl;
    assert x * (2 * c + 1) == 2 * (x * c) + x;
  }

  /** The scaled numbers digit generation works on, the outer two shrunk by one unit. */
  function Low(minus: DiyFp, c: CachedPower): nat {
    Mul(minus, DiyFp(c.f, c.e)).f + 1
  }

  function Middle(v: DiyFp, c: CachedPower): nat {
    Mul(v, DiyFp(c.f, c.e)).f
  }

  function High(plus: DiyFp, c: CachedPower): int {
    Mul(plus, DiyFp(c.f, c.e)).f - 1
  }

  /**
   * Shrinking the scaled upper bound by one unit makes up for both roundings: the result lies strictly below the
   * exact product with 10^k. Raising the lower bound does the same from above.
   */
  lemma UpperShrinks(x: DiyFp, c: CachedPower)
    requires x.f > 0 && NearPowerOfTen(c)
    ensures Scaled(High(x, c), x.e + c.e + 64) < RProduct(x.Value(), RPow(10, c.k))
  {
    var p, b := Mul(x, DiyFp(c.f, c.e)), 2 * c.f - 1;
    MulError(x, DiyFp(c.f, c.e));
    UpperArithmetic(x.f, c.f, p.f);
    ExponentOfProduct(x, c);
    hide Scaled, Shl, RPow, Mul, Product, RProduct;
    MoveFactor(p.f - 1, p.e, Shl(p.f - 1, 65), x.e + (c.e - 1), 65);
    ScaledLess(Shl(p.f - 1, 65), Product(x.f, b), x.e + (c.e - 1));
    ScaledMul(x.f, x.e, b, c.e - 1);
    ScaledPositive(x.f, x.e);
    RMulAtMost(x.Value(), Scaled(b, c.e - 1), RPow(10, c.k));
  }

  lemma LowerRises(x: DiyFp, c: CachedPower)
    requires x.f > 0 && NearPowerOfTen(c)
    ensures RProduct(x.Value(), RPow(10, c.k)) < Scaled(Low(x, c), x.e + c.e + 64)
  {
    var p, b := Mul(x, DiyFp(c.f, c.e)), 2 * c.f + 1;
    MulError(x, DiyFp(c.f, c.e));
    LowerArithmetic(x.f, c.f, p.f);
    ExponentOfProduct(x, c);
    hide Scaled, Shl, RPow, Mul, Product, RProduct;
    MoveFactor(p.f + 1, p.e, Shl(p.f + 1, 65), x.e + (c.e - 1), 65);
    ScaledLess(Product(x.f, b), Shl(p.f + 1, 65), x.e + (c.e - 1));
    ScaledMul(x.f, x.e, b, c.e - 1);
    ScaledPositive(x.f, x.e);
    RMulAtMost(x.Value(), RPow(10, c.k), Scaled(b, c.e - 1));
  }

  lemma ExponentOfProduct(x: DiyFp, c: CachedPower)
    ensures Mul(x, DiyFp(c.f, c.e)).e == x.e + (c.e - 1) + 65
  {}

  // ---------------------------------------------------------------- scaling keeps the order

  /** Factors normalized to 64 bits: a distance of 2g before the multiplication leaves at least g after it. */
  lemma MulKeepsDistance(x: DiyFp, y: DiyFp, c: DiyFp, g: nat)
    requires x.f + 2 * g <= y.f && c.f >= TWO_63
    ensures Mul(x, c).f + g <= Mul(y, c).f
  {
    MulMonotone(c.f, x.f + 2 * g, y.f);
    assert (x.f + 2 * g) * c.f == x.f * c.f + g * (2 * c.f);
    MulMonotone(g, TWO_64, 2 * c.f);
    hide Mul;
    MulIsRounded(x, c);
    MulIsRounded(y, c);
    DivideDistance(x.f * c.f + TWO_63, y.f * c.f + TWO_63, g);
  }

  lemma DivideDistance(a: nat, b: nat, g: nat)
    requires a + g * TWO_64 <= b
    ensures a / TWO_64 + g <= b / TWO_64
  {}

  lemma MulStaysLarge(x: DiyFp, c: DiyFp)
    requires x.f >= TWO_63 && c.f >= TWO_63
    ensures Mul(x, c).f >= 0x4000_0000_0000_0000
  {
    MulMonotone(x.f, TWO_63, c.f);
    MulMonotone(TWO_63, TWO_63, x.f);
    hide Mul;
    MulIsRounded(x, c);
    QuarterOfSquare(x.f * c.f);
  }

  lemma QuarterOfSquare(p: nat)
    requires p >= TWO_63 * TWO_63
    ensures (p + TWO_63) / TWO_64 >= 0x4000_0000_0000_0000
  {}

  /** After scaling and the shrink by one unit on both sides the bounds still enclose w. */
  lemma OrderSurvivesScaling(r: BoundaryTriple, closer: bool, shift: nat, c: DiyFp)
    requires Spread(r, closer, shift) && shift >= 2 && c.f >= TWO_63
    ensures Mul(r.minus, c).f + 1 <= Mul(r.w, c).f < Mul(r.plus, c).f - 1
  {
    assert Pow(2, shift) == 2 * Pow(2, shift - 1) && Pow(2, shift - 1) == 2 * Pow(2, shift - 2);
    hide Pow, Mul;
    MulKeepsDistance(r.w, r.plus, c, Pow(2, shift - 1));
    MulKeepsDistance(r.minus, r.w, c, Pow(2, shift - 2));
  }

  // ---------------------------------------------------------------- how many digits are enough

  /** 10^(digits - 1) exceeds the ratio of any float of this precision to the width of its rounding interval. */
  predicate EnoughDigits(precision: nat, digits: nat) {
    && digits >= 1 && 2 <= precision <= 61
    && Pow(10, digits - 1) * (Pow(2, 64 - precision) - 6) >= TWO_64
    && Pow(10, digits - 1) * (3 * Pow(2, 62 - precision) - 6) >= TWO_63 + Pow(2, 63 - precision)
  }

  lemma SeventeenForDouble()
    ensures EnoughDigits(53, 17)
  {
    PowAdd(10, 8, 8);
    PowerConstants();
    assert Pow(2, 9) == 2 * Pow(2, 8) && Pow(2, 10) == 2 * Pow(2, 9) && Pow(2, 11) == 2 * Pow(2, 10);
  }

  lemma NineForFloat()
    ensures EnoughDigits(24, 9)
  {
    PowerConstants();
    PowAdd(2, 32, 8);
    assert Pow(2, 40) == 2 * Pow(2, 39) && Pow(2, 39) == 2 * Pow(2, 38);
  }

  /** The hypothesis of digit generation: the interval is wide enough for `digits` digits. */
  lemma WideEnough(r: BoundaryTriple, closer: bool, shift: nat, c: DiyFp, precision: nat, digits: nat)
    requires EnoughDigits(precision, digits)
    requires Spread(r, closer, shift) && 63 - precision <= shift && c.f >= TWO_63
    requires closer ==> shift == 63 - precision && r.w.f == TWO_63
    ensures (Mul(r.plus, c).f - 1 - (Mul(r.minus, c).f + 1)) * Pow(10, digits - 1) >= Mul(r.plus, c).f - 1
  {
    var t := Pow(10, digits - 1);
    WideBefore(r, closer, shift, precision, t);
    MulError(r.plus, c);
    MulError(r.minus, c);
    hide Pow, Mul, Spread, EnoughDigits;
    WidthArithmetic(r.plus.f, r.minus.f, c.f, Mul(r.plus, c).f, Mul(r.minus, c).f, t);
  }

  lemma WideBefore(r: BoundaryTriple, closer: bool, shift: nat, precision: nat, t: nat)
    requires 2 <= precision <= 61
    requires t * (Pow(2, 64 - precision) - 6) >= TWO_64
    requires t * (3 * Pow(2, 62 - precision) - 6) >= TWO_63 + Pow(2, 63 - precision)
    requires Spread(r, closer, shift) && 63 - precision <= shift
    requires closer ==> shift == 63 - precision && r.w.f == TWO_63
    ensures r.minus.f <= r.plus.f && t * (r.plus.f - r.minus.f - 6) >= r.plus.f
  {
    PowMonotone(2, 63 - precision, shift);
    assert Pow(2, 64 - precision) == 2 * Pow(2, 63 - precision);
    assert Pow(2, 63 - precision) == 2 * Pow(2, 62 - precision);
    assert closer ==> Pow(2, shift - 1) == Pow(2, 62 - precision);
    hide Pow;
    if !closer {
      MulMonotone(t, Pow(2, 64 - precision) - 6, r.plus.f - r.minus.f - 6);
    }
  }

  lemma WidthArithmetic(plus: u64, minus: u64, c: u64, p: nat, m: nat, t: nat)
    requires c >= TWO_63 && minus <= plus
    requires 2 * TWO_64 * p <= 2 * (plus * c) + TWO_64
    requires 2 * (plus * c) - TWO_64 < 2 * TWO_64 * p
    requires 2 * TWO_64 * m <= 2 * (minus * c) + TWO_64
    requires t * (plus - minus - 6) >= plus
    ensures (p - 1 - (m + 1)) * t >= p - 1
  {
    var g := plus - minus;
    assert plus * c - minus * c == g * c;
    assert 2 * TWO_64 * (p - m - 2) >= 2 * (g * c) - 6 * TWO_64;
    MulMonotone(t, 2 * (g * c) - 6 * TWO_64, 2 * TWO_64 * (p - m - 2));
    assert t * (g - 6) * (2 * c) == t * (2 * (g * c) - 12 * c);
    MulMonotone(2 * c, plus, t * (g - 6));
    assert plus * (2 * c) == 2 * (plus * c);
    MulMonotone(t, 6 * TWO_64, 12 * c);
    assert 2 * TWO_64 * ((p - m - 2) * t) >= 2 * (plus * c);
  }

  // ---------------------------------------------------------------- from scaled significands back to real numbers

  lemma InRangeReal(lo: nat, hi: nat, shift: int, V: nat, n: int)
    requires shift >= 0
    ensures InRange(lo, hi, Pow(2, shift), V, n) <==> Scaled(lo, -shift) <= Decimal(V, n) <= Scaled(hi, -shift)
  {
    BoundReal(lo, shift, V, n);
    BoundReal(hi, shift, V, n);
  }

  /** Comparing a decimal with a bound, in integers and in real numbers. */
  lemma BoundReal(b: nat, shift: int, V: nat, n: int)
    requires shift >= 0
    ensures b * Den(n) <= V * (Num(n) * Pow(2, shift)) <==> Scaled(b, -shift) <= Decimal(V, n)
    ensures V * (Num(n) * Pow(2, shift)) <= b * Den(n) <==> Decimal(V, n) <= Scaled(b, -shift)
  {
    hide Scaled, Decimal, Pow, RPow, Shl;
    if n >= 0 {
      BoundInteger(b, shift, V, n);
    } else {
      BoundFraction(b, shift, V, -n);
    }
  }

  lemma BoundInteger(b: nat, shift: int, V: nat, n: nat)
    requires shift >= 0
    ensures b <= V * (Pow(10, n) * Pow(2, shift)) <==> Scaled(b, -shift) <= Decimal(V, n)
    ensures V * (Pow(10, n) * Pow(2, shift)) <= b <==> Decimal(V, n) <= Scaled(b, -shift)
  {
    var t := Pow(10, n);
    MulAssoc(V, t, Pow(2, shift));
    assert Shl(Product(V, t), shift) == V * (t * Pow(2, shift));
    RealProductNamed(V, t);
    RPowOfNat(10, n);
    ProductNonNegative(V, t);
    hide Scaled, Shl, RPow, Pow, Product, RProduct;
    IntegerAsScaled(Product(V, t), shift);
    ScaledLess(b, Shl(Product(V, t), shift), -shift);
    ScaledLess(Shl(Product(V, t), shift), b, -shift);
  }

  lemma ProductNonNegative(a: nat, b: nat)
    ensures Product(a, b) >= 0
  {}

  lemma BoundFraction(b: nat, shift: int, V: nat, m: int)
    requires shift >= 0 && m > 0
    ensures b * Pow(10, m) <= V * (1 * Pow(2, shift)) <==> Scaled(b, -shift) <= Decimal(V, -m)
    ensures V * (1 * Pow(2, shift)) <= b * Pow(10, m) <==> Decimal(V, -m) <= Scaled(b, -shift)
  {
    var t := Pow(10, m);
    assert V * (1 * Pow(2, shift)) == Shl(V, shift);
    RPowOfNat(10, m);
    hide Shl, Pow, Scaled, Decimal, RPow, RProduct;
    IntegerAsScaled(V, shift);
    ScaledLess(b * t, Shl(V, shift), -shift);
    ScaledLess(Shl(V, shift), b * t, -shift);
    ScaledTimes(b, t, -shift);
    DecimalShift(V, -m, m);
    DecimalZero(V);
    RProductOrder(t as real, Scaled(b, -shift), Decimal(V, -m));
    RProductOrder(t as real, Decimal(V, -m), Scaled(b, -shift));
  }

  lemma DecimalZero(V: nat)
    ensures Decimal(V, 0) == V as real
  {
    assert RPow(10, 0) == 1.0;
  }

  lemma DecimalShift(V: nat, n: int, k: int)
    ensures RProduct(Decimal(V, n), RPow(10, k)) == Decimal(V, n + k)
  {
    hide RPow, RProduct;
    RPowAddNamed(10, n, k);
    RProductAssoc(V as real, RPow(10, n), RPow(10, k));
  }

  lemma RProductAssoc(x: real, y: real, z: real)
    ensures RProduct(RProduct(x, y), z) == RProduct(x, RProduct(y, z))
  {}

  lemma RProductOrder(t: real, x: real, y: real)
    requires t > 0.0
    ensures x <= y <==> RProduct(x, t) <= RProduct(y, t)
    ensures x < y <==> RProduct(x, t) < RProduct(y, t)
  {
    RMulLess(t, x, y);
    RMulLess(t, y, x);
  }

  /** V * 10^n lies strictly between the two products with 10^k, so V * 10^(n-k) lies between the two numbers. */
  lemma Unscale(lower: real, upper: real, V: nat, n: int, k: int)
    requires RProduct(lower, RPow(10, k)) < Decimal(V, n) < RProduct(upper, RPow(10, k))
    ensures lower < Decimal(V, n - k) < upper
  {
    hide RPow, RProduct, Decimal;
    DecimalShift(V, n - k, k);
    RProductOrder(RPow(10, k), lower, Decimal(V, n - k));
    RProductOrder(RPow(10, k), Decimal(V, n - k), upper);
  }

  // ---------------------------------------------------------------- grisu2

  /** What the boundaries of a float provide. */
  predicate Scalable(r: BoundaryTriple, closer: bool, shift: nat, precision: nat) {
    && Spread(r, closer, shift) && shift >= 2 && shift >= 63 - precision
    && (closer ==> shift == 63 - precision && r.w.f == TWO_63)
    && r.plus.f >= TWO_63 && -1137 <= r.plus.e <= 964
  }

  /**
   * V * 10^n is the shortest decimal in the scaled interval and the one of that length closest to the scaled float.
   */
  ghost predicate ShortestInScaledInterval(r: BoundaryTriple, V: nat, n: int)
    requires -1137 <= r.plus.e <= 964
  {
    var c := GetCachedPower(r.plus.e);
    var e := r.plus.e + c.e + 64;
    e <= 0 && 0 <= High(r.plus, c) &&
    ShortestAndClosest(Low(r.minus, c), Middle(r.w, c), High(r.plus, c), Pow(2, -e), V, n + c.k)
  }

  /** The preconditions of digit generation. */
  lemma ReadyForDigits(r: BoundaryTriple, closer: bool, shift: nat, precision: nat, cap: nat, c: CachedPower)
    requires Scalable(r, closer, shift, precision) && EnoughDigits(precision, cap)
    requires Accurate(c) && InWindow(c, r.plus.e)
    ensures 0 < Low(r.minus, c) <= Middle(r.w, c) < High(r.plus, c) < TWO_64
    ensures Mul(r.minus, DiyFp(c.f, c.e)).e == Mul(r.w, DiyFp(c.f, c.e)).e == Mul(r.plus, DiyFp(c.f, c.e)).e
    ensures Mul(r.plus, DiyFp(c.f, c.e)).e == r.plus.e + c.e + 64
    ensures High(r.plus, c) >= Pow(2, -(r.plus.e + c.e + 64))
    ensures WideFor(Low(r.minus, c), High(r.plus, c), cap)
  {
    var d := DiyFp(c.f, c.e);
    hide Pow, HalfUnit;
    OrderSurvivesScaling(r, closer, shift, d);
    WideEnough(r, closer, shift, d, precision, cap);
    MulStaysLarge(r.plus, d);
    WindowPowers(-(r.plus.e + c.e + 64));
  }

  lemma InScaledInterval(r: BoundaryTriple, V: nat, n: int, c: CachedPower)
    requires -1137 <= r.plus.e <= 964 && c == GetCachedPower(r.plus.e)
    requires ShortestInScaledInterval(r, V, n)
    ensures r.plus.e + c.e + 64 <= 0 <= High(r.plus, c)
    ensures InRange(Low(r.minus, c), High(r.plus, c), Pow(2, -(r.plus.e + c.e + 64)), V, n + c.k)
  {
    hide GetCachedPower, Low, High, Middle, InRange, Pow;
  }

  /** Whatever digit generation finds in the scaled interval lies strictly between the unscaled boundaries. */
  lemma BetweenBoundaries(r: BoundaryTriple, V: nat, n: int)
    requires -1137 <= r.plus.e <= 964 && r.minus.f > 0 && r.plus.f > 0 && r.minus.e == r.plus.e
    requires ShortestInScaledInterval(r, V, n)
    ensures r.minus.Value() < Decimal(V, n) < r.plus.Value()
  {
    hide GetCachedPower, Accurate, Low, High, InRange, Pow, RPow, Scaled, Decimal, RProduct, NearPowerOfTen,
         ShortestInScaledInterval, ShortestAndClosest;
    var c := GetCachedPower(r.plus.e);
    var e := r.plus.e + c.e + 64;
    InScaledInterval(r, V, n, c);
    AccurateIsNear(c);
    InRangeReal(Low(r.minus, c), High(r.plus, c), -e, V, n + c.k);
    LowerRises(r.minus, c);
    UpperShrinks(r.plus, c);
    Unscale(r.minus.Value(), r.plus.Value(), V, n + c.k, c.k);
  }

  /**
   * What the shrunk interval leaves out: a decimal with a coarser last place can lie between the midpoints only within
   * two scaled units of one of them.
   */
  lemma CoarserIsNearMidpoint(r: BoundaryTriple, V: nat, n: int, V': nat, n': int)
    requires -1137 <= r.plus.e <= 964 && r.minus.f > 0 && r.plus.f > 0 && r.minus.e == r.plus.e
    requires ShortestInScaledInterval(r, V, n) && n' > n
    ensures var x, u := Decimal(V', n'), ScaledUnit(r);
            x < r.minus.Value() + 2.0 * u || x > r.plus.Value() - 2.0 * u
  {
    hide GetCachedPower, Accurate, InRange, Pow, RPow, Scaled, Decimal, RProduct, NearPowerOfTen, Mul, Middle;
    var c := GetCachedPower(r.plus.e);
    var e := r.plus.e + c.e + 64;
    var lo, hi, one := Low(r.minus, c), High(r.plus, c), Pow(2, -e);
    NoCoarserDecimal(lo, Middle(r.w, c), hi, one, V, n + c.k, V', n' + c.k);
    InRangeReal(lo, hi, -e, V', n' + c.k);
    AccurateIsNear(c);
    UpperShrinks(r.minus, c);
    LowerRises(r.plus, c);
    assert High(r.minus, c) + 2 == lo && Low(r.plus, c) == hi + 2;
    DecimalShift(V', n', c.k);
    ScaledOrder(High(r.minus, c), 2, e);
    ScaledOrder(hi, 2, e);
    ScaledOrder(1, 0, e);
    UnitsApart(Decimal(V', n'), r.minus.Value(), Scaled(1, e), c.k);
    UnitsApart(r.plus.Value(), Decimal(V', n'), Scaled(1, e), c.k);
  }

  /** One unit of the scaled numbers, in terms of the unscaled ones. */
  function ScaledUnit(r: BoundaryTriple): real
    requires -1137 <= r.plus.e <= 964
  {
    var c := GetCachedPower(r.plus.e);
    RProduct(Scaled(1, r.plus.e + c.e + 64), RPow(10, -c.k))
  }

  /** Less than two units above in the scaled numbers is less than two units above in the unscaled ones. */
  lemma UnitsApart(x: real, y: real, unit: real, k: int)
    ensures RProduct(x, RPow(10, k)) < RProduct(y, RPow(10, k)) + 2.0 * unit ==>
              x < y + 2.0 * RProduct(unit, RPow(10, -k))
  {
    var t, i := RPow(10, k), RPow(10, -k);
    RPowAddNamed(10, -k, k);
    assert RPow(10, 0) == 1.0;
    hide RPow;
    RProductAssoc(unit, i, t);
    assert RProduct(unit, 1.0) == unit;
    var u := RProduct(unit, i);
    SumTimes(y, u, t);
    RProductOrder(t, x, y + 2.0 * u);
  }

  lemma SumTimes(y: real, u: real, t: real)
    ensures RProduct(y + 2.0 * u, t) == RProduct(y, t) + 2.0 * RProduct(u, t)
  {}

  lemma ScalableRange(r: BoundaryTriple, closer: bool, shift: nat, precision: nat)
    requires Scalable(r, closer, shift, precision)
    ensures -1137 <= r.plus.e <= 964
  {}

  lemma FoldResult(s: seq<char>, first: nat, length: nat, r: BoundaryTriple, c: CachedPower, decimalExponent: int)
    requires -1137 <= r.plus.e <= 964 && c == GetCachedPower(r.plus.e)
    requires r.plus.e + c.e + 64 <= 0 <= High(r.plus, c)
    requires Generated(s, first, length, Low(r.minus, c), Middle(r.w, c), High(r.plus, c),
                       Pow(2, -(r.plus.e + c.e + 64)), decimalExponent + c.k)
    ensures length >= 1 && first + length <= |s| && s[first + length - 1] != '0'
    ensures AllDigits(s[first..first + length])
    ensures ShortestInScaledInterval(r, DigitsValue(s[first..first + length]), decimalExponent)
  {
    hide GetCachedPower, Low, Middle, High, Pow, ShortestAndClosest, DigitsValue;
  }

  method Grisu2OfBoundaries(buf: array<char>, first: nat, mMinus: DiyFp, v: DiyFp, mPlus: DiyFp, ghost closer: bool,
                            ghost shift: nat, ghost precision: nat, ghost cap: nat)
    returns (length: nat, decimalExponent: int)
    requires Scalable(BoundaryTriple(v, mMinus, mPlus), closer, shift, precision)
    requires EnoughDigits(precision, cap) && first + cap <= buf.Length
    modifies buf
    ensures 1 <= length <= cap && AllDigits(buf[..][first..first + length])
    ensures buf[first] != '0' && buf[first + length - 1] != '0'
    ensures ShortestInScaledInterval(BoundaryTriple(v, mMinus, mPlus), DigitsValue(buf[..][first..first + length]),
                                     decimalExponent)
    ensures SameOutside(buf[..], old(buf[..]), first, first + length)
    ensures -324 - (cap as int) <= decimalExponent <= 309
  {
    hide AllDigits, Pow, Mul, EnoughDigits, WideFor, Generated, GetCachedPower, Accurate, Scalable, DigitsValue,
         ShortestInScaledInterval;
    ghost var r := BoundaryTriple(v, mMinus, mPlus);
    ScalableRange(r, closer, shift, precision);
    var cached := GetCachedPower(mPlus.e);
    ReadyForDigits(r, closer, shift, precision, cap, cached);
    var cMinusK := DiyFp(cached.f, cached.e);
    var w := Mul(v, cMinusK);
    var wMinus := Mul(mMinus, cMinusK);
    var wPlus := Mul(mPlus, cMinusK);
    var lower := DiyFp(wMinus.f + 1, wMinus.e);
    var upper := DiyFp(wPlus.f - 1, wPlus.e);
    length, decimalExponent := Grisu2DigitGen(buf, first, -cached.k, lower, w, upper, cap);
    FoldResult(buf[..], first, length, r, cached, decimalExponent);
  }

  /** The exponents of the format fit the table of cached powers. */
  predicate Supported(fmt: Format) {
    fmt.Valid() && fmt.MinExp() - 63 >= -1137 && 2 * fmt.maxExponent - 2 - fmt.Bias() - 1 - (63 - fmt.precision) <= 964
  }

  /**
   * Prints a positive finite float as digits * 10^decimalExponent. The exact value of the output lies strictly
   * between the midpoints to the neighbouring floats, so it reads back as the same float.
   */
  method Grisu2(buf: array<char>, first: nat, fmt: Format, b: Bits, ghost cap: nat)
    returns (length: nat, decimalExponent: int, ghost r: BoundaryTriple)
    requires Supported(fmt) && Finite(fmt, b) && Positive(b)
    requires EnoughDigits(fmt.precision, cap) && first + cap <= buf.Length
    modifies buf
    ensures 1 <= length <= cap && AllDigits(buf[..][first..first + length])
    ensures buf[first] != '0' && buf[first + length - 1] != '0'
    ensures Exact(fmt, b, r) && -1137 <= r.plus.e <= 964
    ensures ShortestInScaledInterval(r, DigitsValue(buf[..][first..first + length]), decimalExponent)
    ensures var x := Decimal(DigitsValue(buf[..][first..first + length]), decimalExponent);
      && QuarterUnits(fmt, LowerMidpoint(fmt, b)) < x < QuarterUnits(fmt, UpperMidpoint(fmt, b))
      && ReadsBackAs(fmt, b, x)
    ensures SameOutside(buf[..], old(buf[..]), first, first + length)
    ensures -324 - (cap as int) <= decimalExponent <= 309
  {
    hide Pow, DigitsValue, ShortestInScaledInterval, EnoughDigits, ReadsBackAs, QuarterUnits, Scaled;
    var w, shift := ComputeBoundaries(fmt, b);
    r := w;
    MinusPositive(w, LowerIsCloser(b), shift);
    length, decimalExponent :=
      Grisu2OfBoundaries(buf, first, w.minus, w.w, w.plus, LowerIsCloser(b), shift, fmt.precision, cap);
    BetweenBoundaries(r, DigitsValue(buf[..][first..first + length]), decimalExponent);
    RoundTrip(fmt, b, Decimal(DigitsValue(buf[..][first..first + length]), decimalExponent));
  }

  lemma MinusPositive(r: BoundaryTriple, closer: bool, shift: nat)
    requires Spread(r, closer, shift) && shift <= 62 && r.w.f >= TWO_63
    ensures r.minus.f > 0
  {
    PowerConstants();
    PowStrict(2, shift, 63);
    if closer { PowStrict(2, shift - 1, 63); }
  }

  lemma RoundTrip(fmt: Format, b: Bits, x: real)
    requires fmt.Valid() && Finite(fmt, b)
    requires QuarterUnits(fmt, LowerMidpoint(fmt, b)) < x < QuarterUnits(fmt, UpperMidpoint(fmt, b))
    ensures ReadsBackAs(fmt, b, x)
  {
    forall u: Bits | Finite(fmt, u) && u != b
      ensures Abs(x - FloatValue(fmt, b)) < Abs(x - FloatValue(fmt, u))
    {
      StrictlyBetweenMidpointsIsNearest(fmt, b, u, x);
    }
  }
}
