// Integer and real powers, and the nonlinear facts the floating-point printer rests on.
module Powers {

  function Pow(b: nat, n: nat): (r: nat)
    ensures b > 0 ==> r > 0
  {
    if n == 0 then 1 else b * Pow(b, n - 1)
  }

  lemma {:induction false} PowAdd(b: nat, m: nat, n: nat)
    ensures Pow(b, m + n) == Pow(b, m) * Pow(b, n)
  {
    if m > 0 {
      PowAdd(b, m - 1, n);
      MulAssoc(b, Pow(b, m - 1), Pow(b, n));
    }
  }

  lemma {:induction false} PowMonotone(b: nat, m: nat, n: nat)
    requires b >= 1 && m <= n
    ensures Pow(b, m) <= Pow(b, n)
  {
    PowAdd(b, m, n - m);
    MulMonotone(Pow(b, m), 1, Pow(b, n - m));
  }

  lemma {:induction false} PowStrict(b: nat, m: nat, n: nat)
    requires b >= 2 && m < n
    ensures Pow(b, m) < Pow(b, n)
  {
    PowMonotone(b, m + 1, n);
    MulMonotone(Pow(b, m), 2, b);
  }

  lemma MulAssoc(a: int, b: int, c: int)
    ensures a * (b * c) == (a * b) * c
  {}

  lemma MulMonotone(a: nat, x: int, y: int)
    requires x <= y
    ensures a * x <= a * y && x * a <= y * a
  {}

  lemma ProductBound(a: nat, b: nat, m: nat)
    requires a <= m && b <= m
    ensures 0 <= a * b <= m * m
  {
    MulMonotone(a, b, m);
    MulMonotone(m, a, m);
  }

  lemma MulCancel(a: nat, x: int, y: int)
    requires a > 0
    ensures x <= y <==> a * x <= a * y
    ensures x < y <==> a * x < a * y
  {
    if x < y {
      MulMonotone(a, x + 1, y);
    } else {
      MulMonotone(a, y, x);
    }
  }

  /** Uniqueness of quotient and remainder. */
  lemma DivModUnique(x: nat, d: nat, q: nat, r: nat)
    requires d > 0 && r < d && x == q * d + r
    ensures x / d == q && x % d == r
  {
    var q', r' := x / d, x % d;
    assert x == q' * d + r';
    if q' < q {
      MulMonotone(d, q' + 1, q);
    } else if q' > q {
      MulMonotone(d, q + 1, q');
    }
  }

  lemma PowerConstants()
    ensures Pow(2, 8) == 0x100 && Pow(2, 13) == 0x2000 && Pow(2, 16) == 0x1_0000 && Pow(2, 32) == 0x1_0000_0000
    ensures Pow(2, 61) == 0x2000_0000_0000_0000
    ensures Pow(2, 63) == 0x8000_0000_0000_0000 && Pow(2, 64) == 0x1_0000_0000_0000_0000
    ensures Pow(10, 4) == 10000 && Pow(10, 8) == 100000000
  {
    assert Pow(2, 4) == 16 && Pow(2, 5) == 32;
    PowAdd(2, 4, 4);
    PowAdd(2, 8, 5);
    PowAdd(2, 8, 8);
    PowAdd(2, 16, 16);
    PowAdd(2, 32, 16);
    PowAdd(2, 48, 13);
    assert Pow(2, 62) == 2 * Pow(2, 61);
    assert Pow(10, 4) == 10000;
    PowAdd(10, 4, 4);
  }

  /** Named products: proofs about larger expressions hide them and stay linear. */
  function Product(a: int, b: int): int {
    a * b
  }

  function RProduct(x: real, y: real): real {
    x * y
  }

  /** n << shift, without a width. */
  function Shl(n: int, shift: nat): (r: int)
    ensures n >= 0 ==> r >= 0
  {
    n * Pow(2, shift)
  }

  /** n >> shift. */
  function Shr(n: nat, shift: nat): nat {
    n / Pow(2, shift)
  }

  /** The lowest bits of n, that is n & ((1 << bits) - 1). */
  function LowBits(n: nat, bits: nat): nat {
    n % Pow(2, bits)
  }

  // ---------------------------------------------------------------- real powers

  /** b^n for any integer n. */
  function RPow(b: nat, n: int): (r: real)
    requires b > 0
    ensures r > 0.0
  {
    if n >= 0 then Pow(b, n) as real else 1.0 / (Pow(b, -n) as real)
  }

  lemma RPowOfNat(b: nat, n: nat)
    requires b > 0
    ensures RPow(b, n) == Pow(b, n) as real
  {}

  lemma RPowAdd(b: nat, m: int, n: int)
    requires b > 0
    ensures RPow(b, m + n) == RPow(b, m) * RPow(b, n)
  {
    if m >= 0 && n >= 0 {
      RPowAddUp(b, m, n);
    } else if m < 0 && n < 0 {
      RPowAddDown(b, m, n);
    } else if n < 0 {
      RPowAddMixed(b, m, n);
    } else {
      RPowAddMixed(b, n, m);
    }
  }

  lemma RPowAddUp(b: nat, m: nat, n: nat)
    requires b > 0
    ensures RPow(b, m + n) == RPow(b, m) * RPow(b, n)
  {
    PowAdd(b, m, n);
    RealProduct(Pow(b, m), Pow(b, n));
  }

  lemma RPowAddDown(b: nat, m: int, n: int)
    requires b > 0 && m < 0 && n < 0
    ensures RPow(b, m + n) == RPow(b, m) * RPow(b, n)
  {
    PowAdd(b, -m, -n);
    RealProduct(Pow(b, -m), Pow(b, -n));
    assert -(m + n) == -m + -n;
    InverseOfProduct(Pow(b, -m) as real, Pow(b, -n) as real);
  }

  lemma RPowAddMixed(b: nat, m: int, n: int)
    requires b > 0 && m >= 0 && n < 0
    ensures RPow(b, m + n) == RPow(b, m) * RPow(b, n)
    ensures RPow(b, n + m) == RPow(b, n) * RPow(b, m)
  {
    if m >= -n {
      PowAdd(b, m + n, -n);
      RealProduct(Pow(b, m + n), Pow(b, -n));
      CancelFactor(Pow(b, m + n) as real, Pow(b, -n) as real);
    } else {
      PowAdd(b, m, -n - m);
      RealProduct(Pow(b, m), Pow(b, -n - m));
      CancelInverse(Pow(b, m) as real, Pow(b, -n - m) as real);
    }
  }

  lemma InverseOfProduct(x: real, y: real)
    requires x > 0.0 && y > 0.0
    ensures x * y > 0.0 && 1.0 / (x * y) == (1.0 / x) * (1.0 / y)
  {
    RMulPos(x, y);
  }

  lemma CancelFactor(x: real, y: real)
    requires y > 0.0
    ensures (x * y) * (1.0 / y) == x
  {}

  lemma CancelInverse(x: real, y: real)
    requires x > 0.0 && y > 0.0
    ensures x * y > 0.0 && x * (1.0 / (x * y)) == 1.0 / y
  {
    RMulPos(x, y);
    InverseOfProduct(x, y);
    CancelFactor(1.0 / y, x);
  }

  lemma RealProduct(x: int, y: int)
    ensures (x * y) as real == (x as real) * (y as real)
  {}

  lemma RMulPos(x: real, y: real)
    requires x > 0.0 && y > 0.0
    ensures x * y > 0.0
  {}

  lemma RMulAssoc(x: real, y: real, z: real)
    ensures x * (y * z) == (x * y) * z
  {}

  lemma RDistribute(x: real, y: real, c: real)
    ensures (x + y) * c == x * c + y * c && (x - y) * c == x * c - y * c
  {}

  lemma RMulLess(c: real, x: real, y: real)
    requires c > 0.0
    ensures x < y <==> x * c < y * c
    ensures x <= y <==> x * c <= y * c
  {
    if x < y { RMulPos(c, y - x); RDistribute(y, x, c); }
    if y < x { RMulPos(c, x - y); RDistribute(x, y, c); }
  }

  /** The real number n * 2^e. */
  function Scaled(n: int, e: int): real {
    RProduct(n as real, RPow(2, e))
  }

  /** Moving a factor 2^shift from the exponent into the significand keeps the value. */
  lemma MoveFactor(f: int, e: int, g: int, d: int, shift: nat)
    requires g == Shl(f, shift) && d == e - shift
    ensures Scaled(f, e) == Scaled(g, d)
  {
    hide RPow, Pow;
    RPowAdd(2, shift, d);
    RPowOfNat(2, shift);
    RealProduct(f, Pow(2, shift));
    Regroup(f as real, RPow(2, shift), RPow(2, d), g as real, RPow(2, e));
  }

  lemma Regroup(a: real, s: real, c: real, b: real, d: real)
    requires b == a * s && d == s * c
    ensures a * d == b * c
  {
    RMulAssoc(a, s, c);
  }

  lemma RPowAddNamed(b: nat, m: int, n: int)
    requires b > 0
    ensures RPow(b, m + n) == RProduct(RPow(b, m), RPow(b, n))
  {
    hide RPow;
    RPowAdd(b, m, n);
  }

  lemma RealProductNamed(x: int, y: int)
    ensures Product(x, y) as real == RProduct(x as real, y as real)
  {
    RealProduct(x, y);
  }

  lemma ExchangeInner(x: real, y: real, p: real, q: real)
    ensures RProduct(RProduct(x, y), RProduct(p, q)) == RProduct(RProduct(x, p), RProduct(y, q))
  {
    RMulAssoc(x, y, p * q);
    RMulAssoc(y, p, q);
    RMulAssoc(p, y, q);
    RMulAssoc(x, p, y * q);
    assert y * p == p * y;
  }

  lemma ScaledMul(a: int, d: int, b: int, e: int)
    ensures Scaled(Product(a, b), d + e) == RProduct(Scaled(a, d), Scaled(b, e))
  {
    hide RPow, RProduct, Product;
    RealProductNamed(a, b);
    RPowAddNamed(2, d, e);
    ExchangeInner(a as real, b as real, RPow(2, d), RPow(2, e));
  }

  lemma ScaledOrder(a: int, b: int, e: int)
    ensures a < b <==> Scaled(a, e) < Scaled(b, e)
    ensures Scaled(a + b, e) == Scaled(a, e) + Scaled(b, e)
    ensures Scaled(-a, e) == -Scaled(a, e)
    ensures Scaled(2 * a, e) == 2.0 * Scaled(a, e)
  {
    ScaledLess(a, b, e);
    var q := RPow(2, e);
    hide RPow;
    RDistribute(a as real, b as real, q);
    RMulAssoc(2.0, a as real, q);
    NegateFactor(a as real, q);
  }

  lemma ScaledLess(a: int, b: int, e: int)
    ensures a < b <==> Scaled(a, e) < Scaled(b, e)
  {
    hide RPow;
    if a < b {
      RMulLess(RPow(2, e), a as real, b as real);
    } else {
      RMulLess(RPow(2, e), b as real, a as real);
    }
  }

  lemma NegateFactor(a: real, q: real)
    ensures (-a) * q == -(a * q)
  {}
}
