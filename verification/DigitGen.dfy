// Digit generation: the shortest decimal inside an interval, and among those the one closest to a given point.
module DigitGen {
  import opened Powers
  import opened DiyFps
  import opened CachedPowers
  import opened Decimals

  // ---------------------------------------------------------------- decimals V * 10^n against significands

  /** 10^n as a fraction Num(n) / Den(n). */
  function Num(n: int): nat {
    if n >= 0 then Pow(10, n) else 1
  }

  function Den(n: int): nat {
    if n >= 0 then 1 else Pow(10, -n)
  }

  /** V * 10^n lies in [lo, hi] * 2^e, where one = 2^-e. */
  predicate InRange(lo: nat, hi: nat, one: nat, V: nat, n: int) {
    lo * Den(n) <= V * (Num(n) * one) <= hi * Den(n)
  }

  function Distance(a: int, b: int): nat {
    if a <= b then b - a else a - b
  }

  /**
   * V * 10^n is a decimal in [lo, hi]; no decimal with a coarser last place is; and no decimal with the same last
   * place in [lo, hi] is closer to w.
   */
  ghost predicate ShortestAndClosest(lo: nat, w: nat, hi: nat, one: nat, V: nat, n: int) {
    && InRange(lo, hi, one, V, n)
    && (forall V': nat | InRange(lo, hi, one, V', n) :: V' % 10 != 0)
    && (forall V': nat | InRange(lo, hi, one, V', n) ::
          Distance(V * (Num(n) * one), w * Den(n)) <= Distance(V' * (Num(n) * one), w * Den(n)))
  }

  /** Shortest means: no decimal with any coarser last place lies in the interval. */
  lemma NoCoarserDecimal(lo: nat, w: nat, hi: nat, one: nat, V: nat, n: int, V': nat, n': int)
    requires ShortestAndClosest(lo, w, hi, one, V, n) && n' > n
    ensures !InRange(lo, hi, one, V', n')
  {
    hide Pow, Num, Den;
    var t: nat := Pow(10, n' - n);
    FinerUnit(n, n');
    if InRange(lo, hi, one, V', n') {
      ScaleBound(lo, V', Num(n'), one, Num(n), Den(n), Den(n'), t);
      ScaleBound(hi, V', Num(n'), one, Num(n), Den(n), Den(n'), t);
      assert InRange(lo, hi, one, V' * t, n);
      MultipleOfTen(V', n' - n);
    }
  }

  /** 10^n' = 10^(n' - n) * 10^n, as fractions. */
  lemma FinerUnit(n: int, n': int)
    requires n' > n
    ensures Den(n') > 0 && Den(n) > 0
    ensures Pow(10, n' - n) * (Num(n) * Den(n')) == Num(n') * Den(n)
  {
    if n >= 0 {
      PowAdd(10, n' - n, n);
    } else if n' >= 0 {
      PowAdd(10, n', -n);
    } else {
      PowAdd(10, n' - n, -n');
    }
  }

  lemma ScaleBound(x: nat, V: nat, num': nat, one: nat, num: nat, den: nat, den': nat, t: nat)
    requires den > 0 && den' > 0 && t * (num * den') == num' * den
    ensures x * den' <= V * (num' * one) <==> x * den <= (V * t) * (num * one)
    ensures x * den' >= V * (num' * one) <==> x * den >= (V * t) * (num * one)
  {
    var a, b, c, d := x * den', V * (num' * one), x * den, (V * t) * (num * one);
    assert a * den == c * den' by { MulAssoc(x, den', den); MulAssoc(x, den, den'); }
    assert b * den == d * den' by {
      assert b * den == (V * one) * (num' * den);
      assert d * den' == (V * one) * (t * (num * den'));
    }
    MulCancel(den, a, b);
    MulCancel(den, b, a);
    MulCancel(den', c, d);
    MulCancel(den', d, c);
  }

  lemma MultipleOfTen(V: nat, k: nat)
    requires k > 0
    ensures V * Pow(10, k) % 10 == 0
  {
    TenTimesProduct(V, Pow(10, k - 1));
  }

  // ---------------------------------------------------------------- find_largest_pow10

  method FindLargestPow10(n: u32) returns (k: nat, pow10: u32)
    ensures 1 <= k <= 10 && pow10 == Pow(10, k - 1)
    ensures n < Pow(10, k)
    ensures if n == 0 then k == 1 else pow10 <= n
  {
    TenPowers();
    if n >= 1000000000 { return 10, 1000000000; }
    if n >= 100000000 { return 9, 100000000; }
    if n >= 10000000 { return 8, 10000000; }
    if n >= 1000000 { return 7, 1000000; }
    if n >= 100000 { return 6, 100000; }
    if n >= 10000 { return 5, 10000; }
    if n >= 1000 { return 4, 1000; }
    if n >= 100 { return 3, 100; }
    if n >= 10 { return 2, 10; }
    return 1, 1;
  }

  lemma TenPowers()
    ensures Pow(10, 0) == 1 && Pow(10, 1) == 10 && Pow(10, 2) == 100 && Pow(10, 3) == 1000
    ensures Pow(10, 4) == 10000 && Pow(10, 5) == 100000 && Pow(10, 6) == 1000000 && Pow(10, 7) == 10000000
    ensures Pow(10, 8) == 100000000 && Pow(10, 9) == 1000000000 && Pow(10, 10) == 10000000000
  {
    assert Pow(10, 3) == 1000;
    assert Pow(10, 6) == 1000000;
    assert Pow(10, 8) == 100000000;
  }

  // ---------------------------------------------------------------- grisu2_round

  /** Among the offsets rest + i * unit <= delta, the one after `steps` steps is the first that is nearest to dist. */
  ghost predicate BestStep(steps: nat, rest: nat, unit: nat, delta: nat, dist: nat) {
    && rest + steps * unit <= delta
    && (forall i: nat | rest + i * unit <= delta ::
          || Distance(rest + steps * unit, dist) < Distance(rest + i * unit, dist)
          || (Distance(rest + steps * unit, dist) == Distance(rest + i * unit, dist) && steps <= i))
  }

  /**
   * Decrements the last digit while that brings the number closer to w. The digit never reaches '0', nothing
   * wraps, and the number of steps is the optimal one.
   */
  method Grisu2Round(buf: array<char>, first: nat, len: int, dist: u64, delta: u64, rest0: u64, tenK: u64)
    returns (ghost steps: nat)
    requires len >= 1 && first + len <= buf.Length
    requires dist <= delta && rest0 <= delta && tenK > 0
    requires IsDigit(buf[first + len - 1])
    requires rest0 + DigitValue(buf[first + len - 1]) * tenK > delta
    modifies buf
    ensures BestStep(steps, rest0, tenK, delta, dist)
    ensures steps < old(DigitValue(buf[first + len - 1]))
    ensures buf[..] == old(buf[..])[first + len - 1 := DigitChar(old(DigitValue(buf[first + len - 1])) - steps)]
  {
    var last := first + len - 1;
    ghost var digit := DigitValue(buf[last]);
    var rest := rest0;
    steps := 0;
    while rest < dist
          && delta - rest >= tenK
          && (rest + tenK < dist || dist - rest > rest + tenK - dist)
      invariant rest == rest0 + steps * tenK <= delta
      invariant steps < digit
      invariant buf[..] == old(buf[..])[last := DigitChar(digit - steps)]
      invariant forall i: nat | i < steps ::
          rest0 + i * tenK < dist && Distance(rest, dist) < Distance(rest0 + i * tenK, dist)
      decreases delta - rest
    {
      assert (steps + 1) * tenK == steps * tenK + tenK;
      MulCancel(tenK, steps + 1, digit);
      assert buf[last] != '0';
      buf[last] := (buf[last] as int - 1) as char;
      rest := rest + tenK;
      steps := steps + 1;
      assert buf[last] == DigitChar(digit - steps);
    }
    StoppedAtBest(steps, rest0, rest, tenK, delta, dist);
  }

  lemma StoppedAtBest(steps: nat, rest0: nat, rest: nat, unit: nat, delta: nat, dist: nat)
    requires unit > 0 && dist <= delta
    requires rest == rest0 + steps * unit <= delta
    requires forall i: nat | i < steps :: Distance(rest, dist) < Distance(rest0 + i * unit, dist)
    requires rest0 + steps * unit == rest
    requires steps > 0 ==> rest0 + (steps - 1) * unit < dist
    requires !(rest < dist && delta - rest >= unit && (rest + unit < dist || dist - rest > rest + unit - dist))
    ensures BestStep(steps, rest0, unit, delta, dist)
  {
    forall i: nat | rest0 + i * unit <= delta
      ensures || Distance(rest, dist) < Distance(rest0 + i * unit, dist)
              || (Distance(rest, dist) == Distance(rest0 + i * unit, dist) && steps <= i)
    {
      if i > steps {
        MulMonotone(unit, steps + 1, i);
        assert (steps + 1) * unit == steps * unit + unit;
      }
    }
  }

  // ---------------------------------------------------------------- grisu2_digit_gen

  /** What the two loops leave behind: V is the integer part of hi / unit and its last digit could not be dropped. */
  lemma Finish(lo: nat, w: nat, hi: nat, one: nat, n: int, V: nat, rest: nat, d: nat, unit: nat,
               delta: nat, dist: nat, steps: nat)
    requires lo <= w <= hi && one > 0
    requires V % 10 == d && steps < d
    requires Stopped(lo, w, hi, one, V, n, rest, d, unit, delta, dist)
    requires BestStep(steps, rest, unit, delta, dist)
    ensures steps <= V && ShortestAndClosest(lo, w, hi, one, V - steps, n)
  {
    var U, L, W, H := Num(n) * one, lo * Den(n), w * Den(n), hi * Den(n);
    DistributeSub(hi, lo, Den(n));
    DistributeSub(hi, w, Den(n));
    hide Num, Den, Pow;
    assert V >= d;
    InRangeStep(V, steps, U, rest, L, W, H);
    forall V': nat | InRange(lo, hi, one, V', n)
      ensures V' % 10 != 0
      ensures Distance((V - steps) * U, W) <= Distance(V' * U, W)
    {
      CandidateBelow(V, V', U, rest, H);
      InRangeStep(V, V - V', U, rest, L, W, H);
      KeepsLastDigit(V, V', U, rest, d, H - L);
    }
  }

  lemma KeepsLastDigit(V: nat, V': nat, U: nat, rest: nat, d: nat, delta: int)
    requires V' <= V && V % 10 == d && rest + (V - V') * U <= delta < rest + d * U
    ensures V' % 10 != 0
  {
    if V' % 10 == 0 {
      MulMonotone(U, d, V - V');
    }
  }

  lemma DistributeSub(a: nat, b: nat, c: nat)
    ensures (a - b) * c == a * c - b * c
  {}

  /** Stepping i units down from V lands rest + i * U below H. */
  lemma InRangeStep(V: nat, i: nat, U: nat, rest: nat, L: int, W: int, H: int)
    requires i <= V && H == V * U + rest
    ensures (V - i) * U == H - (rest + i * U)
    ensures L <= (V - i) * U <==> rest + i * U <= H - L
    ensures (V - i) * U <= H
    ensures W <= H ==> Distance((V - i) * U, W) == Distance(rest + i * U, H - W)
  {
    assert (V - i) * U == V * U - i * U;
  }

  lemma CandidateBelow(V: nat, V': nat, U: nat, rest: nat, H: int)
    requires H == V * U + rest && rest < U && V' * U <= H
    ensures V' <= V
  {
    MulCancel(U, V', V + 1);
    assert U * (V + 1) == V * U + U;
  }

  // The states of the two loops. All three predicates speak about the number mp = M+.f, of which V has been
  // written; one is 2^-e, width is M+ - M- and gap is M+ - w.

  /** mp = (V * 10^n + p1) * one + p2 */
  predicate Integral(mp: nat, one: nat, V: nat, n: nat, p1: nat, p2: nat) {
    p1 < Pow(10, n) && p2 < one && mp == V * (Pow(10, n) * one) + (p1 * one + p2)
  }

  /** mp * 10^m = V * one + p2, with the two distances scaled by the same power. */
  predicate Fraction(mp: nat, one: nat, V: nat, m: nat, p2: nat, width: nat, delta: nat, gap: nat, dist: nat) {
    && p2 < one && mp * Pow(10, m) == V * one + p2
    && delta == width * Pow(10, m) && dist == gap * Pow(10, m)
  }

  /** V * 10^n is the largest multiple of 10^n up to hi, and without its last digit d it would lie below lo. */
  predicate Stopped(lo: nat, w: nat, hi: nat, one: nat, V: nat, n: int, rest: nat, d: nat, unit: nat,
                    delta: nat, dist: nat)
    requires lo <= w <= hi
  {
    && unit == Num(n) * one && delta == (hi - lo) * Den(n) && dist == (hi - w) * Den(n)
    && hi * Den(n) == V * unit + rest && rest < unit
    && rest + d * unit > delta
  }

  /** width * 10^(cap - 1) >= mp >= 10^(k - 1) * one */
  predicate Capped(mp: nat, width: nat, one: nat, k: nat, cap: nat)
    requires cap >= 1 && k >= 1
  {
    width * Pow(10, cap - 1) >= mp >= Pow(10, k - 1) * one
  }

  lemma IntegralStart(mp: nat, shift: nat, p1: nat, p2: nat, k: nat, pow10: nat)
    requires p1 == Shr(mp, shift) && p2 == LowBits(mp, shift)
    requires k >= 1 && pow10 == Pow(10, k - 1) && pow10 <= p1 < Pow(10, k)
    ensures Integral(mp, Pow(2, shift), 0, k, p1, p2)
    ensures mp == Shl(p1, shift) + p2
    ensures mp >= Pow(10, k - 1) * Pow(2, shift) == Shl(pow10, shift)
  {
    var one := Pow(2, shift);
    hide Pow;
    DivModSplit(mp, one);
    MulMonotone(one, pow10, p1);
  }

  lemma DivModSplit(a: nat, b: nat)
    requires b > 0
    ensures a == (a / b) * b + a % b && 0 <= a % b < b && a / b >= 0
  {}

  /** The leading digit of p in units of 10^(n-1), and what is left. */
  function LeadDigit(p: nat, unit: nat): nat
    requires unit > 0
  {
    p / unit
  }

  function AfterLead(p: nat, unit: nat): nat
    requires unit > 0
  {
    p % unit
  }

  /** One digit of the integral part. */
  lemma IntegralStep(mp: nat, shift: nat, V: nat, n: nat, pow10: nat, p1: nat, p2: nat)
    requires n > 0 && pow10 == Pow(10, n - 1)
    requires Integral(mp, Pow(2, shift), V, n, p1, p2)
    ensures pow10 > 0
    ensures var d, r := LeadDigit(p1, pow10), AfterLead(p1, pow10);
      && d <= 9 && (p1 >= pow10 ==> d > 0) && r <= p1 && (n == 1 ==> r == 0)
      && Integral(mp, Pow(2, shift), 10 * V + d, n - 1, r, p2)
      && Shl(r, shift) + p2 + d * Shl(pow10, shift) == Shl(p1, shift) + p2
      && Shl(r, shift) + p2 < Shl(pow10, shift)
      && Shl(r, shift) + p2 <= mp
  {
    TenTimes(n - 1);
    QuotientIsDigit(p1, pow10);
    hide Pow;
    IntegralAlgebra(mp, Pow(2, shift), V, pow10, p1, p2, p1 / pow10, p1 % pow10);
  }

  lemma QuotientIsDigit(p: nat, unit: nat)
    requires 0 < unit && p < 10 * unit
    ensures p == (p / unit) * unit + p % unit && p % unit < unit && p % unit <= p
    ensures 0 <= p / unit <= 9 && (p >= unit ==> p / unit > 0)
  {
    var d := p / unit;
    DivModSplit(p, unit);
    MulCancel(unit, d, 10);
    MulCancel(unit, d, 0);
  }

  lemma IntegralAlgebra(mp: nat, one: nat, V: nat, pow10: nat, p1: nat, p2: nat, d: nat, r: nat)
    requires p1 == d * pow10 + r && r < pow10 && p2 < one
    requires mp == V * ((10 * pow10) * one) + (p1 * one + p2)
    ensures mp == (10 * V + d) * (pow10 * one) + (r * one + p2)
    ensures r * one + p2 + d * (pow10 * one) == p1 * one + p2
    ensures r * one + p2 < pow10 * one
    ensures r * one + p2 <= mp
  {
    MulMonotone(one, r + 1, pow10);
    assert (r + 1) * one == r * one + one;
    ExpandDigit(V, d, pow10, r, one);
  }

  lemma ExpandDigit(V: nat, d: nat, pow10: nat, r: nat, one: nat)
    ensures (d * pow10 + r) * one == d * (pow10 * one) + r * one
    ensures (10 * V + d) * (pow10 * one) == V * ((10 * pow10) * one) + d * (pow10 * one)
    ensures 0 <= V * ((10 * pow10) * one) && 0 <= d * (pow10 * one)
  {
    var u := pow10 * one;
    assert (d * pow10) * one == d * u;
    assert (10 * pow10) * one == 10 * u;
    assert (10 * V + d) * u == V * (10 * u) + d * u;
  }

  lemma IntegralStop(lo: nat, w: nat, hi: nat, shift: nat, V: nat, n: nat, pow10: nat, p1: nat, p2: nat, d: nat)
    requires lo <= w <= hi && pow10 == Pow(10, n)
    requires Integral(hi, Pow(2, shift), V, n, p1, p2)
    requires Shl(p1, shift) + p2 < Shl(pow10, shift)
    requires Shl(p1, shift) + p2 + d * Shl(pow10, shift) > hi - lo
    ensures Stopped(lo, w, hi, Pow(2, shift), V, n, Shl(p1, shift) + p2, d, Shl(pow10, shift), hi - lo, hi - w)
  {
    assert Num(n) == Pow(10, n) && Den(n) == 1;
    hide Pow, Num, Den;
  }

  lemma FractionStart(mp: nat, one: nat, V: nat, p2: nat, width: nat, gap: nat, p1: nat)
    requires Integral(mp, one, V, 0, p1, p2)
    ensures Fraction(mp, one, V, 0, p2, width, width, gap, gap)
  {}

  /** One digit of the fractional part. */
  lemma FractionStep(mp: nat, shift: nat, V: nat, m: nat, p2: nat, width: nat, delta: nat, gap: nat, dist: nat)
    requires Fraction(mp, Pow(2, shift), V, m, p2, width, delta, gap, dist)
    requires p2 > delta
    ensures var d, r := Shr(10 * p2, shift), LowBits(10 * p2, shift);
      && d <= 9
      && Fraction(mp, Pow(2, shift), 10 * V + d, m + 1, r, width, 10 * delta, gap, 10 * dist)
      && r + d * Pow(2, shift) == 10 * p2 > 10 * delta
  {
    var t := Pow(10, m);
    TenTimes(m);
    QuotientIsDigit(10 * p2, Pow(2, shift));
    hide Pow;
    FractionAlgebra(mp * t, Pow(2, shift), V, p2, Shr(10 * p2, shift), LowBits(10 * p2, shift));
    TenTimesProduct(mp, t);
    TenTimesProduct(width, t);
    TenTimesProduct(gap, t);
  }

  lemma FractionAlgebra(scaled: nat, one: nat, V: nat, p2: nat, d: nat, r: nat)
    requires scaled == V * one + p2 && 10 * p2 == d * one + r
    ensures 10 * scaled == (10 * V + d) * one + r
  {
    assert (10 * V + d) * one == 10 * (V * one) + d * one;
  }

  lemma TenTimesProduct(a: nat, t: nat)
    ensures a * (10 * t) == 10 * (a * t)
  {}

  lemma FractionStop(lo: nat, w: nat, hi: nat, one: nat, V: nat, m: int, p2: nat, delta: nat, dist: nat, d: nat)
    requires lo <= w <= hi && m > 0
    requires Fraction(hi, one, V, m, p2, hi - lo, delta, hi - w, dist)
    requires p2 + d * one > delta
    ensures Stopped(lo, w, hi, one, V, -m, p2, d, one, delta, dist)
  {
    assert Num(-m) == 1 && Den(-m) == Pow(10, m);
    hide Pow, Num, Den;
  }

  lemma TenTimes(n: nat)
    ensures Pow(10, n + 1) == 10 * Pow(10, n)
  {}

  /**
   * As long as the remainder exceeds the width of the interval, fewer than cap digits have been written: k - n
   * digits are out, the remainder is below 10^n and the number itself is at least 10^(k-1).
   */
  lemma IntegralBelowCap(mp: nat, width: nat, shift: nat, V: nat, n: nat, p1: nat, p2: nat, k: nat, cap: nat)
    requires 1 <= k && n <= k && cap >= 1
    requires Capped(mp, width, Pow(2, shift), k, cap)
    requires Integral(mp, Pow(2, shift), V, n, p1, p2)
    requires width < Shl(p1, shift) + p2
    ensures k - n < cap
  {
    if k - n >= cap {
      TooManyIntegral(mp, width, shift, V, n, p1, p2, k, cap);
    }
  }

  lemma TooManyIntegral(mp: nat, width: nat, shift: nat, V: nat, n: nat, p1: nat, p2: nat, k: nat, cap: nat)
    requires 1 <= cap <= k - n
    requires Integral(mp, Pow(2, shift), V, n, p1, p2)
    requires width < Shl(p1, shift) + p2
    ensures width * Pow(10, cap - 1) < Pow(10, k - 1) * Pow(2, shift)
  {
    var one, u, t := Pow(2, shift), Pow(10, k - 1 - n), Pow(10, n);
    PowMonotone(10, cap - 1, k - 1 - n);
    PowAdd(10, k - 1 - n, n);
    hide Pow;
    MulMonotone(one, p1 + 1, t);
    assert (p1 + 1) * one == p1 * one + one;
    hide Integral;
    NarrowContradiction(width, Pow(10, cap - 1), u, t * one);
    MulAssoc(u, t, one);
  }

  lemma FractionBelowCap(mp: nat, shift: nat, V: nat, m: nat, p2: nat, width: nat, delta: nat, gap: nat, dist: nat,
                         k: nat, cap: nat)
    requires 1 <= k && cap >= 1
    requires Capped(mp, width, Pow(2, shift), k, cap)
    requires Fraction(mp, Pow(2, shift), V, m, p2, width, delta, gap, dist)
    requires delta < p2
    ensures k + m < cap
  {
    if k + m >= cap {
      TooManyFraction(mp, shift, V, m, p2, width, delta, gap, dist, k, cap);
    }
  }

  lemma TooManyFraction(mp: nat, shift: nat, V: nat, m: nat, p2: nat, width: nat, delta: nat, gap: nat, dist: nat,
                        k: nat, cap: nat)
    requires 1 <= k && 1 <= cap <= k + m
    requires Fraction(mp, Pow(2, shift), V, m, p2, width, delta, gap, dist)
    requires delta < p2
    ensures width * Pow(10, cap - 1) < Pow(10, k - 1) * Pow(2, shift)
  {
    var one, u, t := Pow(2, shift), Pow(10, k - 1), Pow(10, m);
    PowMonotone(10, cap - 1, k - 1 + m);
    PowAdd(10, k - 1, m);
    assert delta == width * t && delta < one;
    hide Pow, Fraction;
    MulMonotone(width, Pow(10, cap - 1), u * t);
    NarrowContradiction(delta, u, u, one);
    MulSwap(width, u, t);
  }

  lemma MulSwap(a: nat, u: nat, t: nat)
    ensures a * (u * t) == (a * t) * u
  {}

  lemma NarrowContradiction(width: nat, small: nat, u: nat, bound: nat)
    requires width < bound && small <= u && 0 < u
    ensures width * small < u * bound
  {
    MulMonotone(width, small, u);
    MulMonotone(u, width + 1, bound);
    assert u * (width + 1) == width * u + u;
  }

  lemma WindowPowers(shift: nat)
    requires 32 <= shift <= 60
    ensures TWO_32 <= Pow(2, shift) <= 0x1000_0000_0000_0000
  {
    PowerConstants();
    PowMonotone(2, 32, shift);
    PowMonotone(2, shift, 60);
    assert Pow(2, 61) == 2 * Pow(2, 60);
  }

  lemma SplitFits(f: u64, shift: nat)
    requires TWO_32 <= Pow(2, shift) <= f
    ensures 0 < Shr(f, shift) < TWO_32
    ensures LowBits(f, shift) < Pow(2, shift)
  {
    var one := Pow(2, shift);
    hide Pow;
    var q := f / one;
    DivModSplit(f, one);
    MulCancel(one, q, 0);
    MulMonotone(q, TWO_32, one);
    MulCancel(TWO_32, q, TWO_32);
  }

  /** The slice of a buffer that holds the digits of V. */
  predicate Written(s: seq<char>, first: nat, length: nat, V: nat) {
    && first + length <= |s|
    && AllDigits(s[first..first + length])
    && DigitsValue(s[first..first + length]) == V
  }

  /** Only the positions from lo up to hi may differ. */
  predicate SameOutside(s: seq<char>, t: seq<char>, lo: nat, hi: nat) {
    |s| == |t| && forall i | 0 <= i < |s| && !(lo <= i < hi) :: s[i] == t[i]
  }

  /** Writes one more digit behind the others. */
  method PutDigit(buf: array<char>, first: nat, length: nat, d: nat, ghost V: nat)
    requires d <= 9 && first + length < buf.Length
    requires Written(buf[..], first, length, V)
    modifies buf
    ensures Written(buf[..], first, length + 1, 10 * V + d)
    ensures SameOutside(buf[..], old(buf[..]), first + length, first + length + 1)
    ensures buf[first + length] == DigitChar(d)
  {
    hide DigitsValue;
    ghost var s := buf[..];
    buf[first + length] := DigitChar(d);
    assert buf[..][first..first + length + 1] == s[first..first + length] + [DigitChar(d)];
    AppendDigit(s[first..first + length], DigitChar(d));
  }

  lemma DecrementLast(s: seq<char>, steps: nat)
    requires s != [] && AllDigits(s) && steps <= DigitValue(s[|s| - 1])
    ensures var t := s[|s| - 1 := DigitChar(DigitValue(s[|s| - 1]) - steps)];
      AllDigits(t) && steps <= DigitsValue(s) && DigitsValue(t) == DigitsValue(s) - steps
  {
    var t := s[|s| - 1 := DigitChar(DigitValue(s[|s| - 1]) - steps)];
    assert t[..|s| - 1] == s[..|s| - 1];
  }

  /** The rounding call at the end of both loops, with everything the loops know when they stop. */
  method RoundAndConclude(buf: array<char>, first: nat, length: nat, dist: u64, delta: u64, rest: u64, tenK: u64,
                          ghost lo: nat, ghost w: nat, ghost hi: nat, ghost one: nat, ghost n: int, ghost V: nat,
                          ghost d: nat)
    requires length >= 1 && Written(buf[..], first, length, 10 * V + d)
    requires d <= 9 && buf[first + length - 1] == DigitChar(d)
    requires lo <= w <= hi && one > 0
    requires dist <= delta && rest <= delta
    requires Stopped(lo, w, hi, one, 10 * V + d, n, rest, d, tenK, delta, dist)
    modifies buf
    ensures Generated(buf[..], first, length, lo, w, hi, one, n)
    ensures SameOutside(buf[..], old(buf[..]), first + length - 1, first + length)
  {
    hide Pow, Num, Den, DigitsValue, Stopped, BestStep, ShortestAndClosest, AllDigits;
    StoppedFacts(lo, w, hi, one, 10 * V + d, n, rest, d, tenK, delta, dist);
    ghost var s := buf[..][first..first + length];
    ghost var steps := Grisu2Round(buf, first, length, dist, delta, rest, tenK);
    LastReplaced(old(buf[..]), buf[..], first, length, DigitChar(d - steps));
    DecrementLast(s, steps);
    Finish(lo, w, hi, one, n, 10 * V + d, rest, d, tenK, delta, dist, steps);
  }

  lemma LastReplaced(s: seq<char>, t: seq<char>, first: nat, length: nat, c: char)
    requires length >= 1 && first + length <= |s| && t == s[first + length - 1 := c]
    ensures |t| == |s| && t[first + length - 1] == c && SameOutside(t, s, first + length - 1, first + length)
    ensures t[first..first + length] == s[first..first + length][length - 1 := c]
  {}

  lemma StoppedFacts(lo: nat, w: nat, hi: nat, one: nat, V: nat, n: int, rest: nat, d: nat, unit: nat, delta: nat,
                     dist: nat)
    requires lo <= w <= hi && Stopped(lo, w, hi, one, V, n, rest, d, unit, delta, dist)
    ensures unit > 0 && rest + d * unit > delta
  {}

  /** The digits in the buffer are what digit generation promises; the last one is not a zero. */
  ghost predicate Generated(s: seq<char>, first: nat, length: nat, lo: nat, w: nat, hi: nat, one: nat, n: int) {
    && length >= 1 && first + length <= |s|
    && AllDigits(s[first..first + length])
    && s[first + length - 1] != '0'
    && ShortestAndClosest(lo, w, hi, one, DigitsValue(s[first..first + length]), n)
  }

  /** (hi - lo) * 10^(cap - 1) >= hi */
  predicate WideFor(lo: nat, hi: nat, cap: nat)
    requires lo <= hi
  {
    cap >= 1 && (hi - lo) * Pow(10, cap - 1) >= hi
  }

  /**
   * Generates the digits of M+ from left to right until the number is in [M-, M+] and then rounds toward w.
   * All 64-bit operations stay in range; the loops stop within any number cap of digits for which
   * (M+ - M-) * 10^(cap - 1) >= M+.
   */
  method Grisu2DigitGen(buf: array<char>, first: nat, decimalExponent0: int, mMinus: DiyFp, w: DiyFp, mPlus: DiyFp,
                        ghost cap: nat)
    returns (length: nat, decimalExponent: int)
    requires ALPHA <= mPlus.e <= GAMMA && mMinus.e == w.e == mPlus.e
    requires 0 < mMinus.f <= w.f <= mPlus.f && mMinus.f < mPlus.f
    requires mPlus.f >= Pow(2, -mPlus.e)
    requires WideFor(mMinus.f, mPlus.f, cap)
    requires first + cap <= buf.Length
    modifies buf
    ensures length <= cap
    ensures Generated(buf[..], first, length, mMinus.f, w.f, mPlus.f, Pow(2, -mPlus.e),
                      decimalExponent - decimalExponent0)
    ensures buf[first] != '0'
    ensures SameOutside(buf[..], old(buf[..]), first, first + length)
    ensures -(cap as int) <= decimalExponent - decimalExponent0 <= 9
  {
    hide WideFor, Pow, Shl, Shr, LowBits, LeadDigit, AfterLead, Scaled, Integral, Fraction, Stopped, Capped, Written,
         Generated;
    ghost var lo, hi := mMinus.f, mPlus.f;
    var delta: u64 := Sub(mPlus, mMinus).f;
    var dist: u64 := Sub(mPlus, w).f;

    var shift := -mPlus.e;
    WindowPowers(shift);
    var one: u64 := Pow(2, shift);
    SplitFits(mPlus.f, shift);
    var p1: u32 := Shr(mPlus.f, shift);
    var p2: u64 := LowBits(mPlus.f, shift);

    var k, pow10 := FindLargestPow10(p1);
    IntegralStart(hi, shift, p1, p2, k, pow10);
    CapHolds(lo, hi, one, k, cap);
    ghost var pow10Max := pow10;
    ghost var V: nat := 0;
    var n := k;
    length := 0;
    decimalExponent := decimalExponent0;
    NothingWritten(buf[..], first);
    while n > 0
      invariant 0 <= n <= k && length == k - n && length <= cap
      invariant n > 0 ==> pow10 == Pow(10, n - 1)
      invariant n == k ==> pow10 <= p1
      invariant pow10 <= pow10Max
      invariant Written(buf[..], first, length, V)
      invariant length > 0 ==> buf[first] != '0'
      invariant Integral(hi, one, V, n, p1, p2)
      invariant Shl(p1, shift) + p2 > delta
      invariant n == 0 ==> p1 == 0
      invariant SameOutside(buf[..], old(buf[..]), first, first + length)
    {
      IntegralBelowCap(hi, delta, shift, V, n, p1, p2, k, cap);
      IntegralStep(hi, shift, V, n, pow10, p1, p2);
      var d := LeadDigit(p1, pow10);
      var r := AfterLead(p1, pow10);
      PutDigit(buf, first, length, d, V);
      length := length + 1;
      p1 := r;
      n := n - 1;
      var rest: u64 := Shl(p1, shift) + p2;
      if rest <= delta {
        decimalExponent := decimalExponent + n;
        ShlMonotone(pow10, pow10Max, shift);
        var tenN: u64 := Shl(pow10, shift);
        IntegralStop(lo, w.f, hi, shift, 10 * V + d, n, pow10, p1, p2, d);
        RoundAndConclude(buf, first, length, dist, delta, rest, tenN, lo, w.f, hi, one, n, V, d);
        GeneratedNonzero(buf[..], first, length, lo, w.f, hi, one, n);
        return;
      }
      V := 10 * V + d;
      if n > 0 { TenTimes(n - 1); }
      pow10 := pow10 / 10;
    }

    ShlZero(shift);
    assert p2 > delta;
    FractionStart(hi, one, V, p2, delta, dist, p1);
    length, decimalExponent :=
      FractionDigits(buf, first, length, decimalExponent, shift, p2, delta, dist, V, lo, w.f, hi, k, cap);
  }

  /** The second loop: digits of the fractional part p2 * 2^e. */
  method FractionDigits(buf: array<char>, first: nat, length0: nat, decimalExponent0: int, shift: nat, p20: u64,
                        delta0: u64, dist0: u64, ghost V0: nat, ghost lo: nat, ghost w: nat, ghost hi: nat,
                        ghost k: nat, ghost cap: nat)
    returns (length: nat, decimalExponent: int)
    requires 32 <= shift <= 60 && cap >= 1 && 1 <= k <= 10 && length0 == k
    requires lo <= w <= hi && delta0 == hi - lo && dist0 == hi - w && delta0 > 0
    requires Capped(hi, hi - lo, Pow(2, shift), k, cap)
    requires first + cap <= buf.Length && Written(buf[..], first, length0, V0)
    requires p20 > delta0
    requires Fraction(hi, Pow(2, shift), V0, 0, p20, hi - lo, delta0, hi - w, dist0)
    modifies buf
    ensures length0 < length <= cap
    ensures Generated(buf[..], first, length, lo, w, hi, Pow(2, shift), decimalExponent - decimalExponent0)
    ensures SameOutside(buf[..], old(buf[..]), first + length0, first + length)
    ensures -(cap as int) <= decimalExponent - decimalExponent0 <= 0
  {
    hide Pow, Shl, Shr, LowBits, Fraction, Stopped, Capped, Written, Generated;
    WindowPowers(shift);
    var one: u64 := Pow(2, shift);
    var p2: u64, delta: u64, dist: u64 := p20, delta0, dist0;
    ghost var width: nat, gap: nat, V: nat := hi - lo, hi - w, V0;
    length, decimalExponent := length0, decimalExponent0;
    FractionBounds(hi, shift, V, 0, p2, width, delta, gap, dist);
    FractionBelowCap(hi, shift, V, 0, p2, width, delta, gap, dist, k, cap);
    var m: int := 0;
    while true
      invariant m >= 0 && length == k + m && length < cap
      invariant Written(buf[..], first, length, V)
      invariant Fraction(hi, one, V, m, p2, width, delta, gap, dist)
      invariant dist <= delta < p2 < one && delta > 0
      invariant SameOutside(buf[..], old(buf[..]), first + length0, first + length)
      decreases one - delta
    {
      FractionStep(hi, shift, V, m, p2, width, delta, gap, dist);
      assert p2 <= (TWO_64 - 1) / 10;
      p2 := p2 * 10;
      var d := Shr(p2, shift);
      var r := LowBits(p2, shift);
      PutDigit(buf, first, length, d, V);
      length := length + 1;
      FractionBounds(hi, shift, 10 * V + d, m + 1, r, width, delta * 10, gap, dist * 10);
      p2 := r;
      m := m + 1;
      delta := delta * 10;
      dist := dist * 10;
      if p2 <= delta {
        decimalExponent := decimalExponent - m;
        var tenM: u64 := one;
        FractionStop(lo, w, hi, one, 10 * V + d, m, p2, delta, dist, d);
        RoundAndConclude(buf, first, length, dist, delta, p2, tenM, lo, w, hi, one, -m, V, d);
        return;
      }
      V := 10 * V + d;
      FractionBelowCap(hi, shift, V, m, p2, width, delta, gap, dist, k, cap);
    }
  }

  lemma NothingWritten(s: seq<char>, first: nat)
    requires first <= |s|
    ensures Written(s, first, 0, 0)
  {
    assert s[first..first] == [];
  }

  lemma GeneratedNonzero(s: seq<char>, first: nat, length: nat, lo: nat, w: nat, hi: nat, one: nat, n: int)
    requires Generated(s, first, length, lo, w, hi, one, n)
    ensures first + length <= |s| && s[first + length - 1] != '0'
  {}

  lemma CapHolds(lo: nat, mp: nat, one: nat, k: nat, cap: nat)
    requires lo <= mp && WideFor(lo, mp, cap) && k >= 1 && mp >= Pow(10, k - 1) * one
    ensures cap >= 1 && Capped(mp, mp - lo, one, k, cap)
  {}

  lemma FractionBounds(mp: nat, shift: nat, V: nat, m: nat, p2: nat, width: nat, delta: nat, gap: nat, dist: nat)
    requires Fraction(mp, Pow(2, shift), V, m, p2, width, delta, gap, dist)
    ensures p2 < Pow(2, shift)
  {}

  lemma ShlMonotone(a: nat, b: nat, shift: nat)
    requires a <= b
    ensures Shl(a, shift) <= Shl(b, shift)
  {
    MulMonotone(Pow(2, shift), a, b);
  }

  lemma ShlZero(shift: nat)
    ensures Shl(0, shift) == 0
  {}
}
