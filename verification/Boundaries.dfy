// IEEE floating-point numbers given by their bit fields, their neighbours and the midpoints between them.
module Boundaries {
  import opened Powers
  import opened DiyFps

  /** precision counts the hidden bit; maxExponent is std::numeric_limits<FloatType>::max_exponent. */
  datatype Format = Format(precision: nat, maxExponent: nat) {
    predicate Valid() {
      2 <= precision && precision + 3 <= 64 && 1 <= maxExponent
    }

    function Bias(): int {
      maxExponent - 1 + (precision - 1)
    }

    function MinExp(): int {
      1 - Bias()
    }

    function HiddenBit(): nat
      requires Valid()
    {
      Pow(2, precision - 1)
    }
  }

  const DOUBLE := Format(53, 1024)
  const FLOAT := Format(24, 128)

  /** A finite non-negative number: biased exponent E and fraction F. */
  datatype Bits = Bits(E: nat, F: nat)

  predicate Finite(fmt: Format, b: Bits)
    requires fmt.Valid()
  {
    b.F < fmt.HiddenBit() && b.E <= 2 * fmt.maxExponent - 2
  }

  predicate Positive(b: Bits) {
    b.E > 0 || b.F > 0
  }

  function Significand(fmt: Format, b: Bits): nat
    requires fmt.Valid()
  {
    if b.E == 0 then b.F else b.F + fmt.HiddenBit()
  }

  function Exponent(fmt: Format, b: Bits): int {
    if b.E == 0 then fmt.MinExp() else b.E - fmt.Bias()
  }

  /** The exact value of the float. */
  function FloatValue(fmt: Format, b: Bits): real
    requires fmt.Valid()
  {
    Scaled(Significand(fmt, b), Exponent(fmt, b))
  }

  /** The distance to the next larger float, in units of 2^MinExp. */
  function Gap(b: Bits): nat {
    if b.E <= 1 then 1 else Pow(2, b.E - 1)
  }

  /** The float as an integer number of units of 2^MinExp. */
  function Units(fmt: Format, b: Bits): nat
    requires fmt.Valid()
  {
    Significand(fmt, b) * Gap(b)
  }

  predicate LowerIsCloser(b: Bits) {
    b.F == 0 && b.E > 1
  }

  /** Midpoint between the float and its successor, in units of 2^(MinExp - 2). */
  function UpperMidpoint(fmt: Format, b: Bits): nat
    requires fmt.Valid()
  {
    4 * Units(fmt, b) + 2 * Gap(b)
  }

  /** Midpoint between the float and its predecessor, in units of 2^(MinExp - 2). */
  function LowerMidpoint(fmt: Format, b: Bits): int
    requires fmt.Valid()
  {
    4 * Units(fmt, b) - (if LowerIsCloser(b) then Gap(b) else 2 * Gap(b))
  }

  function QuarterUnits(fmt: Format, n: int): real {
    Scaled(n, fmt.MinExp() - 2)
  }

  // ---------------------------------------------------------------- neighbours and rounding

  lemma GapDoubles(b: Bits)
    requires b.E > 1
    ensures Gap(b) == 2 * Gap(Bits(b.E - 1, 0))
  {}

  lemma {:induction false} GapMonotone(b: Bits, u: Bits)
    requires b.E <= u.E
    ensures Gap(b) <= Gap(u)
  {
    if b.E <= 1 {
      assert Gap(u) > 0;
    } else {
      PowMonotone(2, b.E - 1, u.E - 1);
    }
  }

  /** The next larger float; for the largest finite one, what would follow with the next exponent. */
  function Next(fmt: Format, b: Bits): Bits
    requires fmt.Valid()
  {
    if b.F + 1 < fmt.HiddenBit() then Bits(b.E, b.F + 1) else Bits(b.E + 1, 0)
  }

  /** The next smaller float. */
  function Previous(fmt: Format, b: Bits): Bits
    requires fmt.Valid() && Positive(b)
  {
    if b.F > 0 then Bits(b.E, b.F - 1) else Bits(b.E - 1, fmt.HiddenBit() - 1)
  }

  /** The successor is exactly one gap away. */
  lemma NextByGap(fmt: Format, v: Bits)
    requires fmt.Valid() && v.F < fmt.HiddenBit()
    ensures Units(fmt, Next(fmt, v)) == Units(fmt, v) + Gap(v)
    ensures Positive(Next(fmt, v)) && Previous(fmt, Next(fmt, v)) == v
  {
    hide Gap, Pow;
    var h, next := fmt.HiddenBit(), Next(fmt, v);
    SameGap(v, next);
    if v.E >= 1 && next.E > v.E {
      NextBinade(h, Gap(v));
    } else {
      NextMultiple(Significand(fmt, v), Gap(v));
    }
  }

  lemma SameGap(b: Bits, u: Bits)
    ensures u.E == b.E || (b.E == 0 && u.E == 1) ==> Gap(u) == Gap(b)
    ensures b.E >= 1 && u.E == b.E + 1 ==> Gap(u) == 2 * Gap(b)
  {}

  lemma NextMultiple(f: nat, g: nat)
    ensures (f + 1) * g == f * g + g
  {}

  lemma NextBinade(h: nat, g: nat)
    requires h > 0
    ensures h * (2 * g) == (2 * h - 1) * g + g
  {}

  /** The predecessor is half a gap away from a power of two above the smallest normal one, and a gap otherwise. */
  lemma PreviousByGap(fmt: Format, v: Bits)
    requires fmt.Valid() && Finite(fmt, v) && Positive(v)
    ensures Finite(fmt, Previous(fmt, v)) && Next(fmt, Previous(fmt, v)) == v
    ensures 2 * Units(fmt, Previous(fmt, v)) == 2 * Units(fmt, v) - (if LowerIsCloser(v) then Gap(v) else 2 * Gap(v))
  {
    hide Gap, Units;
    NextByGap(fmt, Previous(fmt, v));
    SameGap(Previous(fmt, v), v);
  }

  /** The midpoints are those of the float and its two neighbours. */
  lemma MidpointsOfNeighbours(fmt: Format, v: Bits)
    requires fmt.Valid() && Finite(fmt, v) && Positive(v)
    ensures 2 * UpperMidpoint(fmt, v) == 4 * Units(fmt, v) + 4 * Units(fmt, Next(fmt, v))
    ensures 2 * LowerMidpoint(fmt, v) == 4 * Units(fmt, v) + 4 * Units(fmt, Previous(fmt, v))
    ensures 2.0 * QuarterUnits(fmt, UpperMidpoint(fmt, v)) == FloatValue(fmt, v) + FloatValue(fmt, Next(fmt, v))
    ensures 2.0 * QuarterUnits(fmt, LowerMidpoint(fmt, v)) == FloatValue(fmt, v) + FloatValue(fmt, Previous(fmt, v))
    ensures FloatValue(fmt, Previous(fmt, v)) < FloatValue(fmt, v) < FloatValue(fmt, Next(fmt, v))
  {
    var next, previous, e := Next(fmt, v), Previous(fmt, v), fmt.MinExp() - 2;
    NextByGap(fmt, v);
    PreviousByGap(fmt, v);
    FloatValueInUnits(fmt, v);
    FloatValueInUnits(fmt, next);
    FloatValueInUnits(fmt, previous);
    GapPositive(v);
    hide FloatValue, Scaled, Units, Gap, Next, Previous, Finite;
    Halfway(4 * Units(fmt, v), 4 * Units(fmt, next), UpperMidpoint(fmt, v), e);
    Halfway(4 * Units(fmt, previous), 4 * Units(fmt, v), LowerMidpoint(fmt, v), e);
  }

  lemma Halfway(a: int, b: int, mid: int, e: int)
    requires a < b && 2 * mid == a + b
    ensures Scaled(a, e) < Scaled(b, e) && 2.0 * Scaled(mid, e) == Scaled(a, e) + Scaled(b, e)
  {
    hide Scaled;
    ScaledOrder(a, b, e);
    ScaledOrder(mid, 0, e);
  }

  /** Every larger float is at least one gap away. */
  lemma AboveByGap(fmt: Format, v: Bits, u: Bits)
    requires fmt.Valid() && Finite(fmt, v) && Finite(fmt, u)
    requires v.E < u.E || (v.E == u.E && v.F < u.F)
    ensures Units(fmt, u) >= Units(fmt, v) + Gap(v)
  {
    var h, g, f := fmt.HiddenBit(), Gap(v), Significand(fmt, v);
    if v.E == u.E {
      AtLeastNext(f, Significand(fmt, u), g);
    } else if u.E > 1 {
      // all floats of a smaller exponent stay below hiddenBit * Gap(u)
      BinadeEnd(fmt, v, u);
      MulMonotone(Gap(u), h, Significand(fmt, u));
    }
  }

  /** A float of a smaller exponent than u is at least its own gap below hiddenBit * Gap(u). */
  lemma BinadeEnd(fmt: Format, v: Bits, u: Bits)
    requires fmt.Valid() && Finite(fmt, v) && v.E < u.E && u.E > 1
    ensures Units(fmt, v) + Gap(v) <= fmt.HiddenBit() * Gap(u)
    ensures 2 * Units(fmt, v) + Gap(u) <= 2 * (fmt.HiddenBit() * Gap(u))
  {
    var below := Bits(u.E - 1, 0);
    GapDoubles(u);
    GapMonotone(v, below);
    BinadeArithmetic(fmt.HiddenBit(), Significand(fmt, v), Gap(v), Gap(below), Gap(u));
  }

  lemma BinadeArithmetic(h: nat, f: nat, g: nat, below: nat, above: nat)
    requires f + 1 <= 2 * h && g <= below && above == 2 * below
    ensures f * g + g <= h * above
    ensures 2 * (f * g) + above <= 2 * (h * above)
  {
    MulMonotone(g, f + 1, 2 * h);
    MulMonotone(2 * h, g, below);
    MulMonotone(f, g, below);
    MulMonotone(below, f + 1, 2 * h);
    assert (f + 1) * g == f * g + g;
    assert (f + 1) * below == f * below + below;
    assert (2 * h) * below == h * above;
  }

  /** Every smaller float is at least the distance to the predecessor away. */
  lemma BelowByGap(fmt: Format, v: Bits, u: Bits)
    requires fmt.Valid() && Finite(fmt, v) && Finite(fmt, u)
    requires u.E < v.E || (v.E == u.E && u.F < v.F)
    ensures 2 * Units(fmt, u) <= 2 * Units(fmt, v) - (if LowerIsCloser(v) then Gap(v) else 2 * Gap(v))
  {
    hide Pow;
    if u.E == v.E {
      AboveByGap(fmt, u, v);
    } else if v.E > 1 {
      BinadeEnd(fmt, u, v);
      AtLeastNext(fmt.HiddenBit(), Significand(fmt, v), Gap(v));
    }
  }

  lemma AtLeastNext(h: nat, f: nat, g: nat)
    requires h <= f
    ensures if f == h then f * g == h * g else f * g >= h * g + g
  {
    if h < f {
      MulMonotone(g, h + 1, f);
      assert (h + 1) * g == h * g + g;
    }
  }

  /** The value of a float in units of 2^(MinExp - 2). */
  lemma FloatValueInUnits(fmt: Format, b: Bits)
    requires fmt.Valid()
    ensures FloatValue(fmt, b) == QuarterUnits(fmt, 4 * Units(fmt, b))
  {
    var f, m, shift := Significand(fmt, b), fmt.MinExp(), if b.E <= 1 then 0 else b.E - 1;
    UnitsByShift(fmt, b, shift);
    hide Scaled, Shl, Units, Significand;
    MoveFactor(f, Exponent(fmt, b), Units(fmt, b), m, shift);
    MoveFactor(Units(fmt, b), m, 4 * Units(fmt, b), m - 2, 2);
  }

  lemma UnitsByShift(fmt: Format, b: Bits, shift: nat)
    requires fmt.Valid() && shift == if b.E <= 1 then 0 else b.E - 1
    ensures Units(fmt, b) == Shl(Significand(fmt, b), shift)
    ensures 4 * Units(fmt, b) == Shl(Units(fmt, b), 2)
  {
    assert Gap(b) == Pow(2, shift);
    assert Pow(2, 1) == 2;
    assert Pow(2, 2) == 4;
  }

  function Abs(x: real): real {
    if x < 0.0 then -x else x
  }

  /**
   * All real numbers strictly between the two midpoints round to v, whatever the rule for ties: every other
   * finite float is strictly farther away.
   */
  lemma StrictlyBetweenMidpointsIsNearest(fmt: Format, v: Bits, u: Bits, x: real)
    requires fmt.Valid() && Finite(fmt, v) && Finite(fmt, u) && u != v
    requires QuarterUnits(fmt, LowerMidpoint(fmt, v)) < x < QuarterUnits(fmt, UpperMidpoint(fmt, v))
    ensures Abs(x - FloatValue(fmt, v)) < Abs(x - FloatValue(fmt, u))
  {
    hide FloatValue, QuarterUnits, UpperMidpoint, LowerMidpoint, Finite;
    if v.E < u.E || (v.E == u.E && v.F < u.F) {
      MidpointBelowLarger(fmt, v, u);
    } else {
      MidpointAboveSmaller(fmt, v, u);
    }
  }

  /** x rounds to the float b: every other finite float is strictly farther away. */
  ghost predicate ReadsBackAs(fmt: Format, b: Bits, x: real)
    requires fmt.Valid()
  {
    forall u: Bits | Finite(fmt, u) && u != b ::
      Abs(x - FloatValue(fmt, b)) < Abs(x - FloatValue(fmt, u))
  }

  /**
   * The reals that round to a positive float are exactly those strictly between its midpoints; above the largest
   * finite float there is no neighbour and no bound.
   */
  lemma ReadsBackExactly(fmt: Format, v: Bits, x: real)
    requires fmt.Valid() && Finite(fmt, v) && Positive(v)
    ensures ReadsBackAs(fmt, v, x)
       <==> && QuarterUnits(fmt, LowerMidpoint(fmt, v)) < x
            && (Finite(fmt, Next(fmt, v)) ==> x < QuarterUnits(fmt, UpperMidpoint(fmt, v)))
  {
    hide FloatValue, QuarterUnits, UpperMidpoint, LowerMidpoint, Units, Gap;
    MidpointsOfNeighbours(fmt, v);
    PreviousByGap(fmt, v);
    assert Finite(fmt, Previous(fmt, v)) && Previous(fmt, v) != v && Next(fmt, v) != v;
    if && QuarterUnits(fmt, LowerMidpoint(fmt, v)) < x
       && (Finite(fmt, Next(fmt, v)) ==> x < QuarterUnits(fmt, UpperMidpoint(fmt, v)))
    {
      forall u: Bits | Finite(fmt, u) && u != v
        ensures Abs(x - FloatValue(fmt, v)) < Abs(x - FloatValue(fmt, u))
      {
        if v.E < u.E || (v.E == u.E && v.F < u.F) {
          MidpointBelowLarger(fmt, v, u);
        } else {
          MidpointAboveSmaller(fmt, v, u);
        }
      }
    }
  }

  lemma MidpointBelowLarger(fmt: Format, v: Bits, u: Bits)
    requires fmt.Valid() && Finite(fmt, v) && Finite(fmt, u)
    requires v.E < u.E || (v.E == u.E && v.F < u.F)
    ensures FloatValue(fmt, v) < FloatValue(fmt, u)
    ensures 2.0 * QuarterUnits(fmt, UpperMidpoint(fmt, v)) <= FloatValue(fmt, v) + FloatValue(fmt, u)
  {
    hide FloatValue, Scaled, Units, Finite;
    FloatValueInUnits(fmt, v);
    FloatValueInUnits(fmt, u);
    AboveByGap(fmt, v, u);
    GapPositive(v);
    Nearer(4 * Units(fmt, v), 4 * Units(fmt, u), UpperMidpoint(fmt, v), fmt.MinExp() - 2);
  }

  lemma MidpointAboveSmaller(fmt: Format, v: Bits, u: Bits)
    requires fmt.Valid() && Finite(fmt, v) && Finite(fmt, u)
    requires u.E < v.E || (v.E == u.E && u.F < v.F)
    ensures FloatValue(fmt, u) < FloatValue(fmt, v)
    ensures 2.0 * QuarterUnits(fmt, LowerMidpoint(fmt, v)) >= FloatValue(fmt, v) + FloatValue(fmt, u)
  {
    hide FloatValue, Scaled, Units, Finite;
    FloatValueInUnits(fmt, v);
    FloatValueInUnits(fmt, u);
    BelowByGap(fmt, v, u);
    GapPositive(v);
    var e := fmt.MinExp() - 2;
    Nearer(-(4 * Units(fmt, v)), -(4 * Units(fmt, u)), -LowerMidpoint(fmt, v), e);
    ScaledOrder(4 * Units(fmt, v), 0, e);
    ScaledOrder(4 * Units(fmt, u), 0, e);
    ScaledOrder(LowerMidpoint(fmt, v), 0, e);
  }

  lemma GapPositive(b: Bits)
    ensures Gap(b) > 0
  {}

  lemma Nearer(a: int, b: int, mid: int, e: int)
    requires a < b && 2 * mid <= a + b
    ensures Scaled(a, e) < Scaled(b, e)
    ensures 2.0 * Scaled(mid, e) <= Scaled(a, e) + Scaled(b, e)
  {
    hide Scaled;
    ScaledOrder(a, b, e);
    ScaledOrder(mid, 0, e);
    ScaledOrder(a + b, 2 * mid, e);
  }

  // ---------------------------------------------------------------- compute_boundaries

  datatype BoundaryTriple = BoundaryTriple(w: DiyFp, minus: DiyFp, plus: DiyFp)

  /** The three numbers stand for the float and its midpoints, exactly. */
  predicate Exact(fmt: Format, b: Bits, r: BoundaryTriple)
    requires fmt.Valid()
  {
    && r.w.Value() == FloatValue(fmt, b)
    && r.plus.Value() == QuarterUnits(fmt, UpperMidpoint(fmt, b))
    && r.minus.Value() == QuarterUnits(fmt, LowerMidpoint(fmt, b))
  }

  /** They share one exponent and lie 2^shift apart, the lower one half of that when it is closer. */
  predicate Spread(r: BoundaryTriple, closer: bool, shift: nat) {
    && r.w.e == r.minus.e == r.plus.e
    && r.plus.f == r.w.f + Pow(2, shift)
    && (closer ==> shift >= 1)
    && r.minus.f == r.w.f - (if closer then Pow(2, shift - 1) else Pow(2, shift))
  }

  method ComputeBoundaries(fmt: Format, b: Bits) returns (r: BoundaryTriple, ghost shift: nat)
    requires fmt.Valid() && Finite(fmt, b) && Positive(b)
    ensures Exact(fmt, b, r)
    ensures 2.0 * r.plus.Value() == FloatValue(fmt, b) + FloatValue(fmt, Next(fmt, b))
    ensures 2.0 * r.minus.Value() == FloatValue(fmt, b) + FloatValue(fmt, Previous(fmt, b))
    ensures Spread(r, LowerIsCloser(b), shift)
    ensures r.plus.f >= TWO_63 && r.w.f >= TWO_63
    ensures r.plus.e == Exponent(fmt, b) - 1 - shift
    ensures 63 - fmt.precision <= shift <= 62
    ensures b.E > 0 ==> shift == 63 - fmt.precision
    ensures LowerIsCloser(b) ==> r.w.f == TWO_63
  {
    hide Scaled, Shl, Pow, Units, UpperMidpoint, LowerMidpoint, QuarterUnits;
    SignificandFits(fmt, b);
    var isDenormal := b.E == 0;
    var v := if isDenormal then DiyFp(b.F, fmt.MinExp()) else DiyFp(b.F + fmt.HiddenBit(), b.E - fmt.Bias());
    var lowerBoundaryIsCloser := b.F == 0 && b.E > 1;
    var mPlus := DiyFp(2 * v.f + 1, v.e - 1);
    var mMinus := if lowerBoundaryIsCloser then DiyFp(4 * v.f - 1, v.e - 2) else DiyFp(2 * v.f - 1, v.e - 1);

    var wPlus, s := Normalize(mPlus);
    NormalizeShift(v.f, wPlus.f, s, fmt.precision);
    SpacedByShift(v.f, s);
    ghost var delta := if lowerBoundaryIsCloser then s - 1 else s;
    assert mMinus.e - wPlus.e == delta;
    var wMinus := NormalizeTo(mMinus, wPlus.e);

    var w, t := Normalize(v);
    SameExponent(v.f, w.f, t, s, wPlus.f);
    shift := s;
    r := BoundaryTriple(w, wMinus, wPlus);
    MidpointValues(fmt, b);
    MidpointsOfNeighbours(fmt, b);
    if b.E > 0 {
      NormalShift(v.f, wPlus.f, s, fmt.precision);
      PowerOfTwo(fmt, s);
    }
  }

  lemma PowerOfTwo(fmt: Format, s: nat)
    requires fmt.Valid() && s == 63 - fmt.precision
    ensures Shl(fmt.HiddenBit(), s + 1) == TWO_63
  {
    PowerConstants();
    PowAdd(2, fmt.precision - 1, s + 1);
  }

  lemma SignificandFits(fmt: Format, b: Bits)
    requires fmt.Valid() && Finite(fmt, b) && Positive(b)
    ensures 0 < Significand(fmt, b) < Pow(2, fmt.precision) <= Pow(2, 61)
    ensures Pow(2, 61) == 0x2000_0000_0000_0000
    ensures b.E > 0 ==> Pow(2, fmt.precision - 1) <= Significand(fmt, b)
  {
    PowMonotone(2, fmt.precision, 61);
    PowerConstants();
  }

  /** The significand has precision bits, so normalizing shifts by at least 63 - precision. */
  lemma NormalizeShift(f: nat, plus: nat, s: nat, precision: nat)
    requires 1 <= f < Pow(2, precision) && precision <= 61
    requires plus == Shl(2 * f + 1, s) && TWO_63 <= plus < TWO_64
    ensures 63 - precision <= s <= 62
  {
    PowerConstants();
    hide Pow, Shl;
    if s < 63 - precision {
      ShiftTooShort(f, s, precision);
    } else if s > 62 {
      ShiftTooLong(f, s);
    }
  }

  lemma ShiftTooShort(f: nat, s: nat, precision: nat)
    requires f < Pow(2, precision) && s + precision <= 62
    ensures Shl(2 * f + 1, s) < Pow(2, 63)
  {
    PowMonotone(2, s, 62 - precision);
    PowAdd(2, precision + 1, 62 - precision);
    assert Pow(2, precision + 1) == 2 * Pow(2, precision);
    hide Pow;
    MulStrict(2 * f + 1, Pow(2, precision + 1), Pow(2, s), Pow(2, 62 - precision));
  }

  lemma ShiftTooLong(f: nat, s: nat)
    requires f >= 1 && s >= 63
    ensures Shl(2 * f + 1, s) >= 3 * Pow(2, 63)
  {
    PowMonotone(2, 63, s);
    hide Pow;
    MulMonotone(2 * f + 1, Pow(2, 63), Pow(2, s));
    MulMonotone(Pow(2, 63), 3, 2 * f + 1);
  }

  lemma MulStrict(a: nat, b: nat, c: nat, d: nat)
    requires a < b && c <= d && d > 0
    ensures a * c < b * d
  {
    MulMonotone(a, c, d);
    MulMonotone(d, a + 1, b);
    assert (a + 1) * d == a * d + d;
  }

  lemma NormalShift(f: nat, plus: nat, s: nat, precision: nat)
    requires 2 <= precision <= 61 && Pow(2, precision - 1) <= f
    requires plus == Shl(2 * f + 1, s) && plus < TWO_64
    ensures s <= 63 - precision
  {
    PowerConstants();
    if s > 63 - precision {
      PowMonotone(2, 64 - precision, s);
      PowAdd(2, precision, 64 - precision);
      assert Pow(2, precision) == 2 * Pow(2, precision - 1);
      hide Pow;
      MulStrict(Pow(2, precision), 2 * f + 1, Pow(2, 64 - precision), Pow(2, s));
    }
  }

  /** f and 2f + 1 differ by one bit in length, so both normalize to the same exponent. */
  lemma SameExponent(f: nat, w: nat, t: nat, s: nat, plus: nat)
    requires f >= 1 && s <= 62
    requires w == Shl(f, t) && TWO_63 <= w < TWO_64
    requires plus == Shl(2 * f + 1, s) && TWO_63 <= plus < TWO_64
    ensures t == s + 1
  {
    PowerConstants();
    var w' := Shl(f, s + 1);
    assert TWO_63 <= w' < TWO_64 by {
      SpacedByShift(f, s);
      PowAdd(2, 63 - s, s);
      var u := Pow(2, 63 - s);
      assert u == 2 * Pow(2, 62 - s);
      hide Pow;
      if 2 * f < u {
        MulStrict(2 * f + 1, u + 1, Pow(2, s), Pow(2, s));
        assert 2 * f + 1 <= u - 1;
        MulStrict(2 * f + 1, u, Pow(2, s), Pow(2, s));
      }
      MulMonotone(Pow(2, s), u, 2 * f);
      MulMonotone(Pow(2, s), 2 * f, 2 * f + 1);
    }
    if t <= s {
      ShiftDoubles(f, t, s + 1);
    } else if t > s + 1 {
      ShiftDoubles(f, s + 1, t);
    }
  }

  lemma ShiftDoubles(f: nat, t: nat, t2: nat)
    requires t < t2
    ensures 2 * Shl(f, t) <= Shl(f, t2)
  {
    PowMonotone(2, t + 1, t2);
    assert Pow(2, t + 1) == 2 * Pow(2, t);
    hide Pow;
    MulMonotone(f, 2 * Pow(2, t), Pow(2, t2));
  }

  lemma SpacedByShift(f: nat, s: nat)
    ensures Shl(f, s + 1) == Shl(2 * f, s)
    ensures Shl(2 * f + 1, s) == Shl(f, s + 1) + Pow(2, s)
    ensures Shl(2 * f - 1, s) == Shl(f, s + 1) - Pow(2, s)
    ensures s >= 1 ==> Shl(4 * f - 1, s - 1) == Shl(f, s + 1) - Pow(2, s - 1)
  {
    var p := Pow(2, s);
    assert Pow(2, s + 1) == 2 * p;
    if s >= 1 {
      var h := Pow(2, s - 1);
      assert p == 2 * h;
    }
    hide Pow;
  }

  /** The unnormalized midpoints 2f+1, 2f-1 (or 4f-1) have the values the neighbours prescribe. */
  lemma MidpointValues(fmt: Format, b: Bits)
    requires fmt.Valid() && Positive(b)
    ensures var f, e := Significand(fmt, b), Exponent(fmt, b);
      && Scaled(2 * f + 1, e - 1) == QuarterUnits(fmt, UpperMidpoint(fmt, b))
      && (if LowerIsCloser(b) then Scaled(4 * f - 1, e - 2) else Scaled(2 * f - 1, e - 1))
         == QuarterUnits(fmt, LowerMidpoint(fmt, b))
  {
    var f, e, m, shift := Significand(fmt, b), Exponent(fmt, b), fmt.MinExp() - 2, if b.E <= 1 then 0 else b.E - 1;
    MidpointFactors(fmt, b, shift);
    hide Scaled, Shl, Units, UpperMidpoint, LowerMidpoint, Significand;
    MoveFactor(2 * f + 1, e - 1, UpperMidpoint(fmt, b), m, shift + 1);
    if LowerIsCloser(b) {
      MoveFactor(4 * f - 1, e - 2, LowerMidpoint(fmt, b), m, shift);
    } else {
      MoveFactor(2 * f - 1, e - 1, LowerMidpoint(fmt, b), m, shift + 1);
    }
  }

  lemma MidpointFactors(fmt: Format, b: Bits, shift: nat)
    requires fmt.Valid() && shift == if b.E <= 1 then 0 else b.E - 1
    ensures UpperMidpoint(fmt, b) == Shl(2 * Significand(fmt, b) + 1, shift + 1)
    ensures LowerIsCloser(b) ==> LowerMidpoint(fmt, b) == Shl(4 * Significand(fmt, b) - 1, shift)
    ensures !LowerIsCloser(b) ==> LowerMidpoint(fmt, b) == Shl(2 * Significand(fmt, b) - 1, shift + 1)
  {
    assert Gap(b) == Pow(2, shift);
    assert Pow(2, shift + 1) == 2 * Gap(b);
    hide Gap, Pow;
    MidpointArithmetic(Significand(fmt, b), Gap(b));
  }

  lemma MidpointArithmetic(f: nat, g: nat)
    ensures 4 * (f * g) + 2 * g == (2 * f + 1) * (2 * g)
    ensures 4 * (f * g) - 2 * g == (2 * f - 1) * (2 * g)
    ensures 4 * (f * g) - g == (4 * f - 1) * g
  {}
}
