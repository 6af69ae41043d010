// Unsigned 64-bit arithmetic and the extended floating-point numbers f * 2^e of the printer.
module DiyFps {
  import opened Powers

  const TWO_32 := 0x1_0000_0000
  const TWO_63 := 0x8000_0000_0000_0000
  const TWO_64 := 0x1_0000_0000_0000_0000

  /** A std::uint64_t. Every assignment to a variable of this type carries the obligation that nothing wraps. */
  type u64 = x: int | 0 <= x < TWO_64

  /** A std::uint32_t. */
  type u32 = x: int | 0 <= x < TWO_32

  /** f * 2^e. */
  datatype DiyFp = DiyFp(f: u64, e: int) {
    function Value(): real {
      Scaled(f, e)
    }
  }

  /** x - y for numbers of one exponent. */
  function Sub(x: DiyFp, y: DiyFp): (r: DiyFp)
    requires x.e == y.e && x.f >= y.f
    ensures r.Value() == x.Value() - y.Value()
  {
    ScaledOrder(y.f, x.f - y.f, x.e);
    DiyFp(x.f - y.f, x.e)
  }

  /**
   * The rounded upper half of the 128-bit product, computed from four 32-bit partial products. None of the
   * intermediate sums leaves 64 bits.
   */
  function Mul(x: DiyFp, y: DiyFp): (r: DiyFp)
    ensures r.e == x.e + y.e + 64
  {
    var uLo: u32 := x.f % TWO_32;
    var uHi: u32 := x.f / TWO_32;
    var vLo: u32 := y.f % TWO_32;
    var vHi: u32 := y.f / TWO_32;

    ProductFits(uLo, vLo);
    ProductFits(uLo, vHi);
    ProductFits(uHi, vLo);
    ProductFits(uHi, vHi);
    var p0: u64 := uLo * vLo;
    var p1: u64 := uLo * vHi;
    var p2: u64 := uHi * vLo;
    var p3: u64 := uHi * vHi;

    var p0Hi: u64 := p0 / TWO_32;
    var p1Lo: u64 := p1 % TWO_32;
    var p1Hi: u64 := p1 / TWO_32;
    var p2Lo: u64 := p2 % TWO_32;
    var p2Hi: u64 := p2 / TWO_32;

    var q: u64 := p0Hi + p1Lo + p2Lo + 0x8000_0000;
    MulExact(x.f, y.f, p0, p1, p2, p3);
    ProductRounds(x.f, y.f);
    var h: u64 := p3 + p2Hi + p1Hi + q / TWO_32;
    DiyFp(h, x.e + y.e + 64)
  }

  lemma ProductFits(a: u32, b: u32)
    ensures 0 <= a * b <= (TWO_32 - 1) * (TWO_32 - 1)
  {
    ProductBound(a, b, TWO_32 - 1);
  }

  lemma ProductRounds(a: u64, b: u64)
    ensures 0 <= (a * b + TWO_63) / TWO_64 < TWO_64
  {
    ProductBound(a, b, TWO_64 - 1);
    RoundedBelow(a * b);
  }

  lemma RoundedBelow(p: nat)
    requires p <= (TWO_64 - 1) * (TWO_64 - 1)
    ensures 0 <= (p + TWO_63) / TWO_64 < TWO_64
  {}

  /** Schoolbook multiplication in base 2^32: the sum of the upper parts is the rounded upper word. */
  lemma MulExact(x: u64, y: u64, p0: nat, p1: nat, p2: nat, p3: nat)
    requires p0 == (x % TWO_32) * (y % TWO_32)
    requires p1 == (x % TWO_32) * (y / TWO_32)
    requires p2 == (x / TWO_32) * (y % TWO_32)
    requires p3 == (x / TWO_32) * (y / TWO_32)
    ensures p3 + p2 / TWO_32 + p1 / TWO_32 + (p0 / TWO_32 + p1 % TWO_32 + p2 % TWO_32 + 0x8000_0000) / TWO_32
         == (x * y + TWO_63) / TWO_64
  {
    var a, b, c, d := x % TWO_32, x / TWO_32, y % TWO_32, y / TWO_32;
    Expand(a, b, c, d);
    assert x == a + TWO_32 * b && y == c + TWO_32 * d;
    assert x * y == p0 + TWO_32 * (p1 + p2) + TWO_64 * p3;
    var q := p0 / TWO_32 + p1 % TWO_32 + p2 % TWO_32 + 0x8000_0000;
    var h := p3 + p2 / TWO_32 + p1 / TWO_32 + q / TWO_32;
    var low := p0 % TWO_32 + TWO_32 * (q % TWO_32);
    assert x * y + TWO_63 == h * TWO_64 + low;
    DivModUnique(x * y + TWO_63, TWO_64, h, low);
  }

  lemma Expand(a: int, b: int, c: int, d: int)
    ensures (a + TWO_32 * b) * (c + TWO_32 * d) == a * c + TWO_32 * (a * d + b * c) + TWO_64 * (b * d)
  {}

  /** The result is the exact product divided by 2^64 and rounded to nearest, ties up. */
  lemma MulIsRounded(x: DiyFp, y: DiyFp)
    ensures Mul(x, y).f == (x.f * y.f + TWO_63) / TWO_64
  {
    ProductFits(x.f % TWO_32, y.f % TWO_32);
    ProductFits(x.f % TWO_32, y.f / TWO_32);
    ProductFits(x.f / TWO_32, y.f % TWO_32);
    ProductFits(x.f / TWO_32, y.f / TWO_32);
    MulExact(x.f, y.f, (x.f % TWO_32) * (y.f % TWO_32), (x.f % TWO_32) * (y.f / TWO_32),
             (x.f / TWO_32) * (y.f % TWO_32), (x.f / TWO_32) * (y.f / TWO_32));
  }

  /** How far a rounded product may be from the exact one: half a unit, upwards included. */
  lemma MulError(x: DiyFp, y: DiyFp)
    ensures 2 * (x.f * y.f) - TWO_64 < 2 * TWO_64 * Mul(x, y).f <= 2 * (x.f * y.f) + TWO_64
  {
    hide Mul;
    MulIsRounded(x, y);
    RoundingError(x.f * y.f);
  }

  lemma RoundingError(p: nat)
    ensures 2 * p - TWO_64 < 2 * TWO_64 * ((p + TWO_63) / TWO_64) <= 2 * p + TWO_64
  {}

  /** Shifts x left until its top bit is set; the value does not change. */
  method Normalize(x: DiyFp) returns (r: DiyFp, ghost shift: nat)
    requires x.f != 0
    ensures r.f >= TWO_63
    ensures r.f == Shl(x.f, shift) && r.e == x.e - shift
    ensures r.Value() == x.Value()
  {
    hide Shl;
    r := x;
    shift := 0;
    ShlOnce(x.f, 0);
    while r.f / TWO_63 == 0
      invariant 0 < r.f
      invariant r.f == Shl(x.f, shift) && r.e == x.e - shift
      decreases TWO_64 - r.f
    {
      ShlOnce(x.f, shift);
      r := DiyFp(r.f * 2, r.e - 1);
      shift := shift + 1;
    }
    ShiftKeepsValue(x, r, shift);
  }

  /** The same number with a smaller exponent. */
  function NormalizeTo(x: DiyFp, targetExponent: int): (r: DiyFp)
    requires x.e >= targetExponent
    requires Shl(x.f, x.e - targetExponent) < TWO_64
    ensures r.e == targetExponent && r.Value() == x.Value()
  {
    var r := DiyFp(Shl(x.f, x.e - targetExponent), targetExponent);
    ShiftKeepsValue(x, r, x.e - targetExponent);
    r
  }

  lemma ShlOnce(f: nat, shift: nat)
    ensures Shl(f, shift + 1) == 2 * Shl(f, shift)
    ensures Shl(f, 0) == f
  {}

  lemma ShiftKeepsValue(x: DiyFp, r: DiyFp, shift: nat)
    requires r.f == Shl(x.f, shift) && r.e == x.e - shift
    ensures r.Value() == x.Value()
  {
    hide Scaled, Shl;
    MoveFactor(x.f, x.e, r.f, r.e, shift);
  }
}
