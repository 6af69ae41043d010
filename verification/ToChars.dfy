// to_chars: a floating-point number as text.
module ToChars {
  import opened Boundaries
  import opened Decimals
  import opened Grisu
  import opened FormatBuffer

  const MIN_EXP := -4

  /** The buffer sizes the function asserts, without the sign. */
  function Room(digits10: nat, maxDigits10: nat): nat {
    var a := if maxDigits10 < digits10 + 2 then digits10 + 2 else maxDigits10;
    var b := if a < 2 + (-MIN_EXP - 1) + maxDigits10 then 2 + (-MIN_EXP - 1) + maxDigits10 else a;
    if b < maxDigits10 + 6 then maxDigits10 + 6 else b
  }

  /**
   * The text is a number whose exact value lies strictly between the midpoints next to b, reads back as b and is the
   * shortest such number; plain notation is used exactly from 10^-4 up to 10^digits10.
   */
  ghost predicate Prints(fmt: Format, b: Bits, s: seq<char>, digits10: nat)
    requires fmt.Valid()
  {
    && IsNumber(s)
    && QuarterUnits(fmt, LowerMidpoint(fmt, b)) < ReadNumber(s) < QuarterUnits(fmt, UpperMidpoint(fmt, b))
    && ReadsBackAs(fmt, b, ReadNumber(s))
    && InNotation(s, ReadNumber(s), MIN_EXP, digits10)
    && Shortest(fmt, b, ReadNumber(s))
  }

  /** x is the shortest decimal in the scaled and shrunk interval, and the closest of that length. */
  ghost predicate Shortest(fmt: Format, b: Bits, x: real)
    requires fmt.Valid()
  {
    exists r: BoundaryTriple, V: nat, n: int ::
      Exact(fmt, b, r) && -1137 <= r.plus.e <= 964 && ShortestInScaledInterval(r, V, n) && x == Decimal(V, n)
  }

  method ToChars(buf: array<char>, fmt: Format, digits10: nat, maxDigits10: nat, negative: bool, b: Bits)
    returns (end: nat)
    requires Supported(fmt) && Finite(fmt, b)
    requires EnoughDigits(fmt.precision, maxDigits10) && 0 < digits10 && maxDigits10 <= 100
    requires buf.Length >= Room(digits10, maxDigits10) + (if negative then 1 else 0)
    modifies buf
    ensures (if negative then 1 else 0) <= end <= buf.Length
    ensures negative ==> buf[0] == '-'
    ensures var s := buf[if negative then 1 else 0..end];
      && |s| <= Room(digits10, maxDigits10)
      && (if Positive(b) then Prints(fmt, b, s, digits10) else s == "0.0")
  {
    hide DigitsValue, Decimal, IsNumber, ReadNumber, Layout, ReadsBackAs, AllDigits, Supported, EnoughDigits,
         QuarterUnits, ShortestInScaledInterval, Finite, InNotation, Exact;
    var first := 0;
    if negative {
      buf[first] := '-';
      first := first + 1;
    }
    if b.E == 0 && b.F == 0 {
      buf[first] := '0';
      buf[first + 1] := '.';
      buf[first + 2] := '0';
      end := first + 3;
      return;
    }
    var len, decimalExponent, r := Grisu2(buf, first, fmt, b, maxDigits10);
    ghost var sign := buf[..first];
    ghost var ds := buf[first..first + len];
    assert buf[..][first..first + len] == ds;
    LayoutLength(ds, len + decimalExponent, MIN_EXP, digits10, maxDigits10);
    LayoutReads(ds, decimalExponent, MIN_EXP, digits10);
    end := FormatBuffer.FormatBuffer(buf, first, len, decimalExponent, MIN_EXP, digits10);
    assert buf[..first] == sign;
  }

  /** A double needs at most 24 characters, sign included, and always reads back as itself. */
  method DoubleToChars(buf: array<char>, negative: bool, b: Bits) returns (end: nat)
    requires Finite(DOUBLE, b) && buf.Length >= 24
    modifies buf
    ensures (if negative then 1 else 0) <= end <= 24
    ensures negative ==> buf[0] == '-'
    ensures var s := buf[if negative then 1 else 0..end];
      && |s| <= 23
      && (if Positive(b) then Prints(DOUBLE, b, s, 15) else s == "0.0")
  {
    hide EnoughDigits, Prints, Finite;
    SeventeenForDouble();
    end := ToChars(buf, DOUBLE, 15, 17, negative, b);
  }

  /** A single-precision float needs at most 16 characters, sign included. */
  method FloatToChars(buf: array<char>, negative: bool, b: Bits) returns (end: nat)
    requires Finite(FLOAT, b) && buf.Length >= 16
    modifies buf
    ensures (if negative then 1 else 0) <= end <= 16
    ensures negative ==> buf[0] == '-'
    ensures var s := buf[if negative then 1 else 0..end];
      && |s| <= 15
      && (if Positive(b) then Prints(FLOAT, b, s, 6) else s == "0.0")
  {
    hide EnoughDigits, Prints, Finite;
    NineForFloat();
    end := ToChars(buf, FLOAT, 6, 9, negative, b);
  }
}
