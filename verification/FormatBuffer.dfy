// Laying out digits * 10^exponent as text, and the text read back as a decimal.
module FormatBuffer {
  import opened Powers
  import opened Decimals
  import opened Grisu

  // ---------------------------------------------------------------- reading a printed number

  datatype Cut = Cut(before: seq<char>, found: bool, after: seq<char>)

  /** Cuts s at the first c. */
  function CutAt(s: seq<char>, c: char): Cut {
    if s == [] then Cut([], false, [])
    else if s[0] == c then Cut([], true, s[1..])
    else
      var rest := CutAt(s[1..], c);
      Cut([s[0]] + rest.before, rest.found, rest.after)
  }

  /** A sign and digits. */
  predicate IsExponent(t: seq<char>) {
    t != [] && (t[0] == '-' || t[0] == '+') && AllDigits(t[1..])
  }

  function ReadExponent(t: seq<char>): int
    requires IsExponent(t)
  {
    if t[0] == '-' then -(DigitsValue(t[1..]) as int) else DigitsValue(t[1..])
  }

  /** digits [ '.' digits ] [ 'e' sign digits ] */
  predicate IsNumber(s: seq<char>) {
    var scientific := CutAt(s, 'e');
    var mantissa := CutAt(scientific.before, '.');
    && AllDigits(mantissa.before + mantissa.after)
    && (scientific.found ==> IsExponent(scientific.after))
  }

  /** The value of the text: the digits without the point, scaled by the exponent and the places after the point. */
  function ReadNumber(s: seq<char>): real
    requires IsNumber(s)
  {
    var scientific := CutAt(s, 'e');
    var mantissa := CutAt(scientific.before, '.');
    var exponent := if scientific.found then ReadExponent(scientific.after) else 0;
    Decimal(DigitsValue(mantissa.before + mantissa.after), exponent - |mantissa.after|)
  }

  lemma {:induction false} CutAbsent(s: seq<char>, c: char)
    requires c !in s
    ensures CutAt(s, c) == Cut(s, false, [])
  {
    if s != [] {
      CutAbsent(s[1..], c);
      assert [s[0]] + s[1..] == s;
    }
  }

  lemma {:induction false} CutPresent(s: seq<char>, c: char, t: seq<char>)
    requires c !in s
    ensures CutAt(s + [c] + t, c) == Cut(s, true, t)
  {
    if s == [] {
      assert s + [c] + t == [c] + t;
    } else {
      assert (s + [c] + t)[1..] == s[1..] + [c] + t;
      CutPresent(s[1..], c, t);
      assert [s[0]] + s[1..] == s;
    }
  }

  lemma NotADigit(s: seq<char>, c: char)
    requires AllDigits(s) && !IsDigit(c)
    ensures c !in s
  {}

  lemma Mantissa(ip: seq<char>, fp: seq<char>)
    requires AllDigits(ip) && AllDigits(fp)
    ensures var m := ip + ['.'] + fp;
      'e' !in m && CutAt(m, '.') == Cut(ip, true, fp) && AllDigits(ip + fp)
  {
    NotADigit(ip, 'e');
    NotADigit(fp, 'e');
    NotADigit(ip, '.');
    CutPresent(ip, '.', fp);
  }

  /** ip.fp */
  lemma ReadPlain(ip: seq<char>, fp: seq<char>)
    requires AllDigits(ip) && AllDigits(fp)
    ensures var s := ip + ['.'] + fp;
      AllDigits(ip + fp) && IsNumber(s) && ReadNumber(s) == Decimal(DigitsValue(ip + fp), -(|fp| as int))
  {
    hide Decimal, DigitsValue, CutAt, AllDigits;
    Mantissa(ip, fp);
    CutAbsent(ip + ['.'] + fp, 'e');
  }

  /** ip.fp e exponent */
  lemma ReadScientific(ip: seq<char>, fp: seq<char>, ex: seq<char>)
    requires AllDigits(ip) && AllDigits(fp) && IsExponent(ex)
    ensures var s := ip + ['.'] + fp + ['e'] + ex;
      && AllDigits(ip + fp) && IsNumber(s)
      && ReadNumber(s) == Decimal(DigitsValue(ip + fp), ReadExponent(ex) - |fp|)
  {
    hide Decimal, DigitsValue, CutAt, AllDigits, IsExponent, ReadExponent;
    Mantissa(ip, fp);
    CutPresent(ip + ['.'] + fp, 'e', ex);
  }

  /** ip e exponent */
  lemma ReadScientificInteger(ip: seq<char>, ex: seq<char>)
    requires AllDigits(ip) && IsExponent(ex)
    ensures var s := ip + ['e'] + ex;
      IsNumber(s) && ReadNumber(s) == Decimal(DigitsValue(ip), ReadExponent(ex))
  {
    NotADigit(ip, 'e');
    NotADigit(ip, '.');
    hide Decimal, DigitsValue, CutAt, AllDigits, IsExponent, ReadExponent;
    CutPresent(ip, 'e', ex);
    CutAbsent(ip, '.');
    assert ip + [] == ip;
  }

  // ---------------------------------------------------------------- zeros around digits

  function Zeros(n: nat): (s: seq<char>)
    ensures |s| == n && forall i | 0 <= i < n :: s[i] == '0'
  {
    seq(n, _ => '0')
  }

  lemma {:induction false} TrailingZeros(s: seq<char>, n: nat)
    requires AllDigits(s)
    ensures AllDigits(s + Zeros(n)) && DigitsValue(s + Zeros(n)) == Product(DigitsValue(s), Pow(10, n))
  {
    if n == 0 {
      assert s + Zeros(0) == s;
    } else {
      TrailingZeros(s, n - 1);
      assert s + Zeros(n) == (s + Zeros(n - 1)) + ['0'];
      AppendDigit(s + Zeros(n - 1), '0');
      ProductTen(DigitsValue(s), Pow(10, n - 1));
    }
  }

  lemma ProductTen(v: nat, t: nat)
    ensures Product(v, 10 * t) == 10 * Product(v, t)
  {}

  lemma {:induction false} LeadingZeros(n: nat, s: seq<char>)
    requires AllDigits(s)
    ensures AllDigits(Zeros(n) + s) && DigitsValue(Zeros(n) + s) == DigitsValue(s)
    decreases |s|, n
  {
    if s == [] {
      assert Zeros(n) + s == Zeros(n);
      if n > 0 {
        LeadingZeros(n - 1, []);
        assert Zeros(n - 1) + [] == Zeros(n - 1);
        assert Zeros(n) == Zeros(n - 1) + ['0'];
        AppendDigit(Zeros(n - 1), '0');
      }
    } else {
      var init, c := s[..|s| - 1], s[|s| - 1];
      LeadingZeros(n, init);
      assert Zeros(n) + s == (Zeros(n) + init) + [c];
      AppendDigit(Zeros(n) + init, c);
    }
  }

  /** A power of ten moves between the digits and the exponent. */
  lemma DecimalOfZeros(v: nat, n: nat, e: int)
    ensures Product(v, Pow(10, n)) >= 0 && Decimal(Product(v, Pow(10, n)), e) == Decimal(v, n + e)
  {
    RealProductNamed(v, Pow(10, n));
    RPowOfNat(10, n);
    RPowAddNamed(10, n, e);
    RProductAssoc(v as real, RPow(10, n), RPow(10, e));
    assert Product(v, Pow(10, n)) >= 0;
    hide RPow, RProduct, Pow, Product;
  }

  // ---------------------------------------------------------------- memmove, memset and append_exponent

  method MemMove(buf: array<char>, to: nat, from: nat, count: nat)
    requires to + count <= buf.Length && from + count <= buf.Length
    modifies buf
    ensures forall i | 0 <= i < buf.Length ::
      buf[i] == if to <= i < to + count then old(buf[from + (i - to)]) else old(buf[i])
  {
    forall i | 0 <= i < count {
      buf[to + i] := buf[from + i];
    }
  }

  method MemSet(buf: array<char>, to: nat, c: char, count: nat)
    requires to + count <= buf.Length
    modifies buf
    ensures forall i | 0 <= i < buf.Length :: buf[i] == if to <= i < to + count then c else old(buf[i])
  {
    forall i | 0 <= i < count {
      buf[to + i] := c;
    }
  }

  /** The text of an exponent: a sign and two or three digits. */
  function ExponentText(e: int): (t: seq<char>)
    requires -1000 < e < 1000
    ensures 3 <= |t| <= 4
  {
    var k := if e < 0 then -e else e;
    [if e < 0 then '-' else '+'] +
    (if k < 10 then ['0', DigitChar(k)]
     else if k < 100 then [DigitChar(k / 10), DigitChar(k % 10)]
     else [DigitChar(k / 100), DigitChar(k % 100 / 10), DigitChar(k % 100 % 10)])
  }

  lemma ExponentTextReads(e: int)
    requires -1000 < e < 1000
    ensures IsExponent(ExponentText(e)) && ReadExponent(ExponentText(e)) == e
  {
    var t := ExponentText(e)[1..];
    var k := if e < 0 then -e else e;
    if k < 100 {
      assert t == [t[0]] + [t[1]] && [] + [t[0]] == [t[0]];
      AppendDigit([], t[0]);
      AppendDigit([t[0]], t[1]);
    } else {
      assert t == ([t[0]] + [t[1]]) + [t[2]] && [] + [t[0]] == [t[0]];
      AppendDigit([], t[0]);
      AppendDigit([t[0]], t[1]);
      AppendDigit([t[0]] + [t[1]], t[2]);
    }
  }

  method AppendExponent(buf: array<char>, at: nat, e0: int) returns (end: nat)
    requires -1000 < e0 < 1000 && at + |ExponentText(e0)| <= buf.Length
    modifies buf
    ensures end == at + |ExponentText(e0)|
    ensures buf[at..end] == ExponentText(e0)
    ensures buf[..at] == old(buf[..at])
  {
    end := at;
    var e := e0;
    if e < 0 {
      e := -e;
      buf[end] := '-';
    } else {
      buf[end] := '+';
    }
    end := end + 1;
    var k: nat := e;
    if k < 10 {
      buf[end] := '0';
      buf[end + 1] := DigitChar(k);
      end := end + 2;
    } else if k < 100 {
      buf[end] := DigitChar(k / 10);
      k := k % 10;
      buf[end + 1] := DigitChar(k);
      end := end + 2;
    } else {
      buf[end] := DigitChar(k / 100);
      k := k % 100;
      buf[end + 1] := DigitChar(k / 10);
      k := k % 10;
      buf[end + 2] := DigitChar(k);
      end := end + 3;
    }
  }

  // ---------------------------------------------------------------- format_buffer

  /** digits[000].0 */
  function WholeLayout(ds: seq<char>, zeros: nat): (s: seq<char>)
    ensures |s| == |ds| + zeros + 2
  {
    ds + Zeros(zeros) + ['.', '0']
  }

  /** dig.its */
  function PointLayout(ds: seq<char>, n: nat): (s: seq<char>)
    requires n <= |ds|
    ensures |s| == |ds| + 1
  {
    ds[..n] + ['.'] + ds[n..]
  }

  /** 0.[000]digits */
  function FractionLayout(ds: seq<char>, zeros: nat): (s: seq<char>)
    ensures |s| == 2 + zeros + |ds|
  {
    ['0', '.'] + Zeros(zeros) + ds
  }

  lemma PointCell(ds: seq<char>, n: nat, i: nat)
    requires n <= |ds| && i <= |ds|
    ensures PointLayout(ds, n)[i] == if i < n then ds[i] else if i == n then '.' else ds[i - 1]
  {
    var head := ds[..n] + ['.'];
    assert PointLayout(ds, n) == head + ds[n..];
    if i > n { assert (head + ds[n..])[i] == ds[n..][i - (n + 1)]; }
  }

  lemma FractionCell(ds: seq<char>, zeros: nat, i: nat)
    requires i < 2 + zeros + |ds|
    ensures FractionLayout(ds, zeros)[i]
         == if i == 1 then '.' else if i < 2 + zeros then '0' else ds[i - 2 - zeros]
  {
    var head := ['0', '.'] + Zeros(zeros);
    assert FractionLayout(ds, zeros) == head + ds;
    if i >= 2 + zeros { assert (head + ds)[i] == ds[i - (2 + zeros)]; }
  }

  /** dE+123 or d.igitsE+123 */
  function ScientificLayout(ds: seq<char>, e: int): seq<char>
    requires ds != [] && -1000 < e < 1000
  {
    (if |ds| == 1 then ds else PointLayout(ds, 1)) + ['e'] + ExponentText(e)
  }

  /** The layout of a number with digit string ds and decimal point position n. */
  function Layout(ds: seq<char>, n: int, minExp: int, maxExp: int): seq<char>
    requires ds != [] && -1000 < n - 1 < 1000
  {
    if |ds| <= n <= maxExp then WholeLayout(ds, n - |ds|)
    else if 0 < n <= maxExp then PointLayout(ds, n)
    else if minExp < n <= 0 then FractionLayout(ds, -n)
    else ScientificLayout(ds, n - 1)
  }

  /** Reading the layout gives the digits times the power of ten, in every notation. */
  lemma LayoutReads(ds: seq<char>, decimalExponent: int, minExp: int, maxExp: int)
    requires ds != [] && AllDigits(ds) && minExp < 0 < maxExp && -1000 < |ds| + decimalExponent - 1 < 1000
    ensures var s := Layout(ds, |ds| + decimalExponent, minExp, maxExp);
      IsNumber(s) && ReadNumber(s) == Decimal(DigitsValue(ds), decimalExponent)
  {
    hide DigitsValue, Decimal, IsNumber, ReadNumber, AllDigits;
    hide WholeLayout, PointLayout, FractionLayout, ScientificLayout;
    var k := |ds|;
    var n := k + decimalExponent;
    if k <= n <= maxExp {
      WholeNumberReads(ds, n - k);
    } else if 0 < n <= maxExp {
      PointNumberReads(ds, n);
    } else if minExp < n <= 0 {
      SmallNumberReads(ds, -n);
    } else if k == 1 {
      ScientificDigitReads(ds, n - 1);
    } else {
      ScientificReads(ds, n - 1);
    }
  }

  lemma SplitDigits(ds: seq<char>, n: nat)
    requires AllDigits(ds) && n <= |ds|
    ensures AllDigits(ds[..n]) && AllDigits(ds[n..]) && ds[..n] + ds[n..] == ds
  {}

  lemma PointNumberReads(ds: seq<char>, n: nat)
    requires AllDigits(ds) && 0 < n < |ds|
    ensures var s := PointLayout(ds, n);
      IsNumber(s) && ReadNumber(s) == Decimal(DigitsValue(ds), n - |ds|)
  {
    hide DigitsValue, Decimal, IsNumber, ReadNumber, AllDigits;
    SplitDigits(ds, n);
    ReadPlain(ds[..n], ds[n..]);
  }

  lemma ScientificReads(ds: seq<char>, e: int)
    requires AllDigits(ds) && |ds| > 1 && -1000 < e < 1000
    ensures var s := ScientificLayout(ds, e);
      IsNumber(s) && ReadNumber(s) == Decimal(DigitsValue(ds), e - |ds| + 1)
  {
    hide DigitsValue, Decimal, IsNumber, ReadNumber, ExponentText, IsExponent, ReadExponent, AllDigits;
    ExponentTextReads(e);
    SplitDigits(ds, 1);
    ReadScientific(ds[..1], ds[1..], ExponentText(e));
  }

  lemma ScientificDigitReads(ds: seq<char>, e: int)
    requires AllDigits(ds) && |ds| == 1 && -1000 < e < 1000
    ensures var s := ScientificLayout(ds, e);
      IsNumber(s) && ReadNumber(s) == Decimal(DigitsValue(ds), e)
  {
    hide DigitsValue, Decimal, IsNumber, ReadNumber, ExponentText, IsExponent, ReadExponent, AllDigits;
    ExponentTextReads(e);
    ReadScientificInteger(ds, ExponentText(e));
  }

  lemma WholeNumberReads(ds: seq<char>, zeros: nat)
    requires AllDigits(ds)
    ensures var s := WholeLayout(ds, zeros);
      IsNumber(s) && ReadNumber(s) == Decimal(DigitsValue(ds), zeros)
  {
    hide DigitsValue, Decimal, IsNumber, ReadNumber, Pow, Product, AllDigits;
    var ip := ds + Zeros(zeros);
    TrailingZeros(ds, zeros);
    TrailingZeros(ds, zeros + 1);
    assert AllDigits(['0']) by { TrailingZeros([], 1); assert [] + Zeros(1) == ['0']; }
    ReadPlain(ip, ['0']);
    assert ip + ['.'] + ['0'] == ds + Zeros(zeros) + ['.', '0'];
    assert ip + ['0'] == ds + Zeros(zeros + 1);
    DecimalOfZeros(DigitsValue(ds), zeros + 1, -1);
  }

  lemma SmallNumberReads(ds: seq<char>, zeros: nat)
    requires AllDigits(ds)
    ensures var s := FractionLayout(ds, zeros);
      IsNumber(s) && ReadNumber(s) == Decimal(DigitsValue(ds), -(zeros + |ds| as int))
  {
    hide DigitsValue, Decimal, IsNumber, ReadNumber, AllDigits;
    LeadingZeros(zeros, ds);
    LeadingZeros(zeros + 1, ds);
    assert AllDigits(['0']) by { LeadingZeros(1, []); assert Zeros(1) + [] == ['0']; }
    ReadPlain(['0'], Zeros(zeros) + ds);
    assert ['0'] + ['.'] + (Zeros(zeros) + ds) == ['0', '.'] + Zeros(zeros) + ds;
    assert ['0'] + (Zeros(zeros) + ds) == Zeros(zeros + 1) + ds;
  }

  // ---------------------------------------------------------------- the notation

  /** digits '.' digits, with no superfluous zero on either side. */
  predicate PlainText(s: seq<char>) {
    var c := CutAt(s, '.');
    && c.found && Canonical(c.before)
    && c.after != [] && AllDigits(c.after) && (c.after == "0" || c.after[|c.after| - 1] != '0')
  }

  /** A sign, '-' only before a number other than zero, and two digits, or three if two are not enough. */
  predicate ExponentShape(t: seq<char>) {
    && IsExponent(t) && (|t| == 3 || (|t| == 4 && t[1] != '0'))
    && (t[0] == '-' ==> ReadExponent(t) != 0)
  }

  /** A digit other than zero, digits behind a point that do not end in zero, if any, 'e' and an exponent. */
  predicate ScientificText(s: seq<char>) {
    var c := CutAt(s, 'e');
    var m := CutAt(c.before, '.');
    && c.found && ExponentShape(c.after)
    && |m.before| == 1 && IsDigit(m.before[0]) && m.before[0] != '0'
    && (m.found ==> m.after != [] && AllDigits(m.after) && m.after[|m.after| - 1] != '0')
  }

  predicate IsInteger(x: real) {
    x == x.Floor as real
  }

  predicate StartsWithZero(s: seq<char>) {
    |s| >= 2 && s[..2] == "0."
  }

  predicate EndsInZero(s: seq<char>) {
    |s| >= 2 && s[|s| - 2..] == ".0"
  }

  /**
   * Plain notation for values from 10^minExp up to 10^maxExp, scientific notation for all others; in plain notation
   * exactly the values below 1 start with "0." and exactly the integers end in ".0".
   */
  predicate InNotation(s: seq<char>, x: real, minExp: int, maxExp: int) {
    if RPow(10, minExp) <= x < RPow(10, maxExp) then
      && 'e' !in s && PlainText(s)
      && (x < 1.0 <==> StartsWithZero(s))
      && (IsInteger(x) <==> EndsInZero(s))
    else ScientificText(s)
  }

  lemma {:induction false} DigitsBounds(ds: seq<char>)
    requires ds != [] && AllDigits(ds) && ds[0] != '0'
    ensures Pow(10, |ds| - 1) <= DigitsValue(ds) < Pow(10, |ds|)
    decreases |ds|
  {
    var init := ds[..|ds| - 1];
    if |ds| == 1 {
      assert DigitsValue(init) == 0;
      assert Pow(10, 1) == 10;
    } else {
      DigitsBounds(init);
    }
  }

  lemma RPowMonotone(m: int, n: int)
    requires m <= n
    ensures RPow(10, m) <= RPow(10, n)
  {
    var d: nat := n - m;
    RPowAddNamed(10, m, d);
    RPowOfNat(10, d);
    hide RPow;
    RMulAtLeast(RPow(10, m), Pow(10, d) as real);
  }

  lemma RMulAtLeast(x: real, y: real)
    requires x > 0.0 && y >= 1.0
    ensures x <= RProduct(x, y)
  {}

  /** The first digit of ds stands directly behind place n = |ds| + e of the number. */
  lemma PlaceOfFirstDigit(ds: seq<char>, e: int)
    requires ds != [] && AllDigits(ds) && ds[0] != '0'
    ensures RPow(10, |ds| + e - 1) <= Decimal(DigitsValue(ds), e) < RPow(10, |ds| + e)
  {
    var k, v := |ds|, DigitsValue(ds);
    DigitsBounds(ds);
    RPowOfNat(10, k);
    RPowOfNat(10, k - 1);
    RPowAddNamed(10, k, e);
    RPowAddNamed(10, k - 1, e);
    hide RPow, Pow, DigitsValue, RProduct;
    RProductOrder(RPow(10, e), Pow(10, k - 1) as real, v as real);
    RProductOrder(RPow(10, e), v as real, Pow(10, k) as real);
  }

  lemma PlainShape(ip: seq<char>, fp: seq<char>)
    requires Canonical(ip) && fp != [] && AllDigits(fp) && (fp == "0" || fp[|fp| - 1] != '0')
    ensures var s := ip + ['.'] + fp;
            && 'e' !in s && PlainText(s)
            && (StartsWithZero(s) <==> ip == "0") && (EndsInZero(s) <==> fp == "0")
  {
    Mantissa(ip, fp);
    var s := ip + ['.'] + fp;
    hide AllDigits;
    if ip != "0" {
      assert s[0] == ip[0];
      assert |ip| > 1 ==> ip[0] != '0';
      assert |ip| == 1 ==> ip == [ip[0]];
    } else {
      assert s[..2] == "0.";
    }
    assert s[|s| - 1] == fp[|fp| - 1];
    if fp == "0" { assert s[|s| - 2..] == ".0"; }
  }

  /** A number whose last written digit stands behind the point and is not zero is no integer. */
  lemma NoInteger(v: nat, m: nat)
    requires v % 10 != 0 && m > 0
    ensures !IsInteger(Decimal(v, -(m as int)))
  {
    var x := Decimal(v, -(m as int));
    if x == x.Floor as real {
      var z := x.Floor;
      DecimalShift(v, -(m as int), m);
      DecimalZero(v);
      RPowOfNat(10, m);
      hide RPow, Decimal;
      RealProductNamed(z, Pow(10, m));
      assert v == Product(z, Pow(10, m));
      TenDivides(z, Pow(10, m - 1));
    }
  }

  lemma TenDivides(z: int, t: nat)
    ensures Product(z, 10 * t) % 10 == 0
  {
    assert Product(z, 10 * t) == 10 * (z * t);
  }

  lemma LastDigit(ds: seq<char>)
    requires ds != [] && AllDigits(ds) && ds[|ds| - 1] != '0'
    ensures DigitsValue(ds) % 10 != 0
  {}

  lemma WholeIsInteger(v: nat, e: nat)
    ensures IsInteger(Decimal(v, e))
  {
    RPowOfNat(10, e);
    RealProduct(v, Pow(10, e));
    assert Decimal(v, e) == (v * Pow(10, e)) as real;
  }

  /** The exponent text has the shape, and its sign is that of the exponent. */
  lemma ExponentTextShape(e: int)
    requires -1000 < e < 1000
    ensures ExponentShape(ExponentText(e))
  {
    ExponentTextReads(e);
    var k := if e < 0 then -e else e;
    if k >= 100 { assert DigitValue(DigitChar(k / 100)) == k / 100 > 0; }
  }

  lemma ScientificShape(ds: seq<char>, e: int)
    requires ds != [] && AllDigits(ds) && ds[0] != '0' && ds[|ds| - 1] != '0' && -1000 < e < 1000
    ensures ScientificText(ScientificLayout(ds, e))
  {
    hide ExponentText, ExponentShape, AllDigits, ScientificText;
    ExponentTextShape(e);
    if |ds| == 1 {
      OneDigitShape(ds, ExponentText(e));
    } else {
      assert AllDigits(ds[..1]) && AllDigits(ds[1..]) by { SplitDigits(ds, 1); }
      assert ds[1..][|ds| - 2] == ds[|ds| - 1];
      DigitsShape(ds[..1], ds[1..], ExponentText(e));
    }
  }

  lemma OneDigitShape(ip: seq<char>, ex: seq<char>)
    requires |ip| == 1 && AllDigits(ip) && ip[0] != '0' && ExponentShape(ex)
    ensures ScientificText(ip + ['e'] + ex)
  {
    hide ExponentShape;
    NotADigit(ip, 'e');
    NotADigit(ip, '.');
    CutPresent(ip, 'e', ex);
    CutAbsent(ip, '.');
  }

  lemma DigitsShape(ip: seq<char>, fp: seq<char>, ex: seq<char>)
    requires |ip| == 1 && AllDigits(ip) && ip[0] != '0' && ExponentShape(ex)
    requires fp != [] && AllDigits(fp) && fp[|fp| - 1] != '0'
    ensures ScientificText(ip + ['.'] + fp + ['e'] + ex)
  {
    hide ExponentShape, CutAt;
    Mantissa(ip, fp);
    CutPresent(ip + ['.'] + fp, 'e', ex);
  }

  /** The choice of the notation and its canonical form. */
  lemma LayoutNotation(ds: seq<char>, decimalExponent: int, minExp: int, maxExp: int)
    requires ds != [] && AllDigits(ds) && ds[0] != '0' && ds[|ds| - 1] != '0'
    requires minExp < 0 < maxExp && -1000 < |ds| + decimalExponent - 1 < 1000
    ensures InNotation(Layout(ds, |ds| + decimalExponent, minExp, maxExp), Decimal(DigitsValue(ds), decimalExponent),
                       minExp, maxExp)
  {
    hide DigitsValue, Decimal, AllDigits, RPow, PlainText, ScientificText, IsInteger, InNotation;
    hide WholeLayout, PointLayout, FractionLayout, ScientificLayout, StartsWithZero, EndsInZero;
    var k, n, x := |ds|, |ds| + decimalExponent, Decimal(DigitsValue(ds), decimalExponent);
    PlaceDecides(ds, decimalExponent, minExp, maxExp);
    if k <= n <= maxExp {
      WholeShape(ds, n - k);
      PlainNotation(WholeLayout(ds, n - k), x, minExp, maxExp);
    } else if 0 < n <= maxExp {
      PointShape(ds, n);
      PlainNotation(PointLayout(ds, n), x, minExp, maxExp);
    } else if minExp < n <= 0 {
      FractionShape(ds, -n);
      PlainNotation(FractionLayout(ds, -n), x, minExp, maxExp);
    } else {
      ScientificShape(ds, n - 1);
      ScientificNotation(ScientificLayout(ds, n - 1), x, minExp, maxExp);
    }
  }

  lemma PlainNotation(s: seq<char>, x: real, minExp: int, maxExp: int)
    requires RPow(10, minExp) <= x < RPow(10, maxExp) && 'e' !in s && PlainText(s)
    requires (x < 1.0 <==> StartsWithZero(s)) && (IsInteger(x) <==> EndsInZero(s))
    ensures InNotation(s, x, minExp, maxExp)
  {}

  lemma ScientificNotation(s: seq<char>, x: real, minExp: int, maxExp: int)
    requires !(RPow(10, minExp) <= x < RPow(10, maxExp)) && ScientificText(s)
    ensures InNotation(s, x, minExp, maxExp)
  {}

  /** The place of the first digit decides the notation, the last place whether the number is an integer. */
  lemma PlaceDecides(ds: seq<char>, e: int, minExp: int, maxExp: int)
    requires ds != [] && AllDigits(ds) && ds[0] != '0' && ds[|ds| - 1] != '0'
    ensures var x, n := Decimal(DigitsValue(ds), e), |ds| + e;
            && (RPow(10, minExp) <= x < RPow(10, maxExp) <==> minExp < n <= maxExp)
            && (x < 1.0 <==> n <= 0)
            && (IsInteger(x) <==> e >= 0)
  {
    var n, v := |ds| + e, DigitsValue(ds);
    PlaceOfFirstDigit(ds, e);
    LastDigit(ds);
    RPowOfNat(10, 0);
    if e >= 0 { WholeIsInteger(v, e); } else { NoInteger(v, -e); }
    hide DigitsValue, Decimal, AllDigits, RPow;
    if n <= maxExp { RPowMonotone(n, maxExp); } else { RPowMonotone(maxExp, n - 1); }
    if minExp < n { RPowMonotone(minExp, n - 1); } else { RPowMonotone(n, minExp); }
    if n <= 0 { RPowMonotone(n, 0); } else { RPowMonotone(0, n - 1); }
  }

  lemma ZeroIsDigit()
    ensures AllDigits("0") && Canonical("0")
  {}

  lemma WholeShape(ds: seq<char>, zeros: nat)
    requires ds != [] && AllDigits(ds) && ds[0] != '0'
    ensures var s := WholeLayout(ds, zeros);
            'e' !in s && PlainText(s) && !StartsWithZero(s) && EndsInZero(s)
  {
    hide PlainText;
    var ip := ds + Zeros(zeros);
    TrailingZeros(ds, zeros);
    ZeroIsDigit();
    hide AllDigits;
    assert ip[0] == ds[0];
    PlainShape(ip, "0");
    assert WholeLayout(ds, zeros) == ip + ['.'] + "0";
  }

  lemma PointShape(ds: seq<char>, n: nat)
    requires 0 < n < |ds| && AllDigits(ds) && ds[0] != '0' && ds[|ds| - 1] != '0'
    ensures var s := PointLayout(ds, n);
            'e' !in s && PlainText(s) && !StartsWithZero(s) && !EndsInZero(s)
  {
    hide PlainText;
    SplitDigits(ds, n);
    hide AllDigits;
    var ip, fp := ds[..n], ds[n..];
    assert ip[0] == ds[0] && fp[|fp| - 1] == ds[|ds| - 1];
    PlainShape(ip, fp);
  }

  lemma FractionShape(ds: seq<char>, zeros: nat)
    requires ds != [] && AllDigits(ds) && ds[|ds| - 1] != '0'
    ensures var s := FractionLayout(ds, zeros);
            'e' !in s && PlainText(s) && StartsWithZero(s) && !EndsInZero(s)
  {
    hide PlainText;
    var fp := Zeros(zeros) + ds;
    LeadingZeros(zeros, ds);
    ZeroIsDigit();
    hide AllDigits;
    assert fp[|fp| - 1] == ds[|ds| - 1];
    PlainShape("0", fp);
    assert FractionLayout(ds, zeros) == "0" + ['.'] + fp;
  }

  /** With at most maxDigits digits the text stays within the three bounds the caller asserts. */
  lemma LayoutLength(ds: seq<char>, n: int, minExp: int, maxExp: int, maxDigits: nat)
    requires ds != [] && |ds| <= maxDigits && minExp < 0 < maxExp && -1000 < n - 1 < 1000
    ensures var l := |Layout(ds, n, minExp, maxExp)|;
      l <= maxExp + 2 || l <= 2 + (-minExp - 1) + maxDigits || l <= maxDigits + 6
  {}

  /** digits[000].0 */
  method PutWhole(buf: array<char>, first: nat, k: nat, n: nat) returns (end: nat)
    requires k <= n && first + n + 2 <= buf.Length
    modifies buf
    ensures end == first + n + 2
    ensures buf[first..end] == WholeLayout(old(buf[first..first + k]), n - k)
    ensures buf[..first] == old(buf[..first])
  {
    MemSet(buf, first + k, '0', n - k);
    buf[first + n] := '.';
    buf[first + n + 1] := '0';
    end := first + n + 2;
  }

  /** dig.its */
  method PutPoint(buf: array<char>, first: nat, k: nat, n: nat) returns (end: nat)
    requires 0 < n < k && first + k + 1 <= buf.Length
    modifies buf
    ensures end == first + k + 1
    ensures buf[first..end] == PointLayout(old(buf[first..first + k]), n)
    ensures buf[..first] == old(buf[..first])
  {
    hide PointLayout;
    ghost var before := buf[..];
    MemMove(buf, first + n + 1, first + n, k - n);
    buf[first + n] := '.';
    end := first + k + 1;
    PointMoved(before, buf[..], first, k, n);
  }

  lemma PointMoved(s: seq<char>, t: seq<char>, first: nat, k: nat, n: nat)
    requires n <= k && |s| == |t| && first + k + 1 <= |s|
    requires forall i {:trigger t[i]} | 0 <= i < |s| ::
      t[i] == if first + n + 1 <= i < first + k + 1 then s[i - 1] else if i == first + n then '.' else s[i]
    ensures t[first..first + k + 1] == PointLayout(s[first..first + k], n)
    ensures t[..first] == s[..first]
  {
    hide PointLayout;
    var ds := s[first..first + k];
    assert forall i | 0 <= i < first :: t[i] == s[i];
    forall i | 0 <= i <= k
      ensures t[first..first + k + 1][i] == PointLayout(ds, n)[i]
    {
      PointCell(ds, n, i);
      assert t[first..first + k + 1][i] == t[first + i];
    }
  }

  /** 0.[000]digits */
  method PutFraction(buf: array<char>, first: nat, k: nat, zeros: nat) returns (end: nat)
    requires first + 2 + zeros + k <= buf.Length
    modifies buf
    ensures end == first + 2 + zeros + k
    ensures buf[first..end] == FractionLayout(old(buf[first..first + k]), zeros)
    ensures buf[..first] == old(buf[..first])
  {
    hide FractionLayout;
    ghost var before := buf[..];
    MemMove(buf, first + 2 + zeros, first, k);
    ghost var moved := buf[..];
    PutPointAndZeros(buf, first, zeros);
    end := first + 2 + zeros + k;
    FractionMoved(before, moved, buf[..], first, k, zeros);
  }

  /** Writes "0." and the zeros behind the point. */
  method PutPointAndZeros(buf: array<char>, first: nat, zeros: nat)
    requires first + 2 + zeros <= buf.Length
    modifies buf
    ensures forall i | 0 <= i < buf.Length ::
      buf[i] == if i == first + 1 then '.' else if first <= i < first + 2 + zeros then '0' else old(buf[i])
  {
    buf[first] := '0';
    buf[first + 1] := '.';
    MemSet(buf, first + 2, '0', zeros);
  }

  lemma FractionMoved(s: seq<char>, u: seq<char>, t: seq<char>, first: nat, k: nat, zeros: nat)
    requires |s| == |u| == |t| && first + 2 + zeros + k <= |s|
    requires forall i {:trigger u[i]} | 0 <= i < |s| ::
      u[i] == if first + 2 + zeros <= i < first + 2 + zeros + k then s[i - (2 + zeros)] else s[i]
    requires forall i {:trigger t[i]} | 0 <= i < |s| ::
      t[i] == if i == first + 1 then '.' else if first <= i < first + 2 + zeros then '0' else u[i]
    ensures t[first..first + 2 + zeros + k] == FractionLayout(s[first..first + k], zeros)
    ensures t[..first] == s[..first]
  {
    hide FractionLayout;
    var ds := s[first..first + k];
    assert forall i | 0 <= i < first :: t[i] == s[i];
    forall i | 0 <= i < 2 + zeros + k
      ensures t[first..first + 2 + zeros + k][i] == FractionLayout(ds, zeros)[i]
    {
      FractionCell(ds, zeros, i);
      assert t[first..first + 2 + zeros + k][i] == t[first + i];
    }
  }

  method FormatBuffer(buf: array<char>, first: nat, len: nat, decimalExponent: int, minExp: int, maxExp: int)
    returns (end: nat)
    requires minExp < 0 < maxExp && len >= 1 && first + len <= buf.Length
    requires AllDigits(buf[first..first + len]) && -1000 < len + decimalExponent - 1 < 1000
    requires first + |Layout(buf[first..first + len], len + decimalExponent, minExp, maxExp)| <= buf.Length
    modifies buf
    ensures first <= end <= buf.Length
    ensures buf[first..end] == Layout(old(buf[first..first + len]), len + decimalExponent, minExp, maxExp)
    ensures var ds := old(buf[first..first + len]);
            ds[0] != '0' && ds[len - 1] != '0' ==>
              InNotation(buf[first..end], Decimal(DigitsValue(ds), decimalExponent), minExp, maxExp)
    ensures buf[..first] == old(buf[..first])
  {
    hide AllDigits, WholeLayout, PointLayout, FractionLayout, ScientificLayout, InNotation, DigitsValue, Decimal;
    ghost var ds := buf[first..first + len];
    if ds[0] != '0' && ds[len - 1] != '0' { LayoutNotation(ds, decimalExponent, minExp, maxExp); }
    var k := len;
    var n := len + decimalExponent;
    if k <= n && n <= maxExp {
      end := PutWhole(buf, first, k, n);
    } else if 0 < n && n <= maxExp {
      end := PutPoint(buf, first, k, n);
    } else if minExp < n && n <= 0 {
      end := PutFraction(buf, first, k, -n);
    } else {
      end := PutScientific(buf, first, k, n - 1);
    }
  }

  /** Writes e and the exponent behind the mantissa. */
  method PutExponent(buf: array<char>, first: nat, at: nat, e: int) returns (end: nat)
    requires -1000 < e < 1000 && first <= at && at + 1 + |ExponentText(e)| <= buf.Length
    modifies buf
    ensures end == at + 1 + |ExponentText(e)|
    ensures buf[first..end] == old(buf[first..at]) + ['e'] + ExponentText(e)
    ensures buf[..first] == old(buf[..first])
  {
    hide ExponentText;
    ghost var mantissa, before := buf[first..at], buf[..first];
    buf[at] := 'e';
    assert buf[first..at + 1] == mantissa + ['e'];
    ghost var head := buf[..at + 1];
    end := AppendExponent(buf, at + 1, e);
    assert buf[first..at + 1] == head[first..] == mantissa + ['e'];
    assert buf[first..end] == buf[first..at + 1] + buf[at + 1..end];
    assert buf[..first] == head[..first] == before;
  }

  /** The branch for scientific notation. */
  method PutScientific(buf: array<char>, first: nat, k: nat, e: int) returns (end: nat)
    requires 0 < k && first + k <= buf.Length && -1000 < e < 1000
    requires first + |ScientificLayout(buf[first..first + k], e)| <= buf.Length
    modifies buf
    ensures first <= end <= buf.Length
    ensures buf[first..end] == ScientificLayout(old(buf[first..first + k]), e)
    ensures buf[..first] == old(buf[..first])
  {
    hide ExponentText;
    if k == 1 {
      end := first + 1;
    } else {
      end := PutPoint(buf, first, k, 1);
    }
    end := PutExponent(buf, first, end, e);
  }
}
