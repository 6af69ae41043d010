// Formatted input from a std::stringstream in the "C" locale, as far as the logger uses it.
module TextStream {
  import opened Decimals

  const INT_MIN := -0x8000_0000
  const INT_MAX := 0x7FFF_FFFF
  const ULONG_MAX := 0xFFFF_FFFF_FFFF_FFFF

  type int32 = n: int | INT_MIN <= n <= INT_MAX
  type ulong = n: int | 0 <= n <= ULONG_MAX

  /** std::isspace. */
  predicate IsSpace(c: char) {
    c == ' ' || (9 as char) <= c <= (13 as char)
  }

  function SkipSpace(s: string): (t: string)
    ensures |t| <= |s| && t == s[|s| - |t|..] && (t != "" ==> !IsSpace(t[0]))
  {
    if s != "" && IsSpace(s[0]) then SkipSpace(s[1..]) else s
  }

  /** The number of leading digits. */
  function DigitRun(s: string): (k: nat)
    ensures k <= |s| && AllDigits(s[..k]) && (k < |s| ==> !IsDigit(s[k]))
  {
    if s != "" && IsDigit(s[0]) then
      var k := 1 + DigitRun(s[1..]);
      assert s[..k] == [s[0]] + s[1..][..k - 1];
      k
    else 0
  }

  /**
   * Extraction of a number: it succeeds and leaves a rest; or it fails and stores a substitute; or it fails before
   * anything is stored, because only white space is left.
   */
  datatype Extraction = Got(n: int, rest: string) | Stored(n: int) | Untouched

  datatype Numeral = Numeral(negative: bool, digits: string, rest: string)

  /** An optional sign and the digits that follow it. */
  function SplitNumeral(t: string): (n: Numeral)
    ensures AllDigits(n.digits) && |n.digits| + |n.rest| <= |t|
  {
    var u := if t != "" && (t[0] == '-' || t[0] == '+') then t[1..] else t;
    var k := DigitRun(u);
    Numeral(t != "" && t[0] == '-', u[..k], u[k..])
  }

  function IntOf(t: string): (e: Extraction)
    ensures !e.Untouched? ==> INT_MIN <= e.n <= INT_MAX
    ensures e.Got? ==> |e.rest| < |t|
  {
    hide SplitNumeral, DigitsValue;
    var n := SplitNumeral(t);
    if t == "" then Untouched
    else if n.digits == "" then Stored(0)
    else
      var v := if n.negative then -(DigitsValue(n.digits) as int) else DigitsValue(n.digits);
      if v > INT_MAX then Stored(INT_MAX) else if v < INT_MIN then Stored(INT_MIN) else Got(v, n.rest)
  }

  function UnsignedOf(t: string): (e: Extraction)
    ensures !e.Untouched? ==> 0 <= e.n <= ULONG_MAX
    ensures e.Got? ==> |e.rest| < |t|
  {
    hide SplitNumeral, DigitsValue;
    var n := SplitNumeral(t);
    if t == "" then Untouched
    else if n.digits == "" then Stored(0)
    else
      var v := DigitsValue(n.digits);
      if v > ULONG_MAX then Stored(ULONG_MAX)
      else Got(if n.negative && v > 0 then ULONG_MAX + 1 - v else v, n.rest)
  }

  /** operator>> for int. */
  function TakeInt(s: string): (e: Extraction)
    ensures !e.Untouched? ==> INT_MIN <= e.n <= INT_MAX
    ensures e.Got? ==> |e.rest| < |s|
  {
    hide SkipSpace, IntOf;
    IntOf(SkipSpace(s))
  }

  /** operator>> for unsigned long; a minus sign is accepted and negates modulo 2^64. */
  function TakeUnsigned(s: string): (e: Extraction)
    ensures !e.Untouched? ==> 0 <= e.n <= ULONG_MAX
    ensures e.Got? ==> |e.rest| < |s|
  {
    hide SkipSpace, UnsignedOf;
    UnsignedOf(SkipSpace(s))
  }

  /** Position of the first c at or after from, or |s| for npos. */
  function IndexOf(s: string, c: char, from: nat): (k: nat)
    requires from <= |s|
    ensures from <= k <= |s| && (k < |s| ==> s[k] == c)
    ensures forall i | from <= i < k :: s[i] != c
    decreases |s| - from
  {
    if from == |s| || s[from] == c then from else IndexOf(s, c, from + 1)
  }

  /** What getline delivers. */
  function Line(s: string): string {
    s[..IndexOf(s, '\n', 0)]
  }

  /** operator<< for int. */
  function IntText(n: int): string {
    if n < 0 then "-" + ToString(-n) else ToString(n)
  }

  class Stream {
    var rest: string
    var failed: bool

    constructor (s: string)
      ensures rest == s && !failed
    {
      rest, failed := s, false;
    }

    /** operator>> for char; false if no character is left. */
    method ReadChar() returns (got: bool, c: char)
      modifies this
      ensures got <==> !old(failed) && SkipSpace(old(rest)) != ""
      ensures failed == !got
      ensures got ==> c == SkipSpace(old(rest))[0] && rest == SkipSpace(old(rest))[1..]
    {
      c := ' ';
      got := !failed;
      if got {
        rest := SkipSpace(rest);
        got := rest != "";
        if got { c, rest := rest[0], rest[1..]; }
      }
      failed := !got;
    }

    method ReadInt() returns (e: Extraction)
      modifies this
      ensures e == if old(failed) then Untouched else TakeInt(old(rest))
      ensures failed == !e.Got? && (e.Got? ==> rest == e.rest)
    {
      e := if failed then Untouched else TakeInt(rest);
      failed := !e.Got?;
      rest := if e.Got? then e.rest else rest;
    }

    method ReadUnsigned() returns (e: Extraction)
      modifies this
      ensures e == if old(failed) then Untouched else TakeUnsigned(old(rest))
      ensures failed == !e.Got? && (e.Got? ==> rest == e.rest)
    {
      e := if failed then Untouched else TakeUnsigned(rest);
      failed := !e.Got?;
      rest := if e.Got? then e.rest else rest;
    }

    method GetLine() returns (line: string)
      modifies this
      ensures line == if old(failed) then "" else Line(old(rest))
    {
      if failed { return ""; }
      var k := IndexOf(rest, '\n', 0);
      line := rest[..k];
      rest := if k < |rest| then rest[k + 1..] else "";
    }
  }

  // ---------------------------------------------------------------- what is extracted, in terms of the text

  predicate AllSpace(s: string) {
    forall i | 0 <= i < |s| :: IsSpace(s[i])
  }

  /** White space, an optional sign, digits, and a rest that does not go on with a digit. */
  predicate NumeralText(s: string, space: string, sign: string, digits: string, rest: string) {
    && s == space + (sign + digits + rest) && AllSpace(space) && (sign == "" || sign == "+" || sign == "-")
    && digits != "" && AllDigits(digits) && (rest == "" || !IsDigit(rest[0]))
  }

  lemma {:induction false} SkipText(space: string, t: string)
    requires AllSpace(space) && (t == "" || !IsSpace(t[0]))
    ensures SkipSpace(space + t) == t
    decreases |space|
  {
    if space == "" {
      assert space + t == t;
      SkipNone(t);
    } else {
      assert (space + t)[1..] == space[1..] + t;
      SkipText(space[1..], t);
    }
  }

  lemma SkipNone(t: string)
    requires t == "" || !IsSpace(t[0])
    ensures SkipSpace(t) == t
  {}

  lemma {:induction false} SkippedIsSpace(s: string) returns (space: string)
    ensures s == space + SkipSpace(s) && AllSpace(space)
    decreases |s|
  {
    hide SkipSpace, IsSpace, AllSpace;
    space := "";
    NoSpace();
    if s != "" && IsSpace(s[0]) {
      var more := SkippedIsSpace(s[1..]);
      space := [s[0]] + more;
      SkipOneSpace(s);
      OneMoreSpace(s, more, SkipSpace(s[1..]));
    } else {
      SkipNone(s);
      assert "" + s == s;
    }
  }

  lemma SkipOneSpace(s: string)
    requires s != "" && IsSpace(s[0])
    ensures SkipSpace(s) == SkipSpace(s[1..])
  {}

  lemma NoSpace()
    ensures AllSpace("")
  {}

  lemma OneMoreSpace(s: string, more: string, rest: string)
    requires s != "" && IsSpace(s[0]) && AllSpace(more) && s[1..] == more + rest
    ensures s == [s[0]] + more + rest && AllSpace([s[0]] + more)
  {
    hide IsSpace;
    assert s == [s[0]] + s[1..];
  }

  lemma SplitSigned(sign: string, digits: string, rest: string)
    requires sign == "" || sign == "+" || sign == "-"
    requires digits != "" && AllDigits(digits) && (rest == "" || !IsDigit(rest[0]))
    ensures SplitNumeral(sign + digits + rest) == Numeral(sign == "-", digits, rest)
    ensures sign + digits + rest != "" && !IsSpace((sign + digits + rest)[0])
  {
    hide DigitRun;
    var t, u := sign + digits + rest, digits + rest;
    DigitRunOf(digits, rest);
    assert u[..|digits|] == digits && u[|digits|..] == rest;
    assert IsDigit(u[0]) && u[0] == digits[0];
    if sign == "" {
      assert t == u;
    } else {
      assert t[0] == sign[0] && t[1..] == u;
    }
  }

  /** The number that a numeral stands for. */
  function Signed(sign: string, digits: string): int
    requires AllDigits(digits)
  {
    if sign == "-" then -(DigitsValue(digits) as int) else DigitsValue(digits)
  }

  /** Extraction of an int from white space, sign and digits: the number, or the limit that it exceeds. */
  lemma IntExtracted(s: string, space: string, sign: string, digits: string, rest: string)
    requires NumeralText(s, space, sign, digits, rest)
    ensures var n := Signed(sign, digits);
            TakeInt(s) == if n > INT_MAX then Stored(INT_MAX) else if n < INT_MIN then Stored(INT_MIN) else Got(n, rest)
  {
    hide SplitNumeral, SkipSpace, DigitsValue;
    SplitSigned(sign, digits, rest);
    SkipText(space, sign + digits + rest);
  }

  /** Extraction of an unsigned long: a negative number counts modulo 2^64. */
  lemma UnsignedExtracted(s: string, space: string, sign: string, digits: string, rest: string)
    requires NumeralText(s, space, sign, digits, rest)
    ensures var n := Signed("", digits);
            && (n > ULONG_MAX ==> TakeUnsigned(s) == Stored(ULONG_MAX))
            && (n <= ULONG_MAX && (sign != "-" || n == 0) ==> TakeUnsigned(s) == Got(n, rest))
            && (0 < n <= ULONG_MAX && sign == "-" ==> TakeUnsigned(s) == Got(ULONG_MAX + 1 - n, rest))
  {
    hide SplitNumeral, SkipSpace, DigitsValue;
    SplitSigned(sign, digits, rest);
    SkipText(space, sign + digits + rest);
  }

  /** A text that does not start with a numeral fails: untouched if it is blank, with 0 stored otherwise. */
  lemma NothingExtracted(s: string)
    requires forall space, sign, digits, rest :: !NumeralText(s, space, sign, digits, rest)
    ensures TakeInt(s) == TakeUnsigned(s) == if AllSpace(s) then Untouched else Stored(0)
  {
    var t := SkipSpace(s);
    var space := SkippedIsSpace(s);
    if t == "" {
      assert s == space;
    } else {
      assert !AllSpace(s) by { assert s[|space|] == t[0]; }
      var n := SplitNumeral(t);
      var sign := if t[0] == '-' || t[0] == '+' then t[..1] else "";
      SplitParts(t, sign, n);
      if n.digits != "" { assert NumeralText(s, space, sign, n.digits, n.rest); }
    }
  }

  lemma SplitParts(t: string, sign: string, n: Numeral)
    requires t != "" && n == SplitNumeral(t) && sign == if t[0] == '-' || t[0] == '+' then t[..1] else ""
    ensures t == sign + n.digits + n.rest && (n.rest == "" || !IsDigit(n.rest[0]))
    ensures sign == "" || sign == "+" || sign == "-"
  {}

  // ---------------------------------------------------------------- what is printed is read back

  lemma {:induction false} DigitRunOf(s: string, rest: string)
    requires AllDigits(s) && (rest == "" || !IsDigit(rest[0]))
    ensures DigitRun(s + rest) == |s|
    decreases |s|
  {
    if s == "" {
      assert s + rest == rest;
    } else {
      assert (s + rest)[1..] == s[1..] + rest;
      DigitRunOf(s[1..], rest);
    }
  }

  lemma SplitPrinted(sign: string, digits: string, rest: string)
    requires sign == "" || sign == "-"
    requires digits != "" && AllDigits(digits) && (rest == "" || !IsDigit(rest[0]))
    ensures SplitNumeral(sign + digits + rest) == Numeral(sign == "-", digits, rest)
    ensures SkipSpace(sign + digits + rest) == sign + digits + rest != ""
  {
    hide SplitNumeral, AllDigits, SkipSpace;
    SplitSigned(sign, digits, rest);
    SkipNone(sign + digits + rest);
  }

  /** A number that has been printed, followed by anything but a digit, is extracted, with what follows as the rest. */
  lemma TakePrintedInt(n: int32, rest: string)
    requires rest == "" || !IsDigit(rest[0])
    ensures TakeInt(IntText(n) + rest) == Got(n, rest)
  {
    hide TakeInt, ToString;
    if n < 0 {
      TakePrintedSign("-", -(n as int), rest);
    } else {
      TakePrintedSign("", n, rest);
      assert "" + ToString(n) == ToString(n);
    }
  }

  /** Numbers outside the range of int fail, with the nearest limit as substitute. */
  lemma TakePrintedSign(sign: string, m: nat, rest: string)
    requires rest == "" || !IsDigit(rest[0])
    requires sign == "" || sign == "-"
    ensures var n := if sign == "-" then -(m as int) else m;
            TakeInt(sign + ToString(m) + rest) ==
            if n > INT_MAX then Stored(INT_MAX) else if n < INT_MIN then Stored(INT_MIN) else Got(n, rest)
  {
    hide SplitNumeral, SkipSpace, DigitsValue, ToString;
    ToStringReads(m);
    SplitPrinted(sign, ToString(m), rest);
  }

  lemma TakePrintedUnsigned(n: ulong, rest: string)
    requires rest == "" || !IsDigit(rest[0])
    ensures TakeUnsigned(ToString(n) + rest) == Got(n, rest)
  {
    hide SplitNumeral, SkipSpace, DigitsValue, ToString;
    ToStringReads(n);
    SplitPrinted("", ToString(n), rest);
    assert "" + ToString(n) + rest == ToString(n) + rest;
  }

  /** A negative number is read into an unsigned variable modulo 2^64. */
  lemma TakeNegative(m: nat, rest: string)
    requires 0 < m <= ULONG_MAX && (rest == "" || !IsDigit(rest[0]))
    ensures var e := TakeUnsigned("-" + ToString(m) + rest);
            e.Got? && e.rest == rest && (e.n + m) % (ULONG_MAX + 1) == 0
  {
    hide SplitNumeral, SkipSpace, DigitsValue, ToString;
    ToStringReads(m);
    SplitPrinted("-", ToString(m), rest);
  }

  /** White space in front makes no difference. */
  lemma LeadingSpace(s: string)
    ensures TakeInt(" " + s) == TakeInt(s) && TakeUnsigned(" " + s) == TakeUnsigned(s)
  {
    hide IntOf, UnsignedOf;
    SkipOne(s);
  }

  lemma SkipOne(s: string)
    ensures SkipSpace(" " + s) == SkipSpace(s)
  {
    assert (" " + s)[1..] == s;
  }

  lemma IntTextShape(n: int)
    ensures IntText(n) != "" && forall c | c in IntText(n) :: IsDigit(c) || c == '-'
  {}
}
