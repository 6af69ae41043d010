// The logger's instruction format: [type format mode pid (data)].
module LoggerInstruction {
  import opened Decimals
  import opened Replace
  import opened TextStream

  /** The three enumerations are transported as their int values and cast back without a range check. */
  datatype Instruction = Instruction(kind: int32, format: int32, mode: int32, pid: ulong, data: string)

  /**
   * Blank: with white space only, the first character is looked at although it was never written; whatever it holds,
   * one of the two following reasons applies.
   */
  datatype Reason = Blank | NoBracket | BadIntegers | BadData

  datatype Parsed = Accepted(instruction: Instruction) | Rejected(reason: Reason)

  // ---------------------------------------------------------------- meaning of the two operations

  function Header(i: Instruction): string {
    "[" + IntText(i.kind) + " " + IntText(i.format) + " " + IntText(i.mode) + " " + ToString(i.pid) + " "
  }

  function Printed(i: Instruction): string {
    Header(i) + "(" + i.data + ")" + "]"
  }

  /** The data part, from what follows the process id. */
  function ParseRemainder(kind: int32, format: int32, mode: int32, pid: ulong, rest: string): Parsed {
    var remainder := Line(rest);
    var start, end := IndexOf(remainder, '(', 0), IndexOf(remainder, ')', 0);
    if start == |remainder| || end == |remainder| || start >= end then Rejected(BadData)
    else Accepted(Instruction(kind, format, mode, pid, remainder[start + 1..end]))
  }

  function Parse(input: string): Parsed {
    hide TakeInt, TakeUnsigned, SkipSpace;
    var s := SkipSpace(input);
    if s == "" then Rejected(Blank)
    else if s[0] != '[' then Rejected(NoBracket)
    else
      var a := TakeInt(s[1..]);
      if !a.Got? then Rejected(BadIntegers)
      else
        var b := TakeInt(a.rest);
        if !b.Got? then Rejected(BadIntegers)
        else
          var c := TakeInt(b.rest);
          if !c.Got? then Rejected(BadIntegers)
          else
            var d := TakeUnsigned(c.rest);
            if !d.Got? then Rejected(BadIntegers)
            else ParseRemainder(a.n, b.n, c.n, d.n, d.rest)
  }

  // ---------------------------------------------------------------- the operations

  /** Serialize; the result of the replacement is not used. */
  method Serialize(i: Instruction) returns (s: string)
    ensures s == Printed(i)
    ensures Parse(s) == Accepted(i) <==> Clean(i.data)
  {
    RoundTrip(i);
    hide Parse, Clean;
    var unused := ReplaceSubstring(i.data, "\n", "\\n");
    s := "[" + IntText(i.kind) + " " + IntText(i.format) + " " + IntText(i.mode) + " " + ToString(i.pid) + " "
       + "(" + i.data + ")" + "]";
  }

  /** Deserialize; again the result of the replacement is not used. */
  method Deserialize(input: string) returns (r: Parsed)
    ensures r == Parse(input)
    ensures forall i :: r == Accepted(i) <==>
              exists rest, before, after :: Begins(input, i, rest) && Encloses(rest, before, i.data, after)
  {
    hide TakeInt, TakeUnsigned, SkipSpace, Begins, Encloses;
    forall i ensures Parse(input) == Accepted(i) <==>
                       exists rest, before, after :: Begins(input, i, rest) && Encloses(rest, before, i.data, after)
    {
      ParseExact(input, i);
    }
    var ss := new Stream(input);
    var got, buf := ss.ReadChar();
    if !got { return Rejected(Blank); }
    if buf != '[' { return Rejected(NoBracket); }
    var kind := ss.ReadInt();
    var format := ss.ReadInt();
    var mode := ss.ReadInt();
    var pid := ss.ReadUnsigned();
    if ss.failed { return Rejected(BadIntegers); }
    var remainder := ss.GetLine();
    var start, end := IndexOf(remainder, '(', 0), IndexOf(remainder, ')', 0);
    if start == |remainder| || end == |remainder| || start >= end { return Rejected(BadData); }
    var data := remainder[start + 1..end];
    var unused := ReplaceSubstring(data, "\\n", "\n");
    r := Accepted(Instruction(kind.n, format.n, mode.n, pid.n, data));
  }

  /** What is sent for one instruction; the newline stays. */
  lemma Example()
    ensures Printed(Instruction(1, 0, -1, 42, "a\nb")) == "[1 0 -1 42 (a\nb)]"
  {
    SmallNumbers();
    assert "[" + "1" + " " + "0" + " " + "-1" + " " + "42" + " " == "[1 0 -1 42 ";
  }

  lemma SmallNumbers()
    ensures forall n | 0 <= n < 10 :: IntText(n) == ToString(n) == [DigitChar(n)]
    ensures IntText(-1) == "-1" && ToString(42) == "42"
  {
    assert ToString(4) == "4";
  }

  // ---------------------------------------------------------------- the header is read back

  lemma HeaderRead(i: Instruction, tail: string)
    ensures Parse(Header(i) + tail) == ParseRemainder(i.kind, i.format, i.mode, i.pid, " " + tail)
  {
    hide TakeInt, TakeUnsigned, IntText, ToString, ParseRemainder;
    var r3 := " " + ToString(i.pid) + (" " + tail);
    var r2 := " " + IntText(i.mode) + r3;
    var r1 := " " + IntText(i.format) + r2;
    var s := "[" + (IntText(i.kind) + r1);
    HeaderParts(i, tail, r1, r2, r3);
    assert SkipSpace(s) == s && s[1..] == IntText(i.kind) + r1;
    TakePrintedInt(i.kind, r1);
    NextInt(i.format, r1, r2);
    NextInt(i.mode, r2, r3);
    TakePrintedUnsigned(i.pid, " " + tail);
    LeadingSpace(ToString(i.pid) + (" " + tail));
    assert r3 == " " + (ToString(i.pid) + (" " + tail));
  }

  lemma NextInt(n: int32, s: string, rest: string)
    requires s == " " + IntText(n) + rest && rest != "" && rest[0] == ' '
    ensures TakeInt(s) == Got(n, rest)
  {
    hide TakeInt, IntText;
    var t := IntText(n) + rest;
    TakePrintedInt(n, rest);
    LeadingSpace(t);
    ConcatAssoc(" ", IntText(n), rest);
  }

  lemma ConcatAssoc<T>(a: seq<T>, b: seq<T>, c: seq<T>)
    ensures a + b + c == a + (b + c)
  {}

  lemma HeaderParts(i: Instruction, tail: string, r1: string, r2: string, r3: string)
    requires r3 == " " + ToString(i.pid) + (" " + tail)
    requires r2 == " " + IntText(i.mode) + r3
    requires r1 == " " + IntText(i.format) + r2
    ensures Header(i) + tail == "[" + (IntText(i.kind) + r1)
    ensures r1[0] == ' ' && r2[0] == ' ' && r3[0] == ' '
  {
    hide IntText, ToString;
  }

  // ---------------------------------------------------------------- which data survives

  /** Data that survives a round trip. */
  predicate Clean(data: string) {
    forall k | 0 <= k < |data| :: data[k] != ')' && data[k] != '\n'
  }

  /** Whatever follows "(", the data found in it ends before its first ')', and only if no newline comes before that. */
  lemma DataFound(kind: int32, format: int32, mode: int32, pid: ulong, x: string)
    ensures var r := ParseRemainder(kind, format, mode, pid, " (" + x);
            var e := IndexOf(x, ')', 0);
            && (r.Accepted? <==> e < IndexOf(x, '\n', 0))
            && (r.Accepted? ==> r == Accepted(Instruction(kind, format, mode, pid, x[..e])))
  {
    hide IndexOf, Line;
    var n, e := IndexOf(x, '\n', 0), IndexOf(x, ')', 0);
    var line := " (" + x[..n];
    LineOf(" (", x);
    IndexUnique(line, '(', 0, 1);
    IndexUnique(line, ')', 0, if e < n then e + 2 else |line|);
    if e < n { assert line[2..e + 2] == x[..e]; }
  }

  lemma LineOf(p: string, x: string)
    requires '\n' !in p
    ensures Line(p + x) == p + x[..IndexOf(x, '\n', 0)]
  {
    hide IndexOf;
    var n := IndexOf(x, '\n', 0);
    IndexUnique(p + x, '\n', 0, |p| + n);
    assert (p + x)[..|p| + n] == p + x[..n];
  }

  lemma IndexUnique(s: string, c: char, from: nat, k: nat)
    requires from <= k <= |s| && (k < |s| ==> s[k] == c) && forall i | from <= i < k :: s[i] != c
    ensures IndexOf(s, c, from) == k
  {}

  /** An instruction is restored exactly when its data has neither ')' nor a newline; otherwise the data shrinks. */
  lemma RoundTrip(i: Instruction)
    ensures Parse(Printed(i)) == Accepted(i) <==> Clean(i.data)
    ensures !Clean(i.data) && Parse(Printed(i)).Accepted? ==> |Parse(Printed(i)).instruction.data| < |i.data|
  {
    hide Parse, ParseRemainder, Header, IndexOf;
    var d, x := i.data, i.data + ")]";
    assert Printed(i) == Header(i) + ("(" + x);
    HeaderRead(i, "(" + x);
    assert " " + ("(" + x) == " (" + x;
    DataFound(i.kind, i.format, i.mode, i.pid, x);
    var n, e := IndexOf(x, '\n', 0), IndexOf(x, ')', 0);
    assert e <= |d| by { assert x[|d|] == ')'; }
    if Clean(d) {
      assert forall k | 0 <= k < |d| :: x[k] == d[k];
      assert e == |d| && n == |x| && x[..e] == d;
    } else {
      var k :| 0 <= k < |d| && (d[k] == ')' || d[k] == '\n');
      assert x[k] == d[k];
      assert e <= k || n <= k;
    }
  }

  /** One instruction from sender to receiver. */
  method Transfer(i: Instruction) returns (r: Parsed)
    ensures r == Accepted(i) <==> Clean(i.data)
  {
    hide Parse, Printed;
    var text := Serialize(i);
    r := Deserialize(text);
  }

  // ---------------------------------------------------------------- what is accepted, in terms of the text

  /** White space, '[', three ints and an unsigned number, those of i, with rest behind them. */
  predicate Begins(input: string, i: Instruction, rest: string) {
    var s := SkipSpace(input);
    && s != "" && s[0] == '['
    && var a := TakeInt(s[1..]);
    && a.Got? && a.n == i.kind
    && var b := TakeInt(a.rest);
    && b.Got? && b.n == i.format
    && var c := TakeInt(b.rest);
    && c.Got? && c.n == i.mode
    && TakeUnsigned(c.rest) == Got(i.pid, rest)
  }

  /** On the first line of rest, data lies between the first '(' and the first ')', which comes behind it. */
  predicate Encloses(rest: string, before: string, data: string, after: string) {
    && rest == before + "(" + data + ")" + after
    && (forall k | 0 <= k < |before| :: before[k] != '(' && before[k] != ')' && before[k] != '\n')
    && Clean(data)
  }

  /** An instruction is accepted exactly if its numbers begin the text and its data follows in parentheses. */
  lemma ParseExact(input: string, i: Instruction)
    ensures Parse(input) == Accepted(i) <==>
              exists rest, before, after :: Begins(input, i, rest) && Encloses(rest, before, i.data, after)
  {
    hide ParseRemainder, Encloses, TakeInt, TakeUnsigned, SkipSpace;
    forall rest, before, after | Begins(input, i, rest) && Encloses(rest, before, i.data, after)
      ensures Parse(input) == Accepted(i)
    {
      BeginsParse(input, i, rest);
      EnclosedIsFound(i, rest, before, i.data, after);
    }
    if Parse(input) == Accepted(i) {
      var rest := ParsedBegins(input);
      BeginsParse(input, i, rest);
      var before, after := FoundIsEnclosed(i, rest);
    }
  }

  lemma BeginsParse(input: string, i: Instruction, rest: string)
    requires Begins(input, i, rest)
    ensures Parse(input) == ParseRemainder(i.kind, i.format, i.mode, i.pid, rest)
  {
    hide ParseRemainder, TakeInt, TakeUnsigned, SkipSpace;
  }

  lemma ParsedBegins(input: string) returns (rest: string)
    requires Parse(input).Accepted?
    ensures Begins(input, Parse(input).instruction, rest)
  {
    hide TakeInt, TakeUnsigned, SkipSpace, IndexOf, Line;
    var a := TakeInt(SkipSpace(input)[1..]);
    rest := TakeUnsigned(TakeInt(TakeInt(a.rest).rest).rest).rest;
  }

  lemma EnclosedIsFound(i: Instruction, rest: string, before: string, data: string, after: string)
    requires Encloses(rest, before, data, after)
    ensures ParseRemainder(i.kind, i.format, i.mode, i.pid, rest) == Accepted(i.(data := data))
  {
    var b, d := |before|, |data|;
    var head := before + "(" + data + ")";
    assert forall k | 0 <= k < |head| :: head[k] != '\n';
    assert '\n' !in head;
    LineOf(head, after);
    var line := Line(rest);
    assert rest == head + after;
    IndexUnique(line, '(', 0, b);
    IndexUnique(line, ')', 0, b + 1 + d);
    assert line[b + 1..b + 1 + d] == data;
  }

  lemma FoundIsEnclosed(i: Instruction, rest: string) returns (before: string, after: string)
    requires ParseRemainder(i.kind, i.format, i.mode, i.pid, rest) == Accepted(i)
    ensures Encloses(rest, before, i.data, after)
  {
    hide IndexOf, Line;
    var line := Line(rest);
    var start, end := IndexOf(line, '(', 0), IndexOf(line, ')', 0);
    LineIsFront(rest);
    before, after := rest[..start], rest[end + 1..];
    Parenthesized(rest, start, end);
    assert i.data == rest[start + 1..end];
    assert forall k | 0 <= k < start :: before[k] == line[k];
    assert forall k | 0 <= k < |i.data| :: i.data[k] == line[start + 1 + k];
  }

  lemma LineIsFront(rest: string)
    ensures |Line(rest)| <= |rest| && Line(rest) == rest[..|Line(rest)|]
    ensures forall k | 0 <= k < |Line(rest)| :: Line(rest)[k] != '\n'
  {}

  lemma Parenthesized(s: string, start: nat, end: nat)
    requires start < end < |s| && s[start] == '(' && s[end] == ')'
    ensures s == s[..start] + "(" + s[start + 1..end] + ")" + s[end + 1..]
  {}

  /** Why anything else is rejected: blank, no '[', no four numbers behind it, or no data in parentheses. */
  lemma RejectionExact(input: string)
    ensures Parse(input) == Rejected(Blank) <==> SkipSpace(input) == ""
    ensures Parse(input) == Rejected(NoBracket) <==> SkipSpace(input) != "" && SkipSpace(input)[0] != '['
    ensures Parse(input) == Rejected(BadIntegers) <==>
              && SkipSpace(input) != "" && SkipSpace(input)[0] == '['
              && forall i, rest :: !Begins(input, i, rest)
    ensures Parse(input) == Rejected(BadData) <==>
              && (exists i, rest :: Begins(input, i, rest))
              && forall i, rest, before, after :: !(Begins(input, i, rest) && Encloses(rest, before, i.data, after))
  {
    hide Encloses, TakeInt, TakeUnsigned, SkipSpace, IndexOf, Line;
    forall i, rest | Begins(input, i, rest) ensures Parse(input).Accepted? || Parse(input) == Rejected(BadData) {
      BeginsParse(input, i, rest);
    }
    forall i, rest, before, after | Begins(input, i, rest) && Encloses(rest, before, i.data, after)
      ensures Parse(input) == Accepted(i)
    {
      ParseExact(input, i);
    }
    if Parse(input).Accepted? {
      ParseExact(input, Parse(input).instruction);
    }
    if Parse(input) == Rejected(BadData) {
      var a := TakeInt(SkipSpace(input)[1..]);
      var b := TakeInt(a.rest);
      var c := TakeInt(b.rest);
      var d := TakeUnsigned(c.rest);
      assert Begins(input, Instruction(a.n, b.n, c.n, d.n, ""), d.rest);
    }
  }

  /** Parsed data is at least three characters shorter than the text it was found in. */
  lemma DataIsShort(input: string)
    ensures Parse(input).Accepted? ==> |Parse(input).instruction.data| + 3 <= |input|
  {
    hide TakeInt, TakeUnsigned;
  }
}
