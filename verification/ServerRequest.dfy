// The request a logger client sends to the log server: one line "format severity origin data".
module ServerRequest {
  import opened Decimals
  import opened LoggerInstruction
  import opened Replace
  import opened TextStream

  datatype Request = Request(data: string, format: int32, severity: int32, origin: ulong)

  /** Indeterminate: one of the numbers is read before it was ever written. */
  datatype Received = Complete(request: Request) | Indeterminate

  /** stringReplace(data, newline, backslash-n). */
  function Fold(data: string): string {
    ReplaceAll(data, "\n", "\\n")
  }

  /** stringReplace(data, backslash-n, newline). */
  function Unfold(data: string): string {
    ReplaceAll(data, "\\n", "\n")
  }

  function Printed(r: Request): string {
    IntText(r.format) + " " + IntText(r.severity) + " " + ToString(r.origin) + " " + Fold(r.data) + "\n"
  }

  /** A failed extraction stores a substitute, unless an earlier one has failed or nothing but white space was left. */
  function Read(text: string): Received {
    hide TakeInt, TakeUnsigned;
    var a := TakeInt(text);
    if !a.Got? then Indeterminate
    else
      var b := TakeInt(a.rest);
      if !b.Got? then Indeterminate
      else
        match TakeUnsigned(b.rest)
        case Untouched => Indeterminate
        case Stored(n) => Complete(Request("", a.n, b.n, n))
        case Got(n, rest) => Complete(Request(Unfold(Line(rest)), a.n, b.n, n))
  }

  method Serialize(r: Request) returns (s: string)
    ensures s == Printed(r)
    ensures s != "" && forall k | 0 <= k < |s| :: s[k] == '\n' <==> k == |s| - 1
  {
    OneLine(r);
    var data := ReplaceSubstring(r.data, "\n", "\\n");
    s := IntText(r.format) + " " + IntText(r.severity) + " " + ToString(r.origin) + " " + data + "\n";
  }

  method Deserialize(text: string) returns (r: Received)
    ensures r == Read(text)
    ensures forall f, s, o, line, tail | Numbers(text, f, s, o, line + tail) && FirstLine(line, tail) ::
              r == Complete(Request(ReplaceAll(line, "\\n", "\n"), f, s, o))
  {
    hide TakeInt, TakeUnsigned, Line, ReplaceAll, Numbers, FirstLine;
    forall f, s, o, line, tail | Numbers(text, f, s, o, line + tail) && FirstLine(line, tail)
      ensures Read(text) == Complete(Request(ReplaceAll(line, "\\n", "\n"), f, s, o))
    {
      ReadExact(text, f, s, o, line, tail);
    }
    var ss := new Stream(text);
    var format := ss.ReadInt();
    var severity := ss.ReadInt();
    var origin := ss.ReadUnsigned();
    if !format.Got? || !severity.Got? || origin.Untouched? { return Indeterminate; }
    var data := ss.GetLine();
    data := ReplaceSubstring(data, "\\n", "\n");
    NothingToUnfold();
    r := Complete(Request(data, format.n, severity.n, origin.n));
  }

  lemma NothingToUnfold()
    ensures Unfold("") == ""
  {}

  // ---------------------------------------------------------------- what is read, in terms of the text

  /** The text begins with two ints and an unsigned number, with rest behind them. */
  predicate Numbers(text: string, f: int32, s: int32, o: ulong, rest: string) {
    var a := TakeInt(text);
    && a.Got? && a.n == f
    && var b := TakeInt(a.rest);
    && b.Got? && b.n == s
    && TakeUnsigned(b.rest) == Got(o, rest)
  }

  /** line ends where the text ends or a newline follows, and has no newline itself. */
  predicate FirstLine(line: string, tail: string) {
    (forall k | 0 <= k < |line| :: line[k] != '\n') && (tail == "" || tail[0] == '\n')
  }

  /** Behind the three numbers, the rest of the line is the data, with each literal pair turned into a newline. */
  lemma ReadExact(text: string, f: int32, s: int32, o: ulong, line: string, tail: string)
    requires Numbers(text, f, s, o, line + tail) && FirstLine(line, tail)
    ensures Read(text) == Complete(Request(ReplaceAll(line, "\\n", "\n"), f, s, o))
  {
    hide TakeInt, TakeUnsigned, ReplaceAll;
    IndexUnique(line + tail, '\n', 0, |line|);
    assert Line(line + tail) == line;
  }

  /** Without three numbers: an origin that fails stores its substitute, with no data; the rest is not determined. */
  lemma ReadFails(text: string)
    ensures Read(text) == Indeterminate <==>
              !(TakeInt(text).Got? && TakeInt(TakeInt(text).rest).Got?
                && !TakeUnsigned(TakeInt(TakeInt(text).rest).rest).Untouched?)
    ensures TakeInt(text).Got? && TakeInt(TakeInt(text).rest).Got?
            && TakeUnsigned(TakeInt(TakeInt(text).rest).rest).Stored? ==>
              Read(text) == Complete(Request("", TakeInt(text).n, TakeInt(TakeInt(text).rest).n,
                                             TakeUnsigned(TakeInt(TakeInt(text).rest).rest).n))
  {
    hide TakeInt, TakeUnsigned, Unfold, Line;
  }

  // ---------------------------------------------------------------- folding newlines

  /** The two characters that also encode a newline. */
  ghost predicate LiteralPair(data: string) {
    exists k: nat :: OccursAt(data, "\\n", k)
  }

  lemma FoldStep(c: char, s: string)
    ensures Fold([c] + s) == (if c == '\n' then "\\n" else [c]) + Fold(s)
  {
    OneCharPattern('\n', c, s, "\\n");
  }

  lemma {:induction false} FoldedIsOneLine(data: string)
    ensures forall k | 0 <= k < |Fold(data)| :: Fold(data)[k] != '\n'
    decreases |data|
  {
    hide ReplaceAll;
    if data == "" {
      NothingToFold();
    } else {
      assert data == [data[0]] + data[1..];
      FoldStep(data[0], data[1..]);
      FoldedIsOneLine(data[1..]);
      hide Fold;
    }
  }

  lemma NothingToFold()
    ensures Fold("") == ""
  {}

  /** What folding and unfolding make of the data, read from the front. */
  function Refolded(data: string): string
    decreases |data|
  {
    if data == "" then ""
    else if data[0] == '\n' then "\n" + Refolded(data[1..])
    else if |data| >= 2 && data[0] == '\\' && data[1] == 'n' then "\n" + Refolded(data[2..])
    else [data[0]] + Refolded(data[1..])
  }

  lemma UnfoldStep(s: string)
    requires s != ""
    ensures Unfold(s) == if |s| >= 2 && s[0] == '\\' && s[1] == 'n' then "\n" + Unfold(s[2..])
                         else [s[0]] + Unfold(s[1..])
  {
    TwoCharPattern(s, '\\', 'n', "\n");
  }

  lemma {:induction false} RefoldedIsUnfoldFold(data: string)
    ensures Unfold(Fold(data)) == Refolded(data)
    decreases |data|
  {
    hide Fold, Unfold, ReplaceAll;
    if data == "" {
      NothingToFold();
      NothingToUnfold();
    } else {
      var c, tail := data[0], data[1..];
      assert data == [c] + tail;
      FoldStep(c, tail);
      var y := Fold(tail);
      UnfoldStep((if c == '\n' then "\\n" else [c]) + y);
      if c == '\n' {
        assert ("\\n" + y)[2..] == y;
        RefoldedIsUnfoldFold(tail);
      } else {
        assert ([c] + y)[1..] == y;
        if tail != "" {
          assert tail == [tail[0]] + tail[1..];
          FoldStep(tail[0], tail[1..]);
        } else {
          NothingToFold();
        }
        if c == '\\' && tail != "" && tail[0] == 'n' {
          assert ([c] + y)[2..] == Fold(tail[1..]);
          RefoldedIsUnfoldFold(data[2..]);
        } else {
          RefoldedIsUnfoldFold(tail);
        }
      }
    }
  }

  /** Each literal pair shrinks to one character, so nothing but pair-free data is reproduced. */
  lemma {:induction false} RefoldedExact(data: string)
    ensures |Refolded(data)| <= |data|
    ensures Refolded(data) == data <==> !LiteralPair(data)
    decreases |data|
  {
    hide LiteralPair;
    PairStep(data);
    if data != "" {
      assert data == [data[0]] + data[1..];
      if |data| >= 2 && data[0] == '\\' && data[1] == 'n' {
        RefoldedExact(data[2..]);
      } else {
        RefoldedExact(data[1..]);
        assert Refolded(data)[1..] == Refolded(data[1..]);
      }
    }
  }

  lemma PairAt(data: string)
    ensures OccursAt(data, "\\n", 0) <==> |data| >= 2 && data[0] == '\\' && data[1] == 'n'
  {
    if |data| >= 2 { assert data[0..2] == [data[0], data[1]]; }
  }

  lemma NoPair()
    ensures !LiteralPair("")
  {}

  lemma PairStep(data: string)
    ensures data == "" ==> !LiteralPair(data)
    ensures data != "" ==> (LiteralPair(data) <==>
              (|data| >= 2 && data[0] == '\\' && data[1] == 'n') || LiteralPair(data[1..]))
  {
    hide OccursAt;
    if data != "" {
      SuffixOccurrences(data, "\\n", 1);
      PairAt(data);
      if LiteralPair(data) {
        var k: nat :| OccursAt(data, "\\n", k);
        if k > 0 { assert OccursAt(data[1..], "\\n", k - 1); }
      }
      if LiteralPair(data[1..]) {
        var k: nat :| OccursAt(data[1..], "\\n", k);
        assert OccursAt(data, "\\n", 1 + k);
      }
    } else {
      NoPair();
    }
  }

  // ---------------------------------------------------------------- the request

  /** The serialized request is one line: its only newline is its last character. */
  lemma OneLine(r: Request)
    ensures var s := Printed(r);
            s != "" && forall k | 0 <= k < |s| :: s[k] == '\n' <==> k == |s| - 1
  {
    hide IntText, ToString, Fold;
    IntTextShape(r.format);
    IntTextShape(r.severity);
    FoldedIsOneLine(r.data);
    var a, b, c, d := IntText(r.format), IntText(r.severity), ToString(r.origin), Fold(r.data);
    OneLineParts(a, b, c, d);
  }

  lemma OneLineParts(a: string, b: string, c: string, d: string)
    requires '\n' !in a && '\n' !in b && '\n' !in c && '\n' !in d
    ensures var s := a + " " + b + " " + c + " " + d + "\n";
            s != "" && forall k | 0 <= k < |s| :: s[k] == '\n' <==> k == |s| - 1
  {
    var t := a + " " + b + " " + c + " " + d;
    assert '\n' !in t;
    forall k | 0 <= k < |t| ensures t[k] != '\n' { assert t[k] in t; }
  }

  /**
   * Deserializing a serialized request restores format, severity and origin; the data comes back with the separating
   * space in front, and unchanged behind it if and only if it contains no literal backslash-n pair.
   */
  lemma RoundTrip(r: Request)
    ensures Read(Printed(r)) == Complete(r.(data := " " + Refolded(r.data)))
    ensures Read(Printed(r)) == Complete(r.(data := " " + r.data)) <==> !LiteralPair(r.data)
  {
    hide IntText, ToString, Fold, Unfold, TakeInt, TakeUnsigned, LiteralPair;
    var d := Fold(r.data);
    var r2 := " " + d + "\n";
    var r1 := " " + (ToString(r.origin) + r2);
    var r0 := " " + IntText(r.severity) + r1;
    assert Printed(r) == IntText(r.format) + r0;
    TakePrintedInt(r.format, r0);
    NextInt(r.severity, r0, r1);
    TakePrintedUnsigned(r.origin, r2);
    LeadingSpace(ToString(r.origin) + r2);
    FoldedIsOneLine(r.data);
    IndexUnique(r2, '\n', 0, |d| + 1);
    assert Line(r2) == " " + d;
    UnfoldStep(" " + d);
    assert (" " + d)[1..] == d;
    RefoldedIsUnfoldFold(r.data);
    RefoldedExact(r.data);
    if " " + Refolded(r.data) == " " + r.data {
      assert (" " + Refolded(r.data))[1..] == (" " + r.data)[1..];
    }
  }

  /** One request from client to server. */
  method Transfer(r: Request) returns (received: Received)
    ensures received == Complete(r.(data := " " + r.data)) <==> !LiteralPair(r.data)
  {
    hide Read, Printed, Refolded, LiteralPair;
    RoundTrip(r);
    var line := Serialize(r);
    received := Deserialize(line);
  }

  /** What is sent for one request. */
  lemma Example()
    ensures Printed(Request("a\nb", 2, 3, 42)) == "2 3 42 a\\nb\n"
  {
    hide ReplaceAll;
    SmallNumbers();
    assert "a\nb" == ['a'] + (['\n'] + (['b'] + ""));
    FoldStep('a', ['\n'] + (['b'] + ""));
    FoldStep('\n', ['b'] + "");
    FoldStep('b', "");
    NothingToFold();
    assert "2" + " " + "3" + " " + "42" + " " + "a\\nb" + "\n" == "2 3 42 a\\nb\n";
  }
}
