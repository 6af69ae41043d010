// The terminal's receive buffer: finding instructions in it, queueing them, and handing them out.
module Terminal {
  import opened Decimals
  import opened LoggerInstruction
  import opened TextStream

  /** An accepted instruction is queued, a rejected one is reported and dropped. */
  function Queued(s: string): seq<Instruction> {
    var p := Parse(s);
    if p.Accepted? then [p.instruction] else []
  }

  /** The instructions that scanning a buffer queues: from each '[' to the next ']'. */
  function Scan(b: string): seq<Instruction>
    decreases |b|
  {
    var start := IndexOf(b, '[', 0);
    var end := IndexOf(b, ']', start);
    if end == |b| then [] else Queued(b[start..end + 1]) + Scan(b[end + 1..])
  }

  class UserInterface {
    var instructions: seq<Instruction>
    /** The instructions that have been handed to the interpreter, in order. */
    var handled: seq<Instruction>

    constructor ()
      ensures instructions == [] && handled == []
    {
      instructions, handled := [], [];
    }

    /** The scanner loop over one received buffer. */
    method Receive(buff: string)
      modifies this`instructions
      ensures instructions == old(instructions) + Scan(buff)
    {
      hide Scan, Parse, IndexOf, Begins, Encloses;
      var pos := 0;
      assert buff[0..] == buff;
      while pos < |buff|
        invariant pos <= |buff|
        invariant old(instructions) + Scan(buff) == instructions + Scan(buff[pos..])
        decreases |buff| - pos
      {
        var start := IndexOf(buff, '[', pos);
        var end := IndexOf(buff, ']', start);
        ScanFrom(buff, pos, start, end, instructions);
        if start == |buff| || end == |buff| { return; }
        var text := buff[start..end + 1];
        var p := Deserialize(text);
        if p.Accepted? {
          instructions := instructions + [p.instruction];
        }
        pos := end + 1;
      }
      assert buff[pos..] == "";
      ScanNothing(instructions);
    }

    /** Hands out the queue from the front until it is empty. */
    method Drain()
      modifies this
      ensures instructions == [] && handled == old(handled) + old(instructions)
    {
      while instructions != []
        invariant handled + instructions == old(handled) + old(instructions)
        decreases |instructions|
      {
        var current := instructions[0];
        instructions := instructions[1..];
        handled := handled + [current];
      }
    }
  }

  lemma IndexShift(s: string, n: nat, c: char, from: nat)
    requires n <= from <= |s|
    ensures IndexOf(s[n..], c, from - n) == IndexOf(s, c, from) - n
    decreases |s| - from
  {}

  lemma ScanFrom(buff: string, pos: nat, start: nat, end: nat, q: seq<Instruction>)
    requires pos < |buff| && start == IndexOf(buff, '[', pos) && end == IndexOf(buff, ']', start)
    ensures end == |buff| ==> q + Scan(buff[pos..]) == q
    ensures end < |buff| ==> start < |buff|
    ensures end < |buff| ==> q + Scan(buff[pos..]) == q + Queued(buff[start..end + 1]) + Scan(buff[end + 1..])
  {
    hide Queued, IndexOf, Scan;
    var b := buff[pos..];
    IndexShift(buff, pos, '[', pos);
    IndexShift(buff, pos, ']', start);
    ScanOnce(b);
    if end < |buff| {
      Slices(buff, pos, start, end + 1);
      ConcatAssoc(q, Queued(buff[start..end + 1]), Scan(buff[end + 1..]));
    } else {
      assert q + [] == q;
    }
  }

  lemma ScanOnce(b: string)
    ensures var start := IndexOf(b, '[', 0);
            var end := IndexOf(b, ']', start);
            Scan(b) == if end == |b| then [] else Queued(b[start..end + 1]) + Scan(b[end + 1..])
  {
    hide IndexOf, Queued;
  }

  lemma Slices(s: string, n: nat, i: nat, j: nat)
    requires n <= i <= j <= |s|
    ensures s[n..][i - n..j - n] == s[i..j] && s[n..][j - n..] == s[j..]
  {}

  lemma ScanNothing(q: seq<Instruction>)
    ensures q + Scan("") == q
  {}

  // ---------------------------------------------------------------- scanning, in terms of the text

  /** Up to the first '[' everything is skipped; from there to the next ']' is a frame; the scan goes on behind it. */
  lemma ScanNext(before: string, body: string, rest: string)
    requires (forall k | 0 <= k < |before| :: before[k] != '[') && NoEnd(body)
    ensures Scan(before + "[" + body + "]" + rest) == Queued("[" + body + "]") + Scan(rest)
  {
    hide IndexOf, Queued, Scan;
    var frame := "[" + body + "]";
    var b := before + "[" + body + "]" + rest;
    IndexUnique(b, '[', 0, |before|);
    IndexUnique(b, ']', |before|, |before| + 1 + |body|);
    ScanOnce(b);
    assert b[|before|..|before| + |frame|] == frame && b[|before| + |frame|..] == rest;
  }

  /** Without a '[', or without a ']' behind the first one, nothing is queued. */
  lemma ScanIncomplete(before: string, body: string)
    requires (forall k | 0 <= k < |before| :: before[k] != '[') && NoEnd(body)
    ensures Scan(before) == [] && Scan(before + "[" + body) == []
  {
    hide IndexOf, Queued, Scan;
    var b := before + "[" + body;
    IndexUnique(b, '[', 0, |before|);
    IndexUnique(b, ']', |before|, |b|);
    IndexUnique(before, '[', 0, |before|);
    IndexUnique(before, ']', |before|, |before|);
    ScanOnce(b);
    ScanOnce(before);
  }

  // ---------------------------------------------------------------- frames are scanned one by one

  /** A buffer that ends in ']', or is empty, is scanned independently of what follows. */
  lemma {:induction false} ScanConcat(f: string, g: string)
    requires f == "" || f[|f| - 1] == ']'
    ensures Scan(f + g) == Scan(f) + Scan(g)
    decreases |f|
  {
    hide Queued, IndexOf, Scan;
    if f == "" {
      assert f + g == g;
      NothingToScan();
    } else {
      var start := IndexOf(f, '[', 0);
      ScanOnce(f);
      if start == |f| {
        NoStart(f, g);
        assert IndexOf(f, ']', start) == |f|;
      } else {
        var end := IndexOf(f, ']', start);
        assert end < |f|;
        IndexUnique(f + g, '[', 0, start);
        IndexUnique(f + g, ']', start, end);
        ScanOnce(f + g);
        assert (f + g)[start..end + 1] == f[start..end + 1] && (f + g)[end + 1..] == f[end + 1..] + g;
        ScanConcat(f[end + 1..], g);
        ConcatAssoc(Queued(f[start..end + 1]), Scan(f[end + 1..]), Scan(g));
      }
    }
  }

  lemma NothingToScan()
    ensures Scan("") == [] && forall q: seq<Instruction> :: [] + q == q
  {}

  /** Text without '[' in front of a buffer is skipped. */
  lemma NoStart(f: string, g: string)
    requires IndexOf(f, '[', 0) == |f|
    ensures Scan(f + g) == Scan(g) && Scan(f) == []
  {
    hide IndexOf, Scan;
    SkipPrefix(f, g);
    ScanSkips(f + g, |f|);
    ScanIncomplete(f, "");
  }

  lemma ScanSkips(b: string, n: nat)
    requires n <= IndexOf(b, '[', 0)
    ensures Scan(b) == Scan(b[n..])
  {
    hide Queued, IndexOf, Scan;
    var start := IndexOf(b, '[', 0);
    var end := IndexOf(b, ']', start);
    var c := b[n..];
    StartAfter(b, n, start);
    IndexShift(b, n, '[', n);
    IndexShift(b, n, ']', start);
    assert IndexOf(c, '[', 0) == start - n && IndexOf(c, ']', start - n) == end - n;
    ScanOnce(b);
    ScanOnce(c);
    if end < |b| { Slices(b, n, start, end + 1); }
  }

  lemma SkipPrefix(f: string, g: string)
    requires IndexOf(f, '[', 0) == |f|
    ensures IndexOf(f + g, '[', 0) >= |f| && (f + g)[|f|..] == g
  {
    hide IndexOf;
    assert forall k | 0 <= k < |f| :: (f + g)[k] == f[k];
  }

  lemma StartAfter(b: string, n: nat, start: nat)
    requires n <= start == IndexOf(b, '[', 0)
    ensures IndexOf(b, '[', n) == start
  {
    IndexUnique(b, '[', n, start);
  }

  /** Whatever is queued from a buffer has data at least three characters shorter than the buffer. */
  lemma {:induction false} ScanIsShort(b: string)
    ensures forall i | i in Scan(b) :: |i.data| + 3 <= |b|
    decreases |b|
  {
    hide IndexOf, Parse, Scan;
    var start := IndexOf(b, '[', 0);
    var end := IndexOf(b, ']', start);
    ScanOnce(b);
    if end < |b| {
      DataIsShort(b[start..end + 1]);
      ScanIsShort(b[end + 1..]);
    }
  }

  // ---------------------------------------------------------------- one frame

  /** Data that survives the scanner. */
  predicate Sound(data: string) {
    Clean(data) && NoEnd(data)
  }

  predicate NoEnd(s: string) {
    forall k | 0 <= k < |s| :: s[k] != ']'
  }

  lemma NoEndIndex(s: string)
    ensures NoEnd(s) <==> IndexOf(s, ']', 0) == |s|
  {}

  lemma NoEndConcat(a: string, b: string)
    requires NoEnd(a) && NoEnd(b)
    ensures NoEnd(a + b)
  {}

  lemma HeaderShape(i: Instruction)
    ensures Header(i) != "" && Header(i)[0] == '[' && NoEnd(Header(i))
  {
    hide IntText, ToString, NoEnd;
    NoEndNumbers(i);
    var a := "[" + IntText(i.kind);
    var b := a + " " + IntText(i.format);
    var c := b + " " + IntText(i.mode);
    NoEndConcat("[", IntText(i.kind));
    NoEndConcat(a, " ");
    NoEndConcat(a + " ", IntText(i.format));
    NoEndConcat(b, " ");
    NoEndConcat(b + " ", IntText(i.mode));
    NoEndConcat(c, " ");
    NoEndConcat(c + " ", ToString(i.pid));
    NoEndConcat(c + " " + ToString(i.pid), " ");
  }

  lemma NoEndNumbers(i: Instruction)
    ensures NoEnd(IntText(i.kind)) && NoEnd(IntText(i.format)) && NoEnd(IntText(i.mode)) && NoEnd(ToString(i.pid))
    ensures NoEnd("[") && NoEnd(" ")
  {
    IntTextShape(i.kind);
    IntTextShape(i.format);
    IntTextShape(i.mode);
  }

  /** The frame of an instruction queues exactly the instruction, or only instructions with shorter data. */
  lemma ScanFrame(i: Instruction)
    ensures Sound(i.data) ==> Scan(Printed(i)) == [i]
    ensures !Sound(i.data) ==> forall q | q in Scan(Printed(i)) :: |q.data| < |i.data|
  {
    hide IndexOf, Parse, Scan, Header, Clean, NoEnd;
    var m := IndexOf(i.data, ']', 0);
    HeaderShape(i);
    NoEndIndex(i.data);
    if m == |i.data| {
      ScanWhole(i);
      RoundTrip(i);
    } else {
      var rest := i.data[m + 1..] + ")]";
      ScanCut(i, m, rest);
      ScanIsShort(rest);
    }
  }

  /** Without ']' in the data, the frame is scanned as a whole. */
  lemma ScanWhole(i: Instruction)
    requires Header(i) != "" && Header(i)[0] == '[' && NoEnd(Header(i)) && NoEnd(i.data)
    ensures Scan(Printed(i)) == Queued(Printed(i))
  {
    hide IndexOf, Queued, Scan, Header;
    var f := Printed(i);
    assert f == Header(i) + "(" + i.data + ")" + "]";
    IndexUnique(f, '[', 0, 0);
    IndexUnique(f, ']', 0, |f| - 1);
    ScanOnce(f);
    assert f[0..|f|] == f && f[|f|..] == "";
    NothingToScan();
    assert Queued(f) + [] == Queued(f);
  }

  /** The first ']' in the data ends the first scanned text; what is queued from it has shorter data. */
  lemma ScanCut(i: Instruction, m: nat, rest: string)
    requires Header(i) != "" && Header(i)[0] == '[' && NoEnd(Header(i))
    requires m == IndexOf(i.data, ']', 0) < |i.data| && rest == i.data[m + 1..] + ")]"
    ensures exists q: seq<Instruction> ::
              Scan(Printed(i)) == q + Scan(rest) && forall p | p in q :: |p.data| < |i.data|
  {
    hide IndexOf, Parse, ParseRemainder, Scan, Header;
    var f, h, x := Printed(i), Header(i), i.data[..m] + "]";
    var cut := h + ("(" + x);
    CutFrame(h, i.data, m);
    assert f == cut + rest;
    IndexUnique(f, '[', 0, 0);
    IndexUnique(f, ']', 0, |cut| - 1);
    ScanOnce(f);
    assert f[0..|cut|] == cut && f[|cut|..] == rest;
    assert Scan(f) == Queued(cut) + Scan(rest);
    HeaderRead(i, "(" + x);
    assert " " + ("(" + x) == " (" + x;
    DataFound(i.kind, i.format, i.mode, i.pid, x);
    assert forall p | p in Queued(cut) :: |p.data| < |i.data|;
  }

  lemma CutFrame(h: string, d: string, m: nat)
    requires m < |d| && d[m] == ']' && (forall k | 0 <= k < m :: d[k] != ']') && NoEnd(h)
    ensures var cut := h + ("(" + (d[..m] + "]"));
            && h + "(" + d + ")" + "]" == cut + (d[m + 1..] + ")]")
            && cut[|cut| - 1] == ']' && NoEnd(cut[..|cut| - 1])
  {
    assert d == d[..m] + "]" + d[m + 1..];
  }

  // ---------------------------------------------------------------- a whole buffer

  /** The instructions as one client sends them, one after the other. */
  function Wire(sent: seq<Instruction>): string {
    if sent == [] then "" else Printed(sent[0]) + Wire(sent[1..])
  }

  predicate AllSound(sent: seq<Instruction>) {
    forall k | 0 <= k < |sent| :: Sound(sent[k].data)
  }

  lemma ScanWireStep(sent: seq<Instruction>)
    requires sent != []
    ensures Scan(Wire(sent)) == Scan(Printed(sent[0])) + Scan(Wire(sent[1..]))
  {
    hide Scan, Header;
    ScanConcat(Printed(sent[0]), Wire(sent[1..]));
  }

  /** The number of instructions with at least n characters of data. */
  function Long(sent: seq<Instruction>, n: nat): nat {
    if sent == [] then 0 else (if |sent[0].data| >= n then 1 else 0) + Long(sent[1..], n)
  }

  lemma {:induction false} LongConcat(a: seq<Instruction>, b: seq<Instruction>, n: nat)
    ensures Long(a + b, n) == Long(a, n) + Long(b, n)
    decreases |a|
  {
    if a == [] {
      assert a + b == b;
    } else {
      assert (a + b)[1..] == a[1..] + b;
      LongConcat(a[1..], b, n);
    }
  }

  lemma {:induction false} LongNone(q: seq<Instruction>, n: nat)
    requires forall i | i in q :: |i.data| < n
    ensures Long(q, n) == 0
    decreases |q|
  {
    if q != [] { LongNone(q[1..], n); }
  }

  /** If n bounds the unsound data, scanning loses the unsound instructions whose data has length n, and gains none. */
  lemma {:induction false} ScanLoses(sent: seq<Instruction>, n: nat)
    requires forall k | 0 <= k < |sent| && !Sound(sent[k].data) :: |sent[k].data| <= n
    ensures Long(Scan(Wire(sent)), n) <= Long(sent, n)
    ensures (exists k | 0 <= k < |sent| :: !Sound(sent[k].data) && |sent[k].data| == n) ==>
              Long(Scan(Wire(sent)), n) < Long(sent, n)
    decreases |sent|
  {
    hide Scan, Printed, Sound, Wire;
    if sent == [] {
      WireOfNothing();
    } else {
      var i := sent[0];
      ScanWireStep(sent);
      ScanFrame(i);
      LongConcat(Scan(Printed(i)), Scan(Wire(sent[1..])), n);
      assert forall k | 0 <= k < |sent| - 1 :: sent[1..][k] == sent[k + 1];
      ScanLoses(sent[1..], n);
      if Sound(i.data) {
        assert [i][1..] == [];
      } else {
        LongNone(Scan(Printed(i)), n);
      }
      forall k | 0 < k < |sent| && !Sound(sent[k].data) && |sent[k].data| == n
        ensures Long(Scan(Wire(sent)), n) < Long(sent, n)
      {
        assert sent[1..][k - 1] == sent[k];
      }
    }
  }

  lemma WireOfNothing()
    ensures Wire([]) == "" && Scan(Wire([])) == []
  {}

  lemma {:induction false} LongestUnsound(sent: seq<Instruction>) returns (w: nat)
    requires !AllSound(sent)
    ensures w < |sent| && !Sound(sent[w].data)
    ensures forall k | 0 <= k < |sent| && !Sound(sent[k].data) :: |sent[k].data| <= |sent[w].data|
    decreases |sent|
  {
    hide Sound;
    var rest := sent[1..];
    assert forall k | 0 <= k < |sent| - 1 :: rest[k] == sent[k + 1];
    if AllSound(rest) {
      assert forall k | 0 < k < |sent| :: sent[k] == rest[k - 1];
      w := 0;
    } else {
      var v := LongestUnsound(rest);
      w := if !Sound(sent[0].data) && |sent[0].data| > |rest[v].data| then 0 else v + 1;
      assert forall k | 0 < k < |sent| :: sent[k] == rest[k - 1];
    }
  }

  lemma {:induction false} ScanSound(sent: seq<Instruction>)
    requires AllSound(sent)
    ensures Scan(Wire(sent)) == sent
    decreases |sent|
  {
    hide Scan, Sound, Printed;
    if sent != [] {
      ScanWireStep(sent);
      ScanFrame(sent[0]);
      ScanSound(sent[1..]);
      assert sent == [sent[0]] + sent[1..];
    } else {
      WireOfNothing();
    }
  }

  /**
   * Scanning the concatenated serializations queues exactly the instructions that were sent, in order, if and only if
   * no data contains ')', ']' or a newline.
   */
  lemma ScanIsExact(sent: seq<Instruction>)
    ensures Scan(Wire(sent)) == sent <==> AllSound(sent)
  {
    if AllSound(sent) {
      ScanSound(sent);
    } else {
      var w := LongestUnsound(sent);
      ScanLoses(sent, |sent[w].data|);
    }
  }

  /** From the serializations in one received buffer to the interpreter, through the scanner and the queue. */
  method Deliver(sent: seq<Instruction>, buff: string) returns (handled: seq<Instruction>)
    requires buff == Wire(sent)
    ensures handled == sent <==> AllSound(sent)
  {
    var ui := new UserInterface();
    ui.Receive(buff);
    ui.Drain();
    ScanIsExact(sent);
    handled := ui.handled;
  }
}
