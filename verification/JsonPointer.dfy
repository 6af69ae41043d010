// JSON Pointer (RFC 6901): its text form, array indices, and access to the value a pointer refers to.
module JsonPointer {
  import opened Decimals
  import opened JsonValue
  import opened StringEscape

  type Tokens = seq<string>

  // ---------------------------------------------------------------- text form

  /** to_string: a left fold over the reference tokens. */
  function Print(ts: Tokens): string {
    if ts == [] then "" else Print(ts[..|ts| - 1]) + "/" + Escape(ts[|ts| - 1])
  }

  method ToText(ts: Tokens) returns (s: string)
    ensures s == Print(ts) && Parse(s) == Ok(ts)
  {
    hide Escape, Parse;
    ParsePrint(ts);
    s := "";
    for i := 0 to |ts|
      invariant s == Print(ts[..i])
    {
      assert ts[..i + 1][..i] == ts[..i];
      var token := EscapeInPlace(ts[i]);
      s := s + "/" + token;
    }
    assert ts[..|ts|] == ts;
  }

  lemma PrintAppend(ts: Tokens, t: string)
    ensures Print(ts + [t]) == Print(ts) + "/" + Escape(t)
  {
    assert (ts + [t])[..|ts|] == ts;
  }

  lemma {:induction false} PrintFront(t: string, ts: Tokens)
    ensures Print([t] + ts) == "/" + Escape(t) + Print(ts)
  {
    hide Escape, Print;
    PrintNothing();
    if ts == [] {
      assert [t] + ts == [] + [t];
      PrintAppend([], t);
      assert "" + "/" + Escape(t) == "/" + Escape(t) + "";
    } else {
      var front, last := ts[..|ts| - 1], ts[|ts| - 1];
      assert ts == front + [last] && [t] + ts == ([t] + front) + [last];
      PrintFront(t, front);
      PrintAppend(front, last);
      PrintAppend([t] + front, last);
    }
  }

  lemma PrintNothing()
    ensures Print([]) == ""
  {}

  lemma {:induction false} PrintConcat(ts: Tokens, us: Tokens)
    ensures Print(ts + us) == Print(ts) + Print(us)
    decreases |ts|
  {
    hide Escape, Print;
    PrintNothing();
    if ts == [] {
      assert ts + us == us;
      assert "" + Print(us) == Print(us);
    } else {
      PrintConcat(ts[1..], us);
      assert ts == [ts[0]] + ts[1..];
      assert ts + us == [ts[0]] + (ts[1..] + us);
      PrintFront(ts[0], ts[1..]);
      PrintFront(ts[0], ts[1..] + us);
      var head := "/" + Escape(ts[0]);
      assert head + (Print(ts[1..]) + Print(us)) == (head + Print(ts[1..])) + Print(us);
    }
  }

  /** Pointers from section 5 of RFC 6901. */
  lemma StandardExamples()
    ensures Print(["a/b"]) == "/a~1b" && Print(["m~n"]) == "/m~0n"
    ensures Print([""]) == "/" && Print(["foo"]) == "/foo" && Print(["foo", "0"]) == "/foo/0"
  {
    hide Escape, Print;
    PrintNothing();
    EscapeExact("a", '/', "b");
    EscapeExact("m", '~', "n");
    PlainEscape("a");
    PlainEscape("b");
    PlainEscape("m");
    PlainEscape("n");
    PlainEscape("");
    PlainEscape("foo");
    PlainEscape("0");
    assert "a" + ['/'] + "b" == "a/b" && "m" + ['~'] + "n" == "m~n";
    assert "a" + ['~', '1'] + "b" == "a~1b" && "m" + ['~', '0'] + "n" == "m~0n";
    OneTokenText("a/b");
    OneTokenText("m~n");
    OneTokenText("");
    OneTokenText("foo");
    PrintAppend(["foo"], "0");
    assert ["foo"] + ["0"] == ["foo", "0"];
  }

  lemma OneTokenText(t: string)
    ensures Print([t]) == "/" + Escape(t)
  {
    hide Escape;
    PrintAppend([], t);
    assert [] + [t] == [t];
    assert "" + "/" + Escape(t) == "/" + Escape(t);
  }

  lemma PlainEscape(t: string)
    requires forall i | 0 <= i < |t| :: t[i] != '~' && t[i] != '/'
    ensures Escape(t) == t
  {
    EscapeIsMap(t);
    PlainMap(t);
  }

  function MemberPath(path: string, k: string): string {
    path + "/" + Escape(k)
  }

  function IndexPath(path: string, i: nat): string {
    path + "/" + ToString(i)
  }

  lemma {:induction false} PlainMap(s: string)
    requires forall i | 0 <= i < |s| :: s[i] != '~' && s[i] != '/'
    ensures EscapeMap(s) == s
  {
    if s != "" { PlainMap(s[1..]); }
  }

  lemma IndexIsMember(path: string, i: nat)
    ensures IndexPath(path, i) == MemberPath(path, ToString(i))
  {
    EscapeIsMap(ToString(i));
    PlainMap(ToString(i));
  }

  /** Position of the first '/', or |s|. */
  function FirstSlash(s: string): (k: nat)
    ensures k <= |s| && (k < |s| ==> s[k] == '/')
    ensures forall i | 0 <= i < k :: s[i] != '/'
  {
    if s == "" || s[0] == '/' then 0 else 1 + FirstSlash(s[1..])
  }

  function Prepend(ts: Tokens, r: Result<Tokens>): Result<Tokens> {
    match r
    case Err(e) => Err(e)
    case Ok(us) => Ok(ts + us)
  }

  /** The reference tokens of s, the text after a leading '/'. */
  function Pieces(s: string): Result<Tokens>
    decreases |s|
  {
    var k := FirstSlash(s);
    if !WellEscaped(s[..k]) then Err(ParseError(108))
    else if k == |s| then Ok([Unescape(s)])
    else Prepend([Unescape(s[..k])], Pieces(s[k + 1..]))
  }

  /** The constructor's parse of a pointer's text. */
  function Parse(s: string): Result<Tokens> {
    if s == "" then Ok([])
    else if s[0] != '/' then Err(ParseError(107))
    else Pieces(s[1..])
  }

  /** std::string::find_first_of for one character; |s| stands for npos. */
  method FindChar(s: string, c: char, from: nat) returns (k: nat)
    requires from <= |s|
    ensures from <= k <= |s| && (k < |s| ==> s[k] == c)
    ensures forall i | from <= i < k :: s[i] != c
  {
    k := from;
    while k < |s| && s[k] != c
      invariant from <= k <= |s|
      invariant forall i | from <= i < k :: s[i] != c
    {
      k := k + 1;
    }
  }

  /** The inner loop of split: every '~' of the token is followed by '0' or '1'. */
  method CheckEscapes(token: string) returns (ok: bool)
    ensures ok <==> WellEscaped(token)
  {
    var pos := FindChar(token, '~', 0);
    while pos < |token|
      invariant pos <= |token| && (pos < |token| ==> token[pos] == '~')
      invariant forall i | 0 <= i < pos && token[i] == '~' ::
                  i + 1 < |token| && (token[i + 1] == '0' || token[i + 1] == '1')
      decreases |token| - pos
    {
      if pos == |token| - 1 || (token[pos + 1] != '0' && token[pos + 1] != '1') {
        return false;
      }
      pos := FindChar(token, '~', pos + 1);
    }
    ok := true;
  }

  predicate NoSlash(s: string) {
    forall i | 0 <= i < |s| :: s[i] != '/'
  }

  lemma LastPiece(s: string)
    requires NoSlash(s)
    ensures Pieces(s) == if WellEscaped(s) then Ok([Unescape(s)]) else Err(ParseError(108))
  {
    hide WellEscaped, Unescape;
    assert s[..|s|] == s;
  }

  lemma FirstPiece(a: string, b: string)
    requires NoSlash(a)
    ensures Pieces(a + ("/" + b))
         == if WellEscaped(a) then Prepend([Unescape(a)], Pieces(b)) else Err(ParseError(108))
  {
    hide WellEscaped, Unescape;
    var s := a + ("/" + b);
    assert s[|a|] == '/';
    assert FirstSlash(s) == |a|;
    assert s[..|a|] == a && s[|a| + 1..] == b;
  }

  lemma SplitStep(s: string, start: nat, slash: nat, result: Tokens)
    requires start <= slash <= |s| && NoSlash(s[start..slash]) && (slash < |s| ==> s[slash] == '/')
    ensures var token := s[start..slash];
            Prepend(result, Pieces(s[start..])) ==
            if !WellEscaped(token) then Err(ParseError(108))
            else if slash == |s| then Ok(result + [Unescape(token)])
            else Prepend(result + [Unescape(token)], Pieces(s[slash + 1..]))
  {
    hide WellEscaped, Unescape, Pieces;
    var token := s[start..slash];
    if slash == |s| {
      assert s[start..] == token;
      LastPiece(token);
    } else {
      assert s[start..] == token + ("/" + s[slash + 1..]);
      FirstPiece(token, s[slash + 1..]);
      assert forall ts: Tokens :: result + ([Unescape(token)] + ts) == result + [Unescape(token)] + ts;
    }
  }

  /** split: the loop over start and slash. */
  method Split(s: string) returns (r: Result<Tokens>)
    ensures r == Parse(s)
    ensures r.Ok? <==> s == "" || (s[0] == '/' && WellEscaped(s))
    ensures r.Ok? ==> Print(r.value) == s
  {
    hide Unescape, WellEscaped, Pieces, Print;
    ParseErrors(s);
    if Parse(s).Ok? { ParseIsInverse(s, Parse(s).value); }
    var result: Tokens := [];
    if s == "" { return Ok(result); }
    if s[0] != '/' { return Err(ParseError(107)); }
    var slash := FindChar(s, '/', 1);
    var start := 1;
    assert forall ts: Tokens :: [] + ts == ts;
    while start != 0
      invariant start <= |s|
      invariant start != 0 ==> start <= slash <= |s| && (slash < |s| ==> s[slash] == '/')
      invariant start != 0 ==> NoSlash(s[start..slash])
      invariant start != 0 ==> Pieces(s[1..]) == Prepend(result, Pieces(s[start..]))
      invariant start == 0 ==> Pieces(s[1..]) == Ok(result)
      decreases if start == 0 then 0 else |s| + 1 - start
    {
      var token := s[start..slash];
      SplitStep(s, start, slash, result);
      var ok := CheckEscapes(token);
      if !ok { return Err(ParseError(108)); }
      token := UnescapeInPlace(token);
      result := result + [token];
      if slash == |s| {
        start := 0;
      } else {
        start := slash + 1;
        slash := FindChar(s, '/', start);
      }
    }
    return Ok(result);
  }

  lemma {:induction false} PiecesOfPrint(t: string, ts: Tokens)
    ensures Pieces(Escape(t) + Print(ts)) == Ok([t] + ts)
    decreases |ts|
  {
    hide Escape, Unescape, WellEscaped, Pieces;
    UnescapeEscape(t);
    if ts == [] {
      assert Escape(t) + "" == Escape(t) && [t] + ts == [t];
      LastPiece(Escape(t));
    } else {
      assert ts == [ts[0]] + ts[1..];
      PrintFront(ts[0], ts[1..]);
      PiecesOfPrint(ts[0], ts[1..]);
      var rest := Escape(ts[0]) + Print(ts[1..]);
      assert Print(ts) == "/" + rest;
      FirstPiece(Escape(t), rest);
    }
  }

  /** split undoes to_string on every list of tokens. */
  lemma ParsePrint(ts: Tokens)
    ensures Parse(Print(ts)) == Ok(ts)
  {
    hide Escape, Pieces;
    if ts != [] {
      assert ts == [ts[0]] + ts[1..];
      PrintFront(ts[0], ts[1..]);
      PiecesOfPrint(ts[0], ts[1..]);
      assert Print(ts)[1..] == Escape(ts[0]) + Print(ts[1..]);
    }
  }

  lemma {:induction false} PrintPieces(s: string)
    ensures Pieces(s).Ok? <==> WellEscaped(s)
    ensures Pieces(s).Ok? ==> "/" + s == Print(Pieces(s).value)
    ensures Pieces(s).Err? ==> Pieces(s).error == ParseError(108)
    decreases |s|
  {
    hide Escape, Unescape, WellEscaped, Pieces, Print, FirstSlash;
    PrintNothing();
    var k := FirstSlash(s);
    var head := s[..k];
    if k == |s| {
      assert head == s;
      LastPiece(s);
      if WellEscaped(s) {
        EscapeUnescape(s);
        PrintAppend([], Unescape(s));
        assert [] + [Unescape(s)] == [Unescape(s)];
        assert "" + "/" + s == "/" + s;
      }
    } else {
      var rest := s[k + 1..];
      PrintPieces(rest);
      assert s == head + ("/" + rest);
      FirstPiece(head, rest);
      WellEscapedParts(head, rest);
      if WellEscaped(s) {
        EscapeUnescape(head);
        PrintFront(Unescape(head), Pieces(rest).value);
      }
    }
  }

  lemma WellEscapedParts(a: string, b: string)
    ensures WellEscaped(a + ("/" + b)) <==> WellEscaped(a) && WellEscaped(b)
  {
    var s := a + ("/" + b);
    if WellEscaped(s) {
      forall i | 0 <= i < |a| && a[i] == '~' ensures i + 1 < |a| && (a[i + 1] == '0' || a[i + 1] == '1') {
        assert s[i] == '~' && s[i + 1] == if i + 1 < |a| then a[i + 1] else '/';
      }
      forall i | 0 <= i < |b| && b[i] == '~' ensures i + 1 < |b| && (b[i + 1] == '0' || b[i + 1] == '1') {
        assert s[|a| + 1 + i] == '~' && (i + 1 < |b| ==> s[|a| + 1 + i + 1] == b[i + 1]);
      }
    }
    if WellEscaped(a) && WellEscaped(b) {
      forall i | 0 <= i < |s| && s[i] == '~' ensures i + 1 < |s| && (s[i + 1] == '0' || s[i + 1] == '1') {
        if i > |a| { assert b[i - |a| - 1] == '~'; }
      }
    }
  }

  /** Exactly the printed token lists are accepted, and each with the tokens it was printed from. */
  lemma ParseIsInverse(s: string, ts: Tokens)
    ensures Parse(s) == Ok(ts) <==> s == Print(ts)
  {
    ParsePrint(ts);
    if s != "" && s[0] == '/' {
      PrintPieces(s[1..]);
      assert s == "/" + s[1..];
    }
  }

  /** Which texts are rejected, and with which error. */
  lemma ParseErrors(s: string)
    ensures Parse(s) == Err(ParseError(107)) <==> s != "" && s[0] != '/'
    ensures Parse(s) == Err(ParseError(108)) <==> s != "" && s[0] == '/' && !WellEscaped(s)
    ensures Parse(s).Err? ==> Parse(s).error == ParseError(107) || Parse(s).error == ParseError(108)
  {
    if s != "" && s[0] == '/' {
      PrintPieces(s[1..]);
      WellEscapedParts("", s[1..]);
      assert s == "" + ("/" + s[1..]);
    }
  }

  /** The path of a member is the text of its tokens. */
  lemma MemberPointer(ts: Tokens, k: string)
    ensures MemberPath(Print(ts), k) == Print(ts + [k])
    ensures Parse(MemberPath(Print(ts), k)) == Ok(ts + [k])
    ensures (ts + [k])[..|ts|] == ts && (ts + [k])[|ts|] == k
  {
    PrintAppend(ts, k);
    ParsePrint(ts + [k]);
  }

  lemma PrintInjective(ts: Tokens, us: Tokens)
    requires Print(ts) == Print(us)
    ensures ts == us
  {
    ParsePrint(ts);
    ParsePrint(us);
  }

  // ---------------------------------------------------------------- array indices

  /** array_index, with a 64-bit size_type and unsigned long long. */
  function ArrayIndex(t: string): Result<nat> {
    if |t| > 1 && t[0] == '0' then Err(ParseError(106))
    else if |t| > 1 && !('1' <= t[0] <= '9') then Err(ParseError(109))
    else if t == "" || !AllDigits(t) || DigitsValue(t) > SIZE_MAX then Err(OutOfRange(404))
    else if DigitsValue(t) >= SIZE_MAX then Err(OutOfRange(410))
    else Ok(DigitsValue(t))
  }

  /** An index is accepted exactly in the form in which std::to_string prints it. */
  lemma ArrayIndexExact(t: string, i: nat)
    ensures ArrayIndex(t) == Ok(i) <==> t == ToString(i) && i < SIZE_MAX
  {
    ToStringReads(i);
    if ArrayIndex(t) == Ok(i) {
      ReadingIsCanonical(t);
    }
  }

  /** Which texts are no index, and with which error: 404 for whatever is neither an index nor one of the others. */
  lemma ArrayIndexErrors(t: string)
    ensures ArrayIndex(t) == Err(ParseError(106)) <==> |t| > 1 && t[0] == '0'
    ensures ArrayIndex(t) == Err(ParseError(109)) <==> |t| > 1 && !IsDigit(t[0])
    ensures ArrayIndex(t) == Err(OutOfRange(410)) <==> t == ToString(SIZE_MAX)
    ensures ArrayIndex(t).Ok? <==> exists i: nat | i < SIZE_MAX :: t == ToString(i)
    ensures ArrayIndex(t).Ok? || ArrayIndex(t).error in
              {ParseError(106), ParseError(109), OutOfRange(410), OutOfRange(404)}
  {
    hide ToString;
    ToStringReads(SIZE_MAX);
    if Canonical(t) { ReadingIsCanonical(t); }
    if ArrayIndex(t).Ok? { ArrayIndexExact(t, ArrayIndex(t).value); }
    forall i: nat | i < SIZE_MAX && t == ToString(i) ensures ArrayIndex(t).Ok? { ArrayIndexExact(t, i); }
  }

  // ---------------------------------------------------------------- access

  /** One step of get_checked. */
  function Child(v: Json, t: string): Result<Json> {
    match v
    case Obj(m) => if t in m then Ok(m[t]) else Err(OutOfRange(403))
    case Arr(a) =>
      if t == "-" then Err(OutOfRange(402))
      else (match ArrayIndex(t)
            case Err(e) => Err(e)
            case Ok(i) => if i < |a| then Ok(a[i]) else Err(OutOfRange(401)))
    case _ => Err(OutOfRange(404))
  }

  /** The value that ts refers to in v. */
  function Get(v: Json, ts: Tokens): Result<Json> {
    if ts == [] then Ok(v)
    else match Child(v, ts[0])
      case Err(e) => Err(e)
      case Ok(w) => Get(w, ts[1..])
  }

  /** c is the member t of p, or its element at the index that t prints. */
  ghost predicate IsChild(p: Json, t: string, c: Json) {
    || (p.Obj? && t in p.members && p.members[t] == c)
    || (p.Arr? && exists i: nat | i < |p.items| && i < SIZE_MAX :: t == ToString(i) && p.items[i] == c)
  }

  /** The errors of one step: 403 missing member, 402 "-", those of the index, 401 behind the end, 404 no container. */
  ghost predicate Refuses(p: Json, t: string, e: Error) {
    || (p.Obj? && t !in p.members && e == OutOfRange(403))
    || (p.Arr? && t == "-" && e == OutOfRange(402))
    || (p.Arr? && t != "-" && ArrayIndex(t) == Err(e))
    || (p.Arr? && e == OutOfRange(401) && exists i: nat | |p.items| <= i < SIZE_MAX :: t == ToString(i))
    || (Primitive(p) && e == OutOfRange(404))
  }

  lemma ChildExact(p: Json, t: string)
    ensures forall c :: Child(p, t) == Ok(c) <==> IsChild(p, t, c)
    ensures forall e :: Child(p, t) == Err(e) <==> Refuses(p, t, e)
  {
    hide ToString, ArrayIndex;
    ArrayIndexErrors(t);
    forall i: nat ensures ArrayIndex(t) == Ok(i) <==> t == ToString(i) && i < SIZE_MAX { ArrayIndexExact(t, i); }
    forall i: nat ensures "-" != ToString(i) { DashIsNoNumeral(i); }
  }

  lemma DashIsNoNumeral(i: nat)
    ensures "-" != ToString(i)
  {
    assert IsDigit(ToString(i)[0]);
  }

  /** vs leads along ts from a value to one of its children, and so on. */
  ghost predicate Walk(vs: seq<Json>, ts: Tokens) {
    |vs| == |ts| + 1 && forall i | 0 <= i < |ts| :: IsChild(vs[i], ts[i], vs[i + 1])
  }

  /** Access succeeds exactly with the value at the end of a walk along the tokens. */
  lemma {:induction false} GetIsWalk(v: Json, ts: Tokens, w: Json)
    ensures Get(v, ts) == Ok(w) <==> exists vs :: Walk(vs, ts) && vs[0] == v && vs[|ts|] == w
    decreases |ts|
  {
    hide Child, IsChild;
    if ts == [] {
      if v == w { assert Walk([v], ts); }
    } else {
      ChildExact(v, ts[0]);
      if Get(v, ts) == Ok(w) {
        var c := Child(v, ts[0]).value;
        GetIsWalk(c, ts[1..], w);
        var us :| Walk(us, ts[1..]) && us[0] == c && us[|ts| - 1] == w;
        FirstStep(v, us, ts);
      }
      forall vs | Walk(vs, ts) && vs[0] == v && vs[|ts|] == w ensures Get(v, ts) == Ok(w) {
        GetIsWalk(vs[1], ts[1..], w);
        assert Walk(vs[1..], ts[1..]);
      }
    }
  }

  lemma FirstStep(v: Json, us: seq<Json>, ts: Tokens)
    requires ts != [] && Walk(us, ts[1..]) && IsChild(v, ts[0], us[0])
    ensures Walk([v] + us, ts)
  {
    hide IsChild;
    var vs := [v] + us;
    forall i | 0 <= i < |ts| ensures IsChild(vs[i], ts[i], vs[i + 1]) {
      if i > 0 { assert ts[i] == ts[1..][i - 1]; }
    }
  }

  /** Access fails exactly at the first token that the value reached so far refuses, with the error of that step. */
  lemma {:induction false} GetFails(v: Json, ts: Tokens, e: Error)
    ensures Get(v, ts) == Err(e) <==> exists n | 0 <= n < |ts| :: StopsAt(v, ts, n, e)
    decreases |ts|
  {
    hide Child, Refuses;
    if ts != [] {
      ChildExact(v, ts[0]);
      assert ts[..0] == [];
      if Child(v, ts[0]).Ok? {
        var c := Child(v, ts[0]).value;
        GetFails(c, ts[1..], e);
        forall n | 0 < n < |ts| ensures StopsAt(v, ts, n, e) <==> StopsAt(c, ts[1..], n - 1, e) {
          assert ts[..n][1..] == ts[1..][..n - 1];
        }
        assert !StopsAt(v, ts, 0, e) by { assert Child(v, ts[0]) != Err(e); }
        if Get(v, ts) == Err(e) {
          var n :| 0 <= n < |ts| - 1 && StopsAt(c, ts[1..], n, e);
          assert StopsAt(v, ts, n + 1, e);
        }
      } else {
        forall n | 0 < n < |ts| ensures !StopsAt(v, ts, n, e) {
          assert ts[..n][0] == ts[0];
        }
        assert StopsAt(v, ts, 0, e) <==> Refuses(v, ts[0], e);
      }
    }
  }

  /** The value at the first n tokens exists and refuses the next one. */
  ghost predicate StopsAt(v: Json, ts: Tokens, n: nat, e: Error)
    requires n < |ts|
  {
    Get(v, ts[..n]).Ok? && Refuses(Get(v, ts[..n]).value, ts[n], e)
  }

  lemma ElementAt(v: Json, j: nat)
    requires v.Arr? && j < |v.items| <= SIZE_MAX
    ensures Child(v, ToString(j)) == Ok(v.items[j])
  {
    ArrayIndexExact(ToString(j), j);
    ArrayIndexExact("-", j);
  }

  function SetChild(v: Json, t: string, x: Json): Json
    requires Child(v, t).Ok?
  {
    match v
    case Obj(m) => Obj(m[t := x])
    case Arr(a) => Arr(a[ArrayIndex(t).value := x])
  }

  /** v after assigning x through the reference that get_checked returns for ts. */
  function Put(v: Json, ts: Tokens, x: Json): Json
    requires Get(v, ts).Ok?
  {
    if ts == [] then x
    else SetChild(v, ts[0], Put(Child(v, ts[0]).value, ts[1..], x))
  }

  /** get_checked: the loop that moves a position through the document. */
  method GetChecked(v: Json, ts: Tokens) returns (r: Result<Json>)
    ensures r == Get(v, ts)
    ensures r.Ok? ==> exists vs :: Walk(vs, ts) && vs[0] == v && vs[|ts|] == r.value
    ensures r.Err? ==> exists n | 0 <= n < |ts| :: StopsAt(v, ts, n, r.error)
  {
    hide StopsAt, Walk;
    if Get(v, ts).Ok? {
      GetIsWalk(v, ts, Get(v, ts).value);
    } else {
      GetFails(v, ts, Get(v, ts).error);
    }
    var ptr := v;
    for i := 0 to |ts|
      invariant Get(v, ts) == Get(ptr, ts[i..])
    {
      var t := ts[i];
      assert ts[i..][0] == t && ts[i..][1..] == ts[i + 1..];
      match ptr {
        case Obj(m) =>
          if t !in m { return Err(OutOfRange(403)); }
          ptr := m[t];
        case Arr(a) =>
          if t == "-" { return Err(OutOfRange(402)); }
          var index := ArrayIndex(t);
          if index.Err? { return Err(index.error); }
          if index.value >= |a| { return Err(OutOfRange(401)); }
          ptr := a[index.value];
        case _ =>
          return Err(OutOfRange(404));
      }
    }
    return Ok(ptr);
  }

  /** The position does not exist, which contains may report as an error instead of false. */
  ghost predicate ReportsError(v: Json, ts: Tokens) {
    ts != [] &&
    if Child(v, ts[0]).Ok? then ReportsError(Child(v, ts[0]).value, ts[1..])
    else v.Arr? && (ts[0] == "" || (Canonical(ts[0]) && DigitsValue(ts[0]) >= SIZE_MAX))
  }

  /** contains: true exactly if checked access succeeds; an error is one that checked access reports as well. */
  method Contains(v: Json, ts: Tokens) returns (r: Result<bool>)
    ensures r == Ok(true) <==> Get(v, ts).Ok?
    ensures r.Err? <==> ReportsError(v, ts)
    ensures r.Err? ==> Get(v, ts) == Err(r.error)
  {
    var ptr := v;
    for i := 0 to |ts|
      invariant Get(v, ts) == Get(ptr, ts[i..])
      invariant ReportsError(v, ts) <==> ReportsError(ptr, ts[i..])
    {
      var t := ts[i];
      assert ts[i..][0] == t && ts[i..][1..] == ts[i + 1..];
      match ptr {
        case Obj(m) =>
          if t !in m { return Ok(false); }
          ptr := m[t];
        case Arr(a) =>
          if t == "-" { return Ok(false); }
          if |t| == 1 && !('0' <= t[0] <= '9') { return Ok(false); }
          if |t| > 1 {
            if !('1' <= t[0] <= '9') { return Ok(false); }
            for j := 1 to |t|
              invariant forall k | 0 <= k < j :: IsDigit(t[k])
            {
              if !('0' <= t[j] <= '9') { return Ok(false); }
            }
          }
          var index := ArrayIndex(t);
          if index.Err? { return Err(index.error); }
          if index.value >= |a| { return Ok(false); }
          ptr := a[index.value];
        case _ =>
          return Ok(false);
      }
    }
    return Ok(true);
  }

  // ---------------------------------------------------------------- laws of access

  lemma {:induction false} GetConcat(v: Json, ts: Tokens, us: Tokens)
    ensures Get(v, ts + us) == if Get(v, ts).Ok? then Get(Get(v, ts).value, us) else Get(v, ts)
    decreases |ts|
  {
    if ts == [] {
      assert ts + us == us;
    } else {
      assert (ts + us)[1..] == ts[1..] + us;
      if Child(v, ts[0]).Ok? { GetConcat(Child(v, ts[0]).value, ts[1..], us); }
    }
  }

  lemma SetChildLaws(v: Json, t: string, x: Json)
    requires Child(v, t).Ok?
    ensures Child(SetChild(v, t, x), t) == Ok(x)
    ensures SetChild(v, t, Child(v, t).value) == v
    ensures forall u | u != t :: Child(SetChild(v, t, x), u) == Child(v, u)
    ensures forall y :: SetChild(SetChild(v, t, x), t, y) == SetChild(v, t, y)
  {
    forall y ensures SetChild(SetChild(v, t, x), t, y) == SetChild(v, t, y) {
      if v.Arr? {
        var i := ArrayIndex(t).value;
        assert v.items[i := x][i := y] == v.items[i := y];
      } else {
        assert v.members[t := x][t := y] == v.members[t := y];
      }
    }
    forall u | u != t ensures Child(SetChild(v, t, x), u) == Child(v, u) {
      if v.Arr? && ArrayIndex(u).Ok? {
        ArrayIndexExact(u, ArrayIndex(u).value);
        ArrayIndexExact(t, ArrayIndex(t).value);
      }
    }
  }

  /** What was put is got; putting what is there changes nothing; the last of two puts wins. */
  lemma {:induction false} PutLaws(v: Json, ts: Tokens, x: Json)
    requires Get(v, ts).Ok?
    ensures Get(Put(v, ts, x), ts) == Ok(x)
    ensures Put(v, ts, Get(v, ts).value) == v
    ensures forall y :: Put(Put(v, ts, x), ts, y) == Put(v, ts, y)
    decreases |ts|
  {
    if ts != [] {
      var w := Child(v, ts[0]).value;
      PutLaws(w, ts[1..], x);
      SetChildLaws(v, ts[0], Put(w, ts[1..], x));
      SetChildLaws(v, ts[0], w);
      forall y ensures Put(Put(v, ts, x), ts, y) == Put(v, ts, y) {
        assert Put(Put(w, ts[1..], x), ts[1..], y) == Put(w, ts[1..], y);
      }
    }
  }

  lemma {:induction false} PutConcat(v: Json, ts: Tokens, us: Tokens, x: Json)
    requires Get(v, ts + us).Ok?
    ensures Get(v, ts).Ok? && Get(Get(v, ts).value, us).Ok?
    ensures Put(v, ts + us, x) == Put(v, ts, Put(Get(v, ts).value, us, x))
    decreases |ts|
  {
    GetConcat(v, ts, us);
    if ts == [] {
      assert ts + us == us;
    } else {
      assert (ts + us)[1..] == ts[1..] + us;
      PutConcat(Child(v, ts[0]).value, ts[1..], us, x);
    }
  }

  /** Assigning to a child of a value that has just been put at ts. */
  lemma PutInside(doc: Json, ts: Tokens, w: Json, k: string, x: Json)
    requires Get(doc, ts).Ok? && Child(w, k).Ok?
    ensures var d := Put(doc, ts, w);
            Get(d, ts + [k]) == Child(w, k) && Put(d, ts + [k], x) == Put(doc, ts, SetChild(w, k, x))
  {
    var d := Put(doc, ts, w);
    PutLaws(doc, ts, w);
    GetConcat(d, ts, [k]);
    PutConcat(d, ts, [k], x);
    assert Put(w, [k], x) == SetChild(w, k, x);
    assert Put(d, ts, SetChild(w, k, x)) == Put(doc, ts, SetChild(w, k, x));
  }

  lemma PutTwice(doc: Json, ts: Tokens, x: Json, y: Json)
    requires Get(doc, ts).Ok?
    ensures Get(Put(doc, ts, x), ts) == Ok(x) && Put(Put(doc, ts, x), ts, y) == Put(doc, ts, y)
  {
    PutLaws(doc, ts, x);
  }

  /** Neither pointer is a prefix of the other. */
  predicate Diverge(ts: Tokens, us: Tokens) {
    ts != [] && us != [] && (ts[0] != us[0] || Diverge(ts[1..], us[1..]))
  }

  /** A change at ts is invisible to every pointer that leaves the path to ts. */
  lemma {:induction false} PutFrame(v: Json, ts: Tokens, x: Json, us: Tokens)
    requires Get(v, ts).Ok? && Diverge(ts, us)
    ensures Get(Put(v, ts, x), us) == Get(v, us)
    decreases |ts|
  {
    var w := Child(v, ts[0]).value;
    SetChildLaws(v, ts[0], Put(w, ts[1..], x));
    if ts[0] == us[0] { PutFrame(w, ts[1..], x, us[1..]); }
  }
}
