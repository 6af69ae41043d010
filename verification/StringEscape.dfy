// Escaping of reference tokens (section 4 of RFC 6901): '~' is written "~0" and '/' is written "~1".
module StringEscape {
  import opened Replace

  /** Two replacements, the first of which inserts characters the second must not touch. */
  function Escape(s: string): string {
    ReplaceAll(ReplaceAll(s, "~", "~0"), "/", "~1")
  }

  function Unescape(s: string): string {
    ReplaceAll(ReplaceAll(s, "~1", "/"), "~0", "~")
  }

  method EscapeInPlace(s0: string) returns (s: string)
    ensures s == Escape(s0)
  {
    s := ReplaceSubstring(s0, "~", "~0");
    s := ReplaceSubstring(s, "/", "~1");
  }

  method UnescapeInPlace(s0: string) returns (s: string)
    ensures s == Unescape(s0)
  {
    s := ReplaceSubstring(s0, "~1", "/");
    s := ReplaceSubstring(s, "~0", "~");
  }

  // ---------------------------------------------------------------- one-pass meaning

  function EscapeChar(c: char): string {
    if c == '~' then "~0" else if c == '/' then "~1" else [c]
  }

  /** Escaping as the standard describes it: every character on its own. */
  function EscapeMap(s: string): string {
    if s == "" then "" else EscapeChar(s[0]) + EscapeMap(s[1..])
  }

  /** Unescaping as the standard describes it: every escape sequence on its own. */
  function UnescapeMap(s: string): string
    decreases |s|
  {
    if s == "" then ""
    else if |s| >= 2 && s[0] == '~' && s[1] == '1' then "/" + UnescapeMap(s[2..])
    else if |s| >= 2 && s[0] == '~' && s[1] == '0' then "~" + UnescapeMap(s[2..])
    else [s[0]] + UnescapeMap(s[1..])
  }

  /** Every '~' is followed by '0' or '1'. */
  predicate WellEscaped(s: string) {
    forall i | 0 <= i < |s| && s[i] == '~' :: i + 1 < |s| && (s[i + 1] == '0' || s[i + 1] == '1')
  }

  /** The two passes of escape amount to one pass over the characters. */
  lemma {:induction false} EscapeIsMap(s: string)
    ensures Escape(s) == EscapeMap(s)
    decreases |s|
  {
    if s != "" {
      var x, u := s[0], s[1..];
      assert s == [x] + u;
      OneCharPattern('~', x, u, "~0");
      var first := if x == '~' then "~0" else [x];
      OneCharConcat('/', first, ReplaceAll(u, "~", "~0"), "~1");
      EscapeIsMap(u);
      assert ReplaceAll(first, "/", "~1") == EscapeChar(x) by { SecondPass(x); }
    }
  }

  lemma SecondPass(x: char)
    ensures ReplaceAll(if x == '~' then "~0" else [x], "/", "~1") == EscapeChar(x)
  {
    if x == '~' {
      OneCharPattern('/', '~', "0", "~1");
      OneCharPattern('/', '0', "", "~1");
      assert "~0" == ['~'] + "0" && "0" == ['0'] + "";
    } else {
      OneCharPattern('/', x, "", "~1");
      assert [x] + "" == [x];
    }
  }

  /** The two passes of unescape amount to one pass over the escape sequences, for every string. */
  lemma {:induction false} UnescapeIsMap(s: string)
    ensures Unescape(s) == UnescapeMap(s)
    decreases |s|
  {
    if s != "" {
      TwoCharPattern(s, '~', '1', "/");
      if |s| >= 2 && s[0] == '~' && s[1] == '1' {
        UnescapeIsMap(s[2..]);
        PassOver('/', ReplaceAll(s[2..], "~1", "/"));
      } else if |s| >= 2 && s[0] == '~' && s[1] == '0' {
        UnescapeIsMap(s[2..]);
        TwoCharPattern(s[1..], '~', '1', "/");
        var y := ReplaceAll(s[2..], "~1", "/");
        assert s[1..][1..] == s[2..];
        var first := ['~'] + (['0'] + y);
        assert ReplaceAll(s, "~1", "/") == first;
        TwoCharPattern(first, '~', '0', "~");
        assert first[2..] == y;
      } else {
        UnescapeIsMap(s[1..]);
        var y := ReplaceAll(s[1..], "~1", "/");
        if s[0] == '~' && s[1..] != "" {
          TwoCharPattern(s[1..], '~', '1', "/");
        }
        var first := [s[0]] + y;
        TwoCharPattern(first, '~', '0', "~");
        assert first[1..] == y;
      }
    }
  }

  lemma PassOver(c: char, y: string)
    requires c != '~'
    ensures ReplaceAll([c] + y, "~0", "~") == [c] + ReplaceAll(y, "~0", "~")
  {
    TwoCharPattern([c] + y, '~', '0', "~");
    assert ([c] + y)[1..] == y;
  }

  // ---------------------------------------------------------------- escaping and unescaping are inverse

  lemma {:induction false} MapRoundTrip(s: string)
    ensures UnescapeMap(EscapeMap(s)) == s
    decreases |s|
  {
    if s != "" {
      var e, rest := EscapeChar(s[0]), EscapeMap(s[1..]);
      MapRoundTrip(s[1..]);
      assert (e + rest)[|e|..] == rest;
      assert [s[0]] + s[1..] == s;
    }
  }

  lemma {:induction false} EscapeMapShape(s: string)
    ensures WellEscaped(EscapeMap(s)) && '/' !in EscapeMap(s)
    decreases |s|
  {
    if s != "" {
      EscapeMapShape(s[1..]);
    }
  }

  /** unescape undoes escape, and escaped tokens contain neither '/' nor a stray '~'. */
  lemma UnescapeEscape(s: string)
    ensures Unescape(Escape(s)) == s
    ensures WellEscaped(Escape(s)) && '/' !in Escape(s)
  {
    EscapeIsMap(s);
    UnescapeIsMap(EscapeMap(s));
    MapRoundTrip(s);
    EscapeMapShape(s);
  }

  lemma {:induction false} MapRoundTripBack(s: string)
    requires WellEscaped(s) && '/' !in s
    ensures EscapeMap(UnescapeMap(s)) == s
    decreases |s|
  {
    if s != "" {
      var k := if s[0] == '~' then 2 else 1;
      assert s[k..] == s[k..] && forall i | 0 <= i < |s| - k :: s[k..][i] == s[k + i];
      MapRoundTripBack(s[k..]);
      var c := if s[0] != '~' then s[0] else if s[1] == '1' then '/' else '~';
      assert UnescapeMap(s) == [c] + UnescapeMap(s[k..]);
      assert ([c] + UnescapeMap(s[k..]))[1..] == UnescapeMap(s[k..]);
      assert EscapeChar(c) == s[..k];
      assert s[..k] + s[k..] == s;
    }
  }

  /** escape undoes unescape on every well-escaped token. */
  lemma EscapeUnescape(s: string)
    requires WellEscaped(s) && '/' !in s
    ensures Escape(Unescape(s)) == s
  {
    UnescapeIsMap(s);
    EscapeIsMap(UnescapeMap(s));
    MapRoundTripBack(s);
  }

  lemma {:induction false} MapConcat(a: string, b: string)
    ensures EscapeMap(a + b) == EscapeMap(a) + EscapeMap(b)
    decreases |a|
  {
    if a == "" {
      assert a + b == b;
    } else {
      MapConcat(a[1..], b);
      assert (a + b)[1..] == a[1..] + b;
      var x, y, z := EscapeChar(a[0]), EscapeMap(a[1..]), EscapeMap(b);
      assert x + (y + z) == x + y + z;
    }
  }

  /** Section 4 of RFC 6901: '~' becomes "~0", '/' becomes "~1", and every other character stays as it is. */
  lemma EscapeExact(a: string, c: char, b: string)
    ensures Escape("") == ""
    ensures Escape(a + [c] + b)
         == Escape(a) + (match c case '~' => ['~', '0'] case '/' => ['~', '1'] case _ => [c]) + Escape(b)
  {
    hide Escape;
    EscapeIsMap("");
    EscapeIsMap(a);
    EscapeIsMap(b);
    EscapeIsMap(a + [c] + b);
    MapConcat(a + [c], b);
    MapConcat(a, [c]);
    assert [c][1..] == "" && EscapeChar(c) + "" == EscapeChar(c);
    assert EscapeMap([c]) == EscapeChar(c);
  }
}
