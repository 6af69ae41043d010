// Replacing every occurrence of a substring, in place, and what the replacement means.
module Replace {

  /** s with every occurrence of f replaced by t: leftmost first, without overlaps, results not searched again. */
  function ReplaceAll(s: string, f: string, t: string): string
    requires f != ""
    decreases |s|
  {
    if |s| < |f| then s
    else if OccursAt(s, f, 0) then t + ReplaceAll(s[|f|..], f, t)
    else [s[0]] + ReplaceAll(s[1..], f, t)
  }

  predicate OccursAt(s: string, f: string, i: nat) {
    i + |f| <= |s| && s[i..i + |f|] == f
  }

  /** std::string::find: the first occurrence at or after pos, if there is one. */
  method Find(s: string, f: string, pos: nat) returns (found: bool, at: nat)
    requires f != ""
    ensures pos <= at && (found ==> OccursAt(s, f, at))
    ensures found ==> forall i: nat | pos <= i < at :: !OccursAt(s, f, i)
    ensures !found ==> forall i: nat | pos <= i :: !OccursAt(s, f, i)
  {
    at := pos;
    while at + |f| <= |s|
      invariant pos <= at
      invariant forall i: nat | pos <= i < at :: !OccursAt(s, f, i)
    {
      if s[at..at + |f|] == f { return true, at; }
      at := at + 1;
    }
    found := false;
  }

  lemma SuffixOccurrences(s: string, f: string, k: nat)
    requires k <= |s|
    ensures forall i: nat :: OccursAt(s[k..], f, i) <==> OccursAt(s, f, k + i)
  {
    forall i: nat ensures OccursAt(s[k..], f, i) <==> OccursAt(s, f, k + i) {
      if k + i + |f| <= |s| { assert s[k..][i..i + |f|] == s[k + i..k + i + |f|]; }
    }
  }

  /** The first occurrence of f is replaced, and the search goes on behind it. */
  lemma {:induction false} ReplaceFirst(a: string, f: string, b: string, t: string)
    requires f != "" && forall i: nat | i < |a| :: !OccursAt(a + f + b, f, i)
    ensures ReplaceAll(a + f + b, f, t) == a + t + ReplaceAll(b, f, t)
    decreases |a|
  {
    var s := a + f + b;
    if a == "" {
      assert s == f + b;
      FirstIsReplaced(f, b, t);
    } else {
      assert !OccursAt(s, f, 0);
      assert s[1..] == a[1..] + f + b;
      SuffixOccurrences(s, f, 1);
      hide OccursAt;
      forall i: nat | i < |a| - 1 ensures !OccursAt(s[1..], f, i) {
        assert !OccursAt(s, f, 1 + i);
      }
      ReplaceFirst(a[1..], f, b, t);
      Reattach(a, t, ReplaceAll(b, f, t));
    }
  }

  lemma FirstIsReplaced(f: string, b: string, t: string)
    requires f != ""
    ensures ReplaceAll(f + b, f, t) == t + ReplaceAll(b, f, t) == "" + t + ReplaceAll(b, f, t)
  {
    assert (f + b)[0..0 + |f|] == f;
    assert (f + b)[|f|..] == b;
    assert "" + t == t;
  }

  lemma Reattach(a: string, t: string, tail: string)
    requires a != ""
    ensures [a[0]] + (a[1..] + t + tail) == a + t + tail
  {
    assert [a[0]] + a[1..] == a;
  }

  lemma {:induction false} ReplaceNone(s: string, f: string, t: string)
    requires f != "" && forall i: nat :: !OccursAt(s, f, i)
    ensures ReplaceAll(s, f, t) == s
    decreases |s|
  {
    hide OccursAt;
    if |s| >= |f| {
      SuffixOccurrences(s, f, 1);
      ReplaceNone(s[1..], f, t);
    }
  }

  // ---------------------------------------------------------------- patterns of one and two characters

  lemma OneCharPattern(c: char, x: char, s: string, t: string)
    ensures ReplaceAll([x] + s, [c], t) == (if x == c then t else [x]) + ReplaceAll(s, [c], t)
  {
    assert ([x] + s)[1..] == s;
    assert ([x] + s)[0..1] == [x];
  }

  lemma {:induction false} OneCharConcat(c: char, a: string, b: string, t: string)
    ensures ReplaceAll(a + b, [c], t) == ReplaceAll(a, [c], t) + ReplaceAll(b, [c], t)
    decreases |a|
  {
    if a == "" {
      assert a + b == b;
    } else {
      var x, s := a[0], a[1..];
      assert a == [x] + s && a + b == [x] + (s + b);
      OneCharConcat(c, s, b, t);
      OneCharPattern(c, x, s, t);
      OneCharPattern(c, x, s + b, t);
    }
  }

  lemma TwoCharPattern(s: string, a: char, c: char, t: string)
    requires s != ""
    ensures ReplaceAll(s, [a, c], t)
         == if |s| >= 2 && s[0] == a && s[1] == c then t + ReplaceAll(s[2..], [a, c], t)
            else [s[0]] + ReplaceAll(s[1..], [a, c], t)
  {
    if |s| >= 2 {
      assert s[0..2] == [s[0], s[1]];
    } else {
      assert ReplaceAll(s[1..], [a, c], t) == "";
      assert [s[0]] + "" == s;
    }
  }

  // ---------------------------------------------------------------- the loop

  /**
   * The loop of replace_substring and of both stringReplace functions. It terminates although the replacement may
   * contain the pattern: what is left to search shrinks by |f| with every step.
   */
  method ReplaceSubstring(s0: string, f: string, t: string) returns (s: string)
    requires f != ""
    ensures s == ReplaceAll(s0, f, t)
  {
    hide ReplaceAll, OccursAt;
    s := s0;
    ghost var head, rest := "", s0;
    var found, pos := Find(s, f, 0);
    assert "" + s0 == s0 && "" + ReplaceAll(s0, f, t) == ReplaceAll(s0, f, t);
    while found
      invariant s == head + rest && |head| <= pos
      invariant head + ReplaceAll(rest, f, t) == ReplaceAll(s0, f, t)
      invariant found ==> OccursAt(s, f, pos) && forall i: nat | |head| <= i < pos :: !OccursAt(s, f, i)
      invariant !found ==> forall i: nat | |head| <= i :: !OccursAt(s, f, i)
      decreases |rest| + (if found then 1 else 0)
    {
      ghost var a, b := ReplaceStep(head, rest, f, t, pos);
      s := s[..pos] + t + s[pos + |f|..];
      head, rest := head + a + t, b;
      found, pos := Find(s, f, pos + |t|);
    }
    SearchRest(head, rest, f);
    ReplaceNone(rest, f, t);
  }

  lemma SearchRest(head: string, rest: string, f: string)
    requires forall i: nat | |head| <= i :: !OccursAt(head + rest, f, i)
    ensures forall i: nat :: !OccursAt(rest, f, i)
  {
    assert (head + rest)[|head|..] == rest;
    SuffixOccurrences(head + rest, f, |head|);
    hide OccursAt;
    forall i: nat ensures !OccursAt(rest, f, i) { assert !OccursAt(head + rest, f, |head| + i); }
  }

  /** One round of the loop: rest = a + f + b, and the new string is head + a + t + b. */
  lemma ReplaceStep(head: string, rest: string, f: string, t: string, pos: nat) returns (a: string, b: string)
    requires f != "" && |head| <= pos && OccursAt(head + rest, f, pos)
    requires forall i: nat | |head| <= i < pos :: !OccursAt(head + rest, f, i)
    ensures pos + |f| <= |head + rest| && pos == |head + a| && |b| < |rest|
    ensures var s := head + rest; s[..pos] + t + s[pos + |f|..] == head + a + t + b
    ensures head + a + t + ReplaceAll(b, f, t) == head + ReplaceAll(rest, f, t)
  {
    var s, k := head + rest, pos - |head|;
    a, b := rest[..k], rest[k + |f|..];
    Decompose(head, rest, f, pos, a, b);
    assert s[|head|..] == rest;
    SuffixOccurrences(s, f, |head|);
    hide OccursAt, ReplaceAll;
    forall i: nat | i < |a| ensures !OccursAt(a + f + b, f, i) { assert !OccursAt(s, f, |head| + i); }
    ReplaceFirst(a, f, b, t);
    Assoc(head, a, t, ReplaceAll(b, f, t));
  }

  lemma Decompose(head: string, rest: string, f: string, pos: nat, a: string, b: string)
    requires |head| <= pos && OccursAt(head + rest, f, pos)
    requires a == rest[..pos - |head|] && b == rest[pos - |head| + |f|..]
    ensures rest == a + f + b
    ensures (head + rest)[..pos] == head + a && (head + rest)[pos + |f|..] == b
  {
    var k := pos - |head|;
    assert rest[k..k + |f|] == (head + rest)[pos..pos + |f|] == f;
  }

  lemma Assoc(h: string, a: string, t: string, tail: string)
    ensures h + (a + t + tail) == h + a + t + tail
  {}
}
