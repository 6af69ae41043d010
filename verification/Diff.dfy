// diff: a JSON Patch that turns one document into another.
module Diff {
  import opened Decimals
  import opened JsonPointer
  import opened JsonValue
  import opened Patch
  import opened StringEscape

  // ---------------------------------------------------------------- the emitted operations

  function ReplaceOp(path: string, x: Json): Json {
    Obj(map["op" := Str("replace"), "path" := Str(path), "value" := x])
  }

  function RemoveOp(path: string): Json {
    Obj(map["op" := Str("remove"), "path" := Str(path)])
  }

  function AddOp(path: string, x: Json): Json {
    Obj(map["op" := Str("add"), "path" := Str(path), "value" := x])
  }

  function Min(m: nat, n: nat): nat {
    if m < n then m else n
  }

  /** The operations of diff(source, target, path), in order. */
  function Difference(s: Json, t: Json, path: string): seq<Json>
    decreases s, 1, 0
  {
    if s == t then []
    else if s.Arr? && t.Arr? then
      var m, n := |s.items|, |t.items|;
      Common(s, t, path, Min(m, n)) + Removals(path, Min(m, n), m) + Appends(path, t.items, Min(m, n), n)
    else if s.Obj? && t.Obj? then
      Members(s, t, path, Keys(s.members)) + NewMembers(s.members, t.members, path, Keys(t.members))
    else [ReplaceOp(path, t)]
  }

  /** The differences of the first n elements. */
  function Common(s: Json, t: Json, path: string, n: nat): seq<Json>
    requires s.Arr? && t.Arr? && n <= |s.items| && n <= |t.items|
    decreases s, 0, n
  {
    if n == 0 then []
    else Common(s, t, path, n - 1) + Difference(s.items[n - 1], t.items[n - 1], IndexPath(path, n - 1))
  }

  /** Removal of the elements from lo on, the last one first. */
  function Removals(path: string, lo: nat, hi: nat): seq<Json>
    decreases hi
  {
    if hi <= lo then [] else [RemoveOp(IndexPath(path, hi - 1))] + Removals(path, lo, hi - 1)
  }

  function Appends(path: string, b: seq<Json>, lo: nat, hi: nat): seq<Json>
    requires hi <= |b|
    decreases hi
  {
    if hi <= lo then [] else Appends(path, b, lo, hi - 1) + [AddOp(path + "/-", b[hi - 1])]
  }

  function Members(s: Json, t: Json, path: string, ks: seq<string>): seq<Json>
    requires s.Obj? && t.Obj? && forall k | k in ks :: k in s.members
    decreases s, 0, |ks|
  {
    if ks == [] then []
    else
      var k := Last(ks);
      Members(s, t, path, Front(ks)) +
      if k in t.members then Difference(s.members[k], t.members[k], MemberPath(path, k))
      else [RemoveOp(MemberPath(path, k))]
  }

  function NewMembers(m: map<string, Json>, n: map<string, Json>, path: string, ks: seq<string>): seq<Json>
    requires forall k | k in ks :: k in n
    decreases |ks|
  {
    if ks == [] then []
    else
      var k := Last(ks);
      NewMembers(m, n, path, Front(ks)) + if k in m then [] else [AddOp(MemberPath(path, k), n[k])]
  }

  // ---------------------------------------------------------------- the loops of diff

  method ComputeDiff(source: Json, target: Json, path: string) returns (result: seq<Json>)
    ensures result == Difference(source, target, path)
    ensures Fits(source) && Fits(target) ==>
              forall doc, ts | path == Print(ts) && Get(doc, ts) == Ok(source) ::
                Steps(doc, result) == Done(Put(doc, ts, target))
    decreases source
  {
    hide Get, Put, Steps, Print, Difference, Fits;
    DifferenceFlat(source, target, path);
    if Fits(source) && Fits(target) {
      forall doc, ts | path == Print(ts) && Get(doc, ts) == Ok(source)
        ensures Steps(doc, Difference(source, target, path)) == Done(Put(doc, ts, target))
      {
        DifferenceApplies(doc, ts, source, target);
      }
    }
    result := [];
    if source == target { return; }
    if !SameType(source, target) {
      return [ReplaceOp(path, target)];
    }
    match source {
      case Arr(a) =>
        result := DiffArrays(source, target, path);
      case Obj(m) =>
        result := DiffObjects(source, target, path);
      case _ =>
        result := [ReplaceOp(path, target)];
    }
  }

  /** The two cases in which the difference looks inside the values. */
  lemma DifferenceUnfolds(s: Json, t: Json, path: string)
    requires s != t
    ensures s.Arr? && t.Arr? ==>
              var m, n := |s.items|, |t.items|;
              (Difference(s, t, path)
               == Common(s, t, path, Min(m, n)) + Removals(path, Min(m, n), m) + Appends(path, t.items, Min(m, n), n))
    ensures s.Obj? && t.Obj? ==>
              var m, n := s.members, t.members;
              Difference(s, t, path) == Members(s, t, path, Keys(m)) + NewMembers(m, n, path, Keys(n))
  {}

  /** The cases in which it does not. */
  lemma DifferenceFlat(s: Json, t: Json, path: string)
    ensures s == t ==> Difference(s, t, path) == []
    ensures s != t && (!SameType(s, t) || Primitive(s)) ==> Difference(s, t, path) == [ReplaceOp(path, t)]
  {}

  method DiffArrays(source: Json, target: Json, path: string) returns (result: seq<Json>)
    requires source.Arr? && target.Arr? && source != target
    ensures result == Difference(source, target, path)
    decreases source, 0
  {
    hide Difference, ToString;
    DifferenceUnfolds(source, target, path);
    var a, b := source.items, target.items;
    ghost var lo := Min(|a|, |b|);
    var i := 0;
    result := [];
    while i < |a| && i < |b|
      invariant i <= lo && result == Common(source, target, path, i)
      decreases |a| - i
    {
      var temp := ComputeDiff(a[i], b[i], path + "/" + ToString(i));
      result := result + temp;
      i := i + 1;
    }
    ghost var common := result;
    var endIndex := |result|;
    while i < |a|
      invariant lo <= i && (i <= |a| || i == lo)
      invariant result == common + Removals(path, lo, i) && endIndex == |common|
      decreases |a| - i
    {
      result := result[..endIndex] + [RemoveOp(path + "/" + ToString(i))] + result[endIndex..];
      i := i + 1;
    }
    ghost var shrunk := result;
    while i < |b|
      invariant i == |a| >= |b| || lo == |a| <= i <= |b|
      invariant result == shrunk + Appends(path, b, lo, Min(i, |b|))
      decreases |b| - i
    {
      result := result + [AddOp(path + "/-", b[i])];
      i := i + 1;
    }
  }

  method DiffObjects(source: Json, target: Json, path: string) returns (result: seq<Json>)
    requires source.Obj? && target.Obj? && source != target
    ensures result == Difference(source, target, path)
    decreases source, 0
  {
    hide Escape, Keys, Difference, Members, NewMembers;
    DifferenceUnfolds(source, target, path);
    var m, n := source.members, target.members;
    var keys := Keys(m);
    result := [];
    NoMembers(source, target, path);
    for i := 0 to |keys|
      invariant result == Members(source, target, path, keys[..i])
    {
      var k := keys[i];
      NextMember(source, target, path, keys, i);
      var token := EscapeInPlace(k);
      if k in n {
        var temp := ComputeDiff(m[k], n[k], path + "/" + token);
        result := result + temp;
      } else {
        result := result + [RemoveOp(path + "/" + token)];
      }
    }
    ghost var first := result;
    assert first == Members(source, target, path, Keys(m)) by { assert keys[..|keys|] == keys; }
    keys := Keys(n);
    for i := 0 to |keys|
      invariant result == first + NewMembers(m, n, path, keys[..i])
    {
      var k := keys[i];
      NextNewMember(m, n, path, keys, i, first);
      if k !in m {
        var token := EscapeInPlace(k);
        result := result + [AddOp(path + "/" + token, n[k])];
      }
    }
    assert keys[..|keys|] == keys;
  }

  lemma NoMembers(s: Json, t: Json, path: string)
    requires s.Obj? && t.Obj?
    ensures Members(s, t, path, []) == []
    ensures forall q: seq<Json> :: q + NewMembers(s.members, t.members, path, []) == q
  {}

  lemma NextMember(s: Json, t: Json, path: string, keys: seq<string>, i: nat)
    requires s.Obj? && t.Obj? && i < |keys| && forall k | k in keys :: k in s.members
    ensures var k := keys[i];
            Members(s, t, path, keys[..i + 1]) == Members(s, t, path, keys[..i]) +
              if k in t.members then Difference(s.members[k], t.members[k], MemberPath(path, k))
              else [RemoveOp(MemberPath(path, k))]
  {
    hide Difference;
    FrontOfTake(keys, i);
  }

  lemma NextNewMember(m: map<string, Json>, n: map<string, Json>, path: string, keys: seq<string>, i: nat,
                      first: seq<Json>)
    requires i < |keys| && forall k | k in keys :: k in n
    ensures var k := keys[i];
            first + NewMembers(m, n, path, keys[..i + 1]) == first + NewMembers(m, n, path, keys[..i]) +
              if k in m then [] else [AddOp(MemberPath(path, k), n[k])]
  {
    FrontOfTake(keys, i);
  }

  lemma FrontOfTake(ks: seq<string>, i: nat)
    requires i < |ks|
    ensures Front(ks[..i + 1]) == ks[..i] && Last(ks[..i + 1]) == ks[i]
  {}

  // ---------------------------------------------------------------- what the emitted operations do

  lemma DashIsMember(path: string)
    ensures path + "/-" == MemberPath(path, "-")
  {
    EscapeIsMap("-");
    PlainMap("-");
    assert path + "/-" == path + "/" + "-";
  }

  lemma StepReplace(doc: Json, ts: Tokens, x: Json)
    requires Get(doc, ts).Ok?
    ensures Step(doc, ReplaceOp(Print(ts), x)) == Done(Put(doc, ts, x))
  {
    hide Parse, Print;
    ParsePrint(ts);
    assert Decode(ReplaceOp(Print(ts), x)) == Ok(Operation.Replace(ts, x));
  }

  lemma StepRemove(doc: Json, ts: Tokens, k: string)
    requires Get(doc, ts).Ok? && RemoveChild(Get(doc, ts).value, k).Ok?
    ensures Step(doc, RemoveOp(MemberPath(Print(ts), k)))
         == Done(Put(doc, ts, RemoveChild(Get(doc, ts).value, k).value))
  {
    hide Parse, Print, MemberPath;
    MemberPointer(ts, k);
    assert Decode(RemoveOp(MemberPath(Print(ts), k))) == Ok(Remove(ts + [k]));
  }

  lemma StepAdd(doc: Json, ts: Tokens, k: string, x: Json)
    requires Get(doc, ts).Ok? && AddChild(Get(doc, ts).value, k, x).Ok?
    ensures Step(doc, AddOp(MemberPath(Print(ts), k), x))
         == Done(Put(doc, ts, AddChild(Get(doc, ts).value, k, x).value))
  {
    hide Parse, Print, MemberPath;
    MemberPointer(ts, k);
    assert Decode(AddOp(MemberPath(Print(ts), k), x)) == Ok(Add(ts + [k], x));
  }

  // ---------------------------------------------------------------- the patch turns the source into the target

  /** Wherever the source sits in a document, the operations of the difference replace it by the target. */
  lemma {:induction false} DifferenceApplies(doc: Json, ts: Tokens, s: Json, t: Json)
    requires Get(doc, ts) == Ok(s) && Fits(s) && Fits(t)
    ensures Steps(doc, Difference(s, t, Print(ts))) == Done(Put(doc, ts, t))
    decreases s, 2, 0
  {
    hide Print, Get, Put, Step, Common, Members;
    PutLaws(doc, ts, s);
    if s == t {
    } else if s.Arr? && t.Arr? {
      ArraysApply(doc, ts, s, t);
    } else if s.Obj? && t.Obj? {
      ObjectsApply(doc, ts, s, t);
    } else {
      StepReplace(doc, ts, t);
      OneStep(doc, ReplaceOp(Print(ts), t));
    }
  }

  lemma {:induction false} ArraysApply(doc: Json, ts: Tokens, s: Json, t: Json)
    requires Get(doc, ts) == Ok(s) && Fits(s) && Fits(t) && s.Arr? && t.Arr?
    ensures var m, n := |s.items|, |t.items|;
            var p := Print(ts);
            (Steps(doc, Common(s, t, p, Min(m, n)) + Removals(p, Min(m, n), m) + Appends(p, t.items, Min(m, n), n))
             == Done(Put(doc, ts, t)))
    decreases s, 1, 0
  {
    hide Print, Get, Put, Step, Common, Removals, Appends, Steps;
    var a, b, p := s.items, t.items, Print(ts);
    var lo := Min(|a|, |b|);
    CommonApplies(doc, ts, s, t, lo);
    var mixed := b[..lo] + a[lo..];
    var d1 := Put(doc, ts, Arr(mixed));
    PutTwice(doc, ts, Arr(mixed), Arr(b[..lo]));
    RemovalsApply(d1, ts, mixed, lo);
    assert mixed[..lo] == b[..lo];
    var d2 := Put(d1, ts, Arr(b[..lo]));
    PutTwice(doc, ts, Arr(b[..lo]), t);
    AppendsApply(d2, ts, b, lo, |b|);
    assert b[..|b|] == b;
    StepsConcat(doc, Common(s, t, p, lo), Removals(p, lo, |a|));
    StepsConcat(doc, Common(s, t, p, lo) + Removals(p, lo, |a|), Appends(p, b, lo, |b|));
  }

  lemma {:induction false} CommonApplies(doc: Json, ts: Tokens, s: Json, t: Json, n: nat)
    requires Get(doc, ts) == Ok(s) && Fits(s) && Fits(t) && s.Arr? && t.Arr? && n <= |s.items| && n <= |t.items|
    ensures Steps(doc, Common(s, t, Print(ts), n)) == Done(Put(doc, ts, Arr(t.items[..n] + s.items[n..])))
    decreases s, 0, n
  {
    hide Print, Get, Put, Step, Steps, Difference, IndexPath, ToString;
    var a, b := s.items, t.items;
    if n == 0 {
      assert b[..0] + a[0..] == a;
      PutLaws(doc, ts, s);
      NoSteps(doc);
    } else {
      var i := n - 1;
      CommonApplies(doc, ts, s, t, i);
      CommonStep(doc, ts, a, b, i);
      var d, us := Put(doc, ts, Arr(b[..i] + a[i..])), ts + [ToString(i)];
      DifferenceApplies(d, us, a[i], b[i]);
      StepsConcat(doc, Common(s, t, Print(ts), i), Difference(a[i], b[i], Print(us)));
    }
  }

  /** Replacing element i moves the boundary between target and source elements by one. */
  lemma CommonStep(doc: Json, ts: Tokens, a: seq<Json>, b: seq<Json>, i: nat)
    requires Get(doc, ts).Ok? && i < |a| <= SIZE_MAX && i < |b|
    ensures var d, us := Put(doc, ts, Arr(b[..i] + a[i..])), ts + [ToString(i)];
            && IndexPath(Print(ts), i) == Print(us)
            && Get(d, us) == Ok(a[i])
            && Put(d, us, b[i]) == Put(doc, ts, Arr(b[..i + 1] + a[i + 1..]))
  {
    hide Print, Get, Put, MemberPath, IndexPath, ToString, Child, SetChild;
    var w, k := Arr(b[..i] + a[i..]), ToString(i);
    ElementAt(w, i);
    PutInside(doc, ts, w, k, b[i]);
    NextCommon(a, b, i);
    IndexIsMember(Print(ts), i);
    MemberPointer(ts, k);
  }

  lemma NextCommon(a: seq<Json>, b: seq<Json>, i: nat)
    requires i < |a| <= SIZE_MAX && i < |b|
    ensures Child(Arr(b[..i] + a[i..]), ToString(i)).Ok?
    ensures SetChild(Arr(b[..i] + a[i..]), ToString(i), b[i]) == Arr(b[..i + 1] + a[i + 1..])
  {
    ArrayIndexExact(ToString(i), i);
    ArrayIndexExact("-", i);
  }

  lemma NoSteps(doc: Json)
    ensures Steps(doc, []) == Done(doc)
  {}

  lemma {:induction false} RemovalsApply(doc: Json, ts: Tokens, a: seq<Json>, lo: nat)
    requires Get(doc, ts) == Ok(Arr(a)) && lo <= |a| <= SIZE_MAX
    ensures Steps(doc, Removals(Print(ts), lo, |a|)) == Done(Put(doc, ts, Arr(a[..lo])))
    decreases |a|
  {
    hide Print, Get, Put, Step;
    if lo == |a| {
      assert a[..lo] == a;
      PutLaws(doc, ts, Arr(a));
    } else {
      var k := ToString(|a| - 1);
      ArrayIndexExact(k, |a| - 1);
      IndexIsMember(Print(ts), |a| - 1);
      assert a[..|a| - 1] + a[|a|..] == a[..|a| - 1];
      StepRemove(doc, ts, k);
      var shorter := a[..|a| - 1];
      PutTwice(doc, ts, Arr(shorter), Arr(a[..lo]));
      RemovalsApply(Put(doc, ts, Arr(shorter)), ts, shorter, lo);
      assert shorter[..lo] == a[..lo];
    }
  }

  lemma {:induction false} AppendsApply(doc: Json, ts: Tokens, b: seq<Json>, lo: nat, hi: nat)
    requires lo <= hi <= |b| && Get(doc, ts) == Ok(Arr(b[..lo]))
    ensures Steps(doc, Appends(Print(ts), b, lo, hi)) == Done(Put(doc, ts, Arr(b[..hi])))
    decreases hi
  {
    hide Print, Get, Put, Step;
    if lo == hi {
      PutLaws(doc, ts, Arr(b[..lo]));
    } else {
      AppendsApply(doc, ts, b, lo, hi - 1);
      var d := Put(doc, ts, Arr(b[..hi - 1]));
      PutTwice(doc, ts, Arr(b[..hi - 1]), Arr(b[..hi]));
      DashIsMember(Print(ts));
      StepAdd(d, ts, "-", b[hi - 1]);
      assert b[..hi - 1] + [b[hi - 1]] == b[..hi];
      var o := AddOp(Print(ts) + "/-", b[hi - 1]);
      OneStep(d, o);
      StepsConcat(doc, Appends(Print(ts), b, lo, hi - 1), [o]);
    }
  }

  /** m with the keys of done treated as in n: taken over from n, or absent. */
  function Mix(m: map<string, Json>, n: map<string, Json>, done: set<string>): map<string, Json> {
    map k | k in m.Keys + n.Keys && (if k in done then k in n else k in m) :: if k in done then n[k] else m[k]
  }

  lemma {:induction false} ObjectsApply(doc: Json, ts: Tokens, s: Json, t: Json)
    requires Get(doc, ts) == Ok(s) && Fits(s) && Fits(t) && s.Obj? && t.Obj?
    ensures var m, n := s.members, t.members;
            (Steps(doc, Members(s, t, Print(ts), Keys(m)) + NewMembers(m, n, Print(ts), Keys(n)))
             == Done(Put(doc, ts, t)))
    decreases s, 1, 0
  {
    hide Print, Get, Put, Step, Members, NewMembers, Steps, Mix, Keys;
    var m, n := s.members, t.members;
    MembersApply(doc, ts, s, t, Keys(m));
    assert Elements(Keys(m)) == m.Keys && Elements(Keys(n)) == n.Keys;
    var half := Obj(Mix(m, n, m.Keys));
    MixAll(m, n);
    PutTwice(doc, ts, half, t);
    NewMembersApply(Put(doc, ts, half), ts, m, n, Keys(n));
    StepsConcat(doc, Members(s, t, Print(ts), Keys(m)), NewMembers(m, n, Print(ts), Keys(n)));
  }

  lemma MixAll(m: map<string, Json>, n: map<string, Json>)
    ensures Mix(m, n, m.Keys + n.Keys) == n
  {}

  lemma {:induction false} MembersApply(doc: Json, ts: Tokens, s: Json, t: Json, ks: seq<string>)
    requires Get(doc, ts) == Ok(s) && Fits(s) && Fits(t) && s.Obj? && t.Obj?
    requires forall k | k in ks :: k in s.members
    requires StrictlyAscending(ks)
    ensures Steps(doc, Members(s, t, Print(ts), ks)) == Done(Put(doc, ts, Obj(Mix(s.members, t.members, Elements(ks)))))
    decreases s, 0, |ks|
  {
    hide Print, Get, Put, Step, Steps, Difference, MemberPath;
    var m, n := s.members, t.members;
    if ks == [] {
      assert Mix(m, n, Elements(ks)) == m;
      PutLaws(doc, ts, s);
      NoSteps(doc);
    } else {
      var k, init := Last(ks), Front(ks);
      FreshKey(ks);
      MembersApply(doc, ts, s, t, init);
      var w, w' := Obj(Mix(m, n, Elements(init))), Obj(Mix(m, n, Elements(ks)));
      NextMix(m, n, Elements(init), k);
      assert Elements(ks) == Elements(init) + {k};
      var d := Put(doc, ts, w);
      if k in n {
        PutInside(doc, ts, w, k, n[k]);
        MemberPointer(ts, k);
        DifferenceApplies(d, ts + [k], m[k], n[k]);
        StepsConcat(doc, Members(s, t, Print(ts), init), Difference(m[k], n[k], MemberPath(Print(ts), k)));
      } else {
        PutTwice(doc, ts, w, w');
        StepRemove(d, ts, k);
        OneStep(d, RemoveOp(MemberPath(Print(ts), k)));
        StepsConcat(doc, Members(s, t, Print(ts), init), [RemoveOp(MemberPath(Print(ts), k))]);
      }
    }
  }

  lemma NextMix(m: map<string, Json>, n: map<string, Json>, done: set<string>, k: string)
    requires k in m && k !in done
    ensures k in Mix(m, n, done) && Mix(m, n, done)[k] == m[k]
    ensures k in n ==> Mix(m, n, done)[k := n[k]] == Mix(m, n, done + {k})
    ensures k !in n ==> Mix(m, n, done) - {k} == Mix(m, n, done + {k})
  {}

  lemma FreshKey(ks: seq<string>)
    requires ks != [] && StrictlyAscending(ks)
    ensures Last(ks) !in Front(ks)
  {
    BeforeIrreflexive(Last(ks));
  }

  lemma {:induction false} NewMembersApply(doc: Json, ts: Tokens, m: map<string, Json>, n: map<string, Json>,
                                           ks: seq<string>)
    requires Get(doc, ts) == Ok(Obj(Mix(m, n, m.Keys)))
    requires forall k | k in ks :: k in n
    ensures Steps(doc, NewMembers(m, n, Print(ts), ks)) == Done(Put(doc, ts, Obj(Mix(m, n, m.Keys + Elements(ks)))))
    decreases |ks|
  {
    hide Print, Get, Put, Step, Steps, MemberPath;
    if ks == [] {
      assert m.Keys + Elements(ks) == m.Keys;
      PutLaws(doc, ts, Obj(Mix(m, n, m.Keys)));
      NoSteps(doc);
    } else {
      var k, init := Last(ks), Front(ks);
      NewMembersApply(doc, ts, m, n, init);
      var done := m.Keys + Elements(init);
      assert m.Keys + Elements(ks) == done + {k};
      NextNewMix(m, n, done, k);
      var w, w' := Obj(Mix(m, n, done)), Obj(Mix(m, n, done + {k}));
      var d := Put(doc, ts, w);
      PutTwice(doc, ts, w, w');
      if k !in m {
        StepAdd(d, ts, k, n[k]);
        var o := AddOp(MemberPath(Print(ts), k), n[k]);
        OneStep(d, o);
        StepsConcat(doc, NewMembers(m, n, Print(ts), init), [o]);
      } else {
        var before := NewMembers(m, n, Print(ts), init);
        assert NewMembers(m, n, Print(ts), ks) == before + [] == before;
      }
    }
  }

  lemma NextNewMix(m: map<string, Json>, n: map<string, Json>, done: set<string>, k: string)
    requires m.Keys <= done && k in n
    ensures k in m ==> Mix(m, n, done) == Mix(m, n, done + {k})
    ensures Mix(m, n, done)[k := n[k]] == Mix(m, n, done + {k})
  {
    if k in m { assert done + {k} == done; }
  }

  /** patch(s, diff(s, t)) is t: every operation applies, and the result is the target. */
  lemma DiffThenPatch(s: Json, t: Json)
    requires Fits(s) && Fits(t)
    ensures Patched(s, Arr(Difference(s, t, ""))) == Done(t)
  {
    DifferenceApplies(s, [], s, t);
  }

  /** The difference is empty exactly between equal documents. */
  lemma NoDifference(s: Json, t: Json)
    requires Fits(s) && Fits(t)
    ensures Difference(s, t, "") == [] <==> s == t
  {
    DiffThenPatch(s, t);
  }

  /** Computing the difference and applying it, as a caller does. */
  method DiffAndPatch(source: Json, target: Json) returns (r: Result<Json>)
    requires Fits(source) && Fits(target)
    ensures r == Ok(target)
  {
    var operations := ComputeDiff(source, target, "");
    DiffThenPatch(source, target);
    r := PatchCopy(source, Arr(operations));
  }
}
