// Which operations diff emits, and in which order.
module DiffExact {
  import opened Decimals
  import opened Diff
  import opened JsonPointer
  import opened JsonValue
  import opened Patch

  /** Values that diff looks into together. */
  predicate SameContainer(s: Json, t: Json) {
    (s.Arr? && t.Arr?) || (s.Obj? && t.Obj?)
  }

  /**
   * o, with a path relative to s and t, is one of their differences: a replaced value where they are not containers of
   * one kind, a member or element that only one of them has, or a difference of children that both have.
   */
  predicate Differs(s: Json, t: Json, o: Operation)
    decreases |o.path|
  {
    s != t &&
    if !SameContainer(s, t) then o == Operation.Replace([], t)
    else
      o.path != [] &&
      var k := o.path[0];
      if Child(s, k).Ok? && Child(t, k).Ok? then
        Differs(Child(s, k).value, Child(t, k).value, o.(path := o.path[1..]))
      else o.path == [k] && OneSided(s, t, k, o)
  }

  predicate OneSided(s: Json, t: Json, k: string, o: Operation)
    requires SameContainer(s, t)
  {
    || (o.Remove? && Child(s, k).Ok? && Child(t, k).Err?)
    || (o.Add? && s.Obj? && Child(s, k).Err? && Child(t, k) == Ok(o.value))
    || (o.Add? && s.Arr? && k == "-" && exists i | |s.items| <= i < |t.items| :: o.value == t.items[i])
  }

  /** The element of the patch for an operation below ps. */
  function Text(ps: Tokens, o: Operation): Json {
    Obj(Encode(o.(path := ps + o.path)))
  }

  function Below(k: string, o: Operation): Operation {
    o.(path := [k] + o.path)
  }

  lemma TextBelow(ps: Tokens, k: string, o: Operation)
    ensures Text(ps + [k], o) == Text(ps, Below(k, o))
    ensures Below(k, o).path[0] == k && Below(k, o).(path := Below(k, o).path[1..]) == o
  {
    hide Encode;
    assert ps + [k] + o.path == ps + ([k] + o.path);
    assert ([k] + o.path)[1..] == o.path;
  }

  lemma Emitted(ps: Tokens, k: string, x: Json)
    ensures ReplaceOp(Print(ps), x) == Text(ps, Operation.Replace([], x))
    ensures RemoveOp(MemberPath(Print(ps), k)) == Text(ps, Remove([k]))
    ensures AddOp(MemberPath(Print(ps), k), x) == Text(ps, Add([k], x))
  {
    hide Print, MemberPath;
    MemberPointer(ps, k);
    assert ps + [] == ps;
  }

  lemma DiffersBelow(s: Json, t: Json, k: string, o: Operation)
    requires SameContainer(s, t) && Child(s, k).Ok? && Child(t, k).Ok?
    ensures Differs(s, t, Below(k, o)) <==> s != t && Differs(Child(s, k).value, Child(t, k).value, o)
  {
    TextBelow([], k, o);
  }

  lemma NoDifferenceOfEqual(s: Json, o: Operation)
    ensures !Differs(s, s, o)
  {}

  lemma ChildrenDiffer(s: Json, t: Json, k: string)
    requires Child(s, k).Ok? && Child(t, k).Ok? && Child(s, k) != Child(t, k)
    ensures s != t
  {}

  /** The ways in which an element of the difference of two arrays can come about. */
  lemma PartsOfArrays(s: Json, t: Json, path: string, v: Json)
    requires s.Arr? && t.Arr? && s != t
    ensures var m, n := |s.items|, |t.items|;
            v in Difference(s, t, path) <==>
              || v in Common(s, t, path, Min(m, n))
              || v in Removals(path, Min(m, n), m)
              || v in Appends(path, t.items, Min(m, n), n)
  {
    hide Difference, Common, Removals, Appends;
    DifferenceUnfolds(s, t, path);
  }

  lemma {:induction false} InCommon(s: Json, t: Json, path: string, n: nat, v: Json)
    requires s.Arr? && t.Arr? && n <= |s.items| && n <= |t.items|
    ensures v in Common(s, t, path, n) <==>
              exists i: nat | i < n :: v in Difference(s.items[i], t.items[i], IndexPath(path, i))
    decreases n
  {
    hide Difference, IndexPath;
    if n > 0 { InCommon(s, t, path, n - 1, v); }
  }

  lemma {:induction false} InRemovals(path: string, lo: nat, hi: nat, v: Json)
    ensures v in Removals(path, lo, hi) <==> exists i: nat | lo <= i < hi :: v == RemoveOp(IndexPath(path, i))
    decreases hi
  {
    hide RemoveOp, IndexPath, Removals;
    NextRemoval(path, lo, hi, v);
    if lo < hi { InRemovals(path, lo, hi - 1, v); }
  }

  lemma NextRemoval(path: string, lo: nat, hi: nat, v: Json)
    ensures v in Removals(path, lo, hi) <==>
              lo < hi && (v == RemoveOp(IndexPath(path, hi - 1)) || v in Removals(path, lo, hi - 1))
  {
    hide RemoveOp, IndexPath;
  }

  lemma {:induction false} InAppends(path: string, b: seq<Json>, lo: nat, hi: nat, v: Json)
    requires hi <= |b|
    ensures v in Appends(path, b, lo, hi) <==> exists i: nat | lo <= i < hi :: v == AddOp(path + "/-", b[i])
    decreases hi
  {
    hide AddOp, Appends;
    NextAppend(path, b, lo, hi, v);
    if lo < hi { InAppends(path, b, lo, hi - 1, v); }
  }

  lemma NextAppend(path: string, b: seq<Json>, lo: nat, hi: nat, v: Json)
    requires hi <= |b|
    ensures v in Appends(path, b, lo, hi) <==>
              lo < hi && (v == AddOp(path + "/-", b[hi - 1]) || v in Appends(path, b, lo, hi - 1))
  {
    hide AddOp;
  }

  lemma {:induction false} InMembers(s: Json, t: Json, path: string, ks: seq<string>, v: Json)
    requires s.Obj? && t.Obj? && forall k | k in ks :: k in s.members
    ensures v in Members(s, t, path, ks) <==>
              exists k | k in ks ::
                if k in t.members then v in Difference(s.members[k], t.members[k], MemberPath(path, k))
                else v == RemoveOp(MemberPath(path, k))
    decreases |ks|
  {
    hide Difference, RemoveOp, MemberPath;
    if ks != [] {
      assert ks == Front(ks) + [Last(ks)];
      InMembers(s, t, path, Front(ks), v);
    }
  }

  lemma {:induction false} InNewMembers(m: map<string, Json>, n: map<string, Json>, path: string, ks: seq<string>,
                                        v: Json)
    requires forall k | k in ks :: k in n
    ensures v in NewMembers(m, n, path, ks) <==>
              exists k | k in ks :: k !in m && v == AddOp(MemberPath(path, k), n[k])
    decreases |ks|
  {
    hide AddOp, MemberPath;
    if ks != [] {
      assert ks == Front(ks) + [Last(ks)];
      InNewMembers(m, n, path, Front(ks), v);
    }
  }

  lemma PartsOfObjects(s: Json, t: Json, path: string, v: Json)
    requires s.Obj? && t.Obj? && s != t
    ensures var m, n := s.members, t.members;
            v in Difference(s, t, path) <==> v in Members(s, t, path, Keys(m)) || v in NewMembers(m, n, path, Keys(n))
  {
    hide Difference, Members, NewMembers, Keys;
    DifferenceUnfolds(s, t, path);
  }

  // ---------------------------------------------------------------- every emitted operation is a difference

  lemma {:induction false} EmittedDiffers(s: Json, t: Json, ps: Tokens, v: Json) returns (o: Operation)
    requires Fits(s) && Fits(t) && v in Difference(s, t, Print(ps))
    ensures v == Text(ps, o) && Differs(s, t, o)
    decreases s
  {
    hide Print, Difference, Common, Removals, Appends, Members, NewMembers, Text, Fits;
    DifferenceFlat(s, t, Print(ps));
    if s.Arr? && t.Arr? {
      o := ArrayEmits(s, t, ps, v);
    } else if s.Obj? && t.Obj? {
      o := ObjectEmits(s, t, ps, v);
    } else {
      Emitted(ps, "", t);
      o := Operation.Replace([], t);
      FlatKinds(s, t);
    }
  }

  lemma FlatKinds(s: Json, t: Json)
    requires !SameContainer(s, t)
    ensures !SameType(s, t) || Primitive(s)
  {}

  lemma ArrayEmits(s: Json, t: Json, ps: Tokens, v: Json) returns (o: Operation)
    requires s.Arr? && t.Arr? && s != t && Fits(s) && Fits(t) && v in Difference(s, t, Print(ps))
    ensures v == Text(ps, o) && Differs(s, t, o)
    decreases s, 0
  {
    hide Print, Difference, Common, Removals, Appends, Text, Differs, AddOp, RemoveOp, ToString;
    var m, n, p := |s.items|, |t.items|, Print(ps);
    PartsOfArrays(s, t, p, v);
    InCommon(s, t, p, Min(m, n), v);
    InRemovals(p, Min(m, n), m, v);
    InAppends(p, t.items, Min(m, n), n, v);
    if v in Common(s, t, p, Min(m, n)) {
      var i: nat :| i < Min(m, n) && v in Difference(s.items[i], t.items[i], IndexPath(p, i));
      IndexIsMember(p, i);
      MemberPointer(ps, ToString(i));
      var u := EmittedDiffers(s.items[i], t.items[i], ps + [ToString(i)], v);
      ElementAt(s, i);
      ElementAt(t, i);
      DiffersBelow(s, t, ToString(i), u);
      TextBelow(ps, ToString(i), u);
      o := Below(ToString(i), u);
    } else if v in Removals(p, Min(m, n), m) {
      var i: nat :| Min(m, n) <= i < m && v == RemoveOp(IndexPath(p, i));
      IndexIsMember(p, i);
      Emitted(ps, ToString(i), Null);
      o := Remove([ToString(i)]);
      ElementAt(s, i);
      ElementBehind(t, i);
      OneSidedDiffers(s, t, ToString(i), o);
    } else {
      var i: nat :| Min(m, n) <= i < n && v == AddOp(p + "/-", t.items[i]);
      DashIsMember(p);
      Emitted(ps, "-", t.items[i]);
      o := Add(["-"], t.items[i]);
      OneSidedDiffers(s, t, "-", o);
    }
  }

  lemma ElementBehind(v: Json, i: nat)
    requires v.Arr? && |v.items| <= i < SIZE_MAX
    ensures Child(v, ToString(i)).Err?
  {
    ArrayIndexExact(ToString(i), i);
  }

  lemma ObjectEmits(s: Json, t: Json, ps: Tokens, v: Json) returns (o: Operation)
    requires s.Obj? && t.Obj? && s != t && Fits(s) && Fits(t) && v in Difference(s, t, Print(ps))
    ensures v == Text(ps, o) && Differs(s, t, o)
    decreases s, 1
  {
    hide Print, Difference, Members, NewMembers, Text, MemberPath, Differs, Keys, AddOp, RemoveOp, Fits;
    var m, n, p := s.members, t.members, Print(ps);
    PartsOfObjects(s, t, p, v);
    InMembers(s, t, p, Keys(m), v);
    InNewMembers(m, n, p, Keys(n), v);
    if v in Members(s, t, p, Keys(m)) {
      var k :| k in Keys(m)
               && if k in n then v in Difference(m[k], n[k], MemberPath(p, k)) else v == RemoveOp(MemberPath(p, k));
      if k in n {
        o := MemberEmits(s, t, ps, k, v);
      } else {
        Emitted(ps, k, Null);
        o := Remove([k]);
        OneSidedDiffers(s, t, k, o);
      }
    } else {
      var k :| k in Keys(n) && k !in m && v == AddOp(MemberPath(p, k), n[k]);
      Emitted(ps, k, n[k]);
      o := Add([k], n[k]);
      OneSidedDiffers(s, t, k, o);
    }
  }

  lemma MemberEmits(s: Json, t: Json, ps: Tokens, k: string, v: Json) returns (o: Operation)
    requires s.Obj? && t.Obj? && s != t && Fits(s) && Fits(t) && k in s.members && k in t.members
    requires v in Difference(s.members[k], t.members[k], MemberPath(Print(ps), k))
    ensures v == Text(ps, o) && Differs(s, t, o)
    decreases s, 0
  {
    hide Print, Difference, Text, MemberPath, Differs, Fits;
    MemberFits(s, k);
    MemberFits(t, k);
    MemberPointer(ps, k);
    var u := EmittedDiffers(s.members[k], t.members[k], ps + [k], v);
    DiffersBelow(s, t, k, u);
    TextBelow(ps, k, u);
    o := Below(k, u);
  }

  lemma MemberFits(v: Json, k: string)
    requires v.Obj? && Fits(v) && k in v.members
    ensures Fits(v.members[k])
  {}

  lemma OneSidedDiffers(s: Json, t: Json, k: string, o: Operation)
    requires SameContainer(s, t) && s != t && o.path == [k] && (Child(s, k).Err? || Child(t, k).Err?)
    ensures Differs(s, t, o) <==> OneSided(s, t, k, o)
  {}

  // ---------------------------------------------------------------- every difference is emitted

  lemma {:induction false} DifferenceIsEmitted(s: Json, t: Json, ps: Tokens, o: Operation)
    requires Fits(s) && Fits(t) && Differs(s, t, o)
    ensures Text(ps, o) in Difference(s, t, Print(ps))
    decreases s
  {
    hide Print, Difference, Text, Fits;
    if !SameContainer(s, t) {
      DifferenceFlat(s, t, Print(ps));
      FlatKinds(s, t);
      Emitted(ps, "", t);
    } else {
      var k := o.path[0];
      if Child(s, k).Ok? && Child(t, k).Ok? {
        var u := o.(path := o.path[1..]);
        assert [k] + o.path[1..] == o.path;
        assert o == Below(k, u);
        ChildIsSmaller(s, k);
        ChildIsSmaller(t, k);
        DifferenceIsEmitted(Child(s, k).value, Child(t, k).value, ps + [k], u);
        TextBelow(ps, k, u);
        MemberPointer(ps, k);
        ChildEmits(s, t, Print(ps), k, Text(ps, o));
      } else {
        OneSidedEmits(s, t, ps, k, o);
      }
    }
  }

  lemma ChildIsSmaller(v: Json, k: string)
    requires Fits(v) && Child(v, k).Ok?
    ensures Fits(Child(v, k).value) && Child(v, k).value < v
  {}

  lemma ChildEmits(s: Json, t: Json, path: string, k: string, v: Json)
    requires SameContainer(s, t) && s != t && Child(s, k).Ok? && Child(t, k).Ok?
    requires v in Difference(Child(s, k).value, Child(t, k).value, MemberPath(path, k))
    ensures v in Difference(s, t, path)
  {
    hide Difference, Common, Removals, Appends, Members, NewMembers, MemberPath;
    if s.Arr? {
      var i := ArrayIndex(k).value;
      ArrayIndexExact(k, i);
      IndexIsMember(path, i);
      PartsOfArrays(s, t, path, v);
      InCommon(s, t, path, Min(|s.items|, |t.items|), v);
      assert v in Difference(s.items[i], t.items[i], IndexPath(path, i));
    } else {
      PartsOfObjects(s, t, path, v);
      InMembers(s, t, path, Keys(s.members), v);
      assert k in Keys(s.members);
    }
  }

  lemma OneSidedEmits(s: Json, t: Json, ps: Tokens, k: string, o: Operation)
    requires SameContainer(s, t) && s != t && Fits(s) && Fits(t) && o.path == [k] && OneSided(s, t, k, o)
    ensures Text(ps, o) in Difference(s, t, Print(ps))
  {
    hide Print, Difference, Common, Removals, Appends, Members, NewMembers, Text, MemberPath;
    var p, v := Print(ps), Text(ps, o);
    Emitted(ps, k, if o.Add? then o.value else Null);
    if s.Arr? {
      PartsOfArrays(s, t, p, v);
      var m, n := |s.items|, |t.items|;
      if o.Remove? {
        var i := ArrayIndex(k).value;
        ArrayIndexExact(k, i);
        ArrayIndexExact("-", i);
        IndexIsMember(p, i);
        InRemovals(p, Min(m, n), m, v);
        assert v == RemoveOp(IndexPath(p, i));
      } else {
        var i :| m <= i < n && o.value == t.items[i];
        DashIsMember(p);
        InAppends(p, t.items, Min(m, n), n, v);
        assert v == AddOp(p + "/-", t.items[i]);
      }
    } else {
      PartsOfObjects(s, t, p, v);
      if o.Remove? {
        InMembers(s, t, p, Keys(s.members), v);
        assert k in Keys(s.members);
      } else {
        InNewMembers(s.members, t.members, p, Keys(t.members), v);
        assert k in Keys(t.members);
      }
    }
  }

  /** The patch of diff holds exactly the differences of the two values. */
  lemma ExactlyTheDifferences(s: Json, t: Json, v: Json)
    requires Fits(s) && Fits(t)
    ensures v in Difference(s, t, "") <==> exists o :: v == Obj(Encode(o)) && Differs(s, t, o)
  {
    hide Difference, Differs, Fits;
    PrintNothing();
    if v in Difference(s, t, "") {
      var o := EmittedDiffers(s, t, [], v);
      assert [] + o.path == o.path;
      assert v == Obj(Encode(o)) && Differs(s, t, o);
    }
    forall o | v == Obj(Encode(o)) && Differs(s, t, o) ensures v in Difference(s, t, "") {
      DifferenceIsEmitted(s, t, [], o);
      assert [] + o.path == o.path;
    }
  }

  // ---------------------------------------------------------------- the order of the operations

  /**
   * Which children of s and t come first. Objects: those of the source, then the new ones, each in ascending order.
   * Arrays: the common elements in ascending order, the removed ones in descending order, the appended ones.
   */
  predicate TokenBefore(s: Json, t: Json, k: string, l: string)
    requires SameContainer(s, t)
  {
    if s.Obj? then
      (k in s.members && l !in s.members) || ((k in s.members <==> l in s.members) && Before(k, l))
    else
      l == "-" ||
      (ArrayIndex(k).Ok? && ArrayIndex(l).Ok? &&
       var lo, i, j := Min(|s.items|, |t.items|), ArrayIndex(k).value, ArrayIndex(l).value;
       if j < lo then i < j else i < lo || i > j)
  }

  /** An operation at us comes before one at ws. */
  predicate Precedes(s: Json, t: Json, us: Tokens, ws: Tokens)
    decreases |us|
  {
    SameContainer(s, t) && us != [] && ws != [] &&
    var k := us[0];
    if k == ws[0] && Child(s, k).Ok? && Child(t, k).Ok? then
      Precedes(Child(s, k).value, Child(t, k).value, us[1..], ws[1..])
    else TokenBefore(s, t, k, ws[0])
  }

  ghost predicate InTurn(s: Json, t: Json, ps: Tokens, v: Json, w: Json) {
    exists o, u :: v == Text(ps, o) && w == Text(ps, u) && Precedes(s, t, o.path, u.path)
  }

  ghost predicate AllInTurn(s: Json, t: Json, ps: Tokens, q: seq<Json>) {
    forall i, j | 0 <= i < j < |q| :: InTurn(s, t, ps, q[i], q[j])
  }

  /** v is the text of an operation in or below the child k. */
  ghost predicate Heads(ps: Tokens, k: string, v: Json) {
    exists o :: v == Text(ps, Below(k, o))
  }

  lemma HeadsDecide(s: Json, t: Json, ps: Tokens, k: string, l: string, v: Json, w: Json)
    requires SameContainer(s, t) && Heads(ps, k, v) && Heads(ps, l, w)
    requires TokenBefore(s, t, k, l) && (k == l ==> Child(s, k).Err?)
    ensures InTurn(s, t, ps, v, w)
  {
    hide Text, TokenBefore, Child;
    var o :| v == Text(ps, Below(k, o));
    var u :| w == Text(ps, Below(l, u));
    assert Precedes(s, t, Below(k, o).path, Below(l, u).path);
  }

  lemma ConcatInTurn(s: Json, t: Json, ps: Tokens, a: seq<Json>, b: seq<Json>)
    requires AllInTurn(s, t, ps, a) && AllInTurn(s, t, ps, b)
    requires forall v, w | v in a && w in b :: InTurn(s, t, ps, v, w)
    ensures AllInTurn(s, t, ps, a + b)
  {
    hide InTurn;
  }

  lemma HeadsOfOne(ps: Tokens, k: string, x: Json)
    ensures Heads(ps, k, RemoveOp(MemberPath(Print(ps), k)))
    ensures Heads(ps, k, AddOp(MemberPath(Print(ps), k), x))
  {
    hide Text, Print, MemberPath;
    Emitted(ps, k, x);
    assert [k] + [] == [k];
    assert Below(k, Remove([])) == Remove([k]) && Below(k, Add([], x)) == Add([k], x);
  }

  lemma HeadsBelow(a: Json, b: Json, ps: Tokens, k: string)
    requires Fits(a) && Fits(b)
    ensures forall v | v in Difference(a, b, MemberPath(Print(ps), k)) :: Heads(ps, k, v)
  {
    hide Text, Print, MemberPath, Difference, Differs, Fits;
    MemberPointer(ps, k);
    forall v | v in Difference(a, b, MemberPath(Print(ps), k)) ensures Heads(ps, k, v) {
      var o := EmittedDiffers(a, b, ps + [k], v);
      TextBelow(ps, k, o);
    }
  }

  lemma InTurnBelow(s: Json, t: Json, ps: Tokens, k: string, v: Json, w: Json)
    requires SameContainer(s, t) && Child(s, k).Ok? && Child(t, k).Ok?
    requires InTurn(Child(s, k).value, Child(t, k).value, ps + [k], v, w)
    ensures InTurn(s, t, ps, v, w)
  {
    hide Text, Child;
    var a, b := Child(s, k).value, Child(t, k).value;
    var o, u :| v == Text(ps + [k], o) && w == Text(ps + [k], u) && Precedes(a, b, o.path, u.path);
    TextBelow(ps, k, o);
    TextBelow(ps, k, u);
    assert ([k] + o.path)[1..] == o.path && ([k] + u.path)[1..] == u.path;
    assert Precedes(s, t, Below(k, o).path, Below(k, u).path);
  }

  lemma {:induction false} DifferenceInTurn(s: Json, t: Json, ps: Tokens)
    requires Fits(s) && Fits(t)
    ensures AllInTurn(s, t, ps, Difference(s, t, Print(ps)))
    decreases s, 2, 0
  {
    hide Print, Difference, Common, Removals, Appends, Members, NewMembers, InTurn;
    DifferenceFlat(s, t, Print(ps));
    if s != t && s.Arr? && t.Arr? {
      ArrayInTurn(s, t, ps);
    } else if s != t && s.Obj? && t.Obj? {
      ObjectInTurn(s, t, ps);
    }
  }

  lemma ChildInTurn(s: Json, t: Json, ps: Tokens, k: string)
    requires Fits(s) && Fits(t) && SameContainer(s, t) && Child(s, k).Ok? && Child(t, k).Ok?
    ensures AllInTurn(s, t, ps, Difference(Child(s, k).value, Child(t, k).value, MemberPath(Print(ps), k)))
    decreases s, 0, 0
  {
    hide Print, Difference, InTurn, MemberPath;
    var a, b := Child(s, k).value, Child(t, k).value;
    ChildIsSmaller(s, k);
    ChildIsSmaller(t, k);
    MemberPointer(ps, k);
    DifferenceInTurn(a, b, ps + [k]);
    var q := Difference(a, b, MemberPath(Print(ps), k));
    forall i, j | 0 <= i < j < |q| ensures InTurn(s, t, ps, q[i], q[j]) {
      InTurnBelow(s, t, ps, k, q[i], q[j]);
    }
  }

  ghost predicate HeadsAmong(ps: Tokens, v: Json, lo: nat, hi: nat) {
    exists i: nat | lo <= i < hi :: Heads(ps, ToString(i), v)
  }

  lemma HeadsOfCommon(s: Json, t: Json, ps: Tokens, n: nat)
    requires s.Arr? && t.Arr? && Fits(s) && Fits(t) && n <= |s.items| && n <= |t.items|
    ensures forall v | v in Common(s, t, Print(ps), n) :: HeadsAmong(ps, v, 0, n)
  {
    hide Print, Difference, Common, Heads, MemberPath, IndexPath, ToString;
    forall v | v in Common(s, t, Print(ps), n) ensures HeadsAmong(ps, v, 0, n) {
      InCommon(s, t, Print(ps), n, v);
      var i: nat :| i < n && v in Difference(s.items[i], t.items[i], IndexPath(Print(ps), i));
      IndexIsMember(Print(ps), i);
      HeadsBelow(s.items[i], t.items[i], ps, ToString(i));
    }
  }

  lemma HeadsOfRemovals(ps: Tokens, lo: nat, hi: nat)
    ensures forall v | v in Removals(Print(ps), lo, hi) :: HeadsAmong(ps, v, lo, hi)
  {
    hide Print, Removals, Heads, MemberPath, IndexPath, RemoveOp, ToString;
    forall v | v in Removals(Print(ps), lo, hi) ensures HeadsAmong(ps, v, lo, hi) {
      InRemovals(Print(ps), lo, hi, v);
      var i: nat :| lo <= i < hi && v == RemoveOp(IndexPath(Print(ps), i));
      IndexIsMember(Print(ps), i);
      HeadsOfOne(ps, ToString(i), Null);
    }
  }

  lemma HeadsOfAppends(ps: Tokens, b: seq<Json>, lo: nat, hi: nat)
    requires hi <= |b|
    ensures forall v | v in Appends(Print(ps), b, lo, hi) :: Heads(ps, "-", v)
  {
    hide Print, Appends, Heads, MemberPath, AddOp;
    forall v | v in Appends(Print(ps), b, lo, hi) ensures Heads(ps, "-", v) {
      InAppends(Print(ps), b, lo, hi, v);
      var i: nat :| lo <= i < hi && v == AddOp(Print(ps) + "/-", b[i]);
      DashIsMember(Print(ps));
      HeadsOfOne(ps, "-", b[i]);
    }
  }

  /** Elements of an array, by their indices. */
  lemma IndexDecides(s: Json, t: Json, ps: Tokens, i: nat, j: nat, v: Json, w: Json)
    requires s.Arr? && t.Arr? && i < SIZE_MAX && j < SIZE_MAX
    requires Heads(ps, ToString(i), v) && Heads(ps, ToString(j), w)
    requires var lo := Min(|s.items|, |t.items|); if j < lo then i < j else i < lo || i > j
    ensures InTurn(s, t, ps, v, w)
  {
    hide Heads, InTurn, ToString, ArrayIndex, Child;
    ArrayIndexExact(ToString(i), i);
    ArrayIndexExact(ToString(j), j);
    HeadsDecide(s, t, ps, ToString(i), ToString(j), v, w);
  }

  lemma {:induction false} CommonInTurn(s: Json, t: Json, ps: Tokens, n: nat)
    requires s.Arr? && t.Arr? && Fits(s) && Fits(t) && n <= |s.items| && n <= |t.items|
    ensures AllInTurn(s, t, ps, Common(s, t, Print(ps), n))
    decreases s, 1, n
  {
    hide Print, Difference, InTurn, Heads, IndexPath, MemberPath, ToString;
    if n > 0 {
      var i, p := n - 1, Print(ps);
      CommonInTurn(s, t, ps, i);
      IndexIsMember(p, i);
      ElementAt(s, i);
      ElementAt(t, i);
      ChildInTurn(s, t, ps, ToString(i));
      HeadsOfCommon(s, t, ps, i);
      HeadsBelow(s.items[i], t.items[i], ps, ToString(i));
      var a, b := Common(s, t, p, i), Difference(s.items[i], t.items[i], MemberPath(p, ToString(i)));
      forall v, w | v in a && w in b ensures InTurn(s, t, ps, v, w) {
        var h: nat :| h < i && Heads(ps, ToString(h), v);
        IndexDecides(s, t, ps, h, i, v, w);
      }
      ConcatInTurn(s, t, ps, a, b);
    }
  }

  lemma {:induction false} RemovalsInTurn(s: Json, t: Json, ps: Tokens, hi: nat)
    requires s.Arr? && t.Arr? && Fits(s) && hi <= |s.items|
    ensures AllInTurn(s, t, ps, Removals(Print(ps), Min(|s.items|, |t.items|), hi))
    decreases hi
  {
    hide Print, InTurn, Heads, IndexPath, MemberPath, ToString, RemoveOp;
    var lo, p := Min(|s.items|, |t.items|), Print(ps);
    if lo < hi {
      var i := hi - 1;
      RemovalsInTurn(s, t, ps, i);
      HeadsOfRemovals(ps, lo, i);
      IndexIsMember(p, i);
      HeadsOfOne(ps, ToString(i), Null);
      var a, b := [RemoveOp(IndexPath(p, i))], Removals(p, lo, i);
      forall v, w | v in a && w in b ensures InTurn(s, t, ps, v, w) {
        var j: nat :| lo <= j < i && Heads(ps, ToString(j), w);
        IndexDecides(s, t, ps, i, j, v, w);
      }
      ConcatInTurn(s, t, ps, a, b);
    }
  }

  lemma DashDecides(s: Json, t: Json, ps: Tokens, k: string, v: Json, w: Json)
    requires s.Arr? && t.Arr? && Heads(ps, k, v) && Heads(ps, "-", w)
    ensures InTurn(s, t, ps, v, w)
  {
    hide Heads, InTurn;
    HeadsDecide(s, t, ps, k, "-", v, w);
  }

  lemma AppendsInTurn(s: Json, t: Json, ps: Tokens, b: seq<Json>, lo: nat, hi: nat)
    requires s.Arr? && t.Arr? && hi <= |b|
    ensures AllInTurn(s, t, ps, Appends(Print(ps), b, lo, hi))
  {
    hide Print, Appends, Heads, InTurn;
    HeadsOfAppends(ps, b, lo, hi);
    var q := Appends(Print(ps), b, lo, hi);
    forall i, j | 0 <= i < j < |q| ensures InTurn(s, t, ps, q[i], q[j]) {
      DashDecides(s, t, ps, "-", q[i], q[j]);
    }
  }

  lemma ArrayInTurn(s: Json, t: Json, ps: Tokens)
    requires s.Arr? && t.Arr? && s != t && Fits(s) && Fits(t)
    ensures AllInTurn(s, t, ps, Difference(s, t, Print(ps)))
    decreases s, 1, |s.items| + 1
  {
    hide Print, Difference, Common, Removals, Appends, InTurn, Heads, ToString, AllInTurn;
    var m, n, p := |s.items|, |t.items|, Print(ps);
    var lo := Min(m, n);
    var a, b, c := Common(s, t, p, lo), Removals(p, lo, m), Appends(p, t.items, lo, n);
    DifferenceUnfolds(s, t, p);
    CommonInTurn(s, t, ps, lo);
    RemovalsInTurn(s, t, ps, m);
    AppendsInTurn(s, t, ps, t.items, lo, n);
    HeadsOfCommon(s, t, ps, lo);
    HeadsOfRemovals(ps, lo, m);
    HeadsOfAppends(ps, t.items, lo, n);
    forall v, w | v in a && w in b ensures InTurn(s, t, ps, v, w) {
      var i: nat :| i < lo && Heads(ps, ToString(i), v);
      var j: nat :| lo <= j < m && Heads(ps, ToString(j), w);
      IndexDecides(s, t, ps, i, j, v, w);
    }
    ConcatInTurn(s, t, ps, a, b);
    forall v, w | v in a + b && w in c ensures InTurn(s, t, ps, v, w) {
      assert HeadsAmong(ps, v, 0, m);
      var i: nat :| i < m && Heads(ps, ToString(i), v);
      DashDecides(s, t, ps, ToString(i), v, w);
    }
    ConcatInTurn(s, t, ps, a + b, c);
  }

  lemma KeyDecides(s: Json, t: Json, ps: Tokens, k: string, l: string, v: Json, w: Json)
    requires s.Obj? && t.Obj? && Heads(ps, k, v) && Heads(ps, l, w)
    requires if k in s.members then l in s.members ==> Before(k, l) else l !in s.members && Before(k, l)
    ensures InTurn(s, t, ps, v, w)
  {
    hide Heads, InTurn;
    BeforeIrreflexive(k);
    HeadsDecide(s, t, ps, k, l, v, w);
  }

  lemma HeadsOfMembers(s: Json, t: Json, ps: Tokens, ks: seq<string>)
    requires s.Obj? && t.Obj? && Fits(s) && Fits(t) && forall k | k in ks :: k in s.members
    ensures forall v | v in Members(s, t, Print(ps), ks) :: exists k | k in ks :: Heads(ps, k, v)
  {
    hide Print, Difference, Members, Heads, MemberPath, RemoveOp, Fits;
    forall v | v in Members(s, t, Print(ps), ks) ensures exists k | k in ks :: Heads(ps, k, v) {
      InMembers(s, t, Print(ps), ks, v);
      var k :| k in ks && if k in t.members then v in Difference(s.members[k], t.members[k], MemberPath(Print(ps), k))
                          else v == RemoveOp(MemberPath(Print(ps), k));
      if k in t.members {
        MemberFits(s, k);
        MemberFits(t, k);
        HeadsBelow(s.members[k], t.members[k], ps, k);
      } else {
        HeadsOfOne(ps, k, Null);
      }
    }
  }

  lemma HeadsOfNewMembers(m: map<string, Json>, n: map<string, Json>, ps: Tokens, ks: seq<string>)
    requires forall k | k in ks :: k in n
    ensures forall v | v in NewMembers(m, n, Print(ps), ks) :: exists k | k in ks :: k !in m && Heads(ps, k, v)
  {
    hide Print, NewMembers, Heads, MemberPath, AddOp;
    forall v | v in NewMembers(m, n, Print(ps), ks) ensures exists k | k in ks :: k !in m && Heads(ps, k, v) {
      InNewMembers(m, n, Print(ps), ks, v);
      var k :| k in ks && k !in m && v == AddOp(MemberPath(Print(ps), k), n[k]);
      HeadsOfOne(ps, k, n[k]);
    }
  }

  lemma BeforeLast(ks: seq<string>)
    requires ks != [] && StrictlyAscending(ks)
    ensures StrictlyAscending(Front(ks)) && forall k | k in Front(ks) :: Before(k, Last(ks))
  {}

  lemma {:induction false} MembersInTurn(s: Json, t: Json, ps: Tokens, ks: seq<string>)
    requires s.Obj? && t.Obj? && Fits(s) && Fits(t) && StrictlyAscending(ks) && forall k | k in ks :: k in s.members
    ensures AllInTurn(s, t, ps, Members(s, t, Print(ps), ks))
    decreases s, 1, |ks|
  {
    hide Print, Difference, InTurn, Heads, MemberPath, RemoveOp, Before, Fits;
    if ks != [] {
      var k, p := Last(ks), Print(ps);
      BeforeLast(ks);
      MembersInTurn(s, t, ps, Front(ks));
      HeadsOfMembers(s, t, ps, Front(ks));
      var a := Members(s, t, p, Front(ks));
      var b := if k in t.members then Difference(s.members[k], t.members[k], MemberPath(p, k))
               else [RemoveOp(MemberPath(p, k))];
      if k in t.members {
        MemberFits(s, k);
        MemberFits(t, k);
        ChildInTurn(s, t, ps, k);
        HeadsBelow(s.members[k], t.members[k], ps, k);
      } else {
        HeadsOfOne(ps, k, Null);
      }
      forall v, w | v in a && w in b ensures InTurn(s, t, ps, v, w) {
        var h :| h in Front(ks) && Heads(ps, h, v);
        KeyDecides(s, t, ps, h, k, v, w);
      }
      ConcatInTurn(s, t, ps, a, b);
    }
  }

  lemma {:induction false} NewMembersInTurn(s: Json, t: Json, ps: Tokens, ks: seq<string>)
    requires s.Obj? && t.Obj? && StrictlyAscending(ks) && forall k | k in ks :: k in t.members
    ensures AllInTurn(s, t, ps, NewMembers(s.members, t.members, Print(ps), ks))
    decreases |ks|
  {
    hide Print, InTurn, Heads, MemberPath, AddOp, Before;
    if ks != [] {
      var k, p, m, n := Last(ks), Print(ps), s.members, t.members;
      BeforeLast(ks);
      NewMembersInTurn(s, t, ps, Front(ks));
      HeadsOfNewMembers(m, n, ps, Front(ks));
      HeadsOfOne(ps, k, n[k]);
      var a := NewMembers(m, n, p, Front(ks));
      var b := if k in m then [] else [AddOp(MemberPath(p, k), n[k])];
      forall v, w | v in a && w in b ensures InTurn(s, t, ps, v, w) {
        var h :| h in Front(ks) && h !in m && Heads(ps, h, v);
        KeyDecides(s, t, ps, h, k, v, w);
      }
      ConcatInTurn(s, t, ps, a, b);
    }
  }

  lemma ObjectInTurn(s: Json, t: Json, ps: Tokens)
    requires s.Obj? && t.Obj? && s != t && Fits(s) && Fits(t)
    ensures AllInTurn(s, t, ps, Difference(s, t, Print(ps)))
    decreases s, 1, |Keys(s.members)| + 1
  {
    hide Print, Difference, Members, NewMembers, InTurn, Heads, AllInTurn, Keys, Before;
    var m, n, p := s.members, t.members, Print(ps);
    var a, b := Members(s, t, p, Keys(m)), NewMembers(m, n, p, Keys(n));
    DifferenceUnfolds(s, t, p);
    MembersInTurn(s, t, ps, Keys(m));
    NewMembersInTurn(s, t, ps, Keys(n));
    HeadsOfMembers(s, t, ps, Keys(m));
    HeadsOfNewMembers(m, n, ps, Keys(n));
    forall v, w | v in a && w in b ensures InTurn(s, t, ps, v, w) {
      var k :| k in Keys(m) && Heads(ps, k, v);
      var l :| l in Keys(n) && l !in m && Heads(ps, l, w);
      KeyDecides(s, t, ps, k, l, v, w);
    }
    ConcatInTurn(s, t, ps, a, b);
  }

  /**
   * The operations of diff stand in this order, with no operation twice: of any two, the earlier one has the path that
   * comes first. Only appends to one array share their path.
   */
  lemma OperationsInOrder(s: Json, t: Json, i: nat, j: nat)
    requires Fits(s) && Fits(t) && i < j < |Difference(s, t, "")|
    ensures exists o, u ::
              && Difference(s, t, "")[i] == Obj(Encode(o)) && Difference(s, t, "")[j] == Obj(Encode(u))
              && Precedes(s, t, o.path, u.path)
  {
    hide Difference, Precedes, Fits, Print, Text, Encode;
    PrintNothing();
    DifferenceInTurn(s, t, []);
    var q := Difference(s, t, "");
    assert InTurn(s, t, [], q[i], q[j]);
    var o, u :| q[i] == Text([], o) && q[j] == Text([], u) && Precedes(s, t, o.path, u.path);
    TextAtRoot(o);
    TextAtRoot(u);
  }

  lemma TextAtRoot(o: Operation)
    ensures Text([], o) == Obj(Encode(o))
  {
    hide Encode;
    assert [] + o.path == o.path;
  }
}
