// unflatten: rebuilding a value from its leaves, and when this undoes flatten.
module Unflatten {
  import opened Decimals
  import opened JsonPointer
  import opened JsonValue

  // ---------------------------------------------------------------- creating values along a path

  /** The child that operator[] refers to before anything is assigned: null if it has just been created. */
  function At(j: Json, t: string): Json {
    if Child(j, t).Ok? then Child(j, t).value else Null
  }

  /** An array with room for index i, new elements being null. */
  function Padded(a: seq<Json>, i: nat): (b: seq<Json>)
    ensures |b| > i && |b| >= |a| && (forall k | 0 <= k < |a| :: b[k] == a[k])
    ensures forall k | |a| <= k < |b| :: b[k] == Null
  {
    if i < |a| then a else a + seq(i + 1 - |a|, _ => Null)
  }

  /** The value j after y has been assigned to its child t, created if need be; "0" makes an array of a null. */
  function Store(j: Json, t: string, y: Json): Result<Json> {
    match j
    case Null => Ok(if t == "0" then Arr([y]) else Obj(map[t := y]))
    case Obj(m) => Ok(Obj(m[t := y]))
    case Arr(a) => (match ArrayIndex(t)
                    case Err(e) => Err(e)
                    case Ok(i) => Ok(Arr(Padded(a, i)[i := y])))
    case _ => Err(TypeError(313))
  }

  /** The document after x has been assigned to what get_and_create returns for ts. */
  function SetAt(j: Json, ts: Tokens, x: Json): Result<Json>
    decreases |ts|
  {
    if ts == [] then Ok(x)
    else match Store(j, ts[0], Null)
      case Err(e) => Err(e)
      case Ok(_) =>
        match SetAt(At(j, ts[0]), ts[1..], x)
        case Err(e) => Err(e)
        case Ok(y) => Store(j, ts[0], y)
  }

  /** The document after get_and_create has made the containers along ts, up to the token that it rejects, if any. */
  function Created(j: Json, ts: Tokens): Json
    decreases |ts|
  {
    if ts == [] || Store(j, ts[0], Null).Err? then j
    else Store(j, ts[0], Created(At(j, ts[0]), ts[1..])).value
  }

  function UnflattenFrom(j: Json, m: map<string, Json>, ks: seq<string>): Result<Json>
    requires forall k | k in ks :: k in m
    decreases |ks|
  {
    if ks == [] then Ok(j)
    else if !Primitive(m[ks[0]]) then Err(TypeError(315))
    else match Parse(ks[0])
      case Err(e) => Err(e)
      case Ok(ts) =>
        match SetAt(j, ts, m[ks[0]])
        case Err(e) => Err(e)
        case Ok(j') => UnflattenFrom(j', m, ks[1..])
  }

  function Unflattened(v: Json): Result<Json> {
    if v.Obj? then UnflattenFrom(Null, v.members, Keys(v.members)) else Err(TypeError(314))
  }

  /** Whatever is unflattened without an error is an object of primitive values keyed by the texts of pointers. */
  lemma {:induction false} UnflattenAccepts(j: Json, m: map<string, Json>, ks: seq<string>)
    requires (forall k | k in ks :: k in m) && UnflattenFrom(j, m, ks).Ok?
    ensures forall k | k in ks :: Primitive(m[k]) && Parse(k).Ok?
    decreases |ks|
  {
    hide SetAt, Parse;
    if ks != [] {
      assert ks == [ks[0]] + ks[1..];
      UnflattenAccepts(SetAt(j, Parse(ks[0]).value, m[ks[0]]).value, m, ks[1..]);
    }
  }

  lemma StoreLaws(j: Json, t: string, y: Json)
    requires Store(j, t, Null).Ok?
    ensures Store(j, t, y).Ok?
    ensures Child(Store(j, t, y).value, t) == Ok(y)
    ensures forall z :: SetChild(Store(j, t, y).value, t, z) == Store(j, t, z).value
    ensures forall u | u != t :: At(Store(j, t, y).value, u) == At(j, u)
  {
    hide ToString, ArrayIndex;
    ZeroIsZero();
    DashIsNoIndex();
    var r := Store(j, t, y).value;
    assert r.Arr? ==> ArrayIndex(t).Ok? && t != "-";
    forall u | u != t ensures At(r, u) == At(j, u) {
      if r.Arr? && ArrayIndex(u).Ok? { OtherIndex(t, u); }
    }
    forall z ensures SetChild(r, t, z) == Store(j, t, z).value {
      if r.Arr? {
        var i := ArrayIndex(t).value;
        assert r.items[i := y][i := z] == r.items[i := z];
      } else {
        assert r.members[t := y][t := z] == r.members[t := z];
      }
    }
  }

  lemma OtherIndex(t: string, u: string)
    requires u != t && ArrayIndex(t).Ok? && ArrayIndex(u).Ok?
    ensures ArrayIndex(u).value != ArrayIndex(t).value
  {
    ArrayIndexExact(u, ArrayIndex(u).value);
    ArrayIndexExact(t, ArrayIndex(t).value);
  }

  lemma DashIsNoIndex()
    ensures ArrayIndex("-").Err?
  {}

  lemma ZeroIsZero()
    ensures ToString(0) == "0" && ArrayIndex("0") == Ok(0)
  {
    ArrayIndexExact("0", 0);
  }

  // ---------------------------------------------------------------- what an assignment along a path does

  /** The value at the first n tokens takes no child: 313 for a non-null primitive, or the error of an array index. */
  ghost predicate Blocks(j: Json, ts: Tokens, n: nat, e: Error)
    requires n < |ts|
  {
    Get(j, ts[..n]).Ok? &&
    var p := Get(j, ts[..n]).value;
    if p.Arr? then ArrayIndex(ts[n]) == Err(e) else Primitive(p) && p != Null && e == TypeError(313)
  }

  lemma NothingBlocksNull(ts: Tokens, n: nat, e: Error)
    requires n < |ts|
    ensures !Blocks(Null, ts, n, e)
  {
    if n > 0 { assert Child(Null, ts[..n][0]).Err?; }
  }

  lemma BlocksBelow(j: Json, ts: Tokens, n: nat, e: Error)
    requires 0 < n < |ts|
    ensures Blocks(j, ts, n, e) <==> Blocks(At(j, ts[0]), ts[1..], n - 1, e)
  {
    hide Child, ArrayIndex;
    assert ts[..n][1..] == ts[1..][..n - 1] && ts[..n][0] == ts[0];
    if Child(j, ts[0]).Err? { NothingBlocksNull(ts[1..], n - 1, e); }
  }

  /** An assignment fails exactly if a value that exists on the way takes no child; what has been created never does. */
  lemma {:induction false} SetAtFails(j: Json, ts: Tokens, x: Json, e: Error)
    ensures SetAt(j, ts, x) == Err(e) <==> exists n | 0 <= n < |ts| :: Blocks(j, ts, n, e)
    decreases |ts|
  {
    hide Blocks, At;
    if ts != [] {
      SetAtFails(At(j, ts[0]), ts[1..], x, e);
      forall n | 0 < n < |ts| ensures Blocks(j, ts, n, e) <==> Blocks(At(j, ts[0]), ts[1..], n - 1, e) {
        BlocksBelow(j, ts, n, e);
      }
      BlocksHere(j, ts);
      if Store(j, ts[0], Null).Ok? {
        StoreLaws(j, ts[0], Null);
        if SetAt(j, ts, x) == Err(e) {
          StoreAlways(j, ts[0]);
          var n :| 0 <= n < |ts| - 1 && Blocks(At(j, ts[0]), ts[1..], n, e);
          assert Blocks(j, ts, n + 1, e);
        }
      } else {
        NothingBehind(j, ts);
      }
    }
  }

  lemma StoreAlways(j: Json, t: string)
    requires Store(j, t, Null).Ok?
    ensures forall y :: Store(j, t, y).Ok?
  {}

  lemma BlocksHere(j: Json, ts: Tokens)
    requires ts != []
    ensures forall e :: Blocks(j, ts, 0, e) <==> Store(j, ts[0], Null) == Err(e)
  {
    assert ts[..0] == [];
  }

  lemma NothingBehind(j: Json, ts: Tokens)
    requires ts != [] && Store(j, ts[0], Null).Err?
    ensures forall n, e | 0 < n < |ts| :: !Blocks(j, ts, n, e)
  {
    forall n, e | 0 < n < |ts| ensures !Blocks(j, ts, n, e) {
      assert ts[..n][0] == ts[0];
      if j.Arr? { DashIsNoIndex(); }
      assert Child(j, ts[0]).Err?;
    }
  }

  /** The container that a value becomes for a child t: a null an array for "0" and else an object. */
  ghost predicate TakesChild(p: Json, t: string, q: Json) {
    match p
    case Null => if t == "0" then q.Arr? && |q.items| == 1 else q.Obj? && q.members.Keys == {t}
    case Obj(m) => q.Obj? && q.members.Keys == m.Keys + {t}
    case Arr(a) =>
      && q.Arr? && ArrayIndex(t).Ok?
      && var i := ArrayIndex(t).value; |q.items| == if i < |a| then |a| else i + 1
    case _ => false
  }

  lemma StoreTakesChild(j: Json, t: string, y: Json)
    requires Store(j, t, y).Ok?
    ensures TakesChild(j, t, Store(j, t, y).value)
  {}

  /** What stands at us, a value just created counting as null. */
  function Found(j: Json, us: Tokens): Json {
    if Get(j, us).Ok? then Get(j, us).value else Null
  }

  lemma FoundBelow(j: Json, us: Tokens)
    requires us != []
    ensures Found(j, us) == Found(At(j, us[0]), us[1..])
  {
    hide Child;
    if Child(j, us[0]).Err? && us[1..] != [] { NothingInNull(us[1..]); }
  }

  lemma NothingInNull(us: Tokens)
    requires us != []
    ensures Get(Null, us).Err?
  {}

  /**
   * After an assignment the value is found at its path; every value on the way has become, or remained, a container
   * with that child; elsewhere everything is as it was, but for elements that fill up an array, which are null.
   */
  lemma {:induction false} SetAtExact(j: Json, ts: Tokens, x: Json)
    requires SetAt(j, ts, x).Ok?
    ensures var r := SetAt(j, ts, x).value;
            && Get(r, ts) == Ok(x)
            && (forall n | 0 <= n < |ts| :: TakesChild(Found(j, ts[..n]), ts[n], Found(r, ts[..n])))
            && (forall us | Diverge(ts, us) :: Found(r, us) == Found(j, us))
            && (forall us | Diverge(ts, us) && Get(j, us).Ok? :: Get(r, us).Ok?)
    decreases |ts|
  {
    hide At, Store, TakesChild, Found, Child;
    if ts != [] {
      var a := At(j, ts[0]);
      SetAtExact(a, ts[1..], x);
      var y := SetAt(a, ts[1..], x).value;
      var r := Store(j, ts[0], y).value;
      StoreLaws(j, ts[0], y);
      StoreTakesChild(j, ts[0], y);
      AtStored(j, ts[0]);
      AtStored(r, ts[0]);
      StoreKeeps(j, ts[0], y);
      forall n | 0 <= n < |ts| ensures TakesChild(Found(j, ts[..n]), ts[n], Found(r, ts[..n])) {
        if n == 0 {
          FoundHere(j, ts);
          FoundHere(r, ts);
        } else {
          FoundBelow(j, ts[..n]);
          FoundBelow(r, ts[..n]);
          assert ts[..n][1..] == ts[1..][..n - 1] && ts[..n][0] == ts[0] && ts[n] == ts[1..][n - 1];
        }
      }
      forall us | Diverge(ts, us) ensures Found(r, us) == Found(j, us) {
        FoundBelow(j, us);
        FoundBelow(r, us);
      }
      forall us | Diverge(ts, us) && Get(j, us).Ok? ensures Get(r, us).Ok? {}
    }
  }

  lemma FoundHere(j: Json, ts: Tokens)
    ensures Found(j, ts[..0]) == j
  {}

  lemma AtStored(r: Json, t: string)
    ensures Child(r, t).Ok? ==> At(r, t) == Child(r, t).value
  {}

  lemma StoreKeeps(j: Json, t: string, y: Json)
    requires Store(j, t, y).Ok?
    ensures forall u | u != t && Child(j, u).Ok? :: Child(Store(j, t, y).value, u) == Child(j, u)
  {
    forall u | u != t && Child(j, u).Ok? ensures Child(Store(j, t, y).value, u) == Child(j, u) {
      if j.Arr? { OtherIndex(t, u); }
    }
  }

  class Builder {
    var result: Json

    constructor ()
      ensures result == Null
    {
      result := Null;
    }

    /** get_and_create followed by the assignment; the position is kept as the tokens that lead to it. */
    method Assign(ts: Tokens, x: Json) returns (r: Result<()>)
      modifies this
      ensures SetAt(old(result), ts, x) == if r.Ok? then Ok(result) else Err(r.error)
      ensures r.Err? ==> result == Created(old(result), ts)
      ensures r.Ok? ==> Get(result, ts) == Ok(x)
      ensures r.Err? ==> exists n | 0 <= n < |ts| :: Blocks(old(result), ts, n, r.error)
    {
      hide Get, Put, SetAt, Store, At, Created, Blocks;
      if SetAt(result, ts, x).Ok? {
        SetAtExact(result, ts, x);
      } else {
        SetAtFails(result, ts, x, SetAt(result, ts, x).error);
      }
      var i := 0;
      StartAssign(result, ts, x);
      while i < |ts|
        invariant i <= |ts| && Get(result, ts[..i]).Ok?
        invariant SetAt(old(result), ts, x)
               == PutResult(result, ts[..i], SetAt(Get(result, ts[..i]).value, ts[i..], x))
        invariant Created(old(result), ts) == Put(result, ts[..i], Created(Get(result, ts[..i]).value, ts[i..]))
      {
        var position, t := ts[..i], ts[i];
        var here := Get(result, position).value;
        AssignStep(result, ts, i, x);
        if !here.Null? && !here.Obj? && !here.Arr? { return Err(TypeError(313)); }
        if here.Arr? && ArrayIndex(t).Err? { return Err(ArrayIndex(t).error); }
        result := Put(result, position, Store(here, t, At(here, t)).value);
        i := i + 1;
      }
      assert ts[..i] == ts;
      EndAssign(result, ts, x);
      result := Put(result, ts, x);
      return Ok(());
    }
  }

  function PutResult(doc: Json, ts: Tokens, r: Result<Json>): Result<Json>
    requires Get(doc, ts).Ok?
  {
    match r
    case Err(e) => Err(e)
    case Ok(y) => Ok(Put(doc, ts, y))
  }

  lemma StartAssign(doc: Json, ts: Tokens, x: Json)
    ensures Get(doc, ts[..0]) == Ok(doc)
    ensures SetAt(doc, ts, x) == PutResult(doc, ts[..0], SetAt(doc, ts[0..], x))
    ensures Created(doc, ts) == Put(doc, ts[..0], Created(doc, ts[0..]))
  {
    assert ts[0..] == ts;
  }

  lemma EndAssign(doc: Json, ts: Tokens, x: Json)
    requires Get(doc, ts).Ok?
    ensures PutResult(doc, ts, SetAt(Get(doc, ts).value, ts[|ts|..], x)) == Ok(Put(doc, ts, x))
  {
    assert ts[|ts|..] == [];
  }

  /** Moving on from doc to next leaves the overall outcome unchanged, and what is left behind on an error. */
  predicate Advances(doc: Json, next: Json, ts: Tokens, i: nat, x: Json)
    requires i < |ts| && Get(doc, ts[..i]).Ok?
  {
    && Get(next, ts[..i + 1]).Ok?
    && PutResult(doc, ts[..i], SetAt(Get(doc, ts[..i]).value, ts[i..], x))
    == PutResult(next, ts[..i + 1], SetAt(Get(next, ts[..i + 1]).value, ts[i + 1..], x))
    && Put(doc, ts[..i], Created(Get(doc, ts[..i]).value, ts[i..]))
    == Put(next, ts[..i + 1], Created(Get(next, ts[..i + 1]).value, ts[i + 1..]))
  }

  lemma AssignStep(doc: Json, ts: Tokens, i: nat, x: Json)
    requires i < |ts| && Get(doc, ts[..i]).Ok?
    ensures var here, t := Get(doc, ts[..i]).value, ts[i];
            && (Store(here, t, Null).Err? <==> (Primitive(here) && !here.Null?) || (here.Arr? && ArrayIndex(t).Err?))
            && (Store(here, t, Null).Err? ==>
                  && Store(here, t, Null).error == (if here.Arr? then ArrayIndex(t).error else TypeError(313))
                  && SetAt(here, ts[i..], x) == Err(Store(here, t, Null).error)
                  && Put(doc, ts[..i], Created(here, ts[i..])) == doc)
            && (Store(here, t, Null).Ok? ==> Store(here, t, At(here, t)).Ok?)
            && (Store(here, t, Null).Ok? ==>
                  Advances(doc, Put(doc, ts[..i], Store(here, t, At(here, t)).value), ts, i, x))
  {
    var here, t := Get(doc, ts[..i]).value, ts[i];
    assert ts[i..][0] == t && ts[i..][1..] == ts[i + 1..] && ts[..i + 1] == ts[..i] + [t];
    if Store(here, t, Null).Err? {
      PutLaws(doc, ts[..i], here);
    } else {
      StoreLaws(here, t, At(here, t));
      var w := Store(here, t, At(here, t)).value;
      NextAssign(doc, ts[..i], t, here, w, ts[i + 1..], x);
    }
  }

  lemma NextAssign(doc: Json, ps: Tokens, t: string, here: Json, w: Json, rest: Tokens, x: Json)
    requires Get(doc, ps) == Ok(here) && Store(here, t, Null).Ok? && Store(here, t, At(here, t)) == Ok(w)
    requires Child(w, t) == Ok(At(here, t))
    ensures var next := Put(doc, ps, w);
            && Get(next, ps + [t]) == Ok(At(here, t))
            && PutResult(doc, ps, SetAt(here, [t] + rest, x)) == PutResult(next, ps + [t], SetAt(At(here, t), rest, x))
            && Put(doc, ps, Created(here, [t] + rest)) == Put(next, ps + [t], Created(At(here, t), rest))
  {
    hide Get, Put, Child, SetChild, Store, At;
    assert ([t] + rest)[1..] == rest;
    var inner := SetAt(At(here, t), rest, x);
    PutInside(doc, ps, w, t, Null);
    if inner.Ok? {
      StoreLaws(here, t, At(here, t));
      StoreLaws(here, t, inner.value);
      PutInside(doc, ps, w, t, inner.value);
      assert SetChild(w, t, inner.value) == Store(here, t, inner.value).value;
    }
    var made := Created(At(here, t), rest);
    StoreLaws(here, t, At(here, t));
    StoreLaws(here, t, made);
    PutInside(doc, ps, w, t, made);
    assert SetChild(w, t, made) == Store(here, t, made).value;
  }

  /** The entries before key i are assigned, and that key is refused: 315, its text is no pointer, or it is blocked. */
  ghost predicate RefusesKey(m: map<string, Json>, ks: seq<string>, i: nat, e: Error)
    requires i < |ks| && forall k | k in ks :: k in m
  {
    UnflattenFrom(Null, m, ks[..i]).Ok? &&
    if !Primitive(m[ks[i]]) then e == TypeError(315)
    else if Parse(ks[i]).Err? then e == Parse(ks[i]).error
    else exists n | 0 <= n < |Parse(ks[i]).value| ::
           Blocks(UnflattenFrom(Null, m, ks[..i]).value, Parse(ks[i]).value, n, e)
  }

  lemma {:induction false} UnflattenConcat(j: Json, m: map<string, Json>, a: seq<string>, b: seq<string>)
    requires (forall k | k in a :: k in m) && (forall k | k in b :: k in m)
    ensures UnflattenFrom(j, m, a + b)
         == if UnflattenFrom(j, m, a).Ok? then UnflattenFrom(UnflattenFrom(j, m, a).value, m, b)
            else UnflattenFrom(j, m, a)
    decreases |a|
  {
    hide SetAt, Parse, Primitive;
    if a == [] {
      assert a + b == b;
    } else {
      assert (a + b)[1..] == a[1..] + b && (a + b)[0] == a[0];
      assert forall k | k in a[1..] :: k in a;
      if Primitive(m[a[0]]) && Parse(a[0]).Ok? && SetAt(j, Parse(a[0]).value, m[a[0]]).Ok? {
        UnflattenConcat(SetAt(j, Parse(a[0]).value, m[a[0]]).value, m, a[1..], b);
      }
    }
  }

  lemma FirstKey(j: Json, m: map<string, Json>, k: string, e: Error)
    requires k in m
    ensures UnflattenFrom(j, m, [k]) == Err(e)
       <==> if !Primitive(m[k]) then e == TypeError(315)
            else if Parse(k).Err? then e == Parse(k).error
            else exists n | 0 <= n < |Parse(k).value| :: Blocks(j, Parse(k).value, n, e)
  {
    hide SetAt, Parse, Blocks, Primitive;
    if Primitive(m[k]) && Parse(k).Ok? { SetAtFails(j, Parse(k).value, m[k], e); }
    assert [k][1..] == [];
  }

  /** The loop fails exactly at the first key that is refused, with the error of that key. */
  lemma {:induction false} UnflattenFails(m: map<string, Json>, ks: seq<string>, e: Error)
    requires forall k | k in ks :: k in m
    ensures UnflattenFrom(Null, m, ks) == Err(e) <==> exists i | 0 <= i < |ks| :: RefusesKey(m, ks, i, e)
    decreases |ks|
  {
    hide RefusesKey, UnflattenFrom;
    if ks == [] {
      NoKeysLeft(m);
    } else {
      var init, n := ks[..|ks| - 1], |ks| - 1;
      assert ks == init + [ks[n]];
      UnflattenConcat(Null, m, init, [ks[n]]);
      UnflattenFails(m, init, e);
      forall i | 0 <= i < n ensures RefusesKey(m, ks, i, e) <==> RefusesKey(m, init, i, e) {
        SameRefusal(m, ks, init, i, e);
      }
      LastRefusal(m, ks, n, e);
    }
  }

  lemma NoKeysLeft(m: map<string, Json>)
    ensures UnflattenFrom(Null, m, []) == Ok(Null)
  {}

  lemma SameRefusal(m: map<string, Json>, ks: seq<string>, init: seq<string>, i: nat, e: Error)
    requires (forall k | k in ks :: k in m) && i < |init| <= |ks| && init == ks[..|init|]
    ensures RefusesKey(m, ks, i, e) <==> RefusesKey(m, init, i, e)
  {
    hide UnflattenFrom, Parse, Blocks;
    assert ks[..i] == init[..i];
  }

  lemma LastRefusal(m: map<string, Json>, ks: seq<string>, n: nat, e: Error)
    requires (forall k | k in ks :: k in m) && n < |ks|
    ensures var r := UnflattenFrom(Null, m, ks[..n]);
            RefusesKey(m, ks, n, e) <==> r.Ok? && UnflattenFrom(r.value, m, [ks[n]]) == Err(e)
  {
    hide UnflattenFrom, Parse, Blocks, Primitive;
    if UnflattenFrom(Null, m, ks[..n]).Ok? { FirstKey(UnflattenFrom(Null, m, ks[..n]).value, m, ks[n], e); }
  }

  lemma RefusalErrors(m: map<string, Json>, ks: seq<string>, i: nat, e: Error)
    requires i < |ks| && (forall k | k in ks :: k in m) && RefusesKey(m, ks, i, e)
    ensures e != TypeError(314)
  {
    hide UnflattenFrom;
    ParseErrors(ks[i]);
  }

  /** Error 314 for whatever is no object; for an object the error of the first key that is refused. */
  lemma UnflattenErrors(v: Json)
    ensures Unflattened(v) == Err(TypeError(314)) <==> !v.Obj?
    ensures v.Obj? ==>
              var ks := Keys(v.members);
              forall e :: Unflattened(v) == Err(e) <==> exists i | 0 <= i < |ks| :: RefusesKey(v.members, ks, i, e)
  {
    hide UnflattenFrom, RefusesKey;
    if v.Obj? {
      var m, ks := v.members, Keys(v.members);
      forall e ensures UnflattenFrom(Null, m, ks) == Err(e) <==> exists i | 0 <= i < |ks| :: RefusesKey(m, ks, i, e) {
        UnflattenFails(m, ks, e);
      }
      forall i | 0 <= i < |ks| ensures !RefusesKey(m, ks, i, TypeError(314)) {
        if RefusesKey(m, ks, i, TypeError(314)) { RefusalErrors(m, ks, i, TypeError(314)); }
      }
    }
  }

  // ---------------------------------------------------------------- every entry is found where it belongs

  lemma {:induction false} Branches(ts: Tokens, us: Tokens)
    ensures Diverge(ts, us) || ts <= us || us <= ts
    decreases |ts|
  {
    if ts != [] && us != [] && ts[0] == us[0] {
      Branches(ts[1..], us[1..]);
      assert ts == [ts[0]] + ts[1..] && us == [us[0]] + us[1..];
    }
  }

  lemma EqualPrefixes(ts: Tokens, us: Tokens)
    requires (ts <= us || us <= ts) && !(ts < us) && !(us < ts)
    ensures ts == us
  {}

  /** A pointer's text comes before that of every pointer it is a proper prefix of. */
  lemma PrefixBefore(ts: Tokens, us: Tokens)
    requires ts < us
    ensures Before(Print(ts), Print(us))
  {
    hide Print;
    var rest := us[|ts|..];
    assert us == ts + rest && rest == [rest[0]] + rest[1..];
    PrintConcat(ts, rest);
    PrintFront(rest[0], rest[1..]);
    BeforePrefix(Print(ts), "", Print(rest));
    assert Print(ts) + "" == Print(ts);
  }

  /** The value of the entry k, or, if that is null, anything, is at its place in j. */
  ghost predicate Placed(m: map<string, Json>, k: string, j: Json)
    requires k in m
  {
    && Parse(k).Ok? && Get(j, Parse(k).value).Ok?
    && (m[k] != Null ==> Get(j, Parse(k).value).value == m[k])
  }

  /** Assigning the entry l, which comes later, leaves the entry k at its place. */
  lemma PlacedStays(m: map<string, Json>, k: string, l: string, j: Json)
    requires k in m && l in m && Before(k, l) && Primitive(m[k]) && Placed(m, k, j)
    requires Parse(l).Ok? && SetAt(j, Parse(l).value, m[l]).Ok?
    ensures Placed(m, k, SetAt(j, Parse(l).value, m[l]).value)
  {
    hide SetAt, Parse, Print, Get;
    var us, ts := Parse(k).value, Parse(l).value;
    var r := SetAt(j, ts, m[l]).value;
    SetAtExact(j, ts, m[l]);
    ParseIsInverse(k, us);
    ParseIsInverse(l, ts);
    Branches(ts, us);
    BeforeIrreflexive(k);
    if Diverge(ts, us) {
      assert Found(r, us) == Found(j, us);
    } else if us < ts {
      var rest := ts[|us|..];
      assert ts == us + rest && ts[..|us|] == us;
      GetConcat(r, us, rest);
      assert TakesChild(Found(j, us), ts[|us|], Found(r, us));
    } else if ts < us {
      PrefixBefore(ts, us);
      BeforeTransitive(k, l, k);
    } else {
      EqualPrefixes(ts, us);
    }
  }

  /**
   * Whatever unflatten accepts, every entry is found in the result: its value at its pointer, or, for a null, the null
   * or what other entries put in its place.
   */
  lemma {:induction false} EntriesArePlaced(m: map<string, Json>, ks: seq<string>)
    requires (forall k | k in ks :: k in m) && StrictlyAscending(ks) && UnflattenFrom(Null, m, ks).Ok?
    ensures forall k | k in ks :: Placed(m, k, UnflattenFrom(Null, m, ks).value)
    decreases |ks|
  {
    hide SetAt, Parse, Placed, Before, Get;
    if ks != [] {
      var init, l := ks[..|ks| - 1], ks[|ks| - 1];
      assert ks == init + [l];
      UnflattenConcat(Null, m, init, [l]);
      EntriesArePlaced(m, init);
      UnflattenAccepts(Null, m, ks);
      var j := UnflattenFrom(Null, m, init).value;
      OneEntry(m, l, j);
      forall k | k in init ensures Placed(m, k, UnflattenFrom(Null, m, ks).value) {
        PlacedStays(m, k, l, j);
      }
    }
  }

  lemma OneEntry(m: map<string, Json>, l: string, j: Json)
    requires l in m && UnflattenFrom(j, m, [l]).Ok?
    ensures Parse(l).Ok? && UnflattenFrom(j, m, [l]) == SetAt(j, Parse(l).value, m[l])
    ensures Placed(m, l, UnflattenFrom(j, m, [l]).value)
  {
    hide SetAt, Parse, Get;
    assert [l][1..] == [];
    SetAtExact(j, Parse(l).value, m[l]);
  }

  method UnflattenValue(value: Json) returns (r: Result<Json>)
    ensures r == Unflattened(value)
    ensures r == Err(TypeError(314)) <==> !value.Obj?
    ensures value.Obj? && r.Err? ==>
              var keys := Keys(value.members);
              exists i | 0 <= i < |keys| :: RefusesKey(value.members, keys, i, r.error)
    ensures r.Ok? ==> value.Obj? && forall k | k in value.members :: Primitive(value.members[k]) && Parse(k).Ok?
    ensures r.Ok? ==> forall k | k in value.members :: Placed(value.members, k, r.value)
  {
    hide RefusesKey, Placed;
    UnflattenErrors(value);
    if !value.Obj? { return Err(TypeError(314)); }
    var m := value.members;
    if Unflattened(value).Ok? {
      UnflattenAccepts(Null, m, Keys(m));
      EntriesArePlaced(m, Keys(m));
    }
    var builder := new Builder();
    var keys := Keys(m);
    for i := 0 to |keys|
      invariant UnflattenFrom(Null, m, keys) == UnflattenFrom(builder.result, m, keys[i..])
    {
      hide SetAt, Parse, Keys;
      assert keys[i..][0] == keys[i] && keys[i..][1..] == keys[i + 1..];
      if !Primitive(m[keys[i]]) { return Err(TypeError(315)); }
      var ts := Split(keys[i]);
      if ts.Err? { return Err(ts.error); }
      var done := builder.Assign(ts.value, m[keys[i]]);
      if done.Err? { return Err(done.error); }
    }
    return Ok(builder.result);
  }
}
