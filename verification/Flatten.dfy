// flatten: one entry per leaf, keyed by the JSON Pointer of the leaf.
module Flatten {
  import opened Decimals
  import opened JsonPointer
  import opened JsonValue
  import opened StringEscape

  /** A primitive value, or a container with nothing in it. */
  predicate Leaf(v: Json) {
    match v
    case Arr(a) => a == []
    case Obj(m) => m == map[]
    case _ => true
  }

  /** What flatten stores for a leaf; empty containers are stored as null. */
  function LeafValue(v: Json): Json
    requires Leaf(v)
  {
    if Primitive(v) then v else Null
  }

  predicate IsLeaf(v: Json, ts: Tokens) {
    Get(v, ts).Ok? && Leaf(Get(v, ts).value)
  }

  function LeafAt(v: Json, ts: Tokens): Json
    requires IsLeaf(v, ts)
  {
    LeafValue(Get(v, ts).value)
  }

  /** The tokens that lead to the children of v, in the order of iteration. */
  function Names(v: Json): (ns: seq<string>)
    ensures |ns| == |Children(v)|
  {
    match v
    case Arr(a) => seq(|a|, i requires 0 <= i < |a| => ToString(i))
    case Obj(m) => Keys(m)
    case _ => []
  }

  lemma NamedChild(v: Json, i: nat)
    requires Fits(v) && i < |Names(v)|
    ensures Child(v, Names(v)[i]) == Ok(Children(v)[i]) && Fits(Children(v)[i])
  {
    if v.Arr? {
      ArrayIndexExact(ToString(i), i);
      ArrayIndexExact("-", i);
    }
  }

  lemma NameOf(v: Json, t: string) returns (i: nat)
    requires Child(v, t).Ok?
    ensures i < |Names(v)| && Names(v)[i] == t
  {
    if v.Arr? {
      i := ArrayIndex(t).value;
      ArrayIndexExact(t, i);
    } else {
      i :| 0 <= i < |Keys(v.members)| && Keys(v.members)[i] == t;
    }
  }

  lemma NamesDistinct(v: Json, i: nat, j: nat)
    requires i < |Names(v)| && j < |Names(v)| && Names(v)[i] == Names(v)[j]
    ensures i == j
  {
    if v.Arr? {
      ToStringInjective(i, j);
    } else {
      NoRepetition(Keys(v.members), i, j);
    }
  }

  // ---------------------------------------------------------------- the definition

  /** r with the entries of v added, v being reached by path. */
  function FlattenInto(path: string, v: Json, r: map<string, Json>): map<string, Json>
    decreases v, 1, 0
  {
    if Leaf(v) then r[path := LeafValue(v)] else FlattenFirst(path, v, |Names(v)|, r)
  }

  /** The entries of the first n children. */
  function FlattenFirst(path: string, v: Json, n: nat, r: map<string, Json>): map<string, Json>
    requires n <= |Names(v)|
    decreases v, 0, n
  {
    hide Children, Names;
    if n == 0 then r
    else FlattenInto(MemberPath(path, Names(v)[n - 1]), Children(v)[n - 1], FlattenFirst(path, v, n - 1, r))
  }

  function Flattened(v: Json): map<string, Json> {
    FlattenInto("", v, map[])
  }

  /** Leaves, counting an empty container as one. */
  function LeafCount(v: Json): nat
    decreases v, 1, 0
  {
    if Leaf(v) then 1 else LeavesOfFirst(v, |Children(v)|)
  }

  function LeavesOfFirst(v: Json, n: nat): nat
    requires n <= |Children(v)|
    decreases v, 0, n
  {
    hide Children;
    if n == 0 then 0 else LeavesOfFirst(v, n - 1) + LeafCount(Children(v)[n - 1])
  }

  // ---------------------------------------------------------------- the recursion of flatten, writing into result

  class Flattener {
    var result: map<string, Json>

    constructor ()
      ensures result == map[]
    {
      result := map[];
    }

    method Add(path: string, v: Json)
      modifies this
      ensures result == FlattenInto(path, v, old(result))
      decreases v
    {
      hide Children, FlattenFirst, Escape;
      match v {
        case Arr(a) =>
          if a == [] {
            result := result[path := Null];
          } else {
            NoChildren(path, v, result);
            for i := 0 to |a|
              invariant result == FlattenFirst(path, v, i, old(result))
            {
              OneMoreChild(path, v, i, old(result));
              IndexIsMember(path, i);
              Add(path + "/" + ToString(i), a[i]);
            }
          }
        case Obj(m) =>
          if m == map[] {
            result := result[path := Null];
          } else {
            NoChildren(path, v, result);
            var keys := Keys(m);
            for i := 0 to |keys|
              invariant result == FlattenFirst(path, v, i, old(result))
            {
              OneMoreChild(path, v, i, old(result));
              var token := EscapeInPlace(keys[i]);
              Add(path + "/" + token, m[keys[i]]);
            }
          }
        case _ =>
          result := result[path := v];
      }
    }
  }

  lemma NoChildren(path: string, v: Json, r: map<string, Json>)
    ensures FlattenFirst(path, v, 0, r) == r
  {}

  lemma OneMoreChild(path: string, v: Json, i: nat, r: map<string, Json>)
    requires i < |Names(v)|
    ensures FlattenFirst(path, v, i + 1, r)
         == FlattenInto(MemberPath(path, Names(v)[i]), Children(v)[i], FlattenFirst(path, v, i, r))
    ensures Children(v)[i] == match v case Arr(a) => a[i] case Obj(m) => m[Keys(m)[i]]
  {
    hide FlattenInto;
  }

  /** A primitive value is stored as it is, an empty array or object as null. */
  lemma LeafKinds(v: Json, ts: Tokens)
    ensures Get(v, ts).Ok? && Primitive(Get(v, ts).value) ==> IsLeaf(v, ts) && LeafAt(v, ts) == Get(v, ts).value
    ensures Get(v, ts) == Ok(Arr([])) || Get(v, ts) == Ok(Obj(map[])) ==> IsLeaf(v, ts) && LeafAt(v, ts) == Null
  {}

  lemma StartsEmpty(v: Json)
    ensures FlattenInto("", v, map[]) == Flattened(v)
  {
    hide FlattenInto;
  }

  method FlattenValue(v: Json) returns (r: Json)
    ensures r == Obj(Flattened(v))
    ensures Fits(v) ==> |r.members| == LeafCount(v) && forall ts :: Print(ts) in r.members <==> IsLeaf(v, ts)
    ensures Fits(v) ==> forall ts | Get(v, ts).Ok? && Primitive(Get(v, ts).value) ::
                          Print(ts) in r.members && r.members[Print(ts)] == Get(v, ts).value
    ensures Fits(v) ==> forall ts | Get(v, ts) == Ok(Arr([])) || Get(v, ts) == Ok(Obj(map[])) ::
                          Print(ts) in r.members && r.members[Print(ts)] == Null
  {
    hide Flattened, LeafCount, IsLeaf, Print, FlattenInto, LeafAt, Get;
    if Fits(v) {
      OneEntryPerLeaf(v);
      forall ts
        ensures Print(ts) in Flattened(v) <==> IsLeaf(v, ts)
        ensures Get(v, ts).Ok? && Primitive(Get(v, ts).value) ==>
                  Print(ts) in Flattened(v) && Flattened(v)[Print(ts)] == Get(v, ts).value
        ensures Get(v, ts) == Ok(Arr([])) || Get(v, ts) == Ok(Obj(map[])) ==>
                  Print(ts) in Flattened(v) && Flattened(v)[Print(ts)] == Null
      {
        FlattenedExact(v, ts);
        LeafKinds(v, ts);
      }
    }
    StartsEmpty(v);
    var flattener := new Flattener();
    flattener.Add("", v);
    r := Obj(flattener.result);
  }

  // ---------------------------------------------------------------- which entries are written

  /** p is the text of ps followed by the path of a leaf of v. */
  predicate FromLeaf(ps: Tokens, v: Json, p: string) {
    Parse(p).Ok? && ps <= Parse(p).value && IsLeaf(v, Parse(p).value[|ps|..])
  }

  predicate FromFirst(ps: Tokens, v: Json, n: nat, p: string)
    requires n <= |Names(v)|
  {
    exists i | 0 <= i < n :: FromLeaf(ps + [Names(v)[i]], Children(v)[i], p)
  }

  /** The value that belongs to p. */
  function Written(ps: Tokens, v: Json, p: string): Json
    requires FromLeaf(ps, v, p)
  {
    LeafAt(v, Parse(p).value[|ps|..])
  }

  lemma LeafInChild(ps: Tokens, v: Json, i: nat, p: string)
    requires Fits(v) && i < |Names(v)| && FromLeaf(ps + [Names(v)[i]], Children(v)[i], p)
    ensures FromLeaf(ps, v, p) && Written(ps, v, p) == Written(ps + [Names(v)[i]], Children(v)[i], p)
  {
    hide Parse, Names, Children, Leaf, LeafValue;
    var t := Names(v)[i];
    var q := Parse(p).value;
    assert (ps + [t])[|ps|] == t;
    assert ps <= ps + [t] <= q && q[|ps|] == t;
    NamedChild(v, i);
    StepInto(v, t, q, |ps|);
  }

  lemma StepInto(v: Json, t: string, q: Tokens, n: nat)
    requires n < |q| && q[n] == t && Child(v, t).Ok?
    ensures Get(v, q[n..]) == Get(Child(v, t).value, q[n + 1..])
  {
    assert q[n..][1..] == q[n + 1..];
  }

  lemma ChildOfLeaf(ps: Tokens, v: Json, p: string) returns (i: nat)
    requires Fits(v) && !Leaf(v) && FromLeaf(ps, v, p)
    ensures i < |Names(v)| && FromLeaf(ps + [Names(v)[i]], Children(v)[i], p)
  {
    hide Parse, Names, Children, Leaf, Child;
    var q := Parse(p).value;
    NotAtLeaf(v, q[|ps|..]);
    var t := q[|ps|];
    i := NameOf(v, t);
    NamedChild(v, i);
    StepInto(v, t, q, |ps|);
    assert ps + [t] <= q;
  }

  lemma NotAtLeaf(v: Json, ts: Tokens)
    requires !Leaf(v) && IsLeaf(v, ts)
    ensures ts != [] && Child(v, ts[0]).Ok?
  {}

  /** flatten writes exactly one entry per leaf: its path, with its value; everything else in the result is kept. */
  lemma {:induction false} EntriesExact(ps: Tokens, v: Json, r: map<string, Json>, p: string)
    requires Fits(v)
    ensures p in FlattenInto(Print(ps), v, r) <==> p in r || FromLeaf(ps, v, p)
    ensures FromLeaf(ps, v, p) ==> FlattenInto(Print(ps), v, r)[p] == Written(ps, v, p)
    ensures !FromLeaf(ps, v, p) && p in r ==> FlattenInto(Print(ps), v, r)[p] == r[p]
    decreases v, 1, 0
  {
    hide Parse, Print, FlattenFirst, FromLeaf, Names;
    if Leaf(v) {
      OnlyHere(ps, v, p);
    } else {
      FirstExact(ps, v, |Names(v)|, r, p);
      if FromLeaf(ps, v, p) {
        var i := ChildOfLeaf(ps, v, p);
      }
    }
  }

  lemma OnlyHere(ps: Tokens, v: Json, p: string)
    requires Leaf(v)
    ensures FromLeaf(ps, v, p) <==> p == Print(ps)
    ensures FromLeaf(ps, v, p) ==> Written(ps, v, p) == LeafValue(v)
  {
    hide Parse, Print;
    ParsePrint(ps);
    assert ps[|ps|..] == [];
    if FromLeaf(ps, v, p) {
      var q := Parse(p).value;
      assert q[|ps|..] == [];
      assert q == ps;
      ParseIsInverse(p, ps);
    }
  }

  lemma {:induction false} FirstExact(ps: Tokens, v: Json, n: nat, r: map<string, Json>, p: string)
    requires Fits(v) && n <= |Names(v)|
    ensures p in FlattenFirst(Print(ps), v, n, r) <==> p in r || FromFirst(ps, v, n, p)
    ensures FromFirst(ps, v, n, p) ==> FromLeaf(ps, v, p) && FlattenFirst(Print(ps), v, n, r)[p] == Written(ps, v, p)
    ensures !FromFirst(ps, v, n, p) && p in r ==> FlattenFirst(Print(ps), v, n, r)[p] == r[p]
    decreases v, 0, n
  {
    hide Parse, Print, FlattenInto, FromLeaf, Names, Children;
    if n > 0 {
      var child := ps + [Names(v)[n - 1]];
      FirstExact(ps, v, n - 1, r, p);
      MemberPointer(ps, Names(v)[n - 1]);
      NamedChild(v, n - 1);
      EntriesExact(child, Children(v)[n - 1], FlattenFirst(Print(ps), v, n - 1, r), p);
      if FromLeaf(child, Children(v)[n - 1], p) { LeafInChild(ps, v, n - 1, p); }
    }
  }

  /** The text of a leaf's path is a key, with the value of the leaf; and every key is the text of a leaf's path. */
  lemma FlattenedExact(v: Json, ts: Tokens)
    requires Fits(v)
    ensures Print(ts) in Flattened(v) <==> IsLeaf(v, ts)
    ensures IsLeaf(v, ts) ==> Flattened(v)[Print(ts)] == LeafAt(v, ts)
    ensures forall p | p in Flattened(v) :: Parse(p).Ok? && Print(Parse(p).value) == p && IsLeaf(v, Parse(p).value)
  {
    hide Parse, Print, FlattenInto;
    assert Print([]) == "" by { PrintNothing(); }
    ParsePrint(ts);
    EntriesExact([], v, map[], Print(ts));
    forall p | p in Flattened(v) ensures Parse(p).Ok? && Print(Parse(p).value) == p && IsLeaf(v, Parse(p).value) {
      EntriesExact([], v, map[], p);
      ParseIsInverse(p, Parse(p).value);
    }
  }

  lemma {:induction false} CountInto(ps: Tokens, v: Json, r: map<string, Json>)
    requires Fits(v) && forall p | p in r :: !FromLeaf(ps, v, p)
    ensures |FlattenInto(Print(ps), v, r)| == |r| + LeafCount(v)
    decreases v, 1, 0
  {
    hide Parse, Print, FlattenFirst, FromLeaf, Names, LeavesOfFirst;
    if Leaf(v) {
      OnlyHere(ps, v, Print(ps));
    } else {
      CountFirst(ps, v, |Names(v)|, r);
    }
  }

  lemma {:induction false} CountFirst(ps: Tokens, v: Json, n: nat, r: map<string, Json>)
    requires Fits(v) && n <= |Names(v)| && forall p | p in r :: !FromLeaf(ps, v, p)
    ensures |FlattenFirst(Print(ps), v, n, r)| == |r| + LeavesOfFirst(v, n)
    decreases v, 0, n
  {
    hide Parse, Print, FlattenInto, FromLeaf, Names, Children, LeafCount;
    if n > 0 {
      var child := ps + [Names(v)[n - 1]];
      var before := FlattenFirst(Print(ps), v, n - 1, r);
      CountFirst(ps, v, n - 1, r);
      MemberPointer(ps, Names(v)[n - 1]);
      NamedChild(v, n - 1);
      forall p | p in before ensures !FromLeaf(child, Children(v)[n - 1], p) {
        FirstExact(ps, v, n - 1, r, p);
        SeparateChildren(ps, v, n - 1, p);
      }
      CountInto(child, Children(v)[n - 1], before);
    }
  }

  /** A path that leads into an earlier child, or not into v, does not lead into child n. */
  lemma SeparateChildren(ps: Tokens, v: Json, n: nat, p: string)
    requires Fits(v) && n < |Names(v)| && (FromFirst(ps, v, n, p) || !FromLeaf(ps, v, p))
    ensures !FromLeaf(ps + [Names(v)[n]], Children(v)[n], p)
  {
    hide Parse, Names, Children, IsLeaf;
    if FromLeaf(ps + [Names(v)[n]], Children(v)[n], p) {
      LeafInChild(ps, v, n, p);
      var i :| 0 <= i < n && FromLeaf(ps + [Names(v)[i]], Children(v)[i], p);
      assert Parse(p).value[|ps|] == (ps + [Names(v)[i]])[|ps|] == (ps + [Names(v)[n]])[|ps|];
      NamesDistinct(v, i, n);
    }
  }

  /** As many entries as leaves, an empty array or object counting as one. */
  lemma OneEntryPerLeaf(v: Json)
    requires Fits(v)
    ensures |Flattened(v)| == LeafCount(v)
  {
    PrintNothing();
    CountInto([], v, map[]);
  }
}
