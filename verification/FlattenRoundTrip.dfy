// When unflatten(flatten(v)) is v: the exact condition, for every document.
module FlattenRoundTrip {
  import opened Decimals
  import opened Flatten
  import opened JsonPointer
  import opened JsonValue
  import opened StringEscape
  import opened Unflatten

  /** One line of a flattened document. */
  datatype Entry = Entry(path: Tokens, value: Json)

  /** Assigning entry after entry, as unflatten does. */
  function Rebuild(j: Json, entries: seq<Entry>): Result<Json>
    decreases |entries|
  {
    if entries == [] then Ok(j)
    else match SetAt(j, entries[0].path, entries[0].value)
      case Err(e) => Err(e)
      case Ok(j') => Rebuild(j', entries[1..])
  }

  /** The entries below token t, relative to it. */
  function Sub(entries: seq<Entry>, t: string): seq<Entry>
    decreases |entries|
  {
    if entries == [] then []
    else if entries[0].path != [] && entries[0].path[0] == t then
      [Entry(entries[0].path[1..], entries[0].value)] + Sub(entries[1..], t)
    else Sub(entries[1..], t)
  }

  predicate Inner(entries: seq<Entry>) {
    forall e | e in entries :: e.path != []
  }

  // ---------------------------------------------------------------- assignments below different tokens are independent

  lemma SetAtLaws(j: Json, ts: Tokens, x: Json)
    requires ts != [] && SetAt(j, ts, x).Ok?
    ensures var r := SetAt(j, ts, x).value;
            && SetAt(At(j, ts[0]), ts[1..], x) == Ok(At(r, ts[0]))
            && (forall u | u != ts[0] :: At(r, u) == At(j, u))
            && (j.Obj? ==> r.Obj? && r.members.Keys == j.members.Keys + {ts[0]})
            && (j.Arr? ==> r.Arr? && ArrayIndex(ts[0]).Ok?)
            && (j.Arr? ==> var i := ArrayIndex(ts[0]).value;
                           |r.items| == if i < |j.items| then |j.items| else i + 1)
  {
    StoreLaws(j, ts[0], SetAt(At(j, ts[0]), ts[1..], x).value);
  }

  /** What ends up below a token is what its own entries build there. */
  lemma {:induction false} Project(j: Json, entries: seq<Entry>, t: string)
    requires Inner(entries) && Rebuild(j, entries).Ok?
    ensures Rebuild(At(j, t), Sub(entries, t)) == Ok(At(Rebuild(j, entries).value, t))
    decreases |entries|
  {
    hide SetAt, At;
    if entries != [] {
      SetAtLaws(j, entries[0].path, entries[0].value);
      Project(SetAt(j, entries[0].path, entries[0].value).value, entries[1..], t);
      UnfoldSub(entries, t);
    }
  }

  lemma UnfoldSub(entries: seq<Entry>, t: string)
    requires entries != [] && entries[0].path != []
    ensures entries[0].path[0] != t ==> Sub(entries, t) == Sub(entries[1..], t)
    ensures entries[0].path[0] == t ==> Sub(entries, t) != []
    ensures entries[0].path[0] == t ==> Sub(entries, t)[0] == Entry(entries[0].path[1..], entries[0].value)
    ensures entries[0].path[0] == t ==> Sub(entries, t)[1..] == Sub(entries[1..], t)
  {}

  /** A container for the token t: an array needs an index. */
  predicate Admits(j: Json, t: string) {
    j.Obj? || (j.Arr? && ArrayIndex(t).Ok?)
  }

  /** If the entries below every token can be assigned, so can all of them. */
  lemma {:induction false} Assemble(j: Json, entries: seq<Entry>)
    requires Inner(entries) && forall e | e in entries :: Admits(j, e.path[0])
    requires forall t :: Rebuild(At(j, t), Sub(entries, t)).Ok?
    ensures Rebuild(j, entries).Ok?
    decreases |entries|
  {
    hide At, SetAt;
    if entries != [] {
      var t := entries[0].path[0];
      UnfoldSub(entries, t);
      assert Rebuild(At(j, t), Sub(entries, t)).Ok?;
      OneAssignment(j, entries[0].path, entries[0].value);
      SetAtLaws(j, entries[0].path, entries[0].value);
      var j' := SetAt(j, entries[0].path, entries[0].value).value;
      forall u ensures Rebuild(At(j', u), Sub(entries[1..], u)).Ok? {
        UnfoldSub(entries, u);
        assert Rebuild(At(j, u), Sub(entries, u)).Ok?;
      }
      Assemble(j', entries[1..]);
    }
  }

  lemma OneAssignment(j: Json, ts: Tokens, x: Json)
    requires ts != [] && Admits(j, ts[0])
    ensures SetAt(j, ts, x).Ok? <==> SetAt(At(j, ts[0]), ts[1..], x).Ok?
  {}

  lemma {:induction false} ObjectStays(j: Json, entries: seq<Entry>)
    requires j.Obj? && Inner(entries) && Rebuild(j, entries).Ok?
    ensures Rebuild(j, entries).value.Obj?
    ensures forall k :: k in Rebuild(j, entries).value.members <==>
              k in j.members || exists e | e in entries :: e.path[0] == k
    decreases |entries|
  {
    hide At, SetAt;
    if entries != [] {
      SetAtLaws(j, entries[0].path, entries[0].value);
      ObjectStays(SetAt(j, entries[0].path, entries[0].value).value, entries[1..]);
      assert entries == [entries[0]] + entries[1..];
    }
  }

  lemma {:induction false} ArrayStaysArray(j: Json, entries: seq<Entry>)
    requires j.Arr? && Inner(entries) && Rebuild(j, entries).Ok?
    ensures Rebuild(j, entries).value.Arr?
    ensures forall e | e in entries :: ArrayIndex(e.path[0]).Ok?
    decreases |entries|
  {
    hide At, SetAt, ArrayIndex;
    if entries != [] {
      assert entries == [entries[0]] + entries[1..];
      SetAtLaws(j, entries[0].path, entries[0].value);
      ArrayStaysArray(SetAt(j, entries[0].path, entries[0].value).value, entries[1..]);
    }
  }

  /** An array grows to hold the greatest index, and no further. */
  lemma {:induction false} ArrayStays(j: Json, entries: seq<Entry>, n: nat)
    requires j.Arr? && Inner(entries) && Rebuild(j, entries).Ok? && |j.items| <= n
    requires forall e | e in entries :: ArrayIndex(e.path[0]).Ok? && ArrayIndex(e.path[0]).value < n
    ensures Rebuild(j, entries).value.Arr? && |j.items| <= |Rebuild(j, entries).value.items| <= n
    ensures forall e | e in entries :: ArrayIndex(e.path[0]).value < |Rebuild(j, entries).value.items|
    decreases |entries|
  {
    hide At, SetAt, ArrayIndex;
    if entries != [] {
      SetAtLaws(j, entries[0].path, entries[0].value);
      ArrayStays(SetAt(j, entries[0].path, entries[0].value).value, entries[1..], n);
      assert entries == [entries[0]] + entries[1..];
    }
  }

  function EmptyFor(t: string): Json {
    if t == "0" then Arr([]) else Obj(map[])
  }

  /** The first token decides what a null becomes. */
  lemma FirstTokenDecides(entries: seq<Entry>)
    requires entries != [] && entries[0].path != []
    ensures Rebuild(Null, entries) == Rebuild(EmptyFor(entries[0].path[0]), entries)
  {
    var t := entries[0].path[0];
    ZeroIsZero();
    assert At(EmptyFor(t), t) == Null;
    forall y ensures Store(EmptyFor(t), t, y) == Store(Null, t, y) {
      if t == "0" { assert Padded([], 0)[0 := y] == [y]; }
    }
  }

  // ---------------------------------------------------------------- the order of the entries

  predicate PathBefore(ts: Tokens, us: Tokens) {
    Before(Print(ts), Print(us))
  }

  predicate Sorted(entries: seq<Entry>)
    decreases |entries|
  {
    entries == [] || ((forall e | e in entries[1..] :: PathBefore(entries[0].path, e.path)) && Sorted(entries[1..]))
  }

  /** entries lists the leaves of v, each with its value, and nothing else. */
  ghost predicate Covers(v: Json, entries: seq<Entry>) {
    && (forall e | e in entries :: IsLeaf(v, e.path) && e.value == LeafAt(v, e.path))
    && (forall ts | IsLeaf(v, ts) :: Entry(ts, LeafAt(v, ts)) in entries)
  }

  lemma {:induction false} SubMembers(entries: seq<Entry>, t: string, us: Tokens, x: Json)
    ensures Entry(us, x) in Sub(entries, t) <==> Entry([t] + us, x) in entries
    decreases |entries|
  {
    if entries != [] {
      SubMembers(entries[1..], t, us, x);
      assert entries == [entries[0]] + entries[1..];
      if entries[0].path != [] && entries[0].path[0] == t {
        assert entries[0].path == [t] + entries[0].path[1..];
        assert ([t] + us)[1..] == us;
      }
    }
  }

  lemma BeforeBelow(t: string, us: Tokens, ws: Tokens)
    ensures PathBefore([t] + us, [t] + ws) <==> PathBefore(us, ws)
  {
    PrintFront(t, us);
    PrintFront(t, ws);
    BeforePrefix("/" + Escape(t), Print(us), Print(ws));
  }

  lemma {:induction false} SubSorted(entries: seq<Entry>, t: string)
    requires Sorted(entries)
    ensures Sorted(Sub(entries, t))
    decreases |entries|
  {
    hide PathBefore;
    if entries != [] {
      SubSorted(entries[1..], t);
      if entries[0].path != [] && entries[0].path[0] == t {
        var us := entries[0].path[1..];
        assert entries[0].path == [t] + us;
        forall e | e in Sub(entries[1..], t) ensures PathBefore(us, e.path) {
          SubMembers(entries[1..], t, e.path, e.value);
          assert Entry(e.path, e.value) == e;
          BeforeBelow(t, us, e.path);
        }
        assert Sub(entries, t)[1..] == Sub(entries[1..], t);
      }
    }
  }

  lemma LeafBelow(v: Json, t: string, us: Tokens)
    requires Child(v, t).Ok?
    ensures IsLeaf(v, [t] + us) <==> IsLeaf(Child(v, t).value, us)
    ensures IsLeaf(v, [t] + us) ==> LeafAt(v, [t] + us) == LeafAt(Child(v, t).value, us)
  {
    assert ([t] + us)[1..] == us;
  }

  lemma SubCovers(v: Json, entries: seq<Entry>, t: string)
    requires Covers(v, entries) && Child(v, t).Ok?
    ensures Covers(Child(v, t).value, Sub(entries, t))
  {
    hide IsLeaf, Child;
    var c := Child(v, t).value;
    forall e | e in Sub(entries, t) ensures IsLeaf(c, e.path) && e.value == LeafAt(c, e.path) {
      SubMembers(entries, t, e.path, e.value);
      assert Entry(e.path, e.value) == e;
      LeafBelow(v, t, e.path);
    }
    forall us | IsLeaf(c, us) ensures Entry(us, LeafAt(c, us)) in Sub(entries, t) {
      LeafBelow(v, t, us);
      SubMembers(entries, t, us, LeafAt(c, us));
    }
  }

  lemma {:induction false} SomeLeaf(v: Json) returns (ts: Tokens)
    requires Fits(v)
    ensures IsLeaf(v, ts)
    decreases v
  {
    if Leaf(v) {
      ts := [];
    } else {
      NamedChild(v, 0);
      var us := SomeLeaf(Children(v)[0]);
      LeafBelow(v, Names(v)[0], us);
      ts := [Names(v)[0]] + us;
    }
  }

  /** The entries of a leaf: a single one, at the empty path. */
  lemma LeafEntries(v: Json, entries: seq<Entry>)
    requires Leaf(v) && Covers(v, entries) && Sorted(entries)
    ensures entries == [Entry([], LeafValue(v))]
  {
    assert IsLeaf(v, []);
    assert Entry([], LeafAt(v, [])) in entries;
    forall e | e in entries ensures e.path == [] { assert IsLeaf(v, e.path); }
    if |entries| > 1 {
      assert entries[1] in entries[1..] && entries[1] in entries;
      BeforeIrreflexive(Print([]));
    }
  }

  // ---------------------------------------------------------------- which token comes first

  /** The entries below key k come before those below key "0", which hold c. */
  predicate Precedes(k: string, c: Json) {
    k == "" || (k[0] < '0' && k[0] != '/') || (k[0] == '0' && |k| > 1 && k[1] < '/' && !Leaf(c))
  }

  lemma CompareTexts(k: string, p: string, q: string)
    requires k != "0" && (p == "" || p[0] == '/') && (q == "" || q[0] == '/')
    ensures Before(EscapeMap(k) + p, ['0'] + q)
       <==> k == "" || (k[0] < '0' && k[0] != '/') || (k[0] == '0' && |k| > 1 && k[1] < '/' && q != "")
  {
    hide Before, EscapeMap;
    if k == "" {
      assert EscapeMap(k) + p == p by { EscapeNothing(p); }
      BeforeByHead(p, ['0'] + q);
    } else {
      EscapeHead(k, p);
      if k[0] != '0' {
        BeforeByHead(EscapeMap(k) + p, ['0'] + q);
      } else {
        var rest := EscapeMap(k[1..]) + p;
        assert k == ['0'] + k[1..];
        assert k[1..] != "";
        EscapeHead(k[1..], p);
        BeforePrefix(['0'], rest, q);
        BeforeByHead(rest, q);
      }
    }
  }

  lemma BeforeByHead(a: string, b: string)
    requires a == "" || b == "" || a[0] != b[0]
    ensures Before(a, b) <==> b != "" && (a == "" || a[0] < b[0])
  {}

  lemma EscapeNothing(p: string)
    ensures EscapeMap("") + p == p
  {}

  lemma EscapeHead(k: string, p: string)
    requires k != ""
    ensures |EscapeMap(k) + p| > 0 && (EscapeMap(k) + p)[0] == if k[0] == '/' then '~' else k[0]
    ensures k[0] != '/' && k[0] != '~' ==> EscapeMap(k) + p == [k[0]] + (EscapeMap(k[1..]) + p)
  {
    ConcatHead(EscapeChar(k[0]), EscapeMap(k[1..]), p);
  }

  lemma ConcatHead(e: string, r: string, p: string)
    requires e != ""
    ensures |e + r + p| > 0 && (e + r + p)[0] == e[0] && e + r + p == e + (r + p)
  {}

  lemma CompareWithZero(k: string, us: Tokens, ws: Tokens)
    requires k != "0"
    ensures PathBefore([k] + us, ["0"] + ws)
       <==> k == "" || (k[0] < '0' && k[0] != '/') || (k[0] == '0' && |k| > 1 && k[1] < '/' && ws != [])
  {
    hide Escape, Print, Before, EscapeMap;
    PrintFront(k, us);
    PrintFront("0", ws);
    EscapeIsMap(k);
    EscapeIsMap("0");
    PlainMap("0");
    var x, y := EscapeMap(k) + Print(us), ['0'] + Print(ws);
    assert "/" + EscapeMap(k) + Print(us) == "/" + x && "/" + "0" + Print(ws) == "/" + y;
    BeforePrefix("/", x, y);
    StartsWithSlash(us);
    StartsWithSlash(ws);
    CompareTexts(k, Print(us), Print(ws));
  }

  lemma StartsWithSlash(ts: Tokens)
    ensures ts == [] <==> Print(ts) == ""
    ensures ts != [] ==> Print(ts)[0] == '/'
  {
    if ts != [] {
      assert ts == [ts[0]] + ts[1..];
      PrintFront(ts[0], ts[1..]);
    }
  }

  lemma CompareLeaves(v: Json, k: string, us: Tokens, ws: Tokens)
    requires k != "0" && IsLeaf(v, ["0"] + ws)
    ensures Child(v, "0").Ok?
    ensures PathBefore([k] + us, ["0"] + ws) <==> Precedes(k, Child(v, "0").value)
  {
    hide PathBefore;
    CompareWithZero(k, us, ws);
    var c := Child(v, "0").value;
    LeafBelow(v, "0", ws);
    if Leaf(c) { LeafHasNothingInside(c, ws); }
  }

  lemma LeafHasNothingInside(v: Json, ts: Tokens)
    requires Leaf(v) && IsLeaf(v, ts)
    ensures ts == []
  {}

  /** v has a child "0", and no child comes before it. */
  ghost predicate ZeroFirst(v: Json) {
    Child(v, "0").Ok? && forall k | Child(v, k).Ok? :: !Precedes(k, Child(v, "0").value)
  }

  lemma FirstToken(v: Json, entries: seq<Entry>)
    requires Fits(v) && !Leaf(v) && Covers(v, entries) && Sorted(entries)
    ensures entries != [] && Inner(entries)
    ensures entries[0].path[0] == "0" <==> ZeroFirst(v)
  {
    hide IsLeaf, Precedes, PathBefore;
    var some := SomeLeaf(v);
    forall e | e in entries ensures e.path != [] { assert IsLeaf(v, e.path); NotHere(v); }
    var t, us := entries[0].path[0], entries[0].path[1..];
    assert entries[0].path == [t] + us;
    TokenOfLeaf(v, entries[0].path);
    if t == "0" {
      forall k | Child(v, k).Ok? ensures !Precedes(k, Child(v, "0").value) {
        if k == "0" {
          assert !Precedes("0", Child(v, "0").value) by { ZeroNotBeforeZero(Child(v, "0").value); }
        } else {
          var below := LeafUnder(v, k);
          var e := Entry([k] + below, LeafAt(v, [k] + below));
          assert e in entries && entries == [entries[0]] + entries[1..];
          assert PathBefore(entries[0].path, e.path);
          NotBoth(entries[0].path, e.path);
          CompareLeaves(v, k, below, us);
        }
      }
    } else if ZeroFirst(v) {
      var below := LeafUnder(v, "0");
      var e := Entry(["0"] + below, LeafAt(v, ["0"] + below));
      assert e in entries && entries == [entries[0]] + entries[1..];
      assert PathBefore(entries[0].path, e.path);
      CompareLeaves(v, t, us, below);
    }
  }

  lemma NotHere(v: Json)
    requires !Leaf(v)
    ensures !IsLeaf(v, [])
  {}

  lemma TokenOfLeaf(v: Json, ts: Tokens)
    requires IsLeaf(v, ts) && ts != []
    ensures Child(v, ts[0]).Ok?
  {}

  lemma ZeroNotBeforeZero(c: Json)
    ensures !Precedes("0", c)
  {}

  lemma NotBoth(ts: Tokens, us: Tokens)
    requires PathBefore(ts, us)
    ensures !PathBefore(us, ts)
  {
    if PathBefore(us, ts) {
      BeforeTransitive(Print(ts), Print(us), Print(ts));
      BeforeIrreflexive(Print(ts));
    }
  }

  lemma FitsChild(v: Json, t: string)
    requires Fits(v) && Child(v, t).Ok?
    ensures Fits(Child(v, t).value) && Child(v, t).value < v
  {}

  lemma LeafUnder(v: Json, k: string) returns (us: Tokens)
    requires Fits(v) && Child(v, k).Ok?
    ensures IsLeaf(v, [k] + us)
  {
    FitsChild(v, k);
    us := SomeLeaf(Child(v, k).value);
    LeafBelow(v, k, us);
  }

  lemma ArrayStartsAtZero(v: Json)
    requires Fits(v) && v.Arr? && v.items != []
    ensures ZeroFirst(v)
  {
    ZeroIsZero();
    forall k | Child(v, k).Ok? ensures !Precedes(k, Child(v, "0").value) {
      ArrayIndexExact(k, ArrayIndex(k).value);
      ToStringReads(ArrayIndex(k).value);
    }
  }

  // ---------------------------------------------------------------- the exact condition

  /**
   * No array or object inside v is empty, and in every object with a key "0" some other key comes before "0" in the
   * flattened document.
   */
  predicate Restorable(v: Json) {
    match v
    case Arr(a) => a != [] && forall i | 0 <= i < |a| :: Restorable(a[i])
    case Obj(m) =>
      && m != map[]
      && ("0" in m ==> exists k | k in m :: Precedes(k, m["0"]))
      && forall k | k in m :: Restorable(m[k])
    case _ => true
  }

  lemma RestorableChildren(v: Json)
    requires Fits(v) && !Leaf(v)
    ensures Restorable(v) <==> (v.Arr? || !ZeroFirst(v)) && forall t | Child(v, t).Ok? :: Restorable(Child(v, t).value)
  {
    hide Precedes, ArrayIndex;
    if v.Arr? && forall t | Child(v, t).Ok? :: Restorable(Child(v, t).value) {
      forall i | 0 <= i < |v.items| ensures Restorable(v.items[i]) {
        NamedChild(v, i);
        assert Child(v, Names(v)[i]).Ok?;
      }
    }
    if v.Obj? {
      assert forall k :: Child(v, k).Ok? <==> k in v.members;
    }
  }

  lemma {:induction false} RebuildsExactly(v: Json, entries: seq<Entry>)
    requires Fits(v) && Covers(v, entries) && Sorted(entries)
    ensures Rebuild(Null, entries) == Ok(v) <==> Restorable(v)
    decreases v
  {
    hide Covers, Sorted, Restorable, ZeroFirst, Child, Leaf, SetAt;
    if Leaf(v) {
      LeafEntries(v, entries);
      RebuildLeaf(v);
    } else {
      FirstToken(v, entries);
      FirstTokenDecides(entries);
      var start := EmptyFor(entries[0].path[0]);
      forall t | Child(v, t).Ok?
        ensures Rebuild(Null, Sub(entries, t)) == Child(v, t) <==> Restorable(Child(v, t).value)
      {
        FitsChild(v, t);
        SubCovers(v, entries, t);
        SubSorted(entries, t);
        RebuildsExactly(Child(v, t).value, Sub(entries, t));
      }
      RestorableChildren(v);
      if Restorable(v) {
        RebuildSucceeds(v, entries, start);
      }
      if Rebuild(Null, entries) == Ok(v) {
        RebuildProjects(v, entries, start);
      }
    }
  }

  lemma RebuildLeaf(v: Json)
    requires Leaf(v)
    ensures Rebuild(Null, [Entry([], LeafValue(v))]) == Ok(v) <==> Restorable(v)
  {
    var entries := [Entry([], LeafValue(v))];
    assert entries[1..] == [];
    assert Rebuild(Null, entries) == Ok(LeafValue(v));
  }

  /** The kind of the start value is that of v, and every child is rebuilt: then so is v. */
  lemma RebuildSucceeds(v: Json, entries: seq<Entry>, start: Json)
    requires Fits(v) && !Leaf(v) && Covers(v, entries) && Inner(entries) && entries != []
    requires start == EmptyFor(entries[0].path[0])
    requires (entries[0].path[0] == "0" <==> ZeroFirst(v)) && (v.Arr? || !ZeroFirst(v))
    requires forall t | Child(v, t).Ok? :: Rebuild(Null, Sub(entries, t)) == Child(v, t)
    ensures Rebuild(start, entries) == Ok(v)
  {
    hide ZeroFirst, SetAt, Covers, At, Leaf, Child, Fits, Rebuild, Sub, Admits;
    NoEntries(Null);
    StartKind(v, entries, start);
    forall t ensures Rebuild(At(start, t), Sub(entries, t)).Ok? {
      AtStart(entries[0].path[0], t);
      if Child(v, t).Err? { NothingBelow(v, entries, t); }
    }
    Assemble(start, entries);
    var r := Rebuild(start, entries).value;
    forall t | Child(v, t).Ok? ensures At(r, t) == Child(v, t).value {
      AtStart(entries[0].path[0], t);
      Project(start, entries, t);
    }
    if v.Arr? {
      ArrayRebuilt(v, entries, start);
    } else {
      ObjectRebuilt(v, entries, start);
    }
  }

  lemma NoEntries(j: Json)
    ensures Rebuild(j, []) == Ok(j)
  {}

  lemma AtStart(t: string, u: string)
    ensures At(EmptyFor(t), u) == Null
  {}

  lemma StartKind(v: Json, entries: seq<Entry>, start: Json)
    requires Fits(v) && !Leaf(v) && Covers(v, entries) && Inner(entries)
    requires if ZeroFirst(v) then start == Arr([]) && v.Arr? else start == Obj(map[])
    ensures v.Arr? <==> start.Arr?
    ensures if v.Arr? then v.items != [] else v.Obj?
    ensures forall e | e in entries :: Child(v, e.path[0]).Ok? && Admits(start, e.path[0])
  {
    hide ZeroFirst, ArrayIndex;
    if v.Arr? { ArrayStartsAtZero(v); }
    forall e | e in entries ensures Child(v, e.path[0]).Ok? && Admits(start, e.path[0]) { TokenOfLeaf(v, e.path); }
  }

  lemma ObjectRebuilt(v: Json, entries: seq<Entry>, start: Json)
    requires v.Obj? && Fits(v) && Covers(v, entries) && Inner(entries)
    requires start == Obj(map[]) && Rebuild(start, entries).Ok?
    requires forall e | e in entries :: Child(v, e.path[0]).Ok?
    requires forall t | Child(v, t).Ok? :: At(Rebuild(start, entries).value, t) == Child(v, t).value
    ensures Rebuild(start, entries).value == v
  {
    hide Rebuild, Covers;
    ObjectStays(start, entries);
    var r := Rebuild(start, entries).value;
    forall k ensures k in r.members <==> k in v.members {
      if k in v.members {
        assert Child(v, k).Ok?;
        var e := EntryBelow(v, entries, k);
      }
    }
    forall k | k in v.members ensures r.members[k] == v.members[k] {
      assert Child(v, k).Ok? && At(r, k) == Child(v, k).value;
    }
    assert r.members == v.members;
  }

  lemma EntryBelow(v: Json, entries: seq<Entry>, k: string) returns (e: Entry)
    requires Fits(v) && Covers(v, entries) && Child(v, k).Ok?
    ensures e in entries && e.path != [] && e.path[0] == k
  {
    hide IsLeaf;
    var below := LeafUnder(v, k);
    e := Entry([k] + below, LeafAt(v, [k] + below));
  }

  lemma ArrayRebuilt(v: Json, entries: seq<Entry>, start: Json)
    requires v.Arr? && v.items != [] && Fits(v) && Covers(v, entries) && Inner(entries)
    requires start == Arr([]) && Rebuild(start, entries).Ok?
    requires forall e | e in entries :: Child(v, e.path[0]).Ok?
    requires forall t | Child(v, t).Ok? :: At(Rebuild(start, entries).value, t) == Child(v, t).value
    ensures Rebuild(start, entries).value == v
  {
    hide Rebuild, Covers, ArrayIndex, ToString;
    var n := |v.items|;
    ArrayStays(start, entries, n);
    var r := Rebuild(start, entries).value;
    ElementAt(v, n - 1);
    var last := EntryBelow(v, entries, ToString(n - 1));
    ArrayIndexExact(ToString(n - 1), n - 1);
    forall i: nat | i < n ensures r.items[i] == v.items[i] {
      ElementAt(v, i);
      ElementAt(r, i);
      assert Child(v, ToString(i)).Ok? && At(r, ToString(i)) == v.items[i];
    }
    assert r.items == v.items;
  }

  /** If v is rebuilt, then so is every child, and the start value was of the kind of v. */
  lemma RebuildProjects(v: Json, entries: seq<Entry>, start: Json)
    requires Fits(v) && Inner(entries) && entries != []
    requires start == EmptyFor(entries[0].path[0]) && Rebuild(start, entries) == Ok(v)
    requires entries[0].path[0] == "0" <==> ZeroFirst(v)
    ensures v.Arr? || !ZeroFirst(v)
    ensures forall t | Child(v, t).Ok? :: Rebuild(Null, Sub(entries, t)) == Child(v, t)
  {
    hide ZeroFirst, Rebuild;
    if entries[0].path[0] == "0" { ArrayStaysArray(start, entries); }
    forall t | Child(v, t).Ok? ensures Rebuild(Null, Sub(entries, t)) == Child(v, t) {
      AtStart(entries[0].path[0], t);
      Project(start, entries, t);
    }
  }

  lemma NothingBelow(v: Json, entries: seq<Entry>, t: string)
    requires Covers(v, entries) && Child(v, t).Err?
    ensures Sub(entries, t) == []
  {
    if Sub(entries, t) != [] {
      var e := Sub(entries, t)[0];
      SubMembers(entries, t, e.path, e.value);
      assert Entry(e.path, e.value) == e;
      TokenOfLeaf(v, [t] + e.path);
    }
  }

  // ---------------------------------------------------------------- when rebuilding fails

  /**
   * No object inside v is mistaken for an array, its key "0" coming first, while it has a key that is no array index.
   */
  predicate Rebuildable(v: Json) {
    match v
    case Arr(a) => forall i | 0 <= i < |a| :: Rebuildable(a[i])
    case Obj(m) =>
      && (forall k | k in m :: Rebuildable(m[k]))
      && ("0" in m && (forall k | k in m :: !Precedes(k, m["0"])) ==> forall k | k in m :: ArrayIndex(k).Ok?)
    case _ => true
  }

  lemma RebuildableChildren(v: Json)
    requires Fits(v)
    ensures Rebuildable(v) <==>
              && (forall t | Child(v, t).Ok? :: Rebuildable(Child(v, t).value))
              && (ZeroFirst(v) ==> forall t | Child(v, t).Ok? :: ArrayIndex(t).Ok?)
  {
    hide Precedes, ArrayIndex;
    if v.Arr? && forall t | Child(v, t).Ok? :: Rebuildable(Child(v, t).value) {
      forall i | 0 <= i < |v.items| ensures Rebuildable(v.items[i]) {
        NamedChild(v, i);
        assert Child(v, Names(v)[i]).Ok?;
      }
    }
    if v.Obj? {
      assert forall k :: Child(v, k).Ok? <==> k in v.members;
    }
  }

  /** Assigning all leaves of v in key order to a null succeeds if and only if v is rebuildable. */
  lemma {:induction false} RebuildsAtAll(v: Json, entries: seq<Entry>)
    requires Fits(v) && Covers(v, entries) && Sorted(entries)
    ensures Rebuild(Null, entries).Ok? <==> Rebuildable(v)
    decreases v
  {
    hide Covers, Sorted, Rebuildable, ZeroFirst, Child, Leaf, SetAt;
    RebuildableChildren(v);
    if Leaf(v) {
      LeafEntries(v, entries);
      LeafIsRebuildable(v);
    } else {
      FirstToken(v, entries);
      FirstTokenDecides(entries);
      forall t | Child(v, t).Ok?
        ensures Rebuild(Null, Sub(entries, t)).Ok? <==> Rebuildable(Child(v, t).value)
      {
        FitsChild(v, t);
        SubCovers(v, entries, t);
        SubSorted(entries, t);
        RebuildsAtAll(Child(v, t).value, Sub(entries, t));
      }
      RebuildNeeds(v, entries, EmptyFor(entries[0].path[0]));
    }
  }

  lemma LeafIsRebuildable(v: Json)
    requires Leaf(v)
    ensures Rebuildable(v) && Rebuild(Null, [Entry([], LeafValue(v))]).Ok?
  {
    assert [Entry([], LeafValue(v))][1..] == [];
  }

  /** Every child has to be rebuilt, and every token has to suit the kind of the start value. */
  lemma RebuildNeeds(v: Json, entries: seq<Entry>, start: Json)
    requires Fits(v) && !Leaf(v) && Covers(v, entries) && Inner(entries) && entries != []
    requires start == EmptyFor(entries[0].path[0]) && (entries[0].path[0] == "0" <==> ZeroFirst(v))
    ensures Rebuild(start, entries).Ok? <==>
              && (forall t | Child(v, t).Ok? :: Rebuild(Null, Sub(entries, t)).Ok?)
              && (ZeroFirst(v) ==> forall t | Child(v, t).Ok? :: ArrayIndex(t).Ok?)
  {
    hide ZeroFirst, SetAt, Covers, At, Leaf, Child, Fits, Rebuild, Sub, ArrayIndex, IsLeaf, LeafAt;
    NoEntries(Null);
    if Rebuild(start, entries).Ok? {
      forall t | Child(v, t).Ok? ensures Rebuild(Null, Sub(entries, t)).Ok? {
        AtStart(entries[0].path[0], t);
        Project(start, entries, t);
      }
      if ZeroFirst(v) {
        ArrayStaysArray(start, entries);
        forall t | Child(v, t).Ok? ensures ArrayIndex(t).Ok? { var e := EntryBelow(v, entries, t); }
      }
    }
    if (forall t | Child(v, t).Ok? :: Rebuild(Null, Sub(entries, t)).Ok?)
       && (ZeroFirst(v) ==> forall t | Child(v, t).Ok? :: ArrayIndex(t).Ok?)
    {
      forall t ensures Rebuild(At(start, t), Sub(entries, t)).Ok? {
        AtStart(entries[0].path[0], t);
        if Child(v, t).Err? { NothingBelow(v, entries, t); }
      }
      forall e | e in entries ensures Admits(start, e.path[0]) { EntryIsBelow(v, entries, e); }
      Assemble(start, entries);
    }
  }

  lemma EntryIsBelow(v: Json, entries: seq<Entry>, e: Entry)
    requires Covers(v, entries) && e in entries && e.path != []
    ensures Child(v, e.path[0]).Ok?
  {
    TokenOfLeaf(v, e.path);
  }

  // ---------------------------------------------------------------- unflatten after flatten

  /** The entries of a flattened document, in the order in which unflatten visits them. */
  function EntriesOf(m: map<string, Json>, ks: seq<string>): seq<Entry>
    requires forall k | k in ks :: k in m && Parse(k).Ok?
  {
    if ks == [] then [] else [Entry(Parse(ks[0]).value, m[ks[0]])] + EntriesOf(m, ks[1..])
  }

  lemma {:induction false} UnflattenIsRebuild(j: Json, m: map<string, Json>, ks: seq<string>)
    requires forall k | k in ks :: k in m && Parse(k).Ok? && Primitive(m[k])
    ensures UnflattenFrom(j, m, ks) == Rebuild(j, EntriesOf(m, ks))
    decreases |ks|
  {
    hide Parse, SetAt;
    if ks != [] {
      var e := Entry(Parse(ks[0]).value, m[ks[0]]);
      assert EntriesOf(m, ks)[0] == e && EntriesOf(m, ks)[1..] == EntriesOf(m, ks[1..]);
      if SetAt(j, e.path, e.value).Ok? { UnflattenIsRebuild(SetAt(j, e.path, e.value).value, m, ks[1..]); }
    }
  }

  lemma {:induction false} EntriesMembers(m: map<string, Json>, ks: seq<string>, e: Entry)
    requires forall k | k in ks :: k in m && Parse(k).Ok? && Print(Parse(k).value) == k
    ensures e in EntriesOf(m, ks) <==> Print(e.path) in ks && m[Print(e.path)] == e.value
    decreases |ks|
  {
    hide Parse, Print;
    if ks != [] {
      EntriesMembers(m, ks[1..], e);
      assert ks == [ks[0]] + ks[1..];
      ParsePrint(e.path);
    }
  }

  lemma {:induction false} EntriesSorted(m: map<string, Json>, ks: seq<string>)
    requires forall k | k in ks :: k in m && Parse(k).Ok? && Print(Parse(k).value) == k
    requires StrictlyAscending(ks)
    ensures Sorted(EntriesOf(m, ks))
    decreases |ks|
  {
    hide Parse, Print, Before;
    if ks != [] {
      EntriesSorted(m, ks[1..]);
      var entries := EntriesOf(m, ks);
      assert entries[1..] == EntriesOf(m, ks[1..]);
      forall e | e in entries[1..] ensures PathBefore(entries[0].path, e.path) {
        EntriesMembers(m, ks[1..], e);
      }
    }
  }

  /**
   * Unflattening a flattened document gives the document back, without an error, if and only if it is restorable. The
   * documentation makes an exception for empty arrays and objects only; an object whose key "0" comes first is turned
   * into an array or an error.
   */
  lemma UnflattenFlatten(v: Json)
    requires Fits(v)
    ensures Unflattened(Obj(Flattened(v))) == Ok(v) <==> Restorable(v)
  {
    FlattenedEntries(v);
    var entries := EntriesOf(Flattened(v), Keys(Flattened(v)));
    RebuildsExactly(v, entries);
  }

  /**
   * Unflattening a flattened document is an error if and only if the document is not rebuildable. One that is
   * rebuildable but not restorable comes back, without an error, as a different value.
   */
  lemma UnflattenFlattenFails(v: Json)
    requires Fits(v)
    ensures Unflattened(Obj(Flattened(v))).Err? <==> !Rebuildable(v)
    ensures Rebuildable(v) && !Restorable(v) ==>
              Unflattened(Obj(Flattened(v))).Ok? && Unflattened(Obj(Flattened(v))).value != v
  {
    hide Unflattened, Flattened, Rebuildable, Restorable;
    FlattenedEntries(v);
    var entries := EntriesOf(Flattened(v), Keys(Flattened(v)));
    RebuildsAtAll(v, entries);
    UnflattenFlatten(v);
  }

  /** The entries of a flattened document are what unflatten is given. */
  lemma FlattenedEntries(v: Json)
    requires Fits(v)
    ensures forall k | k in Keys(Flattened(v)) :: k in Flattened(v) && Parse(k).Ok?
    ensures var entries := EntriesOf(Flattened(v), Keys(Flattened(v)));
            && Covers(v, entries) && Sorted(entries)
            && Unflattened(Obj(Flattened(v))) == Rebuild(Null, entries)
  {
    hide Parse, Print, Keys, FlattenInto, IsLeaf, Flattened;
    var m := Flattened(v);
    var ks := Keys(m);
    FlattenedExact(v, []);
    KeysOfObject(m);
    forall k | k in ks ensures Primitive(m[k]) {
      FlattenedExact(v, Parse(k).value);
      LeafValuePrimitive(v, Parse(k).value);
    }
    UnflattenIsRebuild(Null, m, ks);
    EntriesSorted(m, ks);
    EntriesCover(v, ks);
  }

  lemma KeysOfObject(m: map<string, Json>)
    ensures forall k :: k in Keys(m) <==> k in m
    ensures StrictlyAscending(Keys(m))
    ensures Unflattened(Obj(m)) == UnflattenFrom(Null, m, Keys(m))
  {}

  lemma LeafValuePrimitive(v: Json, ts: Tokens)
    requires IsLeaf(v, ts)
    ensures Primitive(LeafAt(v, ts))
  {}

  lemma EntriesCover(v: Json, ks: seq<string>)
    requires Fits(v)
    requires forall k | k in ks :: k in Flattened(v) && Parse(k).Ok? && Print(Parse(k).value) == k
    requires forall k | k in Flattened(v) :: k in ks
    ensures Covers(v, EntriesOf(Flattened(v), ks))
  {
    hide Parse, Print, IsLeaf, LeafAt, Flattened;
    var m := Flattened(v);
    var entries := EntriesOf(m, ks);
    forall e | e in entries ensures IsLeaf(v, e.path) && e.value == LeafAt(v, e.path) {
      EntriesMembers(m, ks, e);
      FlattenedExact(v, e.path);
    }
    forall ts | IsLeaf(v, ts) ensures Entry(ts, LeafAt(v, ts)) in entries {
      FlattenedExact(v, ts);
      EntriesMembers(m, ks, Entry(ts, LeafAt(v, ts)));
    }
  }

  /** v with every empty array and object replaced by null. */
  function Blanked(v: Json): Json {
    match v
    case Arr(a) => if a == [] then Null else Arr(seq(|a|, i requires 0 <= i < |a| => Blanked(a[i])))
    case Obj(m) => if m == map[] then Null else Obj(map k | k in m :: Blanked(m[k]))
    case _ => v
  }

  lemma {:induction false} BlankedFits(v: Json)
    requires Fits(v)
    ensures Fits(Blanked(v))
    decreases v
  {
    match v {
      case Arr(a) => forall i | 0 <= i < |a| ensures Fits(Blanked(a[i])) { BlankedFits(a[i]); }
      case Obj(m) => forall k | k in m ensures Fits(Blanked(m[k])) { BlankedFits(m[k]); }
      case _ =>
    }
  }

  lemma BlankedChild(v: Json, t: string)
    ensures Child(v, t).Ok? <==> Child(Blanked(v), t).Ok?
    ensures Child(v, t).Ok? ==> Child(Blanked(v), t).value == Blanked(Child(v, t).value)
  {}

  /** Blanking keeps the leaves and what is stored for them. */
  lemma {:induction false} BlankedLeaves(v: Json, ts: Tokens)
    ensures IsLeaf(v, ts) <==> IsLeaf(Blanked(v), ts)
    ensures IsLeaf(v, ts) ==> LeafAt(v, ts) == LeafAt(Blanked(v), ts)
    decreases |ts|
  {
    if ts != [] {
      hide Blanked;
      BlankedChild(v, ts[0]);
      if Child(v, ts[0]).Ok? { BlankedLeaves(Child(v, ts[0]).value, ts[1..]); }
    }
  }

  lemma FlattenedBlanked(v: Json)
    requires Fits(v)
    ensures Flattened(Blanked(v)) == Flattened(v)
  {
    hide Flattened, Blanked, Parse, Print, IsLeaf, LeafAt;
    var w := Blanked(v);
    BlankedFits(v);
    FlattenedExact(v, []);
    FlattenedExact(w, []);
    forall p ensures p in Flattened(v) <==> p in Flattened(w) {
      if p in Flattened(v) { FlattenedExact(w, Parse(p).value); BlankedLeaves(v, Parse(p).value); }
      if p in Flattened(w) { FlattenedExact(v, Parse(p).value); BlankedLeaves(v, Parse(p).value); }
    }
    forall p | p in Flattened(v) ensures Flattened(v)[p] == Flattened(w)[p] {
      BlankedLeaves(v, Parse(p).value);
      FlattenedExact(v, Parse(p).value);
      FlattenedExact(w, Parse(p).value);
    }
  }

  /**
   * A document with empty containers comes back with null in their places, if and only if its keys "0" do not
   * interfere.
   */
  lemma EmptiesComeBackAsNull(v: Json)
    requires Fits(v)
    ensures Unflattened(Obj(Flattened(v))) == Ok(Blanked(v)) <==> Restorable(Blanked(v))
  {
    hide Flattened, Unflattened, Restorable, Blanked;
    FlattenedBlanked(v);
    BlankedFits(v);
    UnflattenFlatten(Blanked(v));
  }

  /** Restorable documents with the same flattened form are equal. */
  lemma FlattenInjective(v: Json, w: Json)
    requires Fits(v) && Fits(w) && Restorable(v) && Restorable(w) && Flattened(v) == Flattened(w)
    ensures v == w
  {
    hide Flattened, Restorable, Fits, Unflattened;
    UnflattenFlatten(v);
    UnflattenFlatten(w);
  }

  /** flatten followed by unflatten, as a caller does it. */
  method FlattenThenUnflatten(v: Json) returns (r: Result<Json>)
    requires Fits(v)
    ensures r == Ok(v) <==> Restorable(v)
  {
    var flat := FlattenValue(v);
    r := UnflattenValue(flat);
    UnflattenFlatten(v);
  }

  /** The object {"0": x} is lost, although nothing in it is empty; a key that sorts before "0" saves it. */
  lemma ZeroKey(x: Json)
    requires Fits(x) && Restorable(x)
    ensures Unflattened(Obj(Flattened(Obj(map["0" := x])))) != Ok(Obj(map["0" := x]))
    ensures Unflattened(Obj(Flattened(Obj(map["" := x, "0" := x])))) == Ok(Obj(map["" := x, "0" := x]))
    ensures Unflattened(Obj(Flattened(Obj(map["0" := Null, "a" := Null])))).Err?
    ensures Unflattened(Obj(Flattened(Obj(map["0" := Null])))).Ok?
  {
    hide Flattened, Unflattened, Restorable, Fits, Rebuildable;
    ZeroKeyRebuildable();
    UnflattenFlattenFails(Obj(map["0" := Null, "a" := Null]));
    UnflattenFlattenFails(Obj(map["0" := Null]));
    ZeroKeyRestorable(x, map["0" := x]);
    ZeroKeyRestorable(x, map["" := x, "0" := x]);
    UnflattenFlatten(Obj(map["0" := x]));
    UnflattenFlatten(Obj(map["" := x, "0" := x]));
  }

  lemma ZeroKeyRebuildable()
    ensures Fits(Obj(map["0" := Null, "a" := Null])) && !Rebuildable(Obj(map["0" := Null, "a" := Null]))
    ensures Fits(Obj(map["0" := Null])) && Rebuildable(Obj(map["0" := Null]))
  {
    var m := map["0" := Null, "a" := Null];
    assert "a" in m && ArrayIndex("a").Err?;
    ZeroIsZero();
  }

  lemma ZeroKeyRestorable(x: Json, m: map<string, Json>)
    requires Fits(x) && Restorable(x) && "0" in m && forall k | k in m :: m[k] == x && (k == "0" || k == "")
    ensures Fits(Obj(m)) && (Restorable(Obj(m)) <==> "" in m)
  {
    assert Precedes("", x) && !Precedes("0", x);
  }
}
