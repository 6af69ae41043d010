// unflatten on arbitrary input: when it succeeds, and when flattening the result gives the input back.
module UnflattenExact {
  import opened Decimals
  import opened Flatten
  import opened FlattenRoundTrip
  import opened JsonPointer
  import opened JsonValue
  import opened Unflatten

  function Size(entries: seq<Entry>): nat {
    if entries == [] then 0 else 1 + |entries[0].path| + Size(entries[1..])
  }

  lemma {:induction false} SubSmaller(entries: seq<Entry>, t: string)
    ensures Size(Sub(entries, t)) <= Size(entries)
    ensures entries != [] ==> Size(Sub(entries, t)) < Size(entries)
    decreases |entries|
  {
    if entries != [] {
      SubSmaller(entries[1..], t);
      if entries[0].path != [] && entries[0].path[0] == t {
        assert Sub(entries, t)[1..] == Sub(entries[1..], t);
      }
    }
  }

  predicate PrimitiveValues(entries: seq<Entry>) {
    forall e | e in entries :: Primitive(e.value)
  }

  lemma SubPrimitive(entries: seq<Entry>, t: string)
    requires PrimitiveValues(entries)
    ensures PrimitiveValues(Sub(entries, t))
  {
    forall e | e in Sub(entries, t) ensures Primitive(e.value) {
      SubMembers(entries, t, e.path, e.value);
      assert Entry(e.path, e.value) == e;
    }
  }

  /**
   * Only a null may sit at a path that others continue, and where the first token is "0", which makes an array, every
   * token is an array index; the same below every token.
   */
  predicate Acceptable(entries: seq<Entry>)
    decreases Size(entries)
  {
    if entries == [] then true
    else if entries[0].path == [] then
      entries[1..] == [] || (entries[0].value == Null && Acceptable(entries[1..]))
    else
      && (entries[0].path[0] == "0" ==> forall e | e in entries && e.path != [] :: ArrayIndex(e.path[0]).Ok?)
      && forall e | e in entries && e.path != [] ::
           (SubSmaller(entries, e.path[0]); Acceptable(Sub(entries, e.path[0])))
  }

  lemma SortedRest(entries: seq<Entry>)
    requires entries != [] && Sorted(entries)
    ensures Inner(entries[1..]) && Sorted(entries[1..])
  {
    hide Print;
    forall e | e in entries[1..] ensures e.path != [] {
      assert PathBefore(entries[0].path, e.path);
      PrintNothing();
    }
  }

  lemma AllInner(entries: seq<Entry>)
    requires entries != [] && Sorted(entries) && entries[0].path != []
    ensures Inner(entries)
  {
    SortedRest(entries);
    assert entries == [entries[0]] + entries[1..];
  }

  /** A value that is neither null nor a container takes nothing below it. */
  lemma NothingBelowPrimitive(x: Json, entries: seq<Entry>)
    requires Primitive(x) && x != Null && entries != [] && Inner(entries)
    ensures Rebuild(x, entries).Err?
  {
    assert entries[0] in entries;
    assert Store(x, entries[0].path[0], Null).Err?;
  }

  lemma SubToken(entries: seq<Entry>, t: string)
    requires Inner(entries) && Sub(entries, t) != []
    ensures exists e | e in entries :: e.path[0] == t
  {
    var f := Sub(entries, t)[0];
    SubMembers(entries, t, f.path, f.value);
    assert Entry(f.path, f.value) == f;
    assert Entry([t] + f.path, f.value).path[0] == t;
  }

  /** What the start value and the parts below the tokens have to satisfy. */
  lemma PartsDecide(entries: seq<Entry>)
    requires entries != [] && Inner(entries)
    ensures Rebuild(Null, entries).Ok? <==>
              && (entries[0].path[0] == "0" ==> forall e | e in entries :: ArrayIndex(e.path[0]).Ok?)
              && forall e | e in entries :: Rebuild(Null, Sub(entries, e.path[0])).Ok?
  {
    hide SetAt, At, Rebuild, Sub, ArrayIndex;
    var start := EmptyFor(entries[0].path[0]);
    FirstTokenDecides(entries);
    NoEntries(Null);
    if Rebuild(start, entries).Ok? {
      forall e | e in entries ensures Rebuild(Null, Sub(entries, e.path[0])).Ok? {
        AtStart(entries[0].path[0], e.path[0]);
        Project(start, entries, e.path[0]);
      }
      if start.Arr? { ArrayStaysArray(start, entries); }
    }
    if && (entries[0].path[0] == "0" ==> forall e | e in entries :: ArrayIndex(e.path[0]).Ok?)
       && forall e | e in entries :: Rebuild(Null, Sub(entries, e.path[0])).Ok?
    {
      forall t ensures Rebuild(At(start, t), Sub(entries, t)).Ok? {
        AtStart(entries[0].path[0], t);
        if Sub(entries, t) != [] { SubToken(entries, t); }
      }
      Assemble(start, entries);
    }
  }

  /** Assigning sorted entries to a null succeeds if and only if they are acceptable. */
  lemma {:induction false} RebuildAccepts(entries: seq<Entry>)
    requires Sorted(entries) && PrimitiveValues(entries)
    ensures Rebuild(Null, entries).Ok? <==> Acceptable(entries)
    decreases Size(entries)
  {
    hide Sorted, Sub, SetAt;
    if entries == [] {
    } else if entries[0].path == [] {
      SortedRest(entries);
      RootFirst(entries);
      if entries[1..] != [] {
        if entries[0].value == Null {
          RebuildAccepts(entries[1..]);
        } else {
          NothingBelowPrimitive(entries[0].value, entries[1..]);
        }
      }
    } else {
      AllInner(entries);
      PartsDecide(entries);
      forall e | e in entries
        ensures Rebuild(Null, Sub(entries, e.path[0])).Ok? <==> Acceptable(Sub(entries, e.path[0]))
      {
        SubSmaller(entries, e.path[0]);
        SubSorted(entries, e.path[0]);
        SubPrimitive(entries, e.path[0]);
        RebuildAccepts(Sub(entries, e.path[0]));
      }
    }
  }

  lemma RootFirst(entries: seq<Entry>)
    requires entries != [] && entries[0].path == []
    ensures Rebuild(Null, entries) == Rebuild(entries[0].value, entries[1..])
  {}

  // ---------------------------------------------------------------- when flattening gives the entries back

  /** Below an index there is no smaller one missing. */
  predicate Contiguous(entries: seq<Entry>) {
    forall e | e in entries && e.path != [] && ArrayIndex(e.path[0]).Ok? ::
      forall i: nat | i < ArrayIndex(e.path[0]).value :: Sub(entries, ToString(i)) != []
  }

  /**
   * There is an entry; none continues the path of another; and where the first token is "0" no index is missing; the
   * same below every token.
   */
  predicate Faithful(entries: seq<Entry>)
    decreases Size(entries)
  {
    entries != [] &&
    if entries[0].path == [] then entries[1..] == []
    else
      && (entries[0].path[0] == "0" ==> Contiguous(entries))
      && forall e | e in entries && e.path != [] ::
           (SubSmaller(entries, e.path[0]); Faithful(Sub(entries, e.path[0])))
  }

  /** What is rebuilt has arrays that size_type can count. */
  lemma {:induction false} RebuiltFits(entries: seq<Entry>)
    requires Sorted(entries) && PrimitiveValues(entries) && Rebuild(Null, entries).Ok?
    ensures Fits(Rebuild(Null, entries).value)
    decreases Size(entries)
  {
    hide Sorted, Sub, SetAt, At, Rebuild, ArrayIndex;
    NoEntries(Null);
    if entries == [] {
    } else if entries[0].path == [] {
      SortedRest(entries);
      RootFirst(entries);
      if entries[1..] == [] {
        NoEntries(entries[0].value);
      } else if entries[0].value == Null {
        RebuiltFits(entries[1..]);
      } else {
        NothingBelowPrimitive(entries[0].value, entries[1..]);
      }
    } else {
      AllInner(entries);
      FirstTokenDecides(entries);
      var v, start := Rebuild(Null, entries).value, EmptyFor(entries[0].path[0]);
      forall t ensures Fits(At(v, t)) {
        AtStart(entries[0].path[0], t);
        Project(start, entries, t);
        SubSmaller(entries, t);
        SubSorted(entries, t);
        SubPrimitive(entries, t);
        RebuiltFits(Sub(entries, t));
      }
      RebuiltKind(entries);
      if v.Arr? {
        forall i | 0 <= i < |v.items| ensures Fits(v.items[i]) {
          ElementAt(v, i);
          assert Fits(At(v, ToString(i))) && At(v, ToString(i)) == v.items[i] by { AtChild(v, ToString(i)); }
        }
      } else {
        forall k | k in v.members ensures Fits(v.members[k]) {
          assert Fits(At(v, k));
          AtChild(v, k);
        }
      }
    }
  }

  lemma AtChild(v: Json, t: string)
    requires Child(v, t).Ok?
    ensures At(v, t) == Child(v, t).value
  {}

  /** The rebuilt container has a child for every token, and no other children but the padding of an array. */
  lemma RebuiltKind(entries: seq<Entry>)
    requires entries != [] && Inner(entries) && Rebuild(Null, entries).Ok?
    ensures var v := Rebuild(Null, entries).value;
            && (if entries[0].path[0] == "0" then v.Arr? && |v.items| <= SIZE_MAX else v.Obj?)
            && !Leaf(v)
            && (forall e | e in entries :: Child(v, e.path[0]).Ok?)
            && (v.Obj? ==> forall t | Child(v, t).Ok? :: exists e | e in entries :: e.path[0] == t)
            && (v.Arr? ==> exists e | e in entries :: ArrayIndex(e.path[0]) == Ok(|v.items| - 1))
  {
    hide SetAt, At, Rebuild, ArrayIndex;
    FirstTokenDecides(entries);
    var v, start := Rebuild(Null, entries).value, EmptyFor(entries[0].path[0]);
    assert entries[0] in entries;
    if start.Arr? {
      ArrayStaysArray(start, entries);
      forall e | e in entries ensures ArrayIndex(e.path[0]).value < SIZE_MAX {
        ArrayIndexExact(e.path[0], ArrayIndex(e.path[0]).value);
      }
      ArrayStays(start, entries, SIZE_MAX);
      ArrayReaches(start, entries);
      forall e | e in entries ensures Child(v, e.path[0]).Ok? {
        ArrayIndexExact(e.path[0], ArrayIndex(e.path[0]).value);
        ArrayIndexExact("-", ArrayIndex(e.path[0]).value);
      }
    } else {
      ObjectStays(start, entries);
      assert entries[0].path[0] in v.members;
    }
  }

  lemma {:induction false} ArrayReaches(j: Json, entries: seq<Entry>)
    requires j.Arr? && Inner(entries) && Rebuild(j, entries).Ok?
    ensures Rebuild(j, entries).value.Arr?
    ensures var r := Rebuild(j, entries).value;
            |r.items| == |j.items| || exists e | e in entries :: ArrayIndex(e.path[0]) == Ok(|r.items| - 1)
    decreases |entries|
  {
    hide At, SetAt, ArrayIndex;
    if entries != [] {
      assert entries == [entries[0]] + entries[1..];
      SetAtLaws(j, entries[0].path, entries[0].value);
      ArrayReaches(SetAt(j, entries[0].path, entries[0].value).value, entries[1..]);
    }
  }

  /** The leaves of what is rebuilt are the entries if and only if the entries are faithful. */
  lemma {:induction false} RebuildKeeps(entries: seq<Entry>)
    requires Sorted(entries) && PrimitiveValues(entries) && Rebuild(Null, entries).Ok?
    ensures Covers(Rebuild(Null, entries).value, entries) <==> Faithful(entries)
    decreases Size(entries)
  {
    hide Sorted, Sub, SetAt, At, Rebuild, ArrayIndex, Covers;
    var v := Rebuild(Null, entries).value;
    NoEntries(Null);
    if entries == [] {
      assert !Covers(v, []) by { NotCovered(v); }
    } else if entries[0].path == [] {
      RootEntry(entries);
    } else {
      AllInner(entries);
      FirstTokenDecides(entries);
      RebuiltKind(entries);
      RebuiltFits(entries);
      var start := EmptyFor(entries[0].path[0]);
      forall e | e in entries
        ensures Covers(Child(v, e.path[0]).value, Sub(entries, e.path[0])) <==> Faithful(Sub(entries, e.path[0]))
      {
        var t := e.path[0];
        AtStart(entries[0].path[0], t);
        Project(start, entries, t);
        AtChild(v, t);
        SubSmaller(entries, t);
        SubSorted(entries, t);
        SubPrimitive(entries, t);
        RebuildKeeps(Sub(entries, t));
      }
      if Covers(v, entries) {
        forall e | e in entries ensures Faithful(Sub(entries, e.path[0])) { SubCovers(v, entries, e.path[0]); }
        if v.Arr? { CoveredIsContiguous(v, entries); }
      }
      if Faithful(entries) {
        forall t | Child(v, t).Ok? ensures Sub(entries, t) != [] && Covers(Child(v, t).value, Sub(entries, t)) {
          TokenPresent(v, entries, t);
        }
        CoversByParts(v, entries);
      }
    }
  }

  lemma NotCovered(v: Json)
    requires v == Null
    ensures !Covers(v, [])
  {
    assert IsLeaf(v, []);
  }

  lemma RootEntry(entries: seq<Entry>)
    requires entries != [] && entries[0].path == [] && Sorted(entries) && PrimitiveValues(entries)
    requires Rebuild(Null, entries).Ok?
    ensures Covers(Rebuild(Null, entries).value, entries) <==> entries[1..] == []
  {
    hide Sorted, SetAt, Rebuild;
    var x, v := entries[0].value, Rebuild(Null, entries).value;
    SortedRest(entries);
    RootFirst(entries);
    assert entries[0] in entries && entries == [entries[0]] + entries[1..];
    if entries[1..] == [] {
      NoEntries(x);
      forall ts | IsLeaf(x, ts) ensures ts == [] { LeafHasNothingInside(x, ts); }
      assert entries[0] == Entry([], x);
    } else if x == Null {
      RebuiltKind(entries[1..]);
      assert !IsLeaf(v, []) by { NotHere(v); }
    } else {
      NothingBelowPrimitive(x, entries[1..]);
    }
  }

  lemma CoveredIsContiguous(v: Json, entries: seq<Entry>)
    requires v.Arr? && Fits(v) && Covers(v, entries) && Inner(entries)
    requires forall e | e in entries :: Child(v, e.path[0]).Ok?
    ensures Contiguous(entries)
  {
    hide Covers, Sub, ToString;
    forall e, i: nat | e in entries && e.path != [] && ArrayIndex(e.path[0]).Ok? && i < ArrayIndex(e.path[0]).value
      ensures Sub(entries, ToString(i)) != []
    {
      ElementAt(v, i);
      var f := EntryBelow(v, entries, ToString(i));
      SubMembers(entries, ToString(i), f.path[1..], f.value);
      assert f == Entry([ToString(i)] + f.path[1..], f.value);
    }
  }

  /** Every child of the rebuilt container has entries of its own: faithful ones leave no padding. */
  lemma TokenPresent(v: Json, entries: seq<Entry>, t: string)
    requires Inner(entries) && Child(v, t).Ok? && (v.Arr? ==> Contiguous(entries))
    requires v.Obj? ==> forall u | Child(v, u).Ok? :: exists e | e in entries :: e.path[0] == u
    requires v.Arr? ==> exists e | e in entries :: ArrayIndex(e.path[0]) == Ok(|v.items| - 1)
    ensures Sub(entries, t) != []
    ensures exists e | e in entries :: e.path[0] == t
  {
    hide Sub, ArrayIndex, ToString;
    if v.Arr? {
      var i := ArrayIndex(t).value;
      var last :| last in entries && ArrayIndex(last.path[0]) == Ok(|v.items| - 1);
      IndexOfChild(v, t);
      ArrayIndexExact(t, i);
      ArrayIndexExact(last.path[0], |v.items| - 1);
      if i < |v.items| - 1 { SubToken(entries, t); }
    }
    var e :| e in entries && e.path[0] == t;
    SubMembers(entries, t, e.path[1..], e.value);
    assert e == Entry([t] + e.path[1..], e.value);
  }

  lemma IndexOfChild(v: Json, t: string)
    requires v.Arr? && Child(v, t).Ok?
    ensures ArrayIndex(t).Ok? && ArrayIndex(t).value < |v.items|
  {}

  lemma CoversByParts(v: Json, entries: seq<Entry>)
    requires !Leaf(v) && Inner(entries)
    requires forall e | e in entries :: Child(v, e.path[0]).Ok?
    requires forall t | Child(v, t).Ok? :: Covers(Child(v, t).value, Sub(entries, t))
    ensures Covers(v, entries)
  {
    hide IsLeaf, LeafAt, Sub, Child;
    forall e | e in entries ensures IsLeaf(v, e.path) && e.value == LeafAt(v, e.path) {
      var t, us := e.path[0], e.path[1..];
      assert e == Entry([t] + us, e.value);
      SubMembers(entries, t, us, e.value);
      assert Entry(us, e.value) in Sub(entries, t);
      LeafBelow(v, t, us);
    }
    forall ts | IsLeaf(v, ts) ensures Entry(ts, LeafAt(v, ts)) in entries {
      NotHere(v);
      TokenOfLeaf(v, ts);
      var t, us := ts[0], ts[1..];
      assert ts == [t] + us;
      LeafBelow(v, t, us);
      assert Entry(us, LeafAt(Child(v, t).value, us)) in Sub(entries, t);
      SubMembers(entries, t, us, LeafAt(v, ts));
    }
  }

  // ---------------------------------------------------------------- flattened documents

  /** An object of primitive values keyed by the texts of pointers. */
  predicate Flat(m: map<string, Json>) {
    forall k | k in m :: Primitive(m[k]) && Parse(k).Ok?
  }

  function EntriesIn(m: map<string, Json>): seq<Entry>
    requires Flat(m)
  {
    EntriesOf(m, Keys(m))
  }

  lemma EntriesInShape(m: map<string, Json>)
    requires Flat(m)
    ensures forall k | k in m :: Print(Parse(k).value) == k
    ensures Sorted(EntriesIn(m)) && PrimitiveValues(EntriesIn(m))
    ensures Unflattened(Obj(m)) == Rebuild(Null, EntriesIn(m))
  {
    hide Parse, Print, Keys;
    KeysOfObject(m);
    forall k | k in m ensures Print(Parse(k).value) == k { ParseIsInverse(k, Parse(k).value); }
    EntriesSorted(m, Keys(m));
    UnflattenIsRebuild(Null, m, Keys(m));
    forall e | e in EntriesIn(m) ensures Primitive(e.value) { EntriesMembers(m, Keys(m), e); }
  }

  /** unflatten succeeds if and only if its argument is a flat object whose entries are acceptable. */
  lemma UnflattenAcceptsExactly(value: Json)
    ensures Unflattened(value).Ok? <==>
              value.Obj? && Flat(value.members) && Acceptable(EntriesIn(value.members))
  {
    hide Parse, Rebuild, Acceptable, EntriesIn, UnflattenFrom, Sorted;
    if value.Obj? {
      KeysOfObject(value.members);
      if Unflattened(value).Ok? { UnflattenAccepts(Null, value.members, Keys(value.members)); }
      if Flat(value.members) {
        EntriesInShape(value.members);
        RebuildAccepts(EntriesIn(value.members));
      }
    }
  }

  /** Flattening what was unflattened gives the input back if and only if its entries are faithful. */
  lemma FlattenUnflatten(m: map<string, Json>)
    requires Unflattened(Obj(m)).Ok?
    ensures Flat(m)
    ensures Flattened(Unflattened(Obj(m)).value) == m <==> Faithful(EntriesIn(m))
  {
    hide Parse, Print, Rebuild, Acceptable, UnflattenFrom, Sorted, Covers, Flattened, Faithful, Keys, IsLeaf, LeafAt;
    UnflattenAcceptsExactly(Obj(m));
    EntriesInShape(m);
    var entries, v := EntriesIn(m), Unflattened(Obj(m)).value;
    RebuiltFits(entries);
    RebuildKeeps(entries);
    KeysOfObject(m);
    if Flattened(v) == m { EntriesCover(v, Keys(m)); }
    if Covers(v, entries) { CoveredIsFlattened(v, m); }
  }

  /** The empty object unflattens to null, which flattens to an object with one entry. */
  lemma NothingToUnflatten()
    ensures Unflattened(Obj(map[])) == Ok(Null) && Flattened(Null) == map["" := Null] != map[]
  {
    assert Keys(map[]) == [];
    assert "" in map["" := Null];
  }

  lemma CoveredIsFlattened(v: Json, m: map<string, Json>)
    requires Fits(v) && Flat(m) && Covers(v, EntriesIn(m))
    ensures Flattened(v) == m
  {
    hide Parse, Print, Keys, Flattened, IsLeaf, LeafAt;
    EntriesInShape(m);
    KeysOfObject(m);
    FlattenedExact(v, []);
    forall p ensures p in Flattened(v) <==> p in m {
      if p in Flattened(v) {
        var ts := Parse(p).value;
        EntriesMembers(m, Keys(m), Entry(ts, LeafAt(v, ts)));
      }
      if p in m {
        var ts := Parse(p).value;
        EntriesMembers(m, Keys(m), Entry(ts, m[p]));
        FlattenedExact(v, ts);
      }
    }
    forall p | p in m ensures Flattened(v)[p] == m[p] {
      var ts := Parse(p).value;
      EntriesMembers(m, Keys(m), Entry(ts, m[p]));
      FlattenedExact(v, ts);
    }
  }
}
