// JSON Merge Patch (RFC 7396): the recursive definition and the in-place loop.
module MergePatch {
  import opened JsonValue

  function MembersOf(v: Json): map<string, Json> {
    if v.Obj? then v.members else map[]
  }

  /** MergePatch of section 2 of RFC 7396, without an order of visiting: a missing member counts as null. */
  function Merge(target: Json, patch: Json): Json
    decreases patch
  {
    if !patch.Obj? then patch
    else
      var t, p := MembersOf(target), patch.members;
      Obj(map k | k in t.Keys + p.Keys && (k in p ==> p[k] != Null) ::
            if k in p then Merge(if k in t then t[k] else Null, p[k]) else t[k])
  }

  // ---------------------------------------------------------------- what a merge patch says, path by path

  /** x is what the member names ks lead to in v. */
  predicate Holds(v: Json, ks: seq<string>, x: Json) {
    if ks == [] then v == x
    else v.Obj? && ks[0] in v.members && Holds(v.members[ks[0]], ks[1..], x)
  }

  /** The member names ks lead to an object. */
  predicate HoldsObject(v: Json, ks: seq<string>) {
    v.Obj? && (ks != [] ==> ks[0] in v.members && HoldsObject(v.members[ks[0]], ks[1..]))
  }

  /** The patch ends above ks, with an object that does not mention the next member. */
  predicate Untouched(patch: Json, ks: seq<string>)
    decreases |ks|
  {
    patch.Obj? && ks != [] && (ks[0] in patch.members ==> Untouched(patch.members[ks[0]], ks[1..]))
  }

  /**
   * merged is target after patch: objects stand where the patch has one and where the target has one that is not
   * touched; other values where the patch has them, null only at the top, and where they are not touched.
   */
  ghost predicate Merged(target: Json, patch: Json, merged: Json) {
    && (forall ks :: HoldsObject(merged, ks) <==>
                       HoldsObject(patch, ks) || (Untouched(patch, ks) && HoldsObject(target, ks)))
    && (forall ks, x: Json | !x.Obj? ::
          Holds(merged, ks, x) <==>
            (Holds(patch, ks, x) && (x == Null ==> ks == [])) || (Untouched(patch, ks) && Holds(target, ks, x)))
  }

  lemma {:induction false} MergedObject(target: Json, patch: Json, ks: seq<string>)
    ensures HoldsObject(Merge(target, patch), ks) <==>
              HoldsObject(patch, ks) || (Untouched(patch, ks) && HoldsObject(target, ks))
    decreases |ks|
  {
    if patch.Obj? && ks != [] && ks[0] in patch.members {
      var k, t := ks[0], MembersOf(target);
      MergedObject(if k in t then t[k] else Null, patch.members[k], ks[1..]);
    }
  }

  lemma {:induction false} MergedValue(target: Json, patch: Json, ks: seq<string>, x: Json)
    requires !x.Obj?
    ensures Holds(Merge(target, patch), ks, x) <==>
              (Holds(patch, ks, x) && (x == Null ==> ks == [])) || (Untouched(patch, ks) && Holds(target, ks, x))
    decreases |ks|
  {
    if patch.Obj? && ks != [] && ks[0] in patch.members {
      var k, t := ks[0], MembersOf(target);
      MergedValue(if k in t then t[k] else Null, patch.members[k], ks[1..], x);
    }
  }

  lemma MergeIsMerged(target: Json, patch: Json)
    ensures Merged(target, patch, Merge(target, patch))
  {
    hide Merge, HoldsObject, Holds, Untouched;
    forall ks
      ensures HoldsObject(Merge(target, patch), ks) <==>
                HoldsObject(patch, ks) || (Untouched(patch, ks) && HoldsObject(target, ks))
    {
      MergedObject(target, patch, ks);
    }
    forall ks, x: Json | !x.Obj?
      ensures Holds(Merge(target, patch), ks, x) <==>
                (Holds(patch, ks, x) && (x == Null ==> ks == [])) || (Untouched(patch, ks) && Holds(target, ks, x))
    {
      MergedValue(target, patch, ks, x);
    }
  }

  /** A value is determined by what it holds, so there is only one way to apply a patch. */
  lemma {:induction false} SameHoldings(v: Json, w: Json)
    requires forall ks :: HoldsObject(v, ks) <==> HoldsObject(w, ks)
    requires forall ks, x: Json | !x.Obj? :: Holds(v, ks, x) <==> Holds(w, ks, x)
    ensures v == w
    decreases v
  {
    assert HoldsObject(v, []) <==> HoldsObject(w, []);
    if v.Obj? {
      forall k ensures k in v.members <==> k in w.members {
        HasMember(v, k);
        HasMember(w, k);
      }
      forall k | k in v.members ensures v.members[k] == w.members[k] {
        forall ks ensures HoldsObject(v.members[k], ks) <==> HoldsObject(w.members[k], ks) {
          assert ([k] + ks)[1..] == ks;
          assert HoldsObject(v, [k] + ks) <==> HoldsObject(w, [k] + ks);
        }
        forall ks, x: Json | !x.Obj? ensures Holds(v.members[k], ks, x) <==> Holds(w.members[k], ks, x) {
          assert ([k] + ks)[1..] == ks;
          assert Holds(v, [k] + ks, x) <==> Holds(w, [k] + ks, x);
        }
        SameHoldings(v.members[k], w.members[k]);
      }
    } else {
      assert Holds(v, [], v) && Holds(w, [], v);
    }
  }

  lemma HasMember(v: Json, k: string)
    requires v.Obj?
    ensures k in v.members <==> HoldsObject(v, [k]) || exists x: Json | !x.Obj? :: Holds(v, [k], x)
  {
    assert [k][1..] == [];
    if k in v.members && !v.members[k].Obj? { assert Holds(v, [k], v.members[k]); }
    if k in v.members && v.members[k].Obj? { assert HoldsObject(v, [k]); }
  }

  /** The path-by-path reading of the patch leaves no choice: it determines the merged value. */
  lemma MergedIsUnique(target: Json, patch: Json, merged: Json)
    ensures Merged(target, patch, merged) <==> merged == Merge(target, patch)
  {
    hide Merge, HoldsObject, Holds, Untouched;
    MergeIsMerged(target, patch);
    if Merged(target, patch, merged) { SameHoldings(merged, Merge(target, patch)); }
  }

  class Target {
    var value: Json

    constructor (v: Json)
      ensures value == v
    {
      value := v;
    }

    /** merge_patch: for each member of the patch, erase or merge in place. */
    method Apply(patch: Json)
      modifies this
      ensures value == Merge(old(value), patch)
      ensures Merged(old(value), patch, value)
      decreases patch
    {
      hide Merge, Partly, Keys, Merged;
      MergeIsMerged(value, patch);
      MergeShapes(value, patch);
      if patch.Obj? {
        if !value.Obj? {
          value := Obj(map[]);
        }
        ghost var t := value.members;
        ghost var done: set<string> := {};
        var keys := Keys(patch.members);
        PartlyNone(t, patch);
        for i := 0 to |keys|
          invariant done <= patch.members.Keys && forall j | 0 <= j < |keys| :: keys[j] in done <==> j < i
          invariant value == Obj(Partly(t, patch, done))
        {
          var k := keys[i];
          var x := patch.members[k];
          NextMember(t, patch, done, k);
          if x == Null {
            value := Obj(value.members - {k});
          } else {
            // operator[] creates a missing member as null; the member is then patched in place
            var member := new Target(if k in value.members then value.members[k] else Null);
            member.Apply(x);
            value := Obj(value.members[k := member.value]);
          }
          done := done + {k};
          OnlyOnce(keys, i);
        }
        assert done == patch.members.Keys;
        PartlyAll(t, patch);
      } else {
        value := patch;
      }
    }
  }

  /** The members after the keys in done have been visited. */
  ghost function Partly(t: map<string, Json>, patch: Json, done: set<string>): map<string, Json>
    requires patch.Obj? && done <= patch.members.Keys
  {
    map k | k in t.Keys + done && (if k in done then patch.members[k] != Null else k in t) ::
      if k in done then Merge(if k in t then t[k] else Null, patch.members[k]) else t[k]
  }

  lemma PartlyNone(t: map<string, Json>, patch: Json)
    requires patch.Obj?
    ensures Partly(t, patch, {}) == t
  {}

  lemma PartlyAll(t: map<string, Json>, patch: Json)
    requires patch.Obj?
    ensures Merge(Obj(t), patch) == Obj(Partly(t, patch, patch.members.Keys))
  {}

  lemma OnlyOnce(keys: seq<string>, i: nat)
    requires StrictlyAscending(keys) && i < |keys|
    ensures forall j | 0 <= j < |keys| && j != i :: keys[j] != keys[i]
  {
    BeforeIrreflexive(keys[i]);
  }

  lemma MergeShapes(target: Json, patch: Json)
    ensures !patch.Obj? ==> Merge(target, patch) == patch
    ensures !target.Obj? ==> Merge(target, patch) == Merge(Obj(map[]), patch)
  {}

  lemma NextMember(t: map<string, Json>, patch: Json, done: set<string>, k: string)
    requires patch.Obj? && done <= patch.members.Keys && k in patch.members && k !in done
    ensures var now, next, x := Partly(t, patch, done), Partly(t, patch, done + {k}), patch.members[k];
            && (k in now <==> k in t) && (k in t ==> now[k] == t[k])
            && (x == Null ==> next == now - {k})
            && (x != Null ==> next == now[k := Merge(if k in t then t[k] else Null, x)])
  {
    hide Merge;
  }

  /** Applying a patch a second time changes nothing. */
  lemma {:induction false} MergeIdempotent(target: Json, patch: Json)
    ensures Merge(Merge(target, patch), patch) == Merge(target, patch)
    decreases patch
  {
    if patch.Obj? {
      var t, p := MembersOf(target), patch.members;
      var once := Merge(target, patch);
      forall k | k in p && p[k] != Null
        ensures Merge(once.members[k], p[k]) == once.members[k]
      {
        MergeIdempotent(if k in t then t[k] else Null, p[k]);
      }
      assert Merge(once, patch).members == once.members;
    }
  }

  /** No member of the patch, at any level, is null. */
  predicate NullFree(v: Json) {
    v.Obj? ==> forall k | k in v.members :: v.members[k] != Null && NullFree(v.members[k])
  }

  /** A null-free patch merged into nothing is itself: the patch is then also a value it can produce. */
  lemma {:induction false} MergeIntoNull(patch: Json)
    ensures Merge(Null, patch) == patch <==> NullFree(patch)
    decreases patch
  {
    if patch.Obj? {
      var p := patch.members;
      forall k | k in p ensures Merge(Null, p[k]) == p[k] <==> NullFree(p[k]) { MergeIntoNull(p[k]); }
      var m := Merge(Null, patch).members;
      if NullFree(patch) { assert m == p; }
      if m == p {
        forall k | k in p ensures p[k] != Null && NullFree(p[k]) { assert k in m; }
      }
    }
  }
}
