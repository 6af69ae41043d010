// JSON Patch (RFC 6902): decoding of operations, their effect on a document, and patch_inplace.
module Patch {
  import opened Decimals
  import opened JsonPointer
  import opened JsonValue
  import opened StringEscape

  // ---------------------------------------------------------------- add and remove

  function Front(ts: Tokens): Tokens
    requires ts != []
  {
    ts[..|ts| - 1]
  }

  function Last(ts: Tokens): string
    requires ts != []
  {
    ts[|ts| - 1]
  }

  /** The parent after operation_add; a null parent becomes an object. */
  function AddChild(parent: Json, t: string, x: Json): Result<Json> {
    match parent
    case Null => Ok(Obj(map[t := x]))
    case Obj(m) => Ok(Obj(m[t := x]))
    case Arr(a) =>
      if t == "-" then Ok(Arr(a + [x]))
      else (match ArrayIndex(t)
            case Err(e) => Err(e)
            case Ok(i) => if i > |a| then Err(OutOfRange(401)) else Ok(Arr(a[..i] + [x] + a[i..])))
    case _ => Err(AssertionFailure)
  }

  /** The parent after operation_remove; any other parent than an object or array is left as it is. */
  function RemoveChild(parent: Json, t: string): Result<Json> {
    match parent
    case Obj(m) => if t in m then Ok(Obj(m - {t})) else Err(OutOfRange(403))
    case Arr(a) => (match ArrayIndex(t)
                    case Err(e) => Err(e)
                    case Ok(i) => if i >= |a| then Err(OutOfRange(401)) else Ok(Arr(a[..i] + a[i + 1..])))
    case _ => Ok(parent)
  }

  function AddAt(doc: Json, ts: Tokens, x: Json): Result<Json> {
    if ts == [] then Ok(x)
    else match Get(doc, Front(ts))
      case Err(e) => Err(e)
      case Ok(parent) =>
        match AddChild(parent, Last(ts), x)
        case Err(e) => Err(e)
        case Ok(p) => Ok(Put(doc, Front(ts), p))
  }

  function RemoveAt(doc: Json, ts: Tokens): Result<Json> {
    if ts == [] then Err(OutOfRange(405))
    else match Get(doc, Front(ts))
      case Err(e) => Err(e)
      case Ok(parent) =>
        match RemoveChild(parent, Last(ts))
        case Err(e) => Err(e)
        case Ok(p) => Ok(Put(doc, Front(ts), p))
  }

  lemma SplitLast(ts: Tokens)
    requires ts != []
    ensures ts == Front(ts) + [Last(ts)]
  {}

  /** A new key of an object, or an array index. */
  predicate Removable(parent: Json, t: string) {
    (parent.Obj? && t !in parent.members) || (parent.Arr? && t != "-")
  }

  lemma RemoveUndoesAddChild(parent: Json, t: string, x: Json)
    requires AddChild(parent, t, x).Ok?
    ensures RemoveChild(AddChild(parent, t, x).value, t) == Ok(parent) <==> Removable(parent, t)
  {
    match parent {
      case Obj(m) =>
        assert t !in m ==> m[t := x] - {t} == m;
      case Arr(a) =>
        if t != "-" {
          var i := ArrayIndex(t).value;
          assert (a[..i] + [x] + a[i..])[..i] + (a[..i] + [x] + a[i..])[i + 1..] == a;
        }
      case _ =>
    }
  }

  /**
   * Removing what was just added restores the document exactly for a new key of an object and for an array index; not
   * for an existing key, for "-" (which remove does not accept) and for a null that add turned into an object.
   */
  lemma AddThenRemove(doc: Json, ts: Tokens, x: Json)
    requires ts != [] && AddAt(doc, ts, x).Ok?
    ensures RemoveAt(AddAt(doc, ts, x).value, ts) == Ok(doc) <==> Removable(Get(doc, Front(ts)).value, Last(ts))
  {
    var parent := Get(doc, Front(ts)).value;
    var p := AddChild(parent, Last(ts), x).value;
    RemoveUndoesAddChild(parent, Last(ts), x);
    PutLaws(doc, Front(ts), p);
    if RemoveChild(p, Last(ts)).Ok? {
      var q := RemoveChild(p, Last(ts)).value;
      PutLaws(doc, Front(ts), q);
      assert Put(Put(doc, Front(ts), p), Front(ts), q) == Put(doc, Front(ts), q);
    }
  }

  /** add and remove change nothing outside the parent they address. */
  lemma ParentFrame(doc: Json, ts: Tokens, x: Json, us: Tokens)
    requires ts != [] && Diverge(Front(ts), us)
    ensures AddAt(doc, ts, x).Ok? ==> Get(AddAt(doc, ts, x).value, us) == Get(doc, us)
    ensures RemoveAt(doc, ts).Ok? ==> Get(RemoveAt(doc, ts).value, us) == Get(doc, us)
  {
    if AddAt(doc, ts, x).Ok? {
      PutFrame(doc, Front(ts), AddChild(Get(doc, Front(ts)).value, Last(ts), x).value, us);
    }
    if RemoveAt(doc, ts).Ok? {
      PutFrame(doc, Front(ts), RemoveChild(Get(doc, Front(ts)).value, Last(ts)).value, us);
    }
  }

  /** Inside an object, add sets the addressed member and keeps every other one. */
  lemma AddedMember(parent: Json, t: string, x: Json)
    requires parent.Obj?
    ensures AddChild(parent, t, x).Ok?
    ensures Child(AddChild(parent, t, x).value, t) == Ok(x)
    ensures forall u | u != t :: Child(AddChild(parent, t, x).value, u) == Child(parent, u)
  {}

  /** Inside an array, add puts the value at index i and moves the elements from i on by one. */
  lemma AddedElement(parent: Json, t: string, x: Json, i: nat, j: nat)
    requires parent.Arr? && |parent.items| < SIZE_MAX
    requires if t == "-" then i == |parent.items| else ArrayIndex(t) == Ok(i) && i <= |parent.items|
    requires j <= |parent.items|
    ensures AddChild(parent, t, x).Ok?
    ensures Child(AddChild(parent, t, x).value, ToString(j))
         == if j < i then Child(parent, ToString(j)) else if j == i then Ok(x) else Child(parent, ToString(j - 1))
  {
    var a, p := parent.items, AddChild(parent, t, x).value;
    assert p == Arr(a[..i] + [x] + a[i..]);
    ElementAt(p, j);
    if j < i { ElementAt(parent, j); }
    if j > i { ElementAt(parent, j - 1); }
  }

  /** Inside an object, remove takes away one member and keeps every other one. */
  lemma RemovedMember(parent: Json, t: string)
    requires parent.Obj? && t in parent.members
    ensures RemoveChild(parent, t).Ok?
    ensures Child(RemoveChild(parent, t).value, t).Err?
    ensures forall u | u != t :: Child(RemoveChild(parent, t).value, u) == Child(parent, u)
  {}

  /** Inside an array, remove takes away the element at index i and moves the elements behind it down by one. */
  lemma RemovedElement(parent: Json, t: string, i: nat, j: nat)
    requires parent.Arr? && |parent.items| <= SIZE_MAX
    requires ArrayIndex(t) == Ok(i) && i < |parent.items| && j + 1 < |parent.items|
    ensures RemoveChild(parent, t).Ok? && |RemoveChild(parent, t).value.items| == |parent.items| - 1
    ensures Child(RemoveChild(parent, t).value, ToString(j)) == Child(parent, ToString(if j < i then j else j + 1))
  {
    var a, p := parent.items, RemoveChild(parent, t).value;
    assert p == Arr(a[..i] + a[i + 1..]);
    ElementAt(p, j);
    ElementAt(parent, if j < i then j else j + 1);
  }

  // ---------------------------------------------------------------- the whole document around add and remove

  /** Access through a child of the value at ts. */
  lemma GetBelow(d: Json, ts: Tokens, p: Json, k: string, rest: Tokens)
    requires Get(d, ts) == Ok(p)
    ensures Get(d, ts + [k] + rest) == if Child(p, k).Ok? then Get(Child(p, k).value, rest) else Child(p, k)
  {
    assert ts + [k] + rest == ts + ([k] + rest);
    GetConcat(d, ts, [k] + rest);
    assert ([k] + rest)[1..] == rest;
  }

  lemma {:induction false} DivergeInside(ts: Tokens, t: string, us: Tokens)
    requires Diverge(ts + [t], us) && !Diverge(ts, us)
    ensures |us| > |ts| && us == ts + [us[|ts|]] + us[|ts| + 1..] && us[|ts|] != t
    decreases |ts|
  {
    if ts == [] {
      assert [] + [t] == [t];
    } else {
      assert (ts + [t])[1..] == ts[1..] + [t];
      DivergeInside(ts[1..], t, us[1..]);
    }
  }

  /** With an object as parent, nothing but the addressed member changes anywhere in the document. */
  lemma MemberFrame(doc: Json, ts: Tokens, x: Json, us: Tokens)
    requires ts != [] && Get(doc, Front(ts)).Ok? && Get(doc, Front(ts)).value.Obj? && Diverge(ts, us)
    ensures AddAt(doc, ts, x).Ok? && Get(AddAt(doc, ts, x).value, us) == Get(doc, us)
    ensures RemoveAt(doc, ts).Ok? ==> Get(RemoveAt(doc, ts).value, us) == Get(doc, us)
  {
    var front, t := Front(ts), Last(ts);
    var parent := Get(doc, front).value;
    SplitLast(ts);
    if Diverge(front, us) {
      ParentFrame(doc, ts, x, us);
    } else {
      DivergeInside(front, t, us);
      var u, rest := us[|front|], us[|front| + 1..];
      GetBelow(doc, front, parent, u, rest);
      var more := AddChild(parent, t, x).value;
      PutLaws(doc, front, more);
      GetBelow(Put(doc, front, more), front, more, u, rest);
      if RemoveAt(doc, ts).Ok? {
        var less := RemoveChild(parent, t).value;
        PutLaws(doc, front, less);
        GetBelow(Put(doc, front, less), front, less, u, rest);
      }
    }
  }

  /** With an array as parent, whatever could be reached through an element can be reached through its new index. */
  lemma ElementFrame(doc: Json, front: Tokens, i: nat, x: Json, j: nat, rest: Tokens)
    requires Get(doc, front).Ok? && Get(doc, front).value.Arr? && |Get(doc, front).value.items| < SIZE_MAX
    requires i <= |Get(doc, front).value.items| && j < |Get(doc, front).value.items|
    ensures var r := AddAt(doc, front + [ToString(i)], x);
            r.Ok? && Get(r.value, front + [ToString(if j < i then j else j + 1)] + rest)
                  == Get(doc, front + [ToString(j)] + rest)
    ensures i < |Get(doc, front).value.items| && j != i ==>
              var r := RemoveAt(doc, front + [ToString(i)]);
              (r.Ok? && Get(r.value, front + [ToString(if j < i then j else j - 1)] + rest)
                     == Get(doc, front + [ToString(j)] + rest))
  {
    hide ToString;
    var parent, t, ts := Get(doc, front).value, ToString(i), front + [ToString(i)];
    assert Front(ts) == front && Last(ts) == t;
    ArrayIndexExact(t, i);
    ArrayIndexExact("-", i);
    GetBelow(doc, front, parent, ToString(j), rest);
    var up := if j < i then j else j + 1;
    AddedElement(parent, t, x, i, up);
    var more := AddChild(parent, t, x).value;
    PutLaws(doc, front, more);
    GetBelow(Put(doc, front, more), front, more, ToString(up), rest);
    if i < |parent.items| && j != i {
      var down := if j < i then j else j - 1;
      RemovedElement(parent, t, i, down);
      var less := RemoveChild(parent, t).value;
      PutLaws(doc, front, less);
      GetBelow(Put(doc, front, less), front, less, ToString(down), rest);
    }
  }

  // ---------------------------------------------------------------- when add and remove succeed

  /**
   * add succeeds exactly at the root, in an object, in an array with "-" or an index up to its length, and in a null,
   * which it turns into an object although section 4.1 of RFC 6902 does not provide for that.
   */
  lemma AddSucceeds(doc: Json, ts: Tokens, x: Json)
    ensures AddAt(doc, ts, x).Ok?
       <==> ts == [] || (Get(doc, Front(ts)).Ok? && AcceptsChild(Get(doc, Front(ts)).value, Last(ts)))
    ensures ts != [] && Get(doc, Front(ts)) == Ok(Null) ==>
              AddAt(doc, ts, x).Ok? && Get(AddAt(doc, ts, x).value, Front(ts)) == Ok(Obj(map[Last(ts) := x]))
  {
    if ts != [] && Get(doc, Front(ts)) == Ok(Null) { PutLaws(doc, Front(ts), Obj(map[Last(ts) := x])); }
  }

  /** Where an added value is found afterwards: for "-" behind the last element. */
  function AddedPlace(doc: Json, ts: Tokens): Tokens {
    if ts != [] && Last(ts) == "-" && Get(doc, Front(ts)).Ok? && Get(doc, Front(ts)).value.Arr? then
      Front(ts) + [ToString(|Get(doc, Front(ts)).value.items|)]
    else ts
  }

  /** After a successful add, at the root or below, the value is found where it was added. */
  lemma AddedIsFound(doc: Json, ts: Tokens, x: Json)
    requires AddAt(doc, ts, x).Ok?
    requires AddedPlace(doc, ts) != ts ==> |Get(doc, Front(ts)).value.items| < SIZE_MAX
    ensures Get(AddAt(doc, ts, x).value, AddedPlace(doc, ts)) == Ok(x)
  {
    if ts != [] {
      var front, t, parent := Front(ts), Last(ts), Get(doc, Front(ts)).value;
      var p := AddChild(parent, t, x).value;
      var k := Last(AddedPlace(doc, ts));
      SplitLast(ts);
      assert AddedPlace(doc, ts) == front + [k];
      AddedChild(parent, t, x, k);
      PutLaws(doc, front, p);
      GetConcat(Put(doc, front, p), front, [k]);
      OneToken(p, k, x);
    }
  }

  lemma AddedChild(parent: Json, t: string, x: Json, k: string)
    requires AddChild(parent, t, x).Ok?
    requires k == if parent.Arr? && t == "-" then ToString(|parent.items|) else t
    requires parent.Arr? && t == "-" ==> |parent.items| < SIZE_MAX
    ensures Child(AddChild(parent, t, x).value, k) == Ok(x)
  {
    if parent.Arr? && t == "-" {
      ElementAt(AddChild(parent, t, x).value, |parent.items|);
    }
  }

  /** The errors of add: the parent's own, those of the index, 401 behind the end, and the failing assertion. */
  lemma AddErrors(doc: Json, ts: Tokens, x: Json)
    requires ts != []
    ensures Get(doc, Front(ts)).Err? ==> AddAt(doc, ts, x) == Get(doc, Front(ts))
    ensures Get(doc, Front(ts)).Ok? && Get(doc, Front(ts)).value.Arr? && Last(ts) != "-" ==>
              var a, i := Get(doc, Front(ts)).value.items, ArrayIndex(Last(ts));
              && (i.Err? ==> AddAt(doc, ts, x) == Err(i.error))
              && (i.Ok? && i.value > |a| ==> AddAt(doc, ts, x) == Err(OutOfRange(401)))
  {}

  /** The errors of remove: the parent's own, 403 for a missing key, those of the index, and 401 behind the end. */
  lemma RemoveErrors(doc: Json, ts: Tokens)
    requires ts != []
    ensures Get(doc, Front(ts)).Err? ==> RemoveAt(doc, ts) == Get(doc, Front(ts))
    ensures Get(doc, Front(ts)).Ok? && Get(doc, Front(ts)).value.Obj? ==>
              Last(ts) !in Get(doc, Front(ts)).value.members ==> RemoveAt(doc, ts) == Err(OutOfRange(403))
    ensures Get(doc, Front(ts)).Ok? && Get(doc, Front(ts)).value.Arr? ==>
              var a, i := Get(doc, Front(ts)).value.items, ArrayIndex(Last(ts));
              && (i.Err? ==> RemoveAt(doc, ts) == Err(i.error))
              && (i.Ok? && i.value >= |a| ==> RemoveAt(doc, ts) == Err(OutOfRange(401)))
  {}

  predicate AcceptsChild(parent: Json, t: string) {
    parent.Null? || parent.Obj?
    || (parent.Arr? && (t == "-" || (ArrayIndex(t).Ok? && ArrayIndex(t).value <= |parent.items|)))
  }

  /** add aborts on an assertion exactly when the parent exists and is a boolean, number or string. */
  lemma AddAborts(doc: Json, ts: Tokens, x: Json)
    ensures AddAt(doc, ts, x) == Err(AssertionFailure)
       <==> ts != [] && Get(doc, Front(ts)).Ok?
            && var p := Get(doc, Front(ts)).value; p.Bool? || p.Num? || p.Str?
  {
    if ts != [] { GetErrorKinds(doc, Front(ts)); }
  }

  /**
   * remove succeeds exactly when the location exists and is not the root, or, silently changing nothing, when the
   * parent is a primitive value. The root exists as well, but removing it is error 405.
   */
  lemma RemoveSucceeds(doc: Json, ts: Tokens)
    ensures RemoveAt(doc, ts).Ok?
       <==> ts != [] && (Get(doc, ts).Ok? || (Get(doc, Front(ts)).Ok? && Primitive(Get(doc, Front(ts)).value)))
    ensures ts != [] && Get(doc, Front(ts)).Ok? && Primitive(Get(doc, Front(ts)).value) ==> RemoveAt(doc, ts) == Ok(doc)
    ensures ts == [] ==> Get(doc, ts) == Ok(doc) && RemoveAt(doc, ts) == Err(OutOfRange(405))
  {
    if ts != [] {
      SplitLast(ts);
      GetConcat(doc, Front(ts), [Last(ts)]);
      if Get(doc, Front(ts)).Ok? {
        var parent := Get(doc, Front(ts)).value;
        PutLaws(doc, Front(ts), parent);
        assert Get(parent, [Last(ts)]) == Child(parent, Last(ts));
      }
    }
  }

  // ---------------------------------------------------------------- operations

  datatype Operation =
    | Add(path: Tokens, value: Json)
    | Remove(path: Tokens)
    | Replace(path: Tokens, value: Json)
    | Move(from: Tokens, path: Tokens)
    | Copy(from: Tokens, path: Tokens)
    | Test(path: Tokens, value: Json)

  /** get_value for a member of any type. */
  function Member(m: map<string, Json>, name: string): Result<Json> {
    if name in m then Ok(m[name]) else Err(ParseError(105))
  }

  /** get_value for a string member, parsed as a pointer. */
  function PointerMember(m: map<string, Json>, name: string): Result<Tokens> {
    if name in m && m[name].Str? then Parse(m[name].s) else Err(ParseError(105))
  }

  /** What an element of the patch asks for. */
  function Decode(v: Json): Result<Operation> {
    if !v.Obj? then Err(ParseError(104))
    else
      var m := v.members;
      if "op" !in m || !m["op"].Str? then Err(ParseError(105))
      else match PointerMember(m, "path")
        case Err(e) => Err(e)
        case Ok(path) =>
          var op := m["op"].s;
          if op == "remove" then Ok(Remove(path))
          else if op == "add" || op == "replace" || op == "test" then
            (match Member(m, "value")
             case Err(e) => Err(e)
             case Ok(x) =>
               Ok(if op == "add" then Add(path, x) else if op == "replace" then Replace(path, x) else Test(path, x)))
          else if op == "move" || op == "copy" then
            (match PointerMember(m, "from")
             case Err(e) => Err(e)
             case Ok(from) => Ok(if op == "move" then Move(from, path) else Copy(from, path)))
          else Err(ParseError(105))
  }

  /** The members that an operation consists of, as sections 4.1 to 4.6 of RFC 6902 list them. */
  function Encode(o: Operation): map<string, Json> {
    match o
    case Add(path, x) => map["op" := Str("add"), "path" := Str(Print(path)), "value" := x]
    case Remove(path) => map["op" := Str("remove"), "path" := Str(Print(path))]
    case Replace(path, x) => map["op" := Str("replace"), "path" := Str(Print(path)), "value" := x]
    case Move(from, path) => map["op" := Str("move"), "path" := Str(Print(path)), "from" := Str(Print(from))]
    case Copy(from, path) => map["op" := Str("copy"), "path" := Str(Print(path)), "from" := Str(Print(from))]
    case Test(path, x) => map["op" := Str("test"), "path" := Str(Print(path)), "value" := x]
  }

  /** m has the members of part; what else it has is ignored. */
  predicate Includes(m: map<string, Json>, part: map<string, Json>) {
    forall k | k in part :: k in m && m[k] == part[k]
  }

  lemma PointerMemberExact(m: map<string, Json>, name: string, ts: Tokens)
    ensures PointerMember(m, name) == Ok(ts) <==> name in m && m[name] == Str(Print(ts))
  {
    hide Parse, Print;
    if name in m && m[name].Str? { ParseIsInverse(m[name].s, ts); }
  }

  /** An element of a patch asks for an operation exactly if it has the members of that operation. */
  lemma DecodeExact(v: Json, o: Operation)
    ensures Decode(v) == Ok(o) <==> v.Obj? && Includes(v.members, Encode(o))
  {
    hide Print, PointerMember;
    if v.Obj? {
      var m := v.members;
      PointerMemberExact(m, "path", o.path);
      if o.Move? || o.Copy? { PointerMemberExact(m, "from", o.from); }
      OperationNames(m, o);
    }
  }

  lemma OperationNames(m: map<string, Json>, o: Operation)
    ensures Includes(m, Encode(o)) <==>
              && "op" in m && m["op"] == Encode(o)["op"]
              && "path" in m && m["path"] == Str(Print(o.path))
              && (o.Move? || o.Copy? ==> "from" in m && m["from"] == Str(Print(o.from)))
              && (o.Add? || o.Replace? || o.Test? ==> "value" in m && m["value"] == o.value)
  {
    hide Print;
  }

  /** Error 104 exactly for an element that is not an object; otherwise only 105 and the errors of a pointer's text. */
  lemma DecodeErrors(v: Json)
    ensures Decode(v) == Err(ParseError(104)) <==> !v.Obj?
    ensures Decode(v).Err? ==> Decode(v).error in {ParseError(104), ParseError(105), ParseError(107), ParseError(108)}
  {
    hide Parse;
    if v.Obj? {
      var m := v.members;
      if "path" in m && m["path"].Str? { ParseErrors(m["path"].s); }
      if "from" in m && m["from"].Str? { ParseErrors(m["from"].s); }
    }
  }

  /** An element that is an object names operation and path by strings. */
  predicate Named(m: map<string, Json>) {
    "op" in m && m["op"].Str? && "path" in m && m["path"].Str?
  }

  /** The member that the operation needs besides its path is there, as a string if it is a pointer. */
  predicate HasOperand(m: map<string, Json>)
    requires Named(m)
  {
    var op := m["op"].s;
    && (op == "add" || op == "replace" || op == "test" ==> "value" in m)
    && (op == "move" || op == "copy" ==> "from" in m && m["from"].Str?)
    && op in ["add", "remove", "replace", "move", "copy", "test"]
  }

  /** Which error an element of a patch is rejected with. */
  lemma DecodeErrorKinds(v: Json)
    requires v.Obj?
    ensures !Named(v.members) ==> Decode(v) == Err(ParseError(105))
    ensures Named(v.members) && Parse(v.members["path"].s).Err? ==>
              Decode(v) == Err(Parse(v.members["path"].s).error)
    ensures Named(v.members) && Parse(v.members["path"].s).Ok? && !HasOperand(v.members) ==>
              Decode(v) == Err(ParseError(105))
    ensures Named(v.members) && Parse(v.members["path"].s).Ok? && HasOperand(v.members) ==>
              var m := v.members;
              (Decode(v).Err? <==> m["op"].s in ["move", "copy"] && Parse(m["from"].s).Err?)
              && (Decode(v).Err? ==> Decode(v) == Err(Parse(m["from"].s).error))
  {
    hide Parse;
  }

  /** The document that is left behind, with the error that ended the run, if any. */
  datatype Run = Done(doc: Json) | Failed(doc: Json, error: Error)

  function Settle(doc: Json, r: Result<Json>): Run {
    match r
    case Ok(d) => Done(d)
    case Err(e) => Failed(doc, e)
  }

  /** The effect of one operation; a move that fails on its second half leaves the value removed. */
  function Apply(doc: Json, o: Operation): Run {
    match o
    case Add(path, x) => Settle(doc, AddAt(doc, path, x))
    case Remove(path) => Settle(doc, RemoveAt(doc, path))
    case Replace(path, x) =>
      (match Get(doc, path)
       case Err(e) => Failed(doc, e)
       case Ok(_) => Done(Put(doc, path, x)))
    case Move(from, path) =>
      (match Get(doc, from)
       case Err(e) => Failed(doc, e)
       case Ok(x) =>
         match RemoveAt(doc, from)
         case Err(e) => Failed(doc, e)
         case Ok(d) => Settle(d, AddAt(d, path, x)))
    case Copy(from, path) =>
      (match Get(doc, from)
       case Err(e) => Failed(doc, e)
       case Ok(x) => Settle(doc, AddAt(doc, path, x)))
    case Test(path, x) =>
      (match Get(doc, path)
       case Err(OutOfRange(_)) => Failed(doc, OtherError(501))
       case Err(e) => Failed(doc, e)
       case Ok(y) => if x == y then Done(doc) else Failed(doc, OtherError(501)))
  }

  function Step(doc: Json, v: Json): Run {
    match Decode(v)
    case Err(e) => Failed(doc, e)
    case Ok(o) => Apply(doc, o)
  }

  /** Operation after operation, up to the first failure. */
  function Steps(doc: Json, ops: seq<Json>): Run
    decreases |ops|
  {
    if ops == [] then Done(doc)
    else match Step(doc, ops[0])
      case Failed(d, e) => Failed(d, e)
      case Done(d) => Steps(d, ops[1..])
  }

  function Patched(doc: Json, patch: Json): Run {
    if patch.Arr? then Steps(doc, patch.items) else Failed(doc, ParseError(104))
  }

  /** An element that asks for nothing known ends the run with its error and leaves the document as it is. */
  lemma UnknownStep(doc: Json, v: Json)
    requires Decode(v).Err?
    ensures Step(doc, v) == Failed(doc, Decode(v).error)
  {}

  lemma OneStep(doc: Json, o: Json)
    ensures Steps(doc, [o]) == Step(doc, o)
  {
    assert [o][1..] == [];
  }

  lemma {:induction false} StepsConcat(doc: Json, p: seq<Json>, q: seq<Json>)
    ensures Steps(doc, p + q) == if Steps(doc, p).Done? then Steps(Steps(doc, p).doc, q) else Steps(doc, p)
    decreases |p|
  {
    if p == [] {
      assert p + q == q;
    } else {
      assert (p + q)[1..] == p[1..] + q;
      if Step(doc, p[0]).Done? { StepsConcat(Step(doc, p[0]).doc, p[1..], q); }
    }
  }

  /** The check of the pointer's first token adds nothing: where it fails, so does the access to the parent. */
  lemma TopCheck(doc: Json, ts: Tokens)
    requires |ts| > 1 && Get(doc, [ts[0]]).Err?
    ensures Get(doc, Front(ts)) == Get(doc, [ts[0]])
  {
    assert Front(ts) == [ts[0]] + Front(ts)[1..];
    GetConcat(doc, [ts[0]], Front(ts)[1..]);
  }

  // ---------------------------------------------------------------- operations in terms of others

  /** Section 4.3 of RFC 6902: replacing is removing and then adding at the same location. */
  lemma ReplaceIsRemoveThenAdd(doc: Json, ts: Tokens, x: Json)
    requires ts != [] && Get(doc, ts).Ok?
    ensures RemoveAt(doc, ts).Ok?
    ensures Apply(RemoveAt(doc, ts).value, Add(ts, x)) == Apply(doc, Replace(ts, x))
  {
    hide Get, Put, Child, SetChild, AddChild, RemoveChild;
    var front, t := Front(ts), Last(ts);
    SplitLast(ts);
    GetConcat(doc, front, [t]);
    PutConcat(doc, front, [t], x);
    var parent := Get(doc, front).value;
    OneToken(parent, t, x);
    RemoveThenAddChild(parent, t, x);
    var less := RemoveChild(parent, t).value;
    PutLaws(doc, front, less);
    assert Put(Put(doc, front, less), front, SetChild(parent, t, x)) == Put(doc, front, SetChild(parent, t, x));
  }

  lemma OneToken(v: Json, t: string, x: Json)
    ensures Get(v, [t]) == Child(v, t)
    ensures Child(v, t).Ok? ==> Put(v, [t], x) == SetChild(v, t, x)
  {
    assert [t][1..] == [];
  }

  lemma RemoveThenAddChild(parent: Json, t: string, x: Json)
    requires Child(parent, t).Ok?
    ensures RemoveChild(parent, t).Ok?
    ensures AddChild(RemoveChild(parent, t).value, t, x) == Ok(SetChild(parent, t, x))
  {
    if parent.Obj? {
      assert (parent.members - {t})[t := x] == parent.members[t := x];
    } else {
      var a, i := parent.items, ArrayIndex(t).value;
      var less := a[..i] + a[i + 1..];
      assert less[..i] + [x] + less[i..] == a[i := x];
    }
  }

  /** Section 4.3: a replace succeeds exactly if the location exists, and puts the value there. */
  lemma ReplaceExact(doc: Json, path: Tokens, x: Json)
    ensures Get(doc, path).Ok? ==> Apply(doc, Replace(path, x)) == Done(Put(doc, path, x))
                                   && Get(Put(doc, path, x), path) == Ok(x)
    ensures Get(doc, path).Err? ==> Apply(doc, Replace(path, x)) == Failed(doc, Get(doc, path).error)
  {
    if Get(doc, path).Ok? { PutLaws(doc, path, x); }
  }

  /** A move or copy from a location that does not exist fails with the error of the access. */
  lemma FromMissing(doc: Json, from: Tokens, path: Tokens)
    requires Get(doc, from).Err?
    ensures Apply(doc, Move(from, path)) == Failed(doc, Get(doc, from).error)
    ensures Apply(doc, Copy(from, path)) == Failed(doc, Get(doc, from).error)
  {}

  /** Sections 4.4 and 4.5: a move is a remove followed by an add of the value that was there, a copy just the add. */
  lemma MoveAndCopy(doc: Json, from: Tokens, path: Tokens, x: Json)
    requires Get(doc, from) == Ok(x)
    ensures Apply(doc, Move(from, path)) == Steps(doc, [Obj(Encode(Remove(from))), Obj(Encode(Add(path, x)))])
    ensures Apply(doc, Copy(from, path)) == Steps(doc, [Obj(Encode(Add(path, x)))])
  {
    hide Decode, Encode, Get, AddAt, RemoveAt;
    var removal, addition := Obj(Encode(Remove(from))), Obj(Encode(Add(path, x)));
    DecodeExact(removal, Remove(from));
    DecodeExact(addition, Add(path, x));
    assert [removal, addition][1..] == [addition];
    OneStep(doc, addition);
    if RemoveAt(doc, from).Ok? { OneStep(RemoveAt(doc, from).value, addition); }
  }

  /** Section 4.6: a test succeeds exactly if the value is there; it never changes the document. */
  lemma TestExact(doc: Json, path: Tokens, x: Json)
    ensures Apply(doc, Test(path, x)) == Done(doc) <==> Get(doc, path) == Ok(x)
    ensures Apply(doc, Test(path, x)).doc == doc
    ensures Get(doc, path) != Ok(x) && !(Get(doc, path).Err? && Get(doc, path).error.ParseError?) ==>
              Apply(doc, Test(path, x)) == Failed(doc, OtherError(501))
  {
    hide Get;
    GetErrorKinds(doc, path);
  }

  lemma {:induction false} GetErrorKinds(v: Json, ts: Tokens)
    ensures Get(v, ts).Err? ==> Get(v, ts).error.OutOfRange? || Get(v, ts).error.ParseError?
    decreases |ts|
  {
    if ts != [] && Child(v, ts[0]).Ok? { GetErrorKinds(Child(v, ts[0]).value, ts[1..]); }
  }

  // ---------------------------------------------------------------- moving a value into itself

  /** Adding below ts is adding inside the value at ts. */
  lemma AddBelow(d: Json, ts: Tokens, rest: Tokens, x: Json)
    requires rest != []
    ensures Get(d, ts).Err? ==> AddAt(d, ts + rest, x) == Get(d, ts)
    ensures Get(d, ts).Ok? ==>
              var r := AddAt(Get(d, ts).value, rest, x);
              AddAt(d, ts + rest, x) == if r.Ok? then Ok(Put(d, ts, r.value)) else r
  {
    assert Front(ts + rest) == ts + Front(rest) && Last(ts + rest) == Last(rest);
    GetConcat(d, ts, Front(rest));
    if Get(d, ts).Ok? && AddAt(Get(d, ts).value, rest, x).Ok? {
      var p := AddChild(Get(d, ts + Front(rest)).value, Last(rest), x).value;
      PutConcat(d, ts, Front(rest), p);
    }
  }

  /** What is at from once the value there has been removed: nothing in an object, the next element in an array. */
  lemma AfterRemoval(doc: Json, from: Tokens)
    requires from != [] && Get(doc, from).Ok?
    ensures Get(doc, Front(from)).Ok? && RemoveAt(doc, from).Ok?
    ensures var parent, d := Get(doc, Front(from)).value, RemoveAt(doc, from).value;
            && d == Put(doc, Front(from), RemoveChild(parent, Last(from)).value) != doc
            && (parent.Obj? ==> Get(d, from) == Err(OutOfRange(403)))
            && (parent.Arr? ==> Last(from) != "-" && ArrayIndex(Last(from)).Ok?)
            && (parent.Arr? ==> var i := ArrayIndex(Last(from)).value;
                                Get(d, from) == if i + 1 < |parent.items| then Ok(parent.items[i + 1])
                                                else Err(OutOfRange(401)))
            && (parent.Arr? || parent.Obj?)
  {
    var front, k := Front(from), Last(from);
    SplitLast(from);
    GetConcat(doc, front, [k]);
    var parent := Get(doc, front).value;
    assert Get(parent, [k]) == Child(parent, k);
    var less := RemoveChild(parent, k).value;
    assert less != parent;
    PutLaws(doc, front, less);
    GetConcat(Put(doc, front, less), front, [k]);
    assert Get(less, [k]) == if Child(less, k).Ok? then Ok(Child(less, k).value) else Child(less, k);
  }

  /** The next element of the array takes the place of the moved value and can take the value in. */
  predicate NextElementTakes(doc: Json, from: Tokens, rest: Tokens, x: Json) {
    from != [] && Get(doc, Front(from)).Ok? &&
    var parent, index := Get(doc, Front(from)).value, ArrayIndex(Last(from));
    parent.Arr? && index.Ok? && index.value + 1 < |parent.items| && AddAt(parent.items[index.value + 1], rest, x).Ok?
  }

  /**
   * Section 4.4 of RFC 6902 forbids moving a value into one of its own children. The library does not reject this: it
   * removes the value first and then succeeds exactly if the value came from an array whose next element, now in its
   * place, can take it in. That element, with the value inside, is the result; nothing is reported.
   */
  lemma MoveIntoChild(doc: Json, from: Tokens, rest: Tokens, x: Json)
    requires rest != [] && Get(doc, from) == Ok(x)
    ensures Apply(doc, Move(from, from + rest)).Done? <==> NextElementTakes(doc, from, rest, x)
    ensures NextElementTakes(doc, from, rest, x) ==>
              var a, i := Get(doc, Front(from)).value.items, ArrayIndex(Last(from)).value;
              var taken := AddAt(a[i + 1], rest, x).value;
              Apply(doc, Move(from, from + rest)) == Done(Put(doc, Front(from), Arr(a[..i] + [taken] + a[i + 2..])))
  {
    hide Get, Put, AddAt, RemoveAt, ArrayIndex;
    if from == [] {
      NoParent(doc);
    } else {
      AfterRemoval(doc, from);
      AddBelow(RemoveAt(doc, from).value, from, rest, x);
      SplitLast(from);
      var parent := Get(doc, Front(from)).value;
      if NextElementTakes(doc, from, rest, x) {
        var i := ArrayIndex(Last(from)).value;
        PutNext(doc, Front(from), parent, Last(from), i, AddAt(parent.items[i + 1], rest, x).value);
      }
    }
  }

  lemma PutNext(doc: Json, front: Tokens, parent: Json, k: string, i: nat, y: Json)
    requires Get(doc, front) == Ok(parent) && parent.Arr?
    requires ArrayIndex(k) == Ok(i) && i + 1 < |parent.items| && k != "-"
    ensures RemoveChild(parent, k).Ok?
    ensures var a, d := parent.items, Put(doc, front, RemoveChild(parent, k).value);
            Get(d, front + [k]).Ok? && Put(d, front + [k], y) == Put(doc, front, Arr(a[..i] + [y] + a[i + 2..]))
  {
    hide Get, Put, ArrayIndex;
    var a, less := parent.items, RemoveChild(parent, k).value;
    PutInside(doc, front, less, k, y);
    assert (a[..i] + a[i + 1..])[i := y] == a[..i] + [y] + a[i + 2..];
  }

  /** From an object such a move always fails, with the member removed. */
  lemma MoveIntoItself(doc: Json, from: Tokens, rest: Tokens)
    requires from != [] && rest != [] && Get(doc, from).Ok? && Get(doc, Front(from)).Ok?
    requires Get(doc, Front(from)).value.Obj?
    ensures RemoveAt(doc, from).Ok?
    ensures Apply(doc, Move(from, from + rest)) == Failed(RemoveAt(doc, from).value, OutOfRange(403))
  {
    AfterRemoval(doc, from);
    AddBelow(RemoveAt(doc, from).value, from, rest, Get(doc, from).value);
  }

  /** A failing operation changes the document exactly if it is a move whose first half, the removal, succeeds. */
  lemma FailureChangesDocument(doc: Json, o: Operation)
    requires Apply(doc, o).Failed?
    ensures Apply(doc, o).doc != doc <==> o.Move? && o.from != [] && Get(doc, o.from).Ok?
  {
    hide Get, AddAt, RemoveAt;
    if o.Move? && Get(doc, o.from).Ok? {
      if o.from == [] {
        assert RemoveAt(doc, []).Err? by { NoParent(doc); }
      } else {
        AfterRemoval(doc, o.from);
      }
    }
  }

  lemma NoParent(doc: Json)
    ensures RemoveAt(doc, []) == Err(OutOfRange(405))
  {}

  // ---------------------------------------------------------------- patches that show the deviations

  lemma PlainPaths(t: string, u: string)
    requires forall i | 0 <= i < |t| :: t[i] != '~' && t[i] != '/'
    requires forall i | 0 <= i < |u| :: u[i] != '~' && u[i] != '/'
    ensures Print([t]) == "/" + t && Print([t, u]) == "/" + t + "/" + u
  {
    hide Escape, Print;
    EscapeIsMap(t);
    EscapeIsMap(u);
    PlainMap(t);
    PlainMap(u);
    PrintNothing();
    PrintAppend([], t);
    PrintAppend([t], u);
    assert [] + [t] == [t] && "" + "/" + t == "/" + t && [t] + [u] == [t, u];
  }

  /** [1, {}] with a move from "/0" to "/0/x" becomes [{"x": 1}]. */
  lemma MoveIntoNeighbour()
    ensures Step(Arr([Num(1), Obj(map[])]),
                 Obj(map["op" := Str("move"), "from" := Str("/0"), "path" := Str("/0/x")]))
         == Done(Arr([Obj(map["x" := Num(1)])]))
  {
    hide Print, Decode, Apply, ArrayIndex;
    var doc, o := Arr([Num(1), Obj(map[])]), Move(["0"], ["0", "x"]);
    PlainPaths("0", "x");
    DecodeExact(Obj(map["op" := Str("move"), "from" := Str("/0"), "path" := Str("/0/x")]), o);
    ZeroIndex();
    assert Front(["0"]) == [] && Last(["0"]) == "0" && Front(["x"]) == [] && Last(["x"]) == "x";
    assert ["0"] + ["x"] == ["0", "x"] && ["0"][1..] == [];
    assert AddAt(Obj(map[]), ["x"], Num(1)) == Ok(Obj(map["x" := Num(1)]));
    MoveIntoChild(doc, ["0"], ["x"], Num(1));
    assert doc.items[..0] + [Obj(map["x" := Num(1)])] + doc.items[2..] == [Obj(map["x" := Num(1)])];
  }

  /** A move from "/a" to "/a/b" on {"a": null} fails and leaves {}. */
  lemma MoveLosesMember()
    ensures Step(Obj(map["a" := Null]),
                 Obj(map["op" := Str("move"), "from" := Str("/a"), "path" := Str("/a/b")]))
         == Failed(Obj(map[]), OutOfRange(403))
  {
    hide Print, Decode, Apply;
    var doc := Obj(map["a" := Null]);
    PlainPaths("a", "b");
    DecodeExact(Obj(map["op" := Str("move"), "from" := Str("/a"), "path" := Str("/a/b")]), Move(["a"], ["a", "b"]));
    assert Front(["a"]) == [] && ["a"] + ["b"] == ["a", "b"] && ["a"][1..] == [];
    MoveIntoItself(doc, ["a"], ["b"]);
    assert map["a" := Null] - {"a"} == map[];
  }

  lemma ZeroIndex()
    ensures ArrayIndex("0") == Ok(0)
  {
    ArrayIndexExact("0", 0);
  }

  /** Add at "/a/b" where "a" is a number fails the assertion; remove there succeeds without effect. */
  lemma NumberAsParent(n: int, x: Json)
    ensures Step(Obj(map["a" := Num(n)]), Obj(map["op" := Str("add"), "path" := Str("/a/b"), "value" := x]))
         == Failed(Obj(map["a" := Num(n)]), AssertionFailure)
    ensures Step(Obj(map["a" := Num(n)]), Obj(map["op" := Str("remove"), "path" := Str("/a/b")]))
         == Done(Obj(map["a" := Num(n)]))
  {
    hide Print, Decode, AddAt, RemoveAt;
    PlainPaths("a", "b");
    DecodeExact(Obj(map["op" := Str("add"), "path" := Str("/a/b"), "value" := x]), Add(["a", "b"], x));
    DecodeExact(Obj(map["op" := Str("remove"), "path" := Str("/a/b")]), Remove(["a", "b"]));
    var doc := Obj(map["a" := Num(n)]);
    assert Front(["a", "b"]) == ["a"] && ["a"][1..] == [];
    assert Get(doc, ["a"]) == Ok(Num(n));
    AddAborts(doc, ["a", "b"], x);
    RemoveSucceeds(doc, ["a", "b"]);
  }

  /** Section 4.1: an add at "" replaces the whole document; so does a copy to "". */
  lemma RootIsReplaced(doc: Json, x: Json)
    ensures Step(doc, Obj(map["op" := Str("add"), "path" := Str(""), "value" := x])) == Done(x)
    ensures forall from | Get(doc, from) == Ok(x) :: Apply(doc, Copy(from, [])) == Done(x)
    ensures forall from | from != [] && Get(doc, from) == Ok(x) :: Apply(doc, Move(from, [])) == Done(x)
  {
    hide Print, Decode, Get, RemoveAt;
    PrintNothing();
    DecodeExact(Obj(map["op" := Str("add"), "path" := Str(""), "value" := x]), Add([], x));
    forall from | from != [] && Get(doc, from) == Ok(x) ensures Apply(doc, Move(from, [])) == Done(x) {
      AfterRemoval(doc, from);
    }
  }

  /** {} with a replace at "/a" fails with error 403. */
  lemma ReplaceOfMissing(x: Json)
    ensures Step(Obj(map[]), Obj(map["op" := Str("replace"), "path" := Str("/a"), "value" := x]))
         == Failed(Obj(map[]), OutOfRange(403))
  {
    hide Print, Decode;
    PlainPaths("a", "b");
    DecodeExact(Obj(map["op" := Str("replace"), "path" := Str("/a"), "value" := x]), Operation.Replace(["a"], x));
    assert Child(Obj(map[]), "a") == Err(OutOfRange(403));
  }

  /** Add at "/a/b" where "a" is null makes it an object. */
  lemma NullAsParent(x: Json)
    ensures Step(Obj(map["a" := Null]), Obj(map["op" := Str("add"), "path" := Str("/a/b"), "value" := x]))
         == Done(Obj(map["a" := Obj(map["b" := x])]))
  {
    hide Print, Decode, Get, Put;
    PlainPaths("a", "b");
    DecodeExact(Obj(map["op" := Str("add"), "path" := Str("/a/b"), "value" := x]), Add(["a", "b"], x));
    assert Front(["a", "b"]) == ["a"] && Last(["a", "b"]) == "b";
    PutMember(map["a" := Null], "a", Obj(map["b" := x]));
    assert map["a" := Null]["a" := Obj(map["b" := x])] == map["a" := Obj(map["b" := x])];
  }

  lemma PutMember(m: map<string, Json>, k: string, x: Json)
    requires k in m
    ensures Get(Obj(m), [k]) == Ok(m[k]) && Put(Obj(m), [k], x) == Obj(m[k := x])
  {
    assert [k][1..] == [];
  }

  // ---------------------------------------------------------------- in place

  class Document {
    var root: Json

    constructor (v: Json)
      ensures root == v
    {
      root := v;
    }

    /** What the document and the outcome r amount to as a run. */
    function Outcome(r: Result<()>): Run
      reads this
    {
      match r
      case Ok(_) => Done(root)
      case Err(e) => Failed(root, e)
    }

    method OperationAdd(ptr: Tokens, x: Json) returns (r: Result<()>)
      modifies this
      ensures Outcome(r) == Settle(old(root), AddAt(old(root), ptr, x))
    {
      if ptr == [] {
        root := x;
        return Ok(());
      }
      var top := [ptr[0]];
      if top != ptr {
        var there := GetChecked(root, top);
        if there.Err? {
          TopCheck(root, ptr);
          return Err(there.error);
        }
      }
      var lastPath, parentPtr := Last(ptr), Front(ptr);
      var parent := GetChecked(root, parentPtr);
      if parent.Err? { return Err(parent.error); }
      var p := parent.value;
      if p.Null? {
        p := Obj(map[lastPath := x]);
      } else if p.Obj? {
        p := Obj(p.members[lastPath := x]);
      } else if p.Arr? {
        if lastPath == "-" {
          p := Arr(p.items + [x]);
        } else {
          var idx := ArrayIndex(lastPath);
          if idx.Err? { return Err(idx.error); }
          if idx.value > |p.items| { return Err(OutOfRange(401)); }
          p := Arr(p.items[..idx.value] + [x] + p.items[idx.value..]);
        }
      } else {
        return Err(AssertionFailure);
      }
      root := Put(root, parentPtr, p);
      return Ok(());
    }

    method OperationRemove(ptr: Tokens) returns (r: Result<()>)
      modifies this
      ensures Outcome(r) == Settle(old(root), RemoveAt(old(root), ptr))
    {
      if ptr == [] { return Err(OutOfRange(405)); }
      var lastPath, parentPtr := Last(ptr), Front(ptr);
      var parent := GetChecked(root, parentPtr);
      if parent.Err? { return Err(parent.error); }
      var p := parent.value;
      if p.Obj? {
        if lastPath !in p.members { return Err(OutOfRange(403)); }
        p := Obj(p.members - {lastPath});
      } else if p.Arr? {
        var idx := ArrayIndex(lastPath);
        if idx.Err? { return Err(idx.error); }
        if idx.value >= |p.items| { return Err(OutOfRange(401)); }
        p := Arr(p.items[..idx.value] + p.items[idx.value + 1..]);
      }
      root := Put(root, parentPtr, p);
      return Ok(());
    }

    method ApplyInPlace(o: Operation) returns (r: Result<()>)
      modifies this
      ensures Outcome(r) == Apply(old(root), o)
    {
      match o {
        case Add(path, x) =>
          r := OperationAdd(path, x);
        case Remove(path) =>
          r := OperationRemove(path);
        case Replace(path, x) =>
          var there := GetChecked(root, path);
          if there.Err? { return Err(there.error); }
          root := Put(root, path, x);
          r := Ok(());
        case Move(from, path) =>
          var v := GetChecked(root, from);
          if v.Err? { return Err(v.error); }
          r := OperationRemove(from);
          if r.Ok? { r := OperationAdd(path, v.value); }
        case Copy(from, path) =>
          var v := GetChecked(root, from);
          if v.Err? { return Err(v.error); }
          r := OperationAdd(path, v.value);
        case Test(path, x) =>
          var there := GetChecked(root, path);
          var success := false;
          if there.Ok? {
            success := there.value == x;
          } else if !there.error.OutOfRange? {
            return Err(there.error);
          }
          r := if success then Ok(()) else Err(OtherError(501));
      }
    }

    /** patch_inplace: the operations before a failing one keep their effect. */
    method PatchInPlace(patch: Json) returns (r: Result<()>)
      modifies this
      ensures Outcome(r) == Patched(old(root), patch)
      ensures !patch.Arr? ==> r == Err(ParseError(104)) && root == old(root)
    {
      if !patch.Arr? { return Err(ParseError(104)); }
      for i := 0 to |patch.items|
        invariant Steps(old(root), patch.items) == Steps(root, patch.items[i..])
      {
        assert patch.items[i..][0] == patch.items[i] && patch.items[i..][1..] == patch.items[i + 1..];
        var o := Decode(patch.items[i]);
        if o.Err? { return Err(o.error); }
        r := ApplyInPlace(o.value);
        if r.Err? { return; }
      }
      r := Ok(());
    }
  }

  /** patch: the patched copy, or the error. */
  method PatchCopy(v: Json, patch: Json) returns (r: Result<Json>)
    ensures r == match Patched(v, patch) case Done(d) => Ok(d) case Failed(_, e) => Err(e)
    ensures !patch.Arr? ==> r == Err(ParseError(104))
    ensures patch == Arr([]) ==> r == Ok(v)
  {
    var result := new Document(v);
    var outcome := result.PatchInPlace(patch);
    r := if outcome.Ok? then Ok(result.root) else Err(outcome.error);
  }
}
