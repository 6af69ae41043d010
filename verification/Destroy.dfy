// Destruction of nested values with an explicit stack instead of recursion.
module Destroy {
  import opened JsonValue

  /** Every occurrence of a value inside the first n children of v, the children included. */
  ghost function Inside(v: Json, n: nat): multiset<Json>
    requires n <= |Children(v)|
    decreases v, n
  {
    hide Children, Keys;
    if n == 0 then multiset{}
    else var c := Children(v)[n - 1]; Inside(v, n - 1) + multiset{c} + Inside(c, |Children(c)|)
  }

  /** Every occurrence of a value properly inside v. */
  ghost function Descendants(v: Json): multiset<Json> {
    Inside(v, |Children(v)|)
  }

  /** Every occurrence of a value in the trees of a stack, the roots included. */
  ghost function Forest(stack: seq<Json>): multiset<Json> {
    if stack == [] then multiset{}
    else
      var c := stack[|stack| - 1];
      Forest(stack[..|stack| - 1]) + multiset{c} + Descendants(c)
  }

  lemma {:induction false} ForestConcat(a: seq<Json>, b: seq<Json>)
    ensures Forest(a + b) == Forest(a) + Forest(b)
    decreases |b|
  {
    if b == [] {
      assert a + b == a;
    } else {
      assert (a + b)[..|a + b| - 1] == a + b[..|b| - 1];
      ForestConcat(a, b[..|b| - 1]);
    }
  }

  lemma {:induction false} ForestOfChildren(v: Json, n: nat)
    requires n <= |Children(v)|
    ensures Forest(Children(v)[..n]) == Inside(v, n)
  {
    hide Children, Descendants, Forest;
    NoTrees();
    if n > 0 {
      ForestOfChildren(v, n - 1);
      var cs := Children(v)[..n];
      LastTree(cs);
      assert cs[..n - 1] == Children(v)[..n - 1];
      assert Descendants(cs[n - 1]) == Inside(cs[n - 1], |Children(cs[n - 1])|) by { AllInside(cs[n - 1]); }
    }
  }

  lemma AllInside(v: Json)
    ensures Descendants(v) == Inside(v, |Children(v)|)
  {
    hide Children, Inside;
  }

  lemma LastTree(stack: seq<Json>)
    requires stack != []
    ensures var c := stack[|stack| - 1];
            Forest(stack) == Forest(stack[..|stack| - 1]) + multiset{c} + Descendants(c)
  {
    hide Descendants;
  }

  lemma NoTrees()
    ensures Forest([]) == multiset{}
  {}

  lemma ForestIsDescendants(v: Json)
    ensures Forest(Children(v)) == Descendants(v)
  {
    ForestOfChildren(v, |Children(v)|);
    assert Children(v)[..|Children(v)|] == Children(v);
  }

  // ---------------------------------------------------------------- the order of handling

  /** The values inside the first n children of v: the last child first, and each before the values inside it. */
  ghost function Visit(v: Json, n: nat): seq<Json>
    requires n <= |Children(v)|
    decreases v, n
  {
    hide Children, Keys;
    if n == 0 then []
    else var c := Children(v)[n - 1]; [c] + Visit(c, |Children(c)|) + Visit(v, n - 1)
  }

  ghost function VisitAll(v: Json): seq<Json> {
    Visit(v, |Children(v)|)
  }

  ghost function VisitStack(stack: seq<Json>): seq<Json> {
    if stack == [] then []
    else
      var c := stack[|stack| - 1];
      [c] + VisitAll(c) + VisitStack(stack[..|stack| - 1])
  }

  lemma {:induction false} VisitConcat(a: seq<Json>, b: seq<Json>)
    ensures VisitStack(a + b) == VisitStack(b) + VisitStack(a)
    decreases |b|
  {
    hide VisitAll;
    if b == [] {
      assert a + b == a;
    } else {
      assert (a + b)[..|a + b| - 1] == a + b[..|b| - 1];
      VisitConcat(a, b[..|b| - 1]);
      var c := b[|b| - 1];
      assert [c] + VisitAll(c) + (VisitStack(b[..|b| - 1]) + VisitStack(a)) == VisitStack(b) + VisitStack(a);
    }
  }

  lemma {:induction false} VisitOfChildren(v: Json, n: nat)
    requires n <= |Children(v)|
    ensures VisitStack(Children(v)[..n]) == Visit(v, n)
  {
    hide Children;
    if n > 0 {
      VisitOfChildren(v, n - 1);
      var cs := Children(v)[..n];
      assert cs[..n - 1] == Children(v)[..n - 1];
    }
  }

  lemma VisitChildren(v: Json)
    ensures VisitStack(Children(v)) == VisitAll(v)
  {
    hide Children, Visit, VisitStack;
    VisitOfChildren(v, |Children(v)|);
    assert Children(v)[..|Children(v)|] == Children(v);
  }

  /** Handling the last value of the stack and pushing its children takes the next step of the visit. */
  lemma VisitPop(done: seq<Json>, stack: seq<Json>)
    requires stack != []
    ensures var c := stack[|stack| - 1];
            var rest := stack[..|stack| - 1];
            && done + VisitStack(stack) == (done + [c]) + VisitStack(rest + Children(c))
            && (Primitive(c) ==> rest + Children(c) == rest)
  {
    hide VisitAll, VisitStack, Children;
    var c := stack[|stack| - 1];
    var rest := stack[..|stack| - 1];
    LastVisit(stack);
    VisitConcat(rest, Children(c));
    VisitChildren(c);
    Regrouped(done, c, VisitAll(c), VisitStack(rest));
    if Primitive(c) { Leaves(c); }
  }

  lemma LastVisit(stack: seq<Json>)
    requires stack != []
    ensures var c := stack[|stack| - 1];
            VisitStack(stack) == [c] + VisitAll(c) + VisitStack(stack[..|stack| - 1])
  {
    hide VisitAll;
  }

  lemma Regrouped(a: seq<Json>, c: Json, y: seq<Json>, z: seq<Json>)
    ensures a + ([c] + y + z) == (a + [c]) + (y + z)
  {}

  lemma EmptyStack()
    ensures VisitStack([]) == []
  {}

  /** What is left of a value whose children have been moved away and whose container has been cleared. */
  function Cleared(v: Json): Json {
    match v
    case Arr(_) => Arr([])
    case Obj(_) => Obj(map[])
    case _ => v
  }

  /** What is left of a value whose children have been moved away, each leaving a null behind. */
  function MovedFrom(v: Json): Json {
    match v
    case Arr(a) => Arr(seq(|a|, _ => Null))
    case Obj(m) => Obj(map k | k in m :: Null)
    case _ => v
  }

  predicate Childless(v: Json) {
    Children(v) == []
  }

  /**
   * json_value::destroy. The loop ends, handles every value inside v exactly once, depth first and the last child
   * first, and releases each only after its children have left it; the container that is destroyed last holds nothing
   * but nulls.
   */
  method DestroyValue(v: Json) returns (handled: seq<Json>, released: seq<Json>, shell: Json)
    ensures multiset(handled) == Descendants(v)
    ensures handled == VisitAll(v)
    ensures |released| == |handled|
    ensures forall i | 0 <= i < |handled| :: released[i] == Cleared(handled[i]) && Childless(released[i])
    ensures shell == MovedFrom(v) && forall c | c in Children(shell) :: c == Null
  {
    hide Forest, Descendants, Children, MovedFrom, VisitAll, VisitStack;
    Leaves(v);
    VisitChildren(v);
    EmptyStack();
    handled, released, shell := [], [], v;
    if v.Arr? || v.Obj? {
      var stack := Children(v);
      shell := MovedFrom(v);
      ForestIsDescendants(v);
      while stack != []
        invariant multiset(handled) + Forest(stack) == Descendants(v)
        invariant handled + VisitStack(stack) == VisitAll(v)
        invariant |released| == |handled|
        invariant forall i | 0 <= i < |handled| :: released[i] == Cleared(handled[i]) && Childless(released[i])
        decreases |Forest(stack)|
      {
        var current := stack[|stack| - 1];
        Pop(stack);
        VisitPop(handled, stack);
        stack := stack[..|stack| - 1];
        Leaves(current);
        handled := handled + [current];
        if current.Arr? || current.Obj? {
          stack := stack + Children(current);
          current := if current.Arr? then Arr([]) else Obj(map[]);
        }
        released := released + [current];
      }
      NoTrees();
    }
  }

  /** Taking the last tree off the stack and pushing its children removes one value from the forest. */
  lemma Pop(stack: seq<Json>)
    requires stack != []
    ensures var c := stack[|stack| - 1];
            var rest := stack[..|stack| - 1];
            && Forest(stack) == multiset{c} + Forest(rest + Children(c))
            && (Primitive(c) ==> Forest(stack) == multiset{c} + Forest(rest))
  {
    hide Forest, Descendants;
    var c := stack[|stack| - 1];
    var rest := stack[..|stack| - 1];
    LastTree(stack);
    ForestConcat(rest, Children(c));
    ForestIsDescendants(c);
    if Primitive(c) { assert rest + Children(c) == rest; }
  }

  lemma Leaves(v: Json)
    ensures Childless(Cleared(v))
    ensures Primitive(v) ==> Children(v) == []
    ensures Primitive(v) ==> Descendants(v) == multiset{} && MovedFrom(v) == v == Cleared(v)
    ensures forall c | c in Children(MovedFrom(v)) :: c == Null
  {
    hide Keys;
    if v.Obj? {
      var shell := MovedFrom(v);
      assert forall i | 0 <= i < |Children(shell)| :: Children(shell)[i] == shell.members[Keys(shell.members)[i]];
    }
  }
}
