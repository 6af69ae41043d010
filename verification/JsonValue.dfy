// JSON values, the library's exceptions, and object keys in the order in which std::map visits them.
module JsonValue {

  /** One number kind stands for the integer, unsigned and floating-point numbers of the library. */
  datatype Json =
    | Null
    | Bool(b: bool)
    | Num(n: int)
    | Str(s: string)
    | Arr(items: seq<Json>)
    | Obj(members: map<string, Json>)

  /** The exception classes, each with its identifier; AssertionFailure is a failing JSON_ASSERT. */
  datatype Error =
    | ParseError(id: nat)
    | OutOfRange(id: nat)
    | TypeError(id: nat)
    | OtherError(id: nat)
    | AssertionFailure

  datatype Result<+T> = Ok(value: T) | Err(error: Error)

  const SIZE_MAX := 0xFFFF_FFFF_FFFF_FFFF

  /** Every array has a length that size_type (64 bits) can hold, at every level. */
  predicate Fits(v: Json) {
    match v
    case Arr(a) => |a| <= SIZE_MAX && forall i | 0 <= i < |a| :: Fits(a[i])
    case Obj(m) => forall k | k in m :: Fits(m[k])
    case _ => true
  }

  predicate SameType(v: Json, w: Json) {
    match v
    case Null => w.Null?
    case Bool(_) => w.Bool?
    case Num(_) => w.Num?
    case Str(_) => w.Str?
    case Arr(_) => w.Arr?
    case Obj(_) => w.Obj?
  }

  predicate Primitive(v: Json) {
    !v.Arr? && !v.Obj?
  }

  // ---------------------------------------------------------------- the order of keys

  /** std::less<std::string>: lexicographic order. */
  predicate Before(a: string, b: string) {
    b != "" && (a == "" || a[0] < b[0] || (a[0] == b[0] && Before(a[1..], b[1..])))
  }

  lemma {:induction false} BeforeIrreflexive(a: string)
    ensures !Before(a, a)
  {
    if a != "" { BeforeIrreflexive(a[1..]); }
  }

  lemma {:induction false} BeforeTransitive(a: string, b: string, c: string)
    requires Before(a, b) && Before(b, c)
    ensures Before(a, c)
  {
    if a != "" && a[0] == b[0] == c[0] { BeforeTransitive(a[1..], b[1..], c[1..]); }
  }

  lemma {:induction false} BeforeTotal(a: string, b: string)
    ensures a == b || Before(a, b) || Before(b, a)
  {
    if a != "" && b != "" && a[0] == b[0] {
      BeforeTotal(a[1..], b[1..]);
      assert a == [a[0]] + a[1..] && b == [b[0]] + b[1..];
    }
  }

  /** A common prefix does not matter. */
  lemma {:induction false} BeforePrefix(p: string, a: string, b: string)
    ensures Before(p + a, p + b) <==> Before(a, b)
    decreases |p|
  {
    if p == "" {
      assert p + a == a && p + b == b;
    } else {
      assert (p + a)[1..] == p[1..] + a && (p + b)[1..] == p[1..] + b;
      BeforePrefix(p[1..], a, b);
    }
  }

  predicate Least(k: string, s: set<string>) {
    k in s && forall x | x in s && x != k :: Before(k, x)
  }

  lemma {:induction false} LeastExists(s: set<string>)
    requires s != {}
    ensures exists k :: Least(k, s)
    decreases |s|
  {
    var x :| x in s;
    if s == {x} {
      assert Least(x, s);
    } else {
      var rest := s - {x};
      LeastExists(rest);
      var k :| Least(k, rest);
      BeforeTotal(k, x);
      if Before(k, x) {
        assert Least(k, s);
      } else {
        forall y | y in s && y != x ensures Before(x, y) {
          if y != k { BeforeTransitive(x, k, y); }
        }
        assert Least(x, s);
      }
    }
  }

  lemma LeastUnique(j: string, k: string, s: set<string>)
    requires Least(j, s) && Least(k, s)
    ensures j == k
  {
    if j != k {
      BeforeTransitive(j, k, j);
      BeforeIrreflexive(j);
    }
  }

  function LeastOf(s: set<string>): (k: string)
    requires s != {}
    ensures Least(k, s)
  {
    LeastExists(s);
    assert forall j, k | Least(j, s) && Least(k, s) :: j == k by {
      forall j, k | Least(j, s) && Least(k, s) ensures j == k { LeastUnique(j, k, s); }
    }
    var k :| k in s && Least(k, s);
    k
  }

  /** The elements of s from the least to the greatest, as an iterator over a std::map visits them. */
  function Ascending(s: set<string>): (ks: seq<string>)
    decreases |s|
  {
    if s == {} then [] else [LeastOf(s)] + Ascending(s - {LeastOf(s)})
  }

  /** Every element once, in strictly ascending order. */
  lemma {:induction false} AscendingIsSorted(s: set<string>)
    ensures forall k :: k in Ascending(s) <==> k in s
    ensures forall i, j | 0 <= i < j < |Ascending(s)| :: Before(Ascending(s)[i], Ascending(s)[j])
    ensures |Ascending(s)| == |s|
    decreases |s|
  {
    if s != {} {
      var k, rest := LeastOf(s), s - {LeastOf(s)};
      AscendingIsSorted(rest);
      var tail := Ascending(rest);
      forall i, j | 0 <= i < j < |tail| + 1 ensures Before(([k] + tail)[i], ([k] + tail)[j]) {
        if i == 0 { assert tail[j - 1] in rest; }
      }
    }
  }

  predicate StrictlyAscending(ks: seq<string>) {
    forall i, j | 0 <= i < j < |ks| :: Before(ks[i], ks[j])
  }

  /** The keys of an object in the order of iteration. */
  function Keys(m: map<string, Json>): (ks: seq<string>)
    ensures forall k :: k in ks <==> k in m
    ensures StrictlyAscending(ks) && |ks| == |m|
  {
    AscendingIsSorted(m.Keys);
    Ascending(m.Keys)
  }

  function Elements(ks: seq<string>): set<string> {
    set k | k in ks
  }

  lemma NoRepetition(ks: seq<string>, i: nat, j: nat)
    requires StrictlyAscending(ks) && i < |ks| && j < |ks| && ks[i] == ks[j]
    ensures i == j
  {
    BeforeIrreflexive(ks[i]);
  }

  /** The values directly inside v: array elements in order, object members in the order of their keys. */
  function Children(v: Json): (cs: seq<Json>)
    ensures forall i | 0 <= i < |cs| :: cs[i] < v
  {
    match v
    case Arr(a) => a
    case Obj(m) => var ks := Keys(m); seq(|ks|, i requires 0 <= i < |ks| => m[ks[i]])
    case _ => []
  }
}
