/** Parameter types as InjectConverters sees them, and the order in which it walks them. */
module TypeShapes {
  import opened Text

  /** A type as written in a generated signature: a generic name with its type
      arguments (a GenericNameSyntax), or any other type, kept only by its text. */
  datatype TypeShape = Generic(name: string, args: seq<TypeShape>) | Simple(name: string)

  /** The generic shapes: what the per-method lists and the recursive calls carry. */
  type GenericShape = t: TypeShape | t.Generic? witness Generic("", [])

  /** Number of nodes in a shape; the termination measure of the walk. */
  function Size(t: TypeShape): nat
  {
    match t
    case Simple(_) => 1
    case Generic(_, args) => 1 + SizeAll(args)
  }

  function SizeAll(ts: seq<TypeShape>): nat
  {
    if ts == [] then 0 else Size(ts[0]) + SizeAll(ts[1..])
  }

  lemma {:induction false} SizeAllElement(ts: seq<TypeShape>, i: nat)
    requires i < |ts|
    ensures Size(ts[i]) <= SizeAll(ts)
  {
    if i > 0 {
      SizeAllElement(ts[1..], i - 1);
    }
  }

  /** Keeps the generic type arguments, in order, and drops the others. */
  function Generics(ts: seq<TypeShape>): seq<GenericShape>
  {
    if ts == [] then []
    else if ts[0].Generic? then [ts[0]] + Generics(ts[1..])
    else Generics(ts[1..])
  }

  /** The filter keeps exactly the generic arguments. */
  lemma {:induction false} GenericsMembers(ts: seq<TypeShape>)
    ensures forall g :: g in Generics(ts) <==> g in ts && g.Generic?
  {
    if ts != [] {
      GenericsMembers(ts[1..]);
      assert ts == [ts[0]] + ts[1..];
    }
  }

  /** Filtering never makes a list larger. */
  lemma {:induction false} GenericsSize(ts: seq<TypeShape>)
    ensures SizeAll(Generics(ts)) <= SizeAll(ts)
  {
    if ts != [] {
      GenericsSize(ts[1..]);
      if ts[0].Generic? {
        assert ([ts[0]] + Generics(ts[1..]))[1..] == Generics(ts[1..]);
      }
    }
  }

  /** One argument is kept exactly when it is a generic name, in front of the rest. */
  lemma GenericsCons(t: TypeShape, rest: seq<TypeShape>)
    ensures Generics([t] + rest) == (if t.Generic? then [t] else []) + Generics(rest)
  {
    assert ([t] + rest)[0] == t && ([t] + rest)[1..] == rest;
  }

  /** The filter keeps the generic arguments in their order, repeats included: it
      works element by element. */
  lemma {:induction false} GenericsAppend(a: seq<TypeShape>, b: seq<TypeShape>)
    ensures Generics(a + b) == Generics(a) + Generics(b)
  {
    if a == [] {
      assert a + b == b;
    } else {
      GenericsAppend(a[1..], b);
      assert (a + b)[0] == a[0] && (a + b)[1..] == a[1..] + b;
    }
  }

  /** The text of a shape, type arguments written as `<A, B>`. */
  function Render(t: TypeShape): string
  {
    match t
    case Simple(n) => n
    case Generic(n, args) => n + "<" + Join(", ", RenderAll(args)) + ">"
  }

  function RenderAll(ts: seq<TypeShape>): seq<string>
  {
    if ts == [] then [] else [Render(ts[0])] + RenderAll(ts[1..])
  }

  /** The text of a generic's type-argument list, as interpolated after a converter name. */
  function RenderArgs(t: GenericShape): string
  {
    "<" + Join(", ", RenderAll(t.args)) + ">"
  }

  /** The generic shapes in the order the walk meets them: each shape, then
      (recursively) its generic type arguments, then the shapes after it. */
  function Visit(ts: seq<GenericShape>): (vs: seq<GenericShape>)
    ensures |ts| <= |vs|
    ensures forall t :: t in ts ==> t in vs
    decreases SizeAll(ts)
  {
    if ts == [] then []
    else
      SizeFirst(ts);
      [ts[0]] + Visit(Generics(ts[0].args)) + Visit(ts[1..])
  }

  /** The first generic of a list is larger than its arguments, the rest of the list
      smaller than the whole. */
  lemma SizeFirst(ts: seq<GenericShape>)
    requires ts != []
    ensures SizeAll(Generics(ts[0].args)) < SizeAll(ts)
    ensures SizeAll(ts[1..]) < SizeAll(ts)
  {
    GenericsSize(ts[0].args);
    assert SizeAll(ts) == Size(ts[0]) + SizeAll(ts[1..]);
    assert Size(ts[0]) == 1 + SizeAll(ts[0].args);
  }

  /** The walk from position `i` on: the shape there, its nested generics, the rest. */
  lemma VisitFrom(ts: seq<GenericShape>, i: nat)
    requires i < |ts|
    ensures Visit(ts[i..]) == [ts[i]] + (Visit(Generics(ts[i].args)) + Visit(ts[i + 1..]))
  {
    assert ts[i..][0] == ts[i] && ts[i..][1..] == ts[i + 1..];
  }

  /** A single shape is visited first, then the walk descends into its nested
      generics; with VisitAppend this fixes the walk as a preorder. */
  lemma VisitOne(t: GenericShape)
    ensures Visit([t]) == [t] + Visit(Generics(t.args))
  {
    assert [t][0] == t && [t][1..] == [];
    assert Visit([t]) == [t] + Visit(Generics(t.args)) + Visit([]);
  }

  /** `u` is `t`, or is reached from `t` by descending only through generic type arguments. */
  ghost predicate Reaches(t: TypeShape, u: TypeShape)
  {
    u == t || (t.Generic? && exists a :: a in t.args && a.Generic? && Reaches(a, u))
  }

  /** The walk meets exactly the shapes reachable from the given ones through generic nesting. */
  lemma {:induction false} VisitReaches(ts: seq<GenericShape>, u: TypeShape)
    ensures u in Visit(ts) <==> exists t :: t in ts && Reaches(t, u)
    decreases SizeAll(ts)
  {
    if ts != [] {
      var t, rest := ts[0], ts[1..];
      var nested := Generics(t.args);
      SizeFirst(ts);
      GenericsMembers(t.args);
      VisitReaches(nested, u);
      VisitReaches(rest, u);
      assert Visit(ts) == [t] + Visit(nested) + Visit(rest);
      if u in Visit(ts) {
        if u == t {
          assert Reaches(t, u);
        } else if u in Visit(nested) {
          var a :| a in nested && Reaches(a, u);
          assert a in t.args;
          assert Reaches(t, u);
        } else {
          var t' :| t' in rest && Reaches(t', u);
          assert t' in ts;
        }
      }
      if exists t' :: t' in ts && Reaches(t', u) {
        var t' :| t' in ts && Reaches(t', u);
        if t' == t {
          if u != t {
            var a :| a in t.args && a.Generic? && Reaches(a, u);
            assert a in nested;
          }
        } else {
          assert t' in rest;
        }
      }
    }
  }

  /** Walking two lists one after the other is walking their concatenation. */
  lemma {:induction false} VisitAppend(a: seq<GenericShape>, b: seq<GenericShape>)
    ensures Visit(a + b) == Visit(a) + Visit(b)
    decreases |a|
  {
    if a == [] {
      assert a + b == b;
    } else {
      var ab := a + b;
      assert ab[0] == a[0] && ab[1..] == a[1..] + b;
      VisitAppend(a[1..], b);
      calc {
        Visit(ab);
        [a[0]] + Visit(Generics(a[0].args)) + Visit(a[1..] + b);
        [a[0]] + Visit(Generics(a[0].args)) + (Visit(a[1..]) + Visit(b));
        ([a[0]] + Visit(Generics(a[0].args)) + Visit(a[1..])) + Visit(b);
      }
    }
  }
}
