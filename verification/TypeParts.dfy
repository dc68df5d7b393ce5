/** The parts of a type: a description of types by the paths that lead into them. */
module TypeParts {
  import opened Options
  import opened Typespec

  /** The types that a type is directly made of; of a function, the parameters and behind them the return type. */
  function PartsOf(t: Type): seq<Type> {
    match t.terminator
    case Array(_, elem) => [elem]
    case Slice(elem) => [elem]
    case Tuple(types) => types
    case Function(_, params, returnType) => params + [returnType]
    case _ => []
  }

  /** The part that is reached by going down from part to part. */
  function PartAt(t: Type, path: seq<nat>): Option<Type> {
    if path == [] then Some(t)
    else if path[0] < |PartsOf(t)| then PartAt(PartsOf(t)[path[0]], path[1..])
    else None
  }

  lemma {:induction false} BelowPart(t: Type, i: nat, path: seq<nat>)
    requires i < |PartsOf(t)|
    ensures PartAt(t, [i] + path) == PartAt(PartsOf(t)[i], path)
  {
    assert ([i] + path)[1..] == path;
  }

  // ----- operator == -----

  /** A type without its parts and without the calling convention. */
  datatype Head =
    | Named(modifiers: seq<Modifier>, isEnum: bool, declaration: nat)
    | Sized(modifiers: seq<Modifier>, size: nat)
    | Other(modifiers: seq<Modifier>, which: nat, parts: nat)

  function HeadOf(t: Type): Head {
    match t.terminator
    case BaseType(info) => Named(t.modifiers, false, info)
    case Enum(decl) => Named(t.modifiers, true, decl)
    case Array(size, _) => Sized(t.modifiers, size)
    case Slice(_) => Other(t.modifiers, 0, 1)
    case Tuple(types) => Other(t.modifiers, 1, |types|)
    case Function(_, params, _) => Other(t.modifiers, 2, |params| + 1)
    case Void => Other(t.modifiers, 3, 0)
    case Auto => Other(t.modifiers, 4, 0)
    case Typename => Other(t.modifiers, 5, 0)
    case Unresolved => Other(t.modifiers, 6, 0)
    case Missing => Other([], 7, 0)
  }

  function HeadAt(t: Type, path: seq<nat>): Option<Head> {
    match PartAt(t, path)
    case None => None
    case Some(u) => Some(HeadOf(u))
  }

  ghost predicate SameHeads(a: Type, b: Type) {
    forall path :: HeadAt(a, path) == HeadAt(b, path)
  }

  /** Types are equal exactly when every path leads to the same place in both, or to none in both. */
  lemma {:induction false} EqualIsSameHeads(a: Type, b: Type)
    requires Comparable(a) && Comparable(b)
    ensures TypeEq(a, b) <==> SameHeads(a, b)
    decreases a
  {
    SamePaths(a, b);
    if HeadOf(a) == HeadOf(b) {
      PartsAreComparable(a);
      PartsAreComparable(b);
      forall i | 0 <= i < |PartsOf(a)|
        ensures TypeEq(PartsOf(a)[i], PartsOf(b)[i]) <==> SameHeads(PartsOf(a)[i], PartsOf(b)[i])
      {
        EqualIsSameHeads(PartsOf(a)[i], PartsOf(b)[i]);
      }
    }
    EqualIsSameParts(a, b);
  }

  lemma {:induction false} PartsAreComparable(t: Type)
    requires Comparable(t)
    ensures forall i :: 0 <= i < |PartsOf(t)| ==> Comparable(PartsOf(t)[i])
  {
  }

  lemma {:induction false} EqualIsSameParts(a: Type, b: Type)
    requires Comparable(a) && Comparable(b)
    ensures TypeEq(a, b) <==>
            HeadOf(a) == HeadOf(b) && TypesEq(PartsOf(a), PartsOf(b))
  {
    if TypeEq(a, b) && !a.terminator.Missing? {
      SameModifiers(a, b);
    }
    if a.terminator.Array? || a.terminator.Slice? {
      assert |PartsOf(a)| == 1;
      if |PartsOf(b)| == 1 {
        assert TypesEq(PartsOf(a), PartsOf(b)) <==> TypeEq(PartsOf(a)[0], PartsOf(b)[0]);
      }
    }
    if a.terminator.Function? && b.terminator.Function? && |a.terminator.params| == |b.terminator.params| {
      assert PartsOf(a) == a.terminator.params + [a.terminator.returnType];
      assert PartsOf(b) == b.terminator.params + [b.terminator.returnType];
      EqualBehind(a.terminator.params, a.terminator.returnType, b.terminator.params, b.terminator.returnType);
    }
  }

  lemma {:induction false} SameModifiers(a: Type, b: Type)
    requires TypeEq(a, b) && !a.terminator.Missing?
    ensures a.modifiers == b.modifiers
  {
  }

  lemma {:induction false} EqualBehind(ps: seq<Type>, t: Type, qs: seq<Type>, u: Type)
    requires |ps| == |qs|
    ensures TypesEq(ps, qs) && TypeEq(t, u) <==> TypesEq(ps + [t], qs + [u])
  {
    var xs, ys := ps + [t], qs + [u];
    if TypesEq(xs, ys) {
      assert TypeEq(xs[|ps|], ys[|ps|]);
      forall i | 0 <= i < |ps| ensures TypeEq(ps[i], qs[i]) {
        assert TypeEq(xs[i], ys[i]);
      }
    }
  }

  lemma {:induction false} SamePaths(a: Type, b: Type)
    ensures SameHeads(a, b) <==>
            HeadOf(a) == HeadOf(b) && forall i :: 0 <= i < |PartsOf(a)| ==> SameHeads(PartsOf(a)[i], PartsOf(b)[i])
  {
    if SameHeads(a, b) {
      assert HeadAt(a, []) == HeadAt(b, []);
      forall i, path | 0 <= i < |PartsOf(a)| ensures HeadAt(PartsOf(a)[i], path) == HeadAt(PartsOf(b)[i], path) {
        BelowPart(a, i, path);
        BelowPart(b, i, path);
        assert HeadAt(a, [i] + path) == HeadAt(b, [i] + path);
      }
    } else {
      var path :| HeadAt(a, path) != HeadAt(b, path);
      if path != [] && path[0] < |PartsOf(a)| && path[0] < |PartsOf(b)| {
        assert HeadAt(PartsOf(a)[path[0]], path[1..]) != HeadAt(PartsOf(b)[path[0]], path[1..]);
      }
    }
  }
}
