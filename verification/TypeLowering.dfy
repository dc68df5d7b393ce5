/** `get_type_prototype` (src/ast/typespec.cpp:988-1072): the prototype of a type. */
module TypeLowering {
  import opened Options
  import opened TypePrototypes
  import opened TypePrototypeSet
  import L = Layout
  import opened Typespec

  /**
   * What the declarations say: the prototype of each struct or builtin type, none if resolving it failed, and the
   * underlying integer type of each enum.
   */
  datatype Declarations = Declarations(prototypes: map<nat, Option<Ref>>, underlying: map<nat, nat>)

  predicate DeclsIn(d: Declarations, n: nat) {
    forall i :: i in d.prototypes ==> match d.prototypes[i] case None => true case Some(r) => RefIn(r, n)
  }

  /** The declarations with the deep structure in place of the address. */
  ghost function ShapeOfDecl(types: seq<Prototype>, d: Declarations, info: nat): L.Shape
    requires Grounded(types) && DeclsIn(d, |types|) && info in d.prototypes
  {
    match d.prototypes[info]
    case None => L.Aggregate([])
    case Some(r) => ShapeOf(types, r)
  }

  /** `is_optional_pointer_like` */
  predicate IsOptionalPointerLike(t: Type) {
    var m := t.modifiers;
    if |m| >= 2 && m[0].Optional? && (m[1].Pointer? || m[1].LvalueReference?) then true
    else |m| == 1 && m[0].Optional? && t.terminator.Function?
  }

  function WithoutLayer(t: Type): Type
    requires t.modifiers != []
  {
    Type(t.modifiers[1..], t.terminator)
  }

  /** No branch that the source marks unreachable is met on the way, and every declaration is known. */
  ghost predicate Lowerable(t: Type, d: Declarations)
    decreases t.terminator, |t.modifiers|
  {
    if t.modifiers == [] then
      match t.terminator
      case BaseType(info) => info in d.prototypes
      case Enum(decl) => decl in d.underlying && d.underlying[decl] in d.prototypes
      case Void => true
      case Function(_, _, _) => true
      case Array(_, elem) => Lowerable(elem, d)
      case Slice(_) => true
      case Tuple(ts) => forall i :: 0 <= i < |ts| ==> Lowerable(ts[i], d)
      case _ => false
    else
      match t.modifiers[0]
      case Mut => Lowerable(WithoutLayer(t), d)
      case Consteval => Lowerable(WithoutLayer(t), d)
      case Pointer => true
      case LvalueReference => true
      case MoveReference => true
      case Optional => IsOptionalPointerLike(t) || Lowerable(WithoutLayer(t), d)
      case _ => false
  }

  /** The deep structure of the prototype of a type. */
  ghost function LowerShape(t: Type, d: Declarations, types: seq<Prototype>): L.Shape
    requires Grounded(types) && DeclsIn(d, |types|) && Lowerable(t, d)
    decreases t.terminator, |t.modifiers|
  {
    if t.modifiers == [] then
      match t.terminator
      case BaseType(info) => ShapeOfDecl(types, d, info)
      case Enum(decl) => ShapeOfDecl(types, d, d.underlying[decl])
      case Void => L.Builtin(L.Void)
      case Function(_, _, _) => L.Pointer
      case Array(size, elem) => L.Array(LowerShape(elem, d, types), size)
      case Slice(_) => L.Aggregate([L.Pointer, L.Pointer])
      case Tuple(ts) => L.Aggregate(seq(|ts|, i requires 0 <= i < |ts| => LowerShape(ts[i], d, types)))
    else
      match t.modifiers[0]
      case Mut => LowerShape(WithoutLayer(t), d, types)
      case Consteval => LowerShape(WithoutLayer(t), d, types)
      case Pointer => L.Pointer
      case LvalueReference => L.Pointer
      case MoveReference => L.Pointer
      case Optional =>
        if IsOptionalPointerLike(t) then L.Pointer
        else L.Aggregate([LowerShape(WithoutLayer(t), d, types), L.Builtin(L.I1)])
  }

  ghost function LowerShapes(ts: seq<Type>, d: Declarations, types: seq<Prototype>): (r: seq<L.Shape>)
    requires Grounded(types) && DeclsIn(d, |types|) && forall i :: 0 <= i < |ts| ==> Lowerable(ts[i], d)
    ensures |r| == |ts| && forall i :: 0 <= i < |ts| ==> r[i] == LowerShape(ts[i], d, types)
  {
    seq(|ts|, i requires 0 <= i < |ts| => LowerShape(ts[i], d, types))
  }

  lemma TupleShape(t: Type, ts: seq<Type>, d: Declarations, types: seq<Prototype>)
    requires Grounded(types) && DeclsIn(d, |types|) && t == Type([], Tuple(ts)) && Lowerable(t, d)
    ensures LowerShape(t, d, types) == L.Aggregate(LowerShapes(ts, d, types))
  {
    assert LowerShape(t, d, types).elems == LowerShapes(ts, d, types);
  }

  // ----- the specification does not depend on when it is asked -----

  /** More declarations may have been resolved; those that were keep what they say. */
  predicate Extends(d: Declarations, e: Declarations) {
    && (forall i :: i in d.prototypes ==> i in e.prototypes && e.prototypes[i] == d.prototypes[i])
    && (forall i :: i in d.underlying ==> i in e.underlying && e.underlying[i] == d.underlying[i])
  }

  lemma DeclStays(types: seq<Prototype>, more: seq<Prototype>, d: Declarations, e: Declarations, info: nat)
    requires Grounded(types) && Grounded(more) && types <= more && info in d.prototypes && Extends(d, e)
    requires DeclsIn(d, |types|) && DeclsIn(e, |more|)
    ensures ShapeOfDecl(types, d, info) == ShapeOfDecl(more, e, info)
  {
    match d.prototypes[info]
    case None =>
    case Some(r) => ShapeStays(types, more, r, 1);
  }

  lemma {:induction false} LowerShapeStays(t: Type, d: Declarations, types: seq<Prototype>,
                                           e: Declarations, more: seq<Prototype>)
    requires Grounded(types) && Grounded(more) && types <= more && Extends(d, e)
    requires DeclsIn(d, |types|) && DeclsIn(e, |more|) && Lowerable(t, d)
    ensures Lowerable(t, e) && LowerShape(t, d, types) == LowerShape(t, e, more)
    decreases t.terminator, |t.modifiers|
  {
    if t.modifiers == [] {
      match t.terminator
      case BaseType(info) => DeclStays(types, more, d, e, info);
      case Enum(decl) => DeclStays(types, more, d, e, d.underlying[decl]);
      case Array(_, elem) => LowerShapeStays(elem, d, types, e, more);
      case Tuple(ts) =>
        forall i | 0 <= i < |ts|
          ensures Lowerable(ts[i], e) && LowerShape(ts[i], d, types) == LowerShape(ts[i], e, more)
        {
          LowerShapeStays(ts[i], d, types, e, more);
        }
        assert Lowerable(t, e) && LowerShape(t, d, types).elems == LowerShape(t, e, more).elems;
      case _ =>
    } else {
      match t.modifiers[0]
      case Mut => LowerShapeStays(WithoutLayer(t), d, types, e, more);
      case Consteval => LowerShapeStays(WithoutLayer(t), d, types, e, more);
      case Optional =>
        if !IsOptionalPointerLike(t) {
          LowerShapeStays(WithoutLayer(t), d, types, e, more);
        }
      case _ =>
    }
  }

  // ----- equal types, and types that differ in outer qualifiers -----

  lemma {:induction false} ErasedLowersAlike(t: Type, d: Declarations, types: seq<Prototype>)
    requires Grounded(types) && DeclsIn(d, |types|)
    ensures Lowerable(t, d) <==> Lowerable(Erase(t), d)
    ensures Lowerable(t, d) ==> LowerShape(t, d, types) == LowerShape(Erase(t), d, types)
    decreases t.terminator, |t.modifiers|
  {
    if t.modifiers == [] {
      match t.terminator
      case Array(_, elem) => ErasedLowersAlike(elem, d, types);
      case Tuple(ts) => ErasedTuple(t, ts, d, types);
      case _ =>
    } else {
      assert Erase(WithoutLayer(t)) == WithoutLayer(Erase(t));
      ErasedLowersAlike(WithoutLayer(t), d, types);
    }
  }

  lemma {:induction false} ErasedTuple(t: Type, ts: seq<Type>, d: Declarations, types: seq<Prototype>)
    requires Grounded(types) && DeclsIn(d, |types|) && t == Type([], Tuple(ts))
    ensures Lowerable(t, d) <==> Lowerable(Erase(t), d)
    ensures Lowerable(t, d) ==> LowerShape(t, d, types) == LowerShape(Erase(t), d, types)
    decreases t.terminator, 0, 0
  {
    var es := EraseAll(ts);
    forall i | 0 <= i < |ts|
      ensures Lowerable(ts[i], d) <==> Lowerable(es[i], d)
      ensures Lowerable(ts[i], d) ==> LowerShape(ts[i], d, types) == LowerShape(es[i], d, types)
    {
      ErasedLowersAlike(ts[i], d, types);
    }
    assert Erase(t) == Type([], Tuple(es));
    if Lowerable(t, d) {
      assert forall i :: 0 <= i < |ts| ==> Lowerable(es[i], d);
      assert LowerShape(t, d, types).elems == LowerShape(Erase(t), d, types).elems;
    }
  }

  /** Types that compare equal have the same structure in memory. */
  lemma EqualTypesLowerAlike(a: Type, b: Type, d: Declarations, types: seq<Prototype>)
    requires Grounded(types) && DeclsIn(d, |types|) && Comparable(a) && Comparable(b) && TypeEq(a, b)
    ensures Lowerable(a, d) <==> Lowerable(b, d)
    ensures Lowerable(a, d) ==> LowerShape(a, d, types) == LowerShape(b, d, types)
  {
    EqualIsErasedEqual(a, b);
    ErasedLowersAlike(a, d, types);
    ErasedLowersAlike(b, d, types);
  }

  ghost predicate Qualifiers(ms: seq<Modifier>) {
    forall i :: 0 <= i < |ms| ==> ms[i].Mut? || ms[i].Consteval?
  }

  function Qualified(qs: seq<Modifier>, t: Type): Type {
    Type(qs + t.modifiers, t.terminator)
  }

  lemma {:induction false} QualifiersDoNotMatter(qs: seq<Modifier>, t: Type, d: Declarations, types: seq<Prototype>)
    requires Grounded(types) && DeclsIn(d, |types|) && Qualifiers(qs)
    ensures Lowerable(Qualified(qs, t), d) <==> Lowerable(t, d)
    ensures Lowerable(t, d) ==> LowerShape(Qualified(qs, t), d, types) == LowerShape(t, d, types)
    decreases |qs|
  {
    if qs == [] {
      assert Qualified(qs, t) == t;
    } else {
      QualifiersDoNotMatter(qs[1..], t, d, types);
      assert WithoutLayer(Qualified(qs, t)) == Qualified(qs[1..], t) by {
        assert (qs + t.modifiers)[1..] == qs[1..] + t.modifiers;
      }
    }
  }

  // ----- the lowering -----

  /** A request for `t` that found the list `before` was answered with `r` and left the list `after`. */
  ghost predicate LoweredTo(before: seq<Prototype>, t: Type, d: Declarations, after: seq<Prototype>, r: Ref) {
    && Grounded(before) && Grounded(after) && before <= after
    && DeclsIn(d, |before|) && Lowerable(t, d)
    && RefIn(r, |after|)
    && ShapeOf(after, r) == LowerShape(t, d, before)
  }

  /**
   * Two requests at any two moments of a run get the same address exactly when the types have the same structure at
   * those moments. So they do for equal types, and under any outer `mut` and `consteval`, if the declarations known to
   * the first request still say the same; others may have been resolved in between.
   */
  lemma SamePrototype(s0: seq<Prototype>, s1: seq<Prototype>, s2: seq<Prototype>, s3: seq<Prototype>,
                      a: Type, d: Declarations, b: Type, e: Declarations, ra: Ref, rb: Ref, pointerSize: nat)
    requires LoweredTo(s0, a, d, s1, ra) && s1 <= s2 && LoweredTo(s2, b, e, s3, rb) && WellFormed(s3, pointerSize)
    ensures ra == rb <==> LowerShape(a, d, s0) == LowerShape(b, e, s2)
    ensures Extends(d, e) && Comparable(a) && Comparable(b) && TypeEq(a, b) ==> ra == rb
    ensures Extends(d, e) ==> forall qs :: Qualifiers(qs) && b == Qualified(qs, a) ==> ra == rb
  {
    assert s0 <= s2 && s1 <= s3;
    ShapeStays(s1, s3, ra, 1);
    SameRefSameShape(s3, ra, rb);
    if Extends(d, e) {
      LowerShapeStays(a, d, s0, e, s2);
      if Comparable(a) && Comparable(b) && TypeEq(a, b) {
        EqualTypesLowerAlike(a, b, e, s2);
      }
      forall qs | Qualifiers(qs) && b == Qualified(qs, a) ensures ra == rb {
        QualifiersDoNotMatter(qs, a, e, s2);
      }
    }
  }

  method GetTypePrototype(t: Type, d: Declarations, set_: PrototypeSet) returns (r: Ref)
    requires set_.Valid() && DeclsIn(d, |set_.types|) && Lowerable(t, d)
    modifies set_
    ensures set_.Valid()
    ensures LoweredTo(old(set_.types), t, d, set_.types, r)
    decreases t.terminator, |t.modifiers|
  {
    if t.modifiers == [] {
      r := GetTerminatorPrototype(t, d, set_);
      return;
    }
    match t.modifiers[0]
    case Mut =>
      r := GetTypePrototype(WithoutLayer(t), d, set_);
    case Consteval =>
      r := GetTypePrototype(WithoutLayer(t), d, set_);
    case Pointer =>
      r := PointerRef;
    case LvalueReference =>
      r := PointerRef;
    case MoveReference =>
      r := PointerRef;
    case Optional =>
      if IsOptionalPointerLike(t) {
        r := PointerRef;
      } else {
        var inner := GetTypePrototype(WithoutLayer(t), d, set_);
        ghost var mid := set_.types;
        var pair := [inner, BuiltinRef(L.I1)];
        r := set_.GetAggregateType(pair);
        AnswerHasShape(mid, AggregateKey(pair), set_.types, r);
        assert ShapesOf(mid, pair) == [ShapeOf(mid, inner), L.Builtin(L.I1)];
      }
  }

  /** The part of `get_type_prototype` for a type without modifiers. */
  method GetTerminatorPrototype(t: Type, d: Declarations, set_: PrototypeSet) returns (r: Ref)
    requires set_.Valid() && DeclsIn(d, |set_.types|) && Lowerable(t, d) && t.modifiers == []
    modifies set_
    ensures set_.Valid()
    ensures LoweredTo(old(set_.types), t, d, set_.types, r)
    decreases t.terminator, 0, 0
  {
    ghost var before := set_.types;
    match t.terminator
    case BaseType(info) =>
      r := DeclaredPrototype(info, d, set_);
    case Enum(decl) =>
      r := DeclaredPrototype(d.underlying[decl], d, set_);
    case Void =>
      r := BuiltinRef(L.Void);
    case Function(_, _, _) =>
      r := PointerRef;
    case Array(size, elem) =>
      var e := GetTypePrototype(elem, d, set_);
      ghost var mid := set_.types;
      r := set_.GetArrayType(e, size);
      AnswerHasShape(mid, ArrayKey(e, size), set_.types, r);
    case Slice(_) =>
      r := set_.GetAggregateType([PointerRef, PointerRef]);
      AnswerHasShape(before, AggregateKey([PointerRef, PointerRef]), set_.types, r);
      assert ShapesOf(before, [PointerRef, PointerRef]) == [L.Pointer, L.Pointer];
    case Tuple(ts) =>
      var elems := GetTypePrototypes(ts, d, set_);
      ghost var mid := set_.types;
      r := set_.GetAggregateType(elems);
      AnswerHasShape(mid, AggregateKey(elems), set_.types, r);
      TupleShape(t, ts, d, before);
  }

  method DeclaredPrototype(info: nat, d: Declarations, set_: PrototypeSet) returns (r: Ref)
    requires set_.Valid() && DeclsIn(d, |set_.types|) && info in d.prototypes
    modifies set_
    ensures set_.Valid() && old(set_.types) <= set_.types && RefIn(r, |set_.types|)
    ensures ShapeOf(set_.types, r) == ShapeOfDecl(old(set_.types), d, info)
  {
    match d.prototypes[info]
    case None =>
      ghost var before := set_.types;
      r := set_.GetAggregateType([]);
      AnswerHasShape(before, AggregateKey([]), set_.types, r);
      assert ShapesOf(before, []) == [];
    case Some(ref) =>
      r := ref;
  }

  method GetTypePrototypes(ts: seq<Type>, d: Declarations, set_: PrototypeSet) returns (elems: seq<Ref>)
    requires set_.Valid() && DeclsIn(d, |set_.types|) && forall i :: 0 <= i < |ts| ==> Lowerable(ts[i], d)
    modifies set_
    ensures set_.Valid() && old(set_.types) <= set_.types && RefsIn(elems, |set_.types|)
    ensures ShapesOf(set_.types, elems) == LowerShapes(ts, d, old(set_.types))
    decreases ts, 0
  {
    ghost var before := set_.types;
    elems := [];
    for i := 0 to |ts|
      invariant set_.Valid() && before <= set_.types && RefsIn(elems, |set_.types|) && |elems| == i
      invariant forall j :: 0 <= j < i ==> ShapeOf(set_.types, elems[j]) == LowerShape(ts[j], d, before)
    {
      ghost var mid := set_.types;
      var e := GetTypePrototype(ts[i], d, set_);
      LowerShapeStays(ts[i], d, before, d, mid);
      ShapesStay(mid, set_.types, elems, 1);
      assert forall j :: 0 <= j < i ==> ShapeOf(set_.types, elems[j]) == ShapesOf(mid, elems)[j];
      elems := elems + [e];
    }
  }
}
