/** src/ast/typespec.h and the equality and hash of src/ast/typespec.cpp. */
module Typespec {

  datatype Modifier =
    | Mut | Consteval | Pointer | Optional | LvalueReference | MoveReference
    | AutoReference | AutoReferenceMut | Variadic

  /**
   * A type is a list of modifiers in front of a terminator. Struct and enum declarations are known by number.
   * `Missing` stands for the null terminator of an empty typespec.
   */
  datatype Terminator =
    | Unresolved
    | BaseType(info: nat)
    | Enum(decl: nat)
    | Void
    | Function(cc: nat, params: seq<Type>, returnType: Type)
    | Array(size: nat, elem: Type)
    | Slice(sliceElem: Type)
    | Tuple(types: seq<Type>)
    | Auto
    | Typename
    | Missing

  datatype Type = Type(modifiers: seq<Modifier>, terminator: Terminator)

  // ----- operator == -----

  /** `operator ==`; the calling convention of a function type is not compared. */
  predicate TypeEq(lhs: Type, rhs: Type) {
    if lhs.terminator.Missing? || rhs.terminator.Missing? then
      lhs.terminator.Missing? && rhs.terminator.Missing?
    else
      && |lhs.modifiers| == |rhs.modifiers|
      && (forall i :: 0 <= i < |lhs.modifiers| ==> lhs.modifiers[i] == rhs.modifiers[i])
      && TerminatorEq(lhs.terminator, rhs.terminator)
  }

  predicate TerminatorEq(lhs: Terminator, rhs: Terminator) {
    match (lhs, rhs)
    case (BaseType(l), BaseType(r)) => l == r
    case (Enum(l), Enum(r)) => l == r
    case (Void, Void) => true
    case (Function(_, lp, lr), Function(_, rp, rr)) => |lp| == |rp| && TypesEq(lp, rp) && TypeEq(lr, rr)
    case (Array(ls, le), Array(rs, re)) => ls == rs && TypeEq(le, re)
    case (Slice(le), Slice(re)) => TypeEq(le, re)
    case (Tuple(lt), Tuple(rt)) => |lt| == |rt| && TypesEq(lt, rt)
    case (Auto, Auto) => true
    case (Typename, Typename) => true
    case _ => false
  }

  predicate TypesEq(lhs: seq<Type>, rhs: seq<Type>)
    requires |lhs| == |rhs|
  {
    forall i :: 0 <= i < |lhs| ==> TypeEq(lhs[i], rhs[i])
  }

  /** Equality is never asked of unresolved types, and an empty type has no modifiers. */
  ghost predicate Comparable(t: Type) {
    && (t.terminator.Missing? ==> t.modifiers == [])
    && match t.terminator {
         case Unresolved => false
         case Function(_, params, returnType) =>
           (forall i :: 0 <= i < |params| ==> Comparable(params[i])) && Comparable(returnType)
         case Array(_, elem) => Comparable(elem)
         case Slice(elem) => Comparable(elem)
         case Tuple(types) => forall i :: 0 <= i < |types| ==> Comparable(types[i])
         case _ => true
       }
  }

  // ----- what equality means -----

  /** The type with every calling convention forgotten. */
  function Erase(t: Type): Type {
    Type(t.modifiers, EraseTerminator(t.terminator))
  }

  function EraseTerminator(t: Terminator): Terminator {
    match t
    case Function(_, params, returnType) => Function(0, EraseAll(params), Erase(returnType))
    case Array(size, elem) => Array(size, Erase(elem))
    case Slice(elem) => Slice(Erase(elem))
    case Tuple(types) => Tuple(EraseAll(types))
    case _ => t
  }

  function EraseAll(ts: seq<Type>): (r: seq<Type>)
    ensures |r| == |ts|
    ensures forall i :: 0 <= i < |ts| ==> r[i] == Erase(ts[i])
  {
    seq(|ts|, i requires 0 <= i < |ts| => Erase(ts[i]))
  }

  /** Types are equal exactly when they differ in nothing but calling conventions; so equality is an equivalence. */
  lemma {:induction false} EqualIsErasedEqual(a: Type, b: Type)
    requires Comparable(a) && Comparable(b)
    ensures TypeEq(a, b) <==> Erase(a) == Erase(b)
  {
    match (a.terminator, b.terminator)
    case (Function(_, ap, ar), Function(_, bp, br)) =>
      AllEqualIsErasedEqual(ap, bp);
      EqualIsErasedEqual(ar, br);
    case (Array(_, ae), Array(_, be)) =>
      EqualIsErasedEqual(ae, be);
    case (Slice(ae), Slice(be)) =>
      EqualIsErasedEqual(ae, be);
    case (Tuple(at), Tuple(bt)) =>
      AllEqualIsErasedEqual(at, bt);
    case _ =>
  }

  lemma {:induction false} AllEqualIsErasedEqual(a: seq<Type>, b: seq<Type>)
    requires forall i :: 0 <= i < |a| ==> Comparable(a[i])
    requires forall i :: 0 <= i < |b| ==> Comparable(b[i])
    ensures (|a| == |b| && TypesEq(a, b)) <==> EraseAll(a) == EraseAll(b)
  {
    forall i | 0 <= i < |a| && i < |b| ensures TypeEq(a[i], b[i]) <==> Erase(a[i]) == Erase(b[i]) {
      EqualIsErasedEqual(a[i], b[i]);
    }
    if EraseAll(a) == EraseAll(b) {
      assert |a| == |b|;
      forall i | 0 <= i < |a| ensures TypeEq(a[i], b[i]) {
        assert EraseAll(a)[i] == EraseAll(b)[i];
      }
    }
  }

  lemma EqualityIsEquivalence(a: Type, b: Type, c: Type)
    requires Comparable(a) && Comparable(b) && Comparable(c)
    ensures TypeEq(a, a)
    ensures TypeEq(a, b) ==> TypeEq(b, a)
    ensures TypeEq(a, b) && TypeEq(b, c) ==> TypeEq(a, c)
  {
    EqualIsErasedEqual(a, a);
    EqualIsErasedEqual(a, b);
    EqualIsErasedEqual(b, a);
    EqualIsErasedEqual(b, c);
    EqualIsErasedEqual(a, c);
  }
}
