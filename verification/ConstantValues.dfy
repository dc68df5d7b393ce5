/** Constant values (src/ast/constant_value.h) and their `operator ==` (src/ast/constant_value.cpp:624-678). */
module ConstantValues {
  import opened Typespec
  import V = ValueMangling

  /** Enum declarations and function bodies are known by address; floating point numbers by their bits. */
  datatype Constant =
    | Number(kind: V.NumberKind, value: int)
    | Char(c: nat)
    | Str(s: string)
    | Boolean(b: bool)
    | Null
    | VoidValue
    | EnumValue(decl: nat, enumValue: nat)
    | NumberArray(elemKind: V.NumberKind, values: seq<int>)
    | List(listKind: V.ListKind, elems: seq<Constant>)
    | FunctionValue(body: nat)
    | TypeValue(t: Type)

  // ----- floating point numbers as IEEE 754 bit patterns -----

  const SIGN_32: int := 0x8000_0000
  const SIGN_64: int := 0x8000_0000_0000_0000
  const INFINITY_32: int := 0x7f80_0000
  const INFINITY_64: int := 0x7ff0_0000_0000_0000

  predicate IsNaN(kind: V.NumberKind, v: int) {
    (kind.Float32? && v % SIGN_32 > INFINITY_32) || (kind.Float64? && v % SIGN_64 > INFINITY_64)
  }

  predicate IsZero(kind: V.NumberKind, v: int) {
    if kind.Float32? then v % SIGN_32 == 0 else if kind.Float64? then v % SIGN_64 == 0 else v == 0
  }

  /** `==` on two numbers of one kind: a NaN equals nothing, and both zeros are the same. */
  predicate NumberEq(kind: V.NumberKind, a: int, b: int) {
    !IsNaN(kind, a) && !IsNaN(kind, b) && (a == b || (IsZero(kind, a) && IsZero(kind, b)))
  }

  predicate ConstantEq(lhs: Constant, rhs: Constant) {
    match (lhs, rhs)
    case (Number(lk, lv), Number(rk, rv)) => lk == rk && NumberEq(lk, lv, rv)
    case (Char(l), Char(r)) => l == r
    case (Str(l), Str(r)) => l == r
    case (Boolean(l), Boolean(r)) => l == r
    case (Null, Null) => true
    case (VoidValue, VoidValue) => true
    case (EnumValue(ld, lv), EnumValue(rd, rv)) => ld == rd && lv == rv
    case (NumberArray(lk, lv), NumberArray(rk, rv)) =>
      lk == rk && |lv| == |rv| && forall i :: 0 <= i < |lv| ==> NumberEq(lk, lv[i], rv[i])
    case (List(lk, le), List(rk, re)) =>
      lk == rk && |le| == |re| && forall i :: 0 <= i < |le| ==> ConstantEq(le[i], re[i])
    case (FunctionValue(l), FunctionValue(r)) => l == r
    case (TypeValue(l), TypeValue(r)) => TypeEq(l, r)
    case _ => false
  }

  // ----- what equality means -----

  function CanonicalNumber(kind: V.NumberKind, v: int): int {
    if IsZero(kind, v) then 0 else v
  }

  /** The value with one zero instead of two, and without the calling conventions of types. */
  function Canonical(c: Constant): Constant {
    match c
    case Number(kind, v) => Number(kind, CanonicalNumber(kind, v))
    case NumberArray(kind, vs) => NumberArray(kind, CanonicalNumbers(kind, vs))
    case List(kind, elems) => List(kind, CanonicalAll(elems))
    case TypeValue(t) => TypeValue(Erase(t))
    case _ => c
  }

  function CanonicalNumbers(kind: V.NumberKind, vs: seq<int>): (r: seq<int>)
    ensures |r| == |vs| && forall i :: 0 <= i < |vs| ==> r[i] == CanonicalNumber(kind, vs[i])
  {
    seq(|vs|, i requires 0 <= i < |vs| => CanonicalNumber(kind, vs[i]))
  }

  function CanonicalAll(cs: seq<Constant>): (r: seq<Constant>)
    ensures |r| == |cs| && forall i :: 0 <= i < |cs| ==> r[i] == Canonical(cs[i])
  {
    seq(|cs|, i requires 0 <= i < |cs| => Canonical(cs[i]))
  }

  predicate HasNaN(c: Constant) {
    match c
    case Number(kind, v) => IsNaN(kind, v)
    case NumberArray(kind, vs) => exists i :: 0 <= i < |vs| && IsNaN(kind, vs[i])
    case List(_, elems) => exists i :: 0 <= i < |elems| && HasNaN(elems[i])
    case _ => false
  }

  /** The types among the values may be compared. */
  ghost predicate ComparableConstant(c: Constant) {
    match c
    case List(_, elems) => forall i :: 0 <= i < |elems| ==> ComparableConstant(elems[i])
    case TypeValue(t) => Comparable(t)
    case _ => true
  }

  ghost predicate EqIsCanonical(a: Constant, b: Constant) {
    ConstantEq(a, b) <==> !HasNaN(a) && !HasNaN(b) && Canonical(a) == Canonical(b)
  }

  lemma NumberEqIsCanonical(kind: V.NumberKind, a: int, b: int)
    ensures NumberEq(kind, a, b) <==>
            !IsNaN(kind, a) && !IsNaN(kind, b) && CanonicalNumber(kind, a) == CanonicalNumber(kind, b)
  {
  }

  /** Values are equal exactly when neither holds a NaN and their canonical forms are the same. */
  lemma {:induction false} EqualIsSameCanonical(a: Constant, b: Constant)
    requires ComparableConstant(a) && ComparableConstant(b)
    ensures EqIsCanonical(a, b)
  {
    match (a, b)
    case (Number(kind, av), Number(_, bv_)) => NumberEqIsCanonical(kind, av, bv_);
    case (NumberArray(kind, av), NumberArray(bk, bv_)) =>
      if kind == bk && |av| == |bv_| {
        NumbersEqual(kind, av, bv_);
      }
    case (List(kind, ae), List(bk, be)) =>
      if kind == bk && |ae| == |be| {
        forall i | 0 <= i < |ae| ensures EqIsCanonical(ae[i], be[i]) {
          EqualIsSameCanonical(ae[i], be[i]);
        }
        ListsEqual(kind, ae, be);
      }
    case (TypeValue(at), TypeValue(bt)) => EqualIsErasedEqual(at, bt);
    case _ =>
  }

  lemma NumbersEqual(kind: V.NumberKind, a: seq<int>, b: seq<int>)
    requires |a| == |b|
    ensures EqIsCanonical(NumberArray(kind, a), NumberArray(kind, b))
  {
  }

  lemma ListsEqual(kind: V.ListKind, a: seq<Constant>, b: seq<Constant>)
    requires |a| == |b| && forall i :: 0 <= i < |a| ==> EqIsCanonical(a[i], b[i])
    ensures EqIsCanonical(List(kind, a), List(kind, b))
  {
  }

  // ----- values without floating-point numbers and types -----

  predicate IsExact(c: Constant) {
    match c
    case Number(kind, _) => kind.SInt? || kind.UInt?
    case NumberArray(kind, _) => kind.SInt? || kind.UInt?
    case List(_, elems) => forall i :: 0 <= i < |elems| ==> IsExact(elems[i])
    case TypeValue(_) => false
    case _ => true
  }

  /** Such a value is equal to itself and to nothing else. */
  lemma {:induction false} EqualIsIdentity(a: Constant, b: Constant)
    requires IsExact(a)
    ensures ConstantEq(a, b) <==> a == b
  {
    match (a, b)
    case (List(_, ae), List(_, be)) =>
      if |ae| == |be| {
        forall i | 0 <= i < |ae| ensures ConstantEq(ae[i], be[i]) <==> ae[i] == be[i] {
          EqualIsIdentity(ae[i], be[i]);
        }
        assert (forall i :: 0 <= i < |ae| ==> ae[i] == be[i]) <==> ae == be;
      }
    case (NumberArray(_, av), NumberArray(_, bv_)) =>
      if |av| == |bv_| {
        assert (forall i :: 0 <= i < |av| ==> av[i] == bv_[i]) <==> av == bv_;
      }
    case _ =>
  }
}
