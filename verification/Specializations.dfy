/**
 * Parameters of generic functions and types (src/ast/statement.h:428-436, 811-852, src/ast/typespec.cpp:496-552), and
 * what the lists of specializations mean.
 */
module Specializations {
  import opened Options
  import opened Typespec
  import opened ConstantValues
  import opened TypeHash
  import V = ValueMangling

  datatype Init = NoInit | ErrorInit | ConstantInit(value: Constant)

  datatype Param = Param(type_: Type, init: Init)

  // ----- is_generic_parameter -----

  /** `is_complete`; `generics` are the structs that are themselves generic. */
  predicate IsComplete(t: Type, generics: set<nat>) {
    && !t.terminator.Missing?
    && !(|t.modifiers| > 0 && t.modifiers[0].Variadic?)
    && (forall i :: 0 <= i < |t.modifiers| ==> !t.modifiers[i].AutoReference? && !t.modifiers[i].AutoReferenceMut?)
    && match t.terminator {
         case BaseType(info) => info !in generics
         case Enum(_) => true
         case Void => true
         case Function(_, params, returnType) =>
           (forall i :: 0 <= i < |params| ==> IsComplete(params[i], generics)) && IsComplete(returnType, generics)
         case Array(size, elem) => size != 0 && IsComplete(elem, generics)
         case Slice(elem) => IsComplete(elem, generics)
         case Tuple(types) => forall i :: 0 <= i < |types| ==> IsComplete(types[i], generics)
         case _ => false
       }
  }

  predicate IsTypename(t: Type) {
    match t.terminator
    case Array(_, elem) => IsTypename(elem)
    case Slice(elem) => IsTypename(elem)
    case Tuple(types) => exists i :: 0 <= i < |types| && IsTypename(types[i])
    case Typename => true
    case _ => false
  }

  predicate IsGeneric(t: Type, generics: set<nat>) {
    && !t.terminator.Missing?
    && (!IsComplete(t, generics) || IsTypename(t) || (t.modifiers != [] && t.modifiers[0].Consteval?))
  }

  lemma {:induction false} CompleteErased(t: Type, generics: set<nat>)
    ensures IsComplete(Erase(t), generics) <==> IsComplete(t, generics)
  {
    match t.terminator
    case Function(_, params, returnType) =>
      CompleteErased(returnType, generics);
      AllCompleteErased(params, generics);
    case Array(_, elem) => CompleteErased(elem, generics);
    case Slice(elem) => CompleteErased(elem, generics);
    case Tuple(types) => AllCompleteErased(types, generics);
    case _ =>
  }

  lemma {:induction false} AllCompleteErased(ts: seq<Type>, generics: set<nat>)
    ensures forall i :: 0 <= i < |ts| ==> (IsComplete(EraseAll(ts)[i], generics) <==> IsComplete(ts[i], generics))
  {
    forall i | 0 <= i < |ts| ensures IsComplete(EraseAll(ts)[i], generics) <==> IsComplete(ts[i], generics) {
      CompleteErased(ts[i], generics);
    }
  }

  lemma {:induction false} TypenameErased(t: Type)
    ensures IsTypename(Erase(t)) <==> IsTypename(t)
  {
    match t.terminator
    case Array(_, elem) => TypenameErased(elem);
    case Slice(elem) => TypenameErased(elem);
    case Tuple(types) =>
      forall i | 0 <= i < |types| ensures IsTypename(EraseAll(types)[i]) <==> IsTypename(types[i]) {
        TypenameErased(types[i]);
      }
    case _ =>
  }

  lemma GenericErased(t: Type, generics: set<nat>)
    ensures IsGeneric(Erase(t), generics) <==> IsGeneric(t, generics)
  {
    CompleteErased(t, generics);
    TypenameErased(t);
  }

  // ----- param_equal_to -----

  /** What the code relies on: types can be compared, and every generic parameter has a constant. */
  ghost predicate Settled(p: Param, generics: set<nat>) {
    && Comparable(p.type_)
    && (IsGeneric(p.type_, generics) ==> p.init.ConstantInit? && ComparableConstant(p.init.value))
  }

  ghost predicate AllSettled(ps: seq<Param>, generics: set<nat>) {
    forall i :: 0 <= i < |ps| ==> Settled(ps[i], generics)
  }

  predicate ParamEq(lhs: Param, rhs: Param, generics: set<nat>) {
    && TypeEq(lhs.type_, rhs.type_)
    && (IsGeneric(lhs.type_, generics) ==>
          lhs.init.ConstantInit? && rhs.init.ConstantInit? && ConstantEq(lhs.init.value, rhs.init.value))
  }

  predicate ParamsEq(lhs: seq<Param>, rhs: seq<Param>, generics: set<nat>) {
    |lhs| == |rhs| && forall i :: 0 <= i < |lhs| ==> ParamEq(lhs[i], rhs[i], generics)
  }

  /** `param_equal_to`; neither of its assertions can fail. */
  method ParamEqualTo(lhs: seq<Param>, rhs: seq<Param>, generics: set<nat>) returns (equal: bool)
    requires AllSettled(lhs, generics) && AllSettled(rhs, generics)
    ensures equal <==> ParamsEq(lhs, rhs, generics)
  {
    if |lhs| != |rhs| {
      return false;
    }
    for i := 0 to |lhs|
      invariant forall j :: 0 <= j < i ==> ParamEq(lhs[j], rhs[j], generics)
    {
      if !TypeEq(lhs[i].type_, rhs[i].type_) {
        return false;
      } else if IsGeneric(lhs[i].type_, generics) {
        SettledTogether(lhs[i], rhs[i], generics);
        assert lhs[i].init.ConstantInit?;
        assert rhs[i].init.ConstantInit?;
        if !ConstantEq(lhs[i].init.value, rhs[i].init.value) {
          return false;
        }
      }
    }
    return true;
  }

  lemma SettledTogether(a: Param, b: Param, generics: set<nat>)
    requires Settled(a, generics) && Settled(b, generics) && TypeEq(a.type_, b.type_)
    ensures IsGeneric(a.type_, generics) <==> IsGeneric(b.type_, generics)
  {
    EqualIsErasedEqual(a.type_, b.type_);
    GenericErased(a.type_, generics);
    GenericErased(b.type_, generics);
  }

  // ----- what equality of parameters means -----

  /** The part of a parameter that a specialization depends on. */
  datatype ParamKey = ParamKey(type_: Type, value: Option<Constant>)

  function KeyOf(p: Param, generics: set<nat>): ParamKey {
    ParamKey(Erase(p.type_),
             if IsGeneric(p.type_, generics) && p.init.ConstantInit? then Some(Canonical(p.init.value)) else None)
  }

  function KeysOf(ps: seq<Param>, generics: set<nat>): (r: seq<ParamKey>)
    ensures |r| == |ps| && forall i :: 0 <= i < |ps| ==> r[i] == KeyOf(ps[i], generics)
  {
    seq(|ps|, i requires 0 <= i < |ps| => KeyOf(ps[i], generics))
  }

  predicate NaNFree(p: Param, generics: set<nat>) {
    IsGeneric(p.type_, generics) && p.init.ConstantInit? ==> !HasNaN(p.init.value)
  }

  predicate AllNaNFree(ps: seq<Param>, generics: set<nat>) {
    forall i :: 0 <= i < |ps| ==> NaNFree(ps[i], generics)
  }

  lemma ParamEqIsSameKey(a: Param, b: Param, generics: set<nat>)
    requires Settled(a, generics) && Settled(b, generics)
    ensures ParamEq(a, b, generics) <==>
            NaNFree(a, generics) && NaNFree(b, generics) && KeyOf(a, generics) == KeyOf(b, generics)
  {
    EqualIsErasedEqual(a.type_, b.type_);
    GenericErased(a.type_, generics);
    GenericErased(b.type_, generics);
    if IsGeneric(a.type_, generics) && IsGeneric(b.type_, generics) {
      EqualIsSameCanonical(a.init.value, b.init.value);
      assert EqIsCanonical(a.init.value, b.init.value);
    }
  }

  /** Two lists of parameters are equal exactly when neither holds a NaN and their keys are the same. */
  lemma ParamsEqIsSameKeys(a: seq<Param>, b: seq<Param>, generics: set<nat>)
    requires AllSettled(a, generics) && AllSettled(b, generics)
    ensures ParamsEq(a, b, generics) <==>
            AllNaNFree(a, generics) && AllNaNFree(b, generics) && KeysOf(a, generics) == KeysOf(b, generics)
  {
    if |a| == |b| {
      forall i | 0 <= i < |a|
        ensures ParamEq(a[i], b[i], generics) <==>
                NaNFree(a[i], generics) && NaNFree(b[i], generics) && KeysOf(a, generics)[i] == KeysOf(b, generics)[i]
      {
        ParamEqIsSameKey(a[i], b[i], generics);
      }
      if ParamsEq(a, b, generics) {
        assert KeysOf(a, generics) == KeysOf(b, generics);
      }
    }
  }

  // ----- param_hash -----

  function HashParams(h: StdHash, ps: seq<Param>): bv64 {
    HashParamTypes(h, h.ofSize(|ps|), ps)
  }

  function HashParamTypes(h: StdHash, start: bv64, ps: seq<Param>): bv64 {
    if ps == [] then start
    else HashCombine(HashParamTypes(h, start, ps[..|ps| - 1]), HashType(h, ps[|ps| - 1].type_))
  }

  method ParamHash(h: StdHash, ps: seq<Param>) returns (result: bv64)
    ensures result == HashParams(h, ps)
  {
    result := h.ofSize(|ps|);
    for i := 0 to |ps|
      invariant result == HashParamTypes(h, h.ofSize(|ps|), ps[..i])
    {
      var t := GetHash(h, ps[i].type_);
      result := HashCombine(result, t);
      assert ps[..i + 1][..i] == ps[..i];
    }
    assert ps[..|ps|] == ps;
  }

  lemma {:induction false} SameTypesSameHash(h: StdHash, start: bv64, a: seq<Param>, b: seq<Param>)
    requires |a| == |b| && forall i :: 0 <= i < |a| ==> HashType(h, a[i].type_) == HashType(h, b[i].type_)
    ensures HashParamTypes(h, start, a) == HashParamTypes(h, start, b)
  {
    if a != [] {
      SameTypesSameHash(h, start, a[..|a| - 1], b[..|b| - 1]);
    }
  }

  /** Equal parameters have equal hashes, so a search in one bucket misses nothing. */
  lemma EqualParamsHashAlike(h: StdHash, a: seq<Param>, b: seq<Param>, generics: set<nat>)
    requires AllSettled(a, generics) && AllSettled(b, generics) && ParamsEq(a, b, generics)
    ensures HashParams(h, a) == HashParams(h, b)
  {
    forall i | 0 <= i < |a| ensures HashType(h, a[i].type_) == HashType(h, b[i].type_) {
      assert ParamEq(a[i], b[i], generics);
      EqualTypesHashAlike(h, a[i].type_, b[i].type_);
    }
    SameTypesSameHash(h, h.ofSize(|a|), a, b);
  }

  // ----- the list of specializations -----

  /** The first specialization with equal parameters. */
  function Search(specs: seq<seq<Param>>, ps: seq<Param>, generics: set<nat>): (r: Option<nat>)
    ensures match r
            case Some(i) => i < |specs| && ParamsEq(specs[i], ps, generics)
                            && forall j :: 0 <= j < i ==> !ParamsEq(specs[j], ps, generics)
            case None => forall j :: 0 <= j < |specs| ==> !ParamsEq(specs[j], ps, generics)
  {
    if specs == [] then None
    else if ParamsEq(specs[0], ps, generics) then Some(0)
    else
      match Search(specs[1..], ps, generics)
      case None => None
      case Some(i) => assert specs[i + 1] == specs[1..][i]; Some(i + 1)
  }

  /** The list after a request for the specialization of `ps`, and which of its members answers the request. */
  function Requested(specs: seq<seq<Param>>, ps: seq<Param>, generics: set<nat>): (r: (seq<seq<Param>>, nat))
    ensures specs <= r.0 && r.1 < |r.0|
  {
    match Search(specs, ps, generics)
    case Some(i) => (specs, i)
    case None => (specs + [ps], |specs|)
  }

  ghost predicate Specs(specs: seq<seq<Param>>, generics: set<nat>) {
    && (forall i :: 0 <= i < |specs| ==> AllSettled(specs[i], generics))
    && (forall i, j :: 0 <= i < j < |specs| ==> !ParamsEq(specs[i], specs[j], generics))
  }

  /** No two specializations ever have equal parameters. */
  lemma RequestKeepsSpecs(specs: seq<seq<Param>>, ps: seq<Param>, generics: set<nat>)
    requires Specs(specs, generics) && AllSettled(ps, generics)
    ensures Specs(Requested(specs, ps, generics).0, generics)
  {
  }

  /** At most one specialization answers a request, whichever way it is looked for. */
  lemma OnlyOneFits(specs: seq<seq<Param>>, ps: seq<Param>, generics: set<nat>, i: nat)
    requires Specs(specs, generics) && AllSettled(ps, generics)
    requires i < |specs| && ParamsEq(ps, specs[i], generics)
    ensures Search(specs, ps, generics) == Some(i)
  {
    ParamsEqIsSameKeys(ps, specs[i], generics);
    ParamsEqIsSameKeys(specs[i], ps, generics);
    var r := Search(specs, ps, generics);
    var k := r.value;
    ParamsEqIsSameKeys(specs[k], ps, generics);
    ParamsEqIsSameKeys(specs[k], specs[i], generics);
    ParamsEqIsSameKeys(specs[i], specs[k], generics);
  }

  /**
   * Asking again at any later moment finds the same specialization, exactly when no generic parameter holds a NaN;
   * with a NaN it finds none, and makes another one.
   */
  lemma AskedAgain(specs: seq<seq<Param>>, ps: seq<Param>, later: seq<seq<Param>>, generics: set<nat>)
    requires Specs(specs, generics) && AllSettled(ps, generics)
    requires Requested(specs, ps, generics).0 <= later && Specs(later, generics)
    ensures Search(later, ps, generics) ==
            if AllNaNFree(ps, generics) then Some(Requested(specs, ps, generics).1) else None
  {
    var (after, i) := Requested(specs, ps, generics);
    if AllNaNFree(ps, generics) {
      ParamsEqIsSameKeys(ps, ps, generics);
      if Search(specs, ps, generics).Some? {
        ParamsEqIsSameKeys(specs[i], ps, generics);
        ParamsEqIsSameKeys(ps, specs[i], generics);
      }
      OnlyOneFits(later, ps, generics, i);
    } else {
      forall j | 0 <= j < |later| ensures !ParamsEq(later[j], ps, generics) {
        ParamsEqIsSameKeys(later[j], ps, generics);
      }
    }
  }

  /** Parameters with a NaN in a generic one get a new specialization every time. */
  lemma NaNIsNeverFound(specs: seq<seq<Param>>, ps: seq<Param>, generics: set<nat>)
    requires Specs(specs, generics) && AllSettled(ps, generics) && !AllNaNFree(ps, generics)
    ensures Requested(specs, ps, generics) == (specs + [ps], |specs|)
  {
    forall j | 0 <= j < |specs| ensures !ParamsEq(specs[j], ps, generics) {
      ParamsEqIsSameKeys(specs[j], ps, generics);
    }
  }
}
