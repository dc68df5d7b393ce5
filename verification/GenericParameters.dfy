/** Which parameters are generic (src/ast/statement.h:428-436), and what that does to requests for specializations. */
module GenericParameters {
  import opened Options
  import opened Typespec
  import opened TypeParts
  import opened ConstantValues
  import opened Specializations
  import C = SpecializationCache

  // ----- what makes a parameter generic -----

  /** This type, without regard to its parts, leaves something open. */
  predicate LeavesOpen(t: Type, generics: set<nat>) {
    || t.terminator.Auto? || t.terminator.Typename? || t.terminator.Unresolved? || t.terminator.Missing?
    || (t.terminator.BaseType? && t.terminator.info in generics)
    || (t.terminator.Array? && t.terminator.size == 0)
    || (t.modifiers != [] && t.modifiers[0] == Variadic)
    || AutoReference in t.modifiers || AutoReferenceMut in t.modifiers
  }

  /** Some part, at any depth, leaves something open. */
  ghost predicate SomewhereOpen(t: Type, generics: set<nat>) {
    exists path :: OpenAt(t, path, generics)
  }

  lemma {:induction false} CompleteExactlyWhen(t: Type, generics: set<nat>)
    ensures IsComplete(t, generics) <==> !SomewhereOpen(t, generics)
    decreases t
  {
    forall i | 0 <= i < |PartsOf(t)|
      ensures IsComplete(PartsOf(t)[i], generics) <==> !SomewhereOpen(PartsOf(t)[i], generics)
    {
      CompleteExactlyWhen(PartsOf(t)[i], generics);
    }
    PartsOpen(t, generics);
    CompleteParts(t, generics);
  }

  lemma {:induction false} CompleteParts(t: Type, generics: set<nat>)
    ensures IsComplete(t, generics) <==>
            !LeavesOpen(t, generics) && forall i :: 0 <= i < |PartsOf(t)| ==> IsComplete(PartsOf(t)[i], generics)
  {
    NoAutoReference(t.modifiers);
    match t.terminator
    case Function(_, params, returnType) =>
      assert PartsOf(t) == params + [returnType];
      CompleteBehind(params, returnType, generics);
    case Array(_, elem) =>
      assert PartsOf(t) == [elem] && PartsOf(t)[0] == elem;
    case Slice(elem) =>
      assert PartsOf(t) == [elem] && PartsOf(t)[0] == elem;
    case Tuple(types) =>
      assert PartsOf(t) == types;
    case _ =>
  }

  lemma {:induction false} NoAutoReference(ms: seq<Modifier>)
    ensures AutoReference in ms || AutoReferenceMut in ms <==>
            exists i :: 0 <= i < |ms| && (ms[i].AutoReference? || ms[i].AutoReferenceMut?)
  {
    if i :| 0 <= i < |ms| && (ms[i].AutoReference? || ms[i].AutoReferenceMut?) {
      assert ms[i] in ms;
    }
  }

  lemma {:induction false} CompleteBehind(ps: seq<Type>, t: Type, generics: set<nat>)
    ensures (forall i :: 0 <= i < |ps| ==> IsComplete(ps[i], generics)) && IsComplete(t, generics) <==>
            forall i :: 0 <= i < |ps + [t]| ==> IsComplete((ps + [t])[i], generics)
  {
    var xs := ps + [t];
    if forall i :: 0 <= i < |xs| ==> IsComplete(xs[i], generics) {
      assert IsComplete(xs[|ps|], generics);
      forall i | 0 <= i < |ps| ensures IsComplete(ps[i], generics) {
        assert IsComplete(xs[i], generics);
      }
    }
  }

  ghost predicate OpenAt(t: Type, path: seq<nat>, generics: set<nat>) {
    PartAt(t, path).Some? && LeavesOpen(PartAt(t, path).value, generics)
  }

  lemma {:induction false} PartsOpen(t: Type, generics: set<nat>)
    ensures SomewhereOpen(t, generics) <==>
            LeavesOpen(t, generics) || exists i :: 0 <= i < |PartsOf(t)| && SomewhereOpen(PartsOf(t)[i], generics)
  {
    assert OpenAt(t, [], generics) <==> LeavesOpen(t, generics);
    if SomewhereOpen(t, generics) {
      var path :| OpenAt(t, path, generics);
      if path != [] {
        assert OpenAt(PartsOf(t)[path[0]], path[1..], generics);
      }
    }
    forall i | 0 <= i < |PartsOf(t)| && SomewhereOpen(PartsOf(t)[i], generics) ensures SomewhereOpen(t, generics) {
      var path :| OpenAt(PartsOf(t)[i], path, generics);
      BelowPart(t, i, path);
      assert OpenAt(t, [i] + path, generics);
    }
  }

  /** A parameter is generic if its type begins with `consteval` or some part of it leaves something open. */
  ghost predicate TakesConstant(t: Type, generics: set<nat>) {
    !t.terminator.Missing? && ((t.modifiers != [] && t.modifiers[0] == Consteval) || SomewhereOpen(t, generics))
  }

  lemma {:induction false} TypenameIsOpen(t: Type, generics: set<nat>)
    requires IsTypename(t)
    ensures SomewhereOpen(t, generics)
  {
    PartsOpen(t, generics);
    if t.terminator.Tuple? {
      var i :| 0 <= i < |t.terminator.types| && IsTypename(t.terminator.types[i]);
      TypenameIsOpen(PartsOf(t)[i], generics);
    } else if t.terminator.Array? || t.terminator.Slice? {
      TypenameIsOpen(PartsOf(t)[0], generics);
    }
  }

  lemma {:induction false} GenericExactlyWhen(t: Type, generics: set<nat>)
    ensures IsGeneric(t, generics) <==> TakesConstant(t, generics)
  {
    CompleteExactlyWhen(t, generics);
    if IsTypename(t) {
      TypenameIsOpen(t, generics);
    }
  }

  // ----- requests -----

  /** Two requests that differ in the constant of such a parameter are never answered with the same specialization. */
  lemma {:induction false} DifferentConstants(specs: seq<seq<Param>>, a: seq<Param>, between: seq<seq<Param>>,
                                              b: seq<Param>, generics: set<nat>, i: nat)
    requires Specs(specs, generics) && AllSettled(a, generics) && AllSettled(b, generics) && Specs(between, generics)
    requires Requested(specs, a, generics).0 <= between
    requires i < |a| && i < |b| && TakesConstant(a[i].type_, generics)
    requires a[i].init.ConstantInit? && b[i].init.ConstantInit? && !ConstantEq(a[i].init.value, b[i].init.value)
    ensures Requested(between, b, generics).1 != Requested(specs, a, generics).1
  {
    GenericExactlyWhen(a[i].type_, generics);
    if Requested(between, b, generics).1 == Requested(specs, a, generics).1 {
      AnsweredAlike(specs, a, between, b, generics);
    }
  }

  lemma {:induction false} AnsweredAlike(specs: seq<seq<Param>>, a: seq<Param>, between: seq<seq<Param>>,
                                         b: seq<Param>, generics: set<nat>)
    requires Specs(specs, generics) && AllSettled(a, generics) && AllSettled(b, generics) && Specs(between, generics)
    requires Requested(specs, a, generics).0 <= between
    requires Requested(between, b, generics).1 == Requested(specs, a, generics).1
    ensures ParamsEq(a, b, generics)
  {
    var first := between[Requested(specs, a, generics).1];
    assert ParamsEq(first, b, generics) && (first == a || ParamsEq(first, a, generics));
    if ParamsEq(first, a, generics) {
      ParamsEqIsSameKeys(first, a, generics);
      ParamsEqIsSameKeys(first, b, generics);
      ParamsEqIsSameKeys(a, b, generics);
    }
  }

  /** Two parameters stand for the same: they have one type, and one constant if the type takes one. */
  ghost predicate Alike(a: Param, b: Param, generics: set<nat>) {
    && SameHeads(a.type_, b.type_)
    && (TakesConstant(a.type_, generics) ==>
          a.init.ConstantInit? && b.init.ConstantInit? && ConstantEq(a.init.value, b.init.value))
  }

  ghost predicate AllAlike(a: seq<Param>, b: seq<Param>, generics: set<nat>) {
    |a| == |b| && forall i :: 0 <= i < |a| ==> Alike(a[i], b[i], generics)
  }

  lemma {:induction false} EqualIsAlike(a: seq<Param>, b: seq<Param>, generics: set<nat>)
    requires AllSettled(a, generics) && AllSettled(b, generics)
    ensures ParamsEq(a, b, generics) <==> AllAlike(a, b, generics)
  {
    if |a| == |b| {
      forall i | 0 <= i < |a| ensures ParamEq(a[i], b[i], generics) <==> Alike(a[i], b[i], generics) {
        GenericExactlyWhen(a[i].type_, generics);
        EqualIsSameHeads(a[i].type_, b[i].type_);
      }
    }
  }

  /** Two requests, at any two moments, get one specialization exactly when all their parameters are alike. */
  lemma {:induction false} SameAnswerExactlyWhen(specs: seq<seq<Param>>, a: seq<Param>, between: seq<seq<Param>>,
                                                 b: seq<Param>, generics: set<nat>)
    requires Specs(specs, generics) && AllSettled(a, generics) && AllSettled(b, generics) && Specs(between, generics)
    requires Requested(specs, a, generics).0 <= between
    ensures Requested(between, b, generics).1 == Requested(specs, a, generics).1 <==> AllAlike(a, b, generics)
  {
    EqualIsAlike(a, b, generics);
    var k := Requested(specs, a, generics).1;
    if ParamsEq(a, b, generics) {
      ParamsEqIsSameKeys(a, b, generics);
      AskedAgain(specs, a, between, generics);
      ParamsEqIsSameKeys(between[k], a, generics);
      ParamsEqIsSameKeys(b, between[k], generics);
      OnlyOneFits(between, b, generics, k);
    } else if Requested(between, b, generics).1 == k {
      AnsweredAlike(specs, a, between, b, generics);
    }
  }

  /** The initializer of any other parameter does not matter, whatever it is. */
  lemma {:induction false} OtherInitializers(specs: seq<seq<Param>>, a: seq<Param>, generics: set<nat>, i: nat,
                                             init: Init)
    requires Specs(specs, generics) && AllSettled(a, generics) && i < |a| && !TakesConstant(a[i].type_, generics)
    ensures AllSettled(a[i := Param(a[i].type_, init)], generics)
    ensures Search(specs, a[i := Param(a[i].type_, init)], generics) == Search(specs, a, generics)
  {
    var b := a[i := Param(a[i].type_, init)];
    GenericExactlyWhen(a[i].type_, generics);
    assert forall k :: 0 <= k < |a| && k != i ==> b[k] == a[k];
    forall j | 0 <= j < |specs| ensures ParamsEq(specs[j], b, generics) <==> ParamsEq(specs[j], a, generics) {
      SameComparison(specs[j], a, b, generics, i);
    }
    assert KeysOf(a, generics) == KeysOf(b, generics);
  }

  lemma {:induction false} SameComparison(x: seq<Param>, a: seq<Param>, b: seq<Param>, generics: set<nat>, i: nat)
    requires AllSettled(x, generics) && AllSettled(a, generics) && AllSettled(b, generics)
    requires i < |a| == |b| && a[i].type_ == b[i].type_ && !IsGeneric(a[i].type_, generics)
    requires forall k :: 0 <= k < |a| && k != i ==> b[k] == a[k]
    ensures ParamsEq(x, b, generics) <==> ParamsEq(x, a, generics)
  {
    ParamsEqIsSameKeys(x, a, generics);
    ParamsEqIsSameKeys(x, b, generics);
    assert KeysOf(a, generics) == KeysOf(b, generics);
    assert AllNaNFree(a, generics) <==> AllNaNFree(b, generics);
  }

  /** A request fails exactly when such a parameter has an erroneous argument. */
  lemma {:induction false} FailsExactlyWhen(ps: seq<Param>, generics: set<nat>)
    ensures C.HasErrorInit(ps, generics) <==>
            exists i :: 0 <= i < |ps| && TakesConstant(ps[i].type_, generics) && ps[i].init.ErrorInit?
  {
    forall i | 0 <= i < |ps| ensures IsGeneric(ps[i].type_, generics) <==> TakesConstant(ps[i].type_, generics) {
      GenericExactlyWhen(ps[i].type_, generics);
    }
  }
}
