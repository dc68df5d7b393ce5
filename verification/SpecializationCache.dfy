/**
 * The hashed map of specializations of a generic function (src/ast/statement.h:854-859, src/ast/statement.cpp:172-197)
 * and the plain list of instantiations of a generic type (src/ast/statement.cpp:473-526).
 */
module SpecializationCache {
  import opened Options
  import opened TypeHash
  import opened Specializations

  /** A node of the hash table: the parameters and which specialization they belong to. */
  datatype Entry = Entry(key: seq<Param>, body: nat)

  function BucketOf(h: StdHash, ps: seq<Param>, count: nat): (b: nat)
    requires count > 0
    ensures b < count
  {
    HashParams(h, ps) as int % count
  }

  /** Every specialization is in the bucket of its hash, and nothing else is in any bucket. */
  ghost predicate BucketsAgree(h: StdHash, buckets: seq<seq<Entry>>, specs: seq<seq<Param>>) {
    && |buckets| > 0
    && (forall b, k :: 0 <= b < |buckets| && 0 <= k < |buckets[b]| ==>
          buckets[b][k].body < |specs| && buckets[b][k].key == specs[buckets[b][k].body])
    && (forall i :: 0 <= i < |specs| ==> Entry(specs[i], i) in buckets[BucketOf(h, specs[i], |buckets|)])
  }

  lemma AddedEntryAgrees(h: StdHash, buckets: seq<seq<Entry>>, specs: seq<seq<Param>>, ps: seq<Param>)
    requires BucketsAgree(h, buckets, specs)
    ensures var b := BucketOf(h, ps, |buckets|);
            BucketsAgree(h, buckets[b := buckets[b] + [Entry(ps, |specs|)]], specs + [ps])
  {
  }

  /** A specialization that fits is in the bucket that is searched. */
  lemma FitIsInBucket(h: StdHash, buckets: seq<seq<Entry>>, specs: seq<seq<Param>>, ps: seq<Param>,
                      generics: set<nat>, i: nat)
    requires BucketsAgree(h, buckets, specs) && Specs(specs, generics) && AllSettled(ps, generics)
    requires i < |specs| && ParamsEq(specs[i], ps, generics)
    ensures var bucket := buckets[BucketOf(h, ps, |buckets|)];
            exists k :: 0 <= k < |bucket| && ParamsEq(ps, bucket[k].key, generics)
  {
    var bucket := buckets[BucketOf(h, ps, |buckets|)];
    EqualParamsHashAlike(h, specs[i], ps, generics);
    ParamsEqIsSameKeys(specs[i], ps, generics);
    ParamsEqIsSameKeys(ps, specs[i], generics);
    var k :| 0 <= k < |bucket| && bucket[k] == Entry(specs[i], i);
    assert ParamsEq(ps, bucket[k].key, generics);
  }

  /** If no node of the bucket fits, no specialization does. */
  lemma BucketMissesNothing(h: StdHash, buckets: seq<seq<Entry>>, specs: seq<seq<Param>>, ps: seq<Param>,
                            generics: set<nat>)
    requires BucketsAgree(h, buckets, specs) && Specs(specs, generics) && AllSettled(ps, generics)
    requires var bucket := buckets[BucketOf(h, ps, |buckets|)];
             forall k :: 0 <= k < |bucket| ==> !ParamsEq(ps, bucket[k].key, generics)
    ensures Search(specs, ps, generics) == None
  {
    var r := Search(specs, ps, generics);
    if r.Some? {
      FitIsInBucket(h, buckets, specs, ps, generics, r.value);
    }
  }

  predicate HasErrorInit(ps: seq<Param>, generics: set<nat>) {
    exists i :: 0 <= i < |ps| && IsGeneric(ps[i].type_, generics) && ps[i].init.ErrorInit?
  }

  /** The arguments fit the generic parameters; only a variadic last one allows another number of them. */
  predicate CountsMatch(declared: seq<Param>, count: nat) {
    || count == |declared|
    || (declared != []
        && var m := declared[|declared| - 1].type_.modifiers; m != [] && m[0].Variadic?)
  }

  class FunctionBody {
    const params: seq<Param>
    const generics: set<nat>
    const h: StdHash
    var specializations: seq<seq<Param>>
    var buckets: seq<seq<Entry>>

    ghost predicate Valid()
      reads this
    {
      BucketsAgree(h, buckets, specializations) && Specs(specializations, generics)
    }

    constructor (params: seq<Param>, generics: set<nat>, h: StdHash, bucketCount: nat)
      requires bucketCount > 0
      ensures Valid() && specializations == []
      ensures this.params == params && this.generics == generics && this.h == h
    {
      this.params, this.generics, this.h := params, generics, h;
      specializations := [];
      buckets := seq(bucketCount, _ => []);
    }

    /** `find`: the nodes of one bucket are compared, and the result is that of searching the whole list. */
    method Find(ps: seq<Param>) returns (r: Option<nat>)
      requires Valid() && AllSettled(ps, generics)
      ensures r == Search(specializations, ps, generics)
    {
      var hash := ParamHash(h, ps);
      var bucket := buckets[hash as int % |buckets|];
      for k := 0 to |bucket|
        invariant forall j :: 0 <= j < k ==> !ParamsEq(ps, bucket[j].key, generics)
      {
        var equal := ParamEqualTo(ps, bucket[k].key, generics);
        if equal {
          OnlyOneFits(specializations, ps, generics, bucket[k].body);
          return Some(bucket[k].body);
        }
      }
      BucketMissesNothing(h, buckets, specializations, ps, generics);
      return None;
    }

    method AddSpecializedBody(ps: seq<Param>) returns (r: Option<nat>)
      requires Valid() && CountsMatch(params, |ps|)
      requires !HasErrorInit(ps, generics) ==> AllSettled(ps, generics)
      modifies this
      ensures Valid()
      ensures HasErrorInit(ps, generics) ==> r == None && specializations == old(specializations)
      ensures !HasErrorInit(ps, generics) ==>
                r.Some? && (specializations, r.value) == Requested(old(specializations), ps, generics)
    {
      if HasErrorInit(ps, generics) {
        return None;
      }
      r := Find(ps);
      if r.Some? {
        return;
      }
      RequestKeepsSpecs(specializations, ps, generics);
      AddedEntryAgrees(h, buckets, specializations, ps);
      var b := BucketOf(h, ps, |buckets|);
      buckets := buckets[b := buckets[b] + [Entry(ps, |specializations|)]];
      specializations := specializations + [ps];
      r := Some(|specializations| - 1);
    }
  }

  /** `type_info` as far as its generic instantiations go: the same answers from a plain search. */
  class TypeInfo {
    const genericParameters: seq<Param>
    const generics: set<nat>
    var instantiations: seq<seq<Param>>

    ghost predicate Valid()
      reads this
    {
      Specs(instantiations, generics)
    }

    constructor (genericParameters: seq<Param>, generics: set<nat>)
      ensures Valid() && instantiations == []
      ensures this.genericParameters == genericParameters && this.generics == generics
    {
      this.genericParameters, this.generics := genericParameters, generics;
      instantiations := [];
    }

    method AddGenericInstantiation(ps: seq<Param>) returns (r: nat)
      requires Valid() && CountsMatch(genericParameters, |ps|) && AllSettled(ps, generics)
      modifies this
      ensures Valid()
      ensures (instantiations, r) == Requested(old(instantiations), ps, generics)
    {
      for i := 0 to |instantiations|
        invariant instantiations == old(instantiations)
        invariant forall j :: 0 <= j < i ==> !ParamsEq(instantiations[j], ps, generics)
      {
        var equal := ParamEqualTo(instantiations[i], ps, generics);
        if equal {
          return i;
        }
      }
      RequestKeepsSpecs(instantiations, ps, generics);
      instantiations := instantiations + [ps];
      r := |instantiations| - 1;
    }
  }
}
