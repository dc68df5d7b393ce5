/** `type_prototype_set_t` of src/ast/type_prototype.{h,cpp} and the lowering of types in src/ast/typespec.cpp. */
module TypePrototypeSet {
  import opened Alignment
  import opened Layout
  import opened TypePrototypes

  ghost predicate IsAggregateNode(types: seq<Prototype>, i: nat, elems: seq<Ref>) {
    i < |types| && types[i].structure.AggregateOf? && types[i].structure.elems == elems
  }

  ghost predicate IsArrayNode(types: seq<Prototype>, i: nat, elem: Ref, count: nat) {
    i < |types| && types[i].structure == ArrayOf(elem, count)
  }

  /** The maps hold every node of the list under its key, and nothing else. */
  ghost predicate MapsAgree(aggregates: map<seq<Ref>, Ref>, arrays: map<(Ref, nat), Ref>, types: seq<Prototype>) {
    && (forall k :: k in aggregates ==> aggregates[k].NodeRef? && IsAggregateNode(types, aggregates[k].index, k))
    && (forall k :: k in arrays ==> arrays[k].NodeRef? && IsArrayNode(types, arrays[k].index, k.0, k.1))
    && (forall i :: 0 <= i < |types| ==> Filed(aggregates, arrays, types[i].structure, NodeRef(i)))
  }

  ghost predicate Filed(aggregates: map<seq<Ref>, Ref>, arrays: map<(Ref, nat), Ref>, s: Structure, r: Ref) {
    match s
    case AggregateOf(elems, _, _) => elems in aggregates && aggregates[elems] == r
    case ArrayOf(elem, count) => (elem, count) in arrays && arrays[(elem, count)] == r
  }

  /** The list `after` has a node for a request that `before` may have lacked, and `r` is its address. */
  ghost predicate Answers(before: seq<Prototype>, key: Key, after: seq<Prototype>, r: Ref) {
    && before <= after
    && r.NodeRef? && r.index < |after|
    && KeyOf(after[r.index].structure) == key
    && (if exists i :: 0 <= i < |before| && KeyOf(before[i].structure) == key
        then after == before
        else |after| == |before| + 1)
  }

  lemma AnswerOld(types: seq<Prototype>, key: Key, r: Ref)
    requires r.NodeRef? && r.index < |types| && KeyOf(types[r.index].structure) == key
    ensures Answers(types, key, types, r)
  {
  }

  lemma FileAggregate(aggregates: map<seq<Ref>, Ref>, arrays: map<(Ref, nat), Ref>, types: seq<Prototype>, p: Prototype)
    requires MapsAgree(aggregates, arrays, types) && p.structure.AggregateOf? && p.structure.elems !in aggregates
    ensures MapsAgree(aggregates[p.structure.elems := NodeRef(|types|)], arrays, types + [p])
    ensures Answers(types, KeyOf(p.structure), types + [p], NodeRef(|types|))
    ensures forall i :: 0 <= i < |types| ==> KeyOf(types[i].structure) != KeyOf(p.structure)
  {
  }

  lemma FileArray(aggregates: map<seq<Ref>, Ref>, arrays: map<(Ref, nat), Ref>, types: seq<Prototype>, p: Prototype)
    requires MapsAgree(aggregates, arrays, types)
    requires p.structure.ArrayOf? && (p.structure.elem, p.structure.count) !in arrays
    ensures MapsAgree(aggregates, arrays[(p.structure.elem, p.structure.count) := NodeRef(|types|)], types + [p])
    ensures Answers(types, KeyOf(p.structure), types + [p], NodeRef(|types|))
    ensures forall i :: 0 <= i < |types| ==> KeyOf(types[i].structure) != KeyOf(p.structure)
  {
  }

  class PrototypeSet {
    var aggregateMap: map<seq<Ref>, Ref>
    var arrayMap: map<(Ref, nat), Ref>
    var types: seq<Prototype>
    const pointerSize: nat

    ghost predicate Valid()
      reads this
    {
      && IsPowerOfTwo(pointerSize)
      && WellFormed(types, pointerSize)
      && MapsAgree(aggregateMap, arrayMap, types)
    }

    constructor (pointerSize: nat)
      requires IsPowerOfTwo(pointerSize)
      ensures Valid() && types == [] && this.pointerSize == pointerSize
    {
      aggregateMap := map[];
      arrayMap := map[];
      types := [];
      this.pointerSize := pointerSize;
    }

    method GetAggregateType(elems: seq<Ref>) returns (r: Ref)
      requires Valid() && RefsIn(elems, |types|)
      modifies this
      ensures Valid() && Answers(old(types), AggregateKey(elems), types, r)
    {
      if elems in aggregateMap {
        r := aggregateMap[elems];
        AnswerOld(types, AggregateKey(elems), r);
        return;
      }
      var infos := ElemsOf(types, elems, pointerSize);
      GoodStoredElems(types, elems, pointerSize);
      var info := GetTypeSizeInfo(infos);
      var node := Prototype(AggregateOf(elems, info.offsets, info.hasPadding), info.size, info.align);
      FileAggregate(aggregateMap, arrayMap, types, node);
      AppendAggregate(types, node, pointerSize);
      r := NodeRef(|types|);
      types := types + [node];
      aggregateMap := aggregateMap[elems := r];
    }

    method GetArrayType(elem: Ref, count: nat) returns (r: Ref)
      requires Valid() && RefIn(elem, |types|)
      modifies this
      ensures Valid() && Answers(old(types), ArrayKey(elem, count), types, r)
    {
      if (elem, count) in arrayMap {
        r := arrayMap[(elem, count)];
        AnswerOld(types, ArrayKey(elem, count), r);
        return;
      }
      var e := ElemOf(types, elem, pointerSize);
      var node := Prototype(ArrayOf(elem, count), count * e.size, e.align);
      FileArray(aggregateMap, arrayMap, types, node);
      AppendArray(types, node, pointerSize);
      r := NodeRef(|types|);
      types := types + [node];
      arrayMap := arrayMap[(elem, count) := r];
    }
  }

  lemma GoodStoredElems(types: seq<Prototype>, elems: seq<Ref>, pointerSize: nat)
    requires IsPowerOfTwo(pointerSize) && WellFormed(types, pointerSize) && RefsIn(elems, |types|)
    ensures GoodElems(ElemsOf(types, elems, pointerSize))
  {
    forall i | 0 <= i < |elems|
      ensures ElemOf(types, elems[i], pointerSize) == InfoOf(ShapeOf(types, elems[i]), pointerSize)
    {
      StoredLayout(types, elems[i], pointerSize);
    }
  }

  lemma AppendAggregate(types: seq<Prototype>, p: Prototype, pointerSize: nat)
    requires IsPowerOfTwo(pointerSize) && WellFormed(types, pointerSize)
    requires p.structure.AggregateOf? && RefsIn(p.structure.elems, |types|)
    requires forall i :: 0 <= i < |types| ==> KeyOf(types[i].structure) != KeyOf(p.structure)
    requires var infos := ElemsOf(types, p.structure.elems, pointerSize);
             GoodElems(infos)
             && LayoutOf(infos) == SizeInfo(p.structure.offsets, p.size, p.align, p.structure.hasPadding)
    ensures WellFormed(types + [p], pointerSize)
  {
    if Grounded(types + [p]) {
      ShapesStay(types, types + [p], p.structure.elems, pointerSize);
    }
    AppendKeeps(types, p, pointerSize);
  }

  lemma AppendArray(types: seq<Prototype>, p: Prototype, pointerSize: nat)
    requires IsPowerOfTwo(pointerSize) && WellFormed(types, pointerSize)
    requires p.structure.ArrayOf? && RefIn(p.structure.elem, |types|)
    requires forall i :: 0 <= i < |types| ==> KeyOf(types[i].structure) != KeyOf(p.structure)
    requires var e := ElemOf(types, p.structure.elem, pointerSize);
             p.size == p.structure.count * e.size && p.align == e.align
    ensures WellFormed(types + [p], pointerSize)
  {
    if Grounded(types + [p]) {
      ShapeStays(types, types + [p], p.structure.elem, pointerSize);
    }
    AppendKeeps(types, p, pointerSize);
  }

  ghost predicate KeyIn(key: Key, n: nat) {
    match key
    case AggregateKey(elems) => RefsIn(elems, n)
    case ArrayKey(elem, _) => RefIn(elem, n)
  }

  /** The deep structure a request asks for. */
  ghost function ShapeOfKey(types: seq<Prototype>, key: Key): Shape
    requires Grounded(types) && KeyIn(key, |types|)
  {
    match key
    case AggregateKey(elems) => Aggregate(ShapesOf(types, elems))
    case ArrayKey(elem, count) => Array(ShapeOf(types, elem), count)
  }

  lemma AnswerHasShape(before: seq<Prototype>, key: Key, after: seq<Prototype>, r: Ref)
    requires Grounded(before) && Grounded(after) && KeyIn(key, |before|) && Answers(before, key, after, r)
    ensures ShapeOf(after, r) == ShapeOfKey(before, key)
  {
    match key
    case AggregateKey(elems) =>
      ShapesStay(before, after, elems, 1);
      assert ShapeOf(after, r) == Aggregate(ShapesOf(after, elems));
    case ArrayKey(elem, _) =>
      ShapeStays(before, after, elem, 1);
  }
}
