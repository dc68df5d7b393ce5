/** The hash-consed type prototypes of src/ast/type_prototype.{h,cpp}. */
module TypePrototypes {
  import opened Alignment
  import opened Layout

  /**
   * The address of a prototype: one of the builtin ones, the pointer type, or a node of the list of aggregates and
   * arrays, whose nodes never move.
   */
  datatype Ref = BuiltinRef(kind: BuiltinKind) | PointerRef | NodeRef(index: nat)

  datatype Structure =
    | AggregateOf(elems: seq<Ref>, offsets: seq<nat>, hasPadding: bool)
    | ArrayOf(elem: Ref, count: nat)

  datatype Prototype = Prototype(structure: Structure, size: nat, align: nat)

  predicate RefIn(r: Ref, n: nat) {
    r.NodeRef? ==> r.index < n
  }

  ghost predicate RefsIn(rs: seq<Ref>, n: nat) {
    forall i :: 0 <= i < |rs| ==> RefIn(rs[i], n)
  }

  ghost predicate Below(s: Structure, n: nat) {
    match s
    case AggregateOf(elems, _, _) => RefsIn(elems, n)
    case ArrayOf(elem, _) => RefIn(elem, n)
  }

  /** Every node was made from older nodes. */
  ghost predicate Grounded(types: seq<Prototype>) {
    forall i :: 0 <= i < |types| ==> Below(types[i].structure, i)
  }

  function Rank(r: Ref): nat {
    if r.NodeRef? then r.index + 1 else 0
  }

  /** The deep structure behind an address. */
  ghost function ShapeOf(types: seq<Prototype>, r: Ref): Shape
    requires Grounded(types) && RefIn(r, |types|)
    decreases Rank(r)
  {
    match r
    case BuiltinRef(kind) => Builtin(kind)
    case PointerRef => Pointer
    case NodeRef(i) =>
      match types[i].structure
      case AggregateOf(elems, _, _) =>
        Aggregate(seq(|elems|, j requires 0 <= j < |elems| => ShapeOf(types, elems[j])))
      case ArrayOf(elem, count) => Array(ShapeOf(types, elem), count)
  }

  ghost function ShapesOf(types: seq<Prototype>, rs: seq<Ref>): (s: seq<Shape>)
    requires Grounded(types) && RefsIn(rs, |types|)
    ensures |s| == |rs| && forall i :: 0 <= i < |rs| ==> s[i] == ShapeOf(types, rs[i])
  {
    seq(|rs|, j requires 0 <= j < |rs| => ShapeOf(types, rs[j]))
  }

  /** Size, alignment and `has_padding` as the prototypes store them; only aggregates store the flag. */
  function ElemOf(types: seq<Prototype>, r: Ref, pointerSize: nat): Elem
    requires Grounded(types) && RefIn(r, |types|)
    decreases Rank(r)
  {
    match r
    case BuiltinRef(kind) => Elem(BuiltinSize(kind), BuiltinSize(kind), false)
    case PointerRef => Elem(pointerSize, pointerSize, false)
    case NodeRef(i) =>
      match types[i].structure
      case AggregateOf(_, _, hasPadding) => Elem(types[i].size, types[i].align, hasPadding)
      case ArrayOf(elem, _) => Elem(types[i].size, types[i].align, ElemOf(types, elem, pointerSize).padding)
  }

  function ElemsOf(types: seq<Prototype>, rs: seq<Ref>, pointerSize: nat): (s: seq<Elem>)
    requires Grounded(types) && RefsIn(rs, |types|)
    ensures |s| == |rs| && forall i :: 0 <= i < |rs| ==> s[i] == ElemOf(types, rs[i], pointerSize)
  {
    seq(|rs|, j requires 0 <= j < |rs| => ElemOf(types, rs[j], pointerSize))
  }

  // ----- the list of prototypes -----

  /** What a request asks for: the key of one of the two maps. */
  datatype Key = AggregateKey(elems: seq<Ref>) | ArrayKey(elem: Ref, count: nat)

  function KeyOf(s: Structure): Key {
    match s
    case AggregateOf(elems, _, _) => AggregateKey(elems)
    case ArrayOf(elem, count) => ArrayKey(elem, count)
  }

  ghost predicate Distinct(types: seq<Prototype>) {
    forall i, j :: 0 <= i < j < |types| ==> KeyOf(types[i].structure) != KeyOf(types[j].structure)
  }

  /** The stored numbers of a node are those computed from its elements. */
  ghost predicate LaidOut(types: seq<Prototype>, i: nat, pointerSize: nat)
    requires Grounded(types) && i < |types|
  {
    match types[i].structure
    case AggregateOf(elems, offsets, hasPadding) =>
      var infos := ElemsOf(types, elems, pointerSize);
      GoodElems(infos) && LayoutOf(infos) == SizeInfo(offsets, types[i].size, types[i].align, hasPadding)
    case ArrayOf(elem, count) =>
      var e := ElemOf(types, elem, pointerSize);
      types[i].size == count * e.size && types[i].align == e.align
  }

  ghost predicate WellFormed(types: seq<Prototype>, pointerSize: nat) {
    && Grounded(types)
    && Distinct(types)
    && forall i :: 0 <= i < |types| ==> LaidOut(types, i, pointerSize)
  }

  /** Two addresses are equal exactly when the types behind them are structurally the same. */
  lemma {:induction false} SameRefSameShape(types: seq<Prototype>, a: Ref, b: Ref)
    requires Grounded(types) && Distinct(types) && RefIn(a, |types|) && RefIn(b, |types|)
    ensures a == b <==> ShapeOf(types, a) == ShapeOf(types, b)
    decreases Rank(a)
  {
    if a.NodeRef? && b.NodeRef? && ShapeOf(types, a) == ShapeOf(types, b) {
      match (types[a.index].structure, types[b.index].structure)
      case (AggregateOf(ae, _, _), AggregateOf(be, _, _)) =>
        assert ShapeOf(types, a).elems == ShapeOf(types, b).elems;
        assert |ae| == |be|;
        forall i | 0 <= i < |ae| ensures ae[i] == be[i] {
          assert ShapeOf(types, a).elems[i] == ShapeOf(types, b).elems[i];
          SameRefSameShape(types, ae[i], be[i]);
        }
        assert ae == be;
      case (ArrayOf(ae, _), ArrayOf(be, _)) =>
        SameRefSameShape(types, ae, be);
      case _ =>
    }
  }

  /** `operator ==` on prototypes compares one level and the addresses below it. */
  predicate PrototypeEq(types: seq<Prototype>, a: Ref, b: Ref)
    requires RefIn(a, |types|) && RefIn(b, |types|)
  {
    match (a, b)
    case (BuiltinRef(k), BuiltinRef(l)) => k == l
    case (PointerRef, PointerRef) => true
    case (NodeRef(i), NodeRef(j)) =>
      (match (types[i].structure, types[j].structure)
       case (AggregateOf(ae, _, _), AggregateOf(be, _, _)) => ae == be
       case (ArrayOf(ae, ac), ArrayOf(be, bc)) => ae == be && ac == bc
       case _ => false)
    case _ => false
  }

  /** In a set of prototypes that comparison is also deep equality. */
  lemma PrototypeEqIsDeep(types: seq<Prototype>, a: Ref, b: Ref)
    requires Grounded(types) && Distinct(types) && RefIn(a, |types|) && RefIn(b, |types|)
    ensures PrototypeEq(types, a, b) <==> ShapeOf(types, a) == ShapeOf(types, b)
  {
    SameRefSameShape(types, a, b);
    if a.NodeRef? && b.NodeRef? && a != b {
      assert KeyOf(types[a.index].structure) != KeyOf(types[b.index].structure);
    }
  }

  /** The stored layout of a type is the layout of its deep structure. */
  lemma {:induction false} StoredLayout(types: seq<Prototype>, r: Ref, pointerSize: nat)
    requires IsPowerOfTwo(pointerSize) && WellFormed(types, pointerSize) && RefIn(r, |types|)
    ensures ElemOf(types, r, pointerSize) == InfoOf(ShapeOf(types, r), pointerSize)
    decreases Rank(r)
  {
    if r.NodeRef? {
      assert LaidOut(types, r.index, pointerSize);
      match types[r.index].structure
      case AggregateOf(elems, _, _) =>
        forall i | 0 <= i < |elems|
          ensures ElemOf(types, elems[i], pointerSize) == InfoOf(ShapeOf(types, elems[i]), pointerSize)
        {
          StoredLayout(types, elems[i], pointerSize);
        }
        StoredElems(types, elems, pointerSize);
        assert ShapeOf(types, r) == Aggregate(ShapesOf(types, elems));
        InfoOfAggregate(ShapesOf(types, elems), pointerSize);
      case ArrayOf(elem, _) =>
        StoredLayout(types, elem, pointerSize);
    }
  }

  lemma StoredElems(types: seq<Prototype>, elems: seq<Ref>, pointerSize: nat)
    requires IsPowerOfTwo(pointerSize) && Grounded(types) && RefsIn(elems, |types|)
    requires forall i :: 0 <= i < |elems| ==>
               ElemOf(types, elems[i], pointerSize) == InfoOf(ShapeOf(types, elems[i]), pointerSize)
    ensures ElemsOf(types, elems, pointerSize) == InfosOf(ShapesOf(types, elems), pointerSize)
    ensures GoodElems(ElemsOf(types, elems, pointerSize))
  {
  }

  // ----- a longer list -----

  lemma {:induction false} ShapeStays(types: seq<Prototype>, more: seq<Prototype>, r: Ref, pointerSize: nat)
    requires Grounded(types) && Grounded(more) && types <= more && RefIn(r, |types|)
    ensures ShapeOf(types, r) == ShapeOf(more, r)
    ensures ElemOf(types, r, pointerSize) == ElemOf(more, r, pointerSize)
    decreases Rank(r)
  {
    if r.NodeRef? {
      match types[r.index].structure
      case AggregateOf(elems, _, _) =>
        forall i | 0 <= i < |elems| ensures ShapeOf(types, elems[i]) == ShapeOf(more, elems[i]) {
          ShapeStays(types, more, elems[i], pointerSize);
        }
        assert ShapesOf(types, elems) == ShapesOf(more, elems);
        assert ShapeOf(types, r) == Aggregate(ShapesOf(types, elems));
        assert ShapeOf(more, r) == Aggregate(ShapesOf(more, elems));
      case ArrayOf(elem, _) =>
        ShapeStays(types, more, elem, pointerSize);
    }
  }

  lemma ShapesStay(types: seq<Prototype>, more: seq<Prototype>, rs: seq<Ref>, pointerSize: nat)
    requires Grounded(types) && Grounded(more) && types <= more && RefsIn(rs, |types|)
    ensures ShapesOf(types, rs) == ShapesOf(more, rs)
    ensures ElemsOf(types, rs, pointerSize) == ElemsOf(more, rs, pointerSize)
  {
    forall i | 0 <= i < |rs|
      ensures ShapeOf(types, rs[i]) == ShapeOf(more, rs[i])
      ensures ElemOf(types, rs[i], pointerSize) == ElemOf(more, rs[i], pointerSize)
    {
      ShapeStays(types, more, rs[i], pointerSize);
    }
  }

  /** A node with a new key, laid out from its elements, keeps the list well formed. */
  lemma AppendKeeps(types: seq<Prototype>, p: Prototype, pointerSize: nat)
    requires WellFormed(types, pointerSize) && Below(p.structure, |types|)
    requires forall i :: 0 <= i < |types| ==> KeyOf(types[i].structure) != KeyOf(p.structure)
    requires Grounded(types + [p]) ==> LaidOut(types + [p], |types|, pointerSize)
    ensures WellFormed(types + [p], pointerSize)
  {
    var more := types + [p];
    forall i | 0 <= i < |types| ensures LaidOut(more, i, pointerSize) {
      assert LaidOut(types, i, pointerSize);
      match types[i].structure
      case AggregateOf(elems, _, _) => ShapesStay(types, more, elems, pointerSize);
      case ArrayOf(elem, _) => ShapeStays(types, more, elem, pointerSize);
    }
  }
}
