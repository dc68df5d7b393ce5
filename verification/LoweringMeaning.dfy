/** What the lowering of types (src/ast/typespec.cpp:988-1072) means in bytes. */
module LoweringMeaning {
  import opened Alignment
  import opened Options
  import opened Typespec
  import opened TypePrototypes
  import opened TypeLowering
  import L = Layout

  // ----- builtin types -----

  /** The bits that the name of a builtin type promises. */
  function BitWidth(k: L.BuiltinKind): nat {
    match k
    case I1 => 1
    case I8 => 8
    case I16 => 16
    case I32 | F32 => 32
    case I64 | F64 => 64
    case Void => 0
  }

  /** A builtin type has the bytes that its bits need, and is aligned to them. */
  lemma {:induction false} BuiltinHasItsBits(k: L.BuiltinKind, pointerSize: nat)
    requires IsPowerOfTwo(pointerSize)
    ensures L.InfoOf(L.Builtin(k), pointerSize).size == (BitWidth(k) + 7) / 8
    ensures L.InfoOf(L.Builtin(k), pointerSize).align == (BitWidth(k) + 7) / 8
    ensures !L.InfoOf(L.Builtin(k), pointerSize).padding
  {
  }

  // ----- aggregates of two -----

  /** Two elements of an aggregate: the first at zero, the second at its offset; and the size of the whole. */
  ghost predicate IsPair(s: L.Shape, first: L.Shape, second: L.Shape, offset: nat, size: nat, pointerSize: nat)
    requires IsPowerOfTwo(pointerSize)
  {
    && s == L.Aggregate([first, second])
    && L.LayoutOf(L.InfosOf([first, second], pointerSize)).offsets == [0, offset]
    && L.InfoOf(s, pointerSize).size == size
  }

  lemma {:induction false} PairLayout(first: L.Elem, second: L.Elem)
    requires L.GoodElem(first) && L.GoodElem(second) && Aligned(first.size, second.align) && second.size > 0
    ensures var r := L.LayoutOf([first, second]);
            r.offsets == [0, first.size] && r.align == L.Max(first.align, second.align)
            && r.size == RoundUp(first.size + second.size, L.Max(first.align, second.align))
  {
    var es := [first, second];
    assert es[..1] == [first];
    OneElement(first);
    AlignedStays(first.size, second.align);
    assert L.End(es) == first.size + second.size && L.MaxAlign(es) == L.Max(first.align, second.align);
  }

  lemma {:induction false} OneElement(e: L.Elem)
    requires L.GoodElem(e)
    ensures L.MaxAlign([e]) == e.align && L.End([e]) == e.size && L.OffsetsOf([e]) == [0]
  {
    assert [e][..0] == [];
    L.RoundUpZero(e.align);
    assert L.MaxAlign([]) == 0 && L.End([]) == 0 && L.OffsetsOf([]) == [];
  }

  lemma {:induction false} AlignedStays(value: nat, align: nat)
    requires IsAlignment(align) && Aligned(value, align)
    ensures RoundUp(value, align) == value
  {
  }

  lemma {:induction false} PairInfos(first: L.Shape, second: L.Shape, pointerSize: nat)
    requires IsPowerOfTwo(pointerSize)
    ensures L.InfosOf([first, second], pointerSize)
         == [L.InfoOf(first, pointerSize), L.InfoOf(second, pointerSize)]
  {
  }

  // ----- optionals, pointers and functions -----

  /** A type and a flag: the type at zero, the flag of one byte right behind it, and both inside the optional. */
  ghost predicate HasFlag(s: L.Shape, inner: L.Shape, pointerSize: nat)
    requires IsPowerOfTwo(pointerSize)
  {
    && s == L.Aggregate([inner, L.Builtin(L.I1)])
    && L.LayoutOf(L.InfosOf([inner, L.Builtin(L.I1)], pointerSize)).offsets == [0, L.InfoOf(inner, pointerSize).size]
    && L.InfoOf(L.Builtin(L.I1), pointerSize).size == 1
    && L.InfoOf(s, pointerSize).size > L.InfoOf(inner, pointerSize).size
  }

  /** Outside pointers, references and functions an optional needs a flag. */
  lemma {:induction false} OptionalHasFlag(ms: seq<Modifier>, t: Terminator, d: Declarations, types: seq<Prototype>,
                                           pointerSize: nat)
    requires Grounded(types) && DeclsIn(d, |types|) && IsPowerOfTwo(pointerSize)
    requires ms != [] ==> !ms[0].Pointer? && !ms[0].LvalueReference?
    requires ms == [] ==> !t.Function?
    requires Lowerable(Type([Optional] + ms, t), d)
    ensures Lowerable(Type(ms, t), d)
    ensures HasFlag(LowerShape(Type([Optional] + ms, t), d, types), LowerShape(Type(ms, t), d, types), pointerSize)
  {
    var opt, inner := Type([Optional] + ms, t), Type(ms, t);
    assert WithoutLayer(opt) == inner;
    assert ms != [] ==> opt.modifiers[1] == ms[0];
    var s := LowerShape(inner, d, types);
    PairInfos(s, L.Builtin(L.I1), pointerSize);
    PairLayout(L.InfoOf(s, pointerSize), L.InfoOf(L.Builtin(L.I1), pointerSize));
    L.InfoOfAggregate([s, L.Builtin(L.I1)], pointerSize);
  }

  /** One pointer and nothing else. */
  ghost predicate IsOnePointer(s: L.Shape, pointerSize: nat)
    requires IsPowerOfTwo(pointerSize)
  {
    L.InfoOf(s, pointerSize) == L.Elem(pointerSize, pointerSize, false)
  }

  lemma {:induction false} PointersAreOnePointer(m: Modifier, ms: seq<Modifier>, t: Terminator, d: Declarations,
                                                 types: seq<Prototype>, pointerSize: nat)
    requires Grounded(types) && DeclsIn(d, |types|) && IsPowerOfTwo(pointerSize)
    requires m.Pointer? || m.LvalueReference? || m.MoveReference?
    ensures Lowerable(Type([m] + ms, t), d) && IsOnePointer(LowerShape(Type([m] + ms, t), d, types), pointerSize)
    ensures !m.MoveReference? ==>
              && Lowerable(Type([Optional, m] + ms, t), d)
              && IsOnePointer(LowerShape(Type([Optional, m] + ms, t), d, types), pointerSize)
  {
    assert IsOptionalPointerLike(Type([Optional, m] + ms, t)) <==> !m.MoveReference?;
  }

  lemma {:induction false} FunctionsAreOnePointer(cc: nat, params: seq<Type>, returnType: Type, d: Declarations,
                                                  types: seq<Prototype>, pointerSize: nat)
    requires Grounded(types) && DeclsIn(d, |types|) && IsPowerOfTwo(pointerSize)
    ensures var f := Type([], Function(cc, params, returnType));
            Lowerable(f, d) && IsOnePointer(LowerShape(f, d, types), pointerSize)
    ensures var f := Type([Optional], Function(cc, params, returnType));
            Lowerable(f, d) && IsOnePointer(LowerShape(f, d, types), pointerSize)
  {
  }

  // ----- the other types -----

  /** A slice is two pointers, one behind the other. */
  lemma {:induction false} SliceIsTwoPointers(elem: Type, d: Declarations, types: seq<Prototype>, pointerSize: nat)
    requires Grounded(types) && DeclsIn(d, |types|) && IsPowerOfTwo(pointerSize)
    ensures Lowerable(Type([], Slice(elem)), d)
    ensures IsPair(LowerShape(Type([], Slice(elem)), d, types), L.Pointer, L.Pointer, pointerSize, 2 * pointerSize,
                   pointerSize)
    ensures L.InfoOf(LowerShape(Type([], Slice(elem)), d, types), pointerSize).align == pointerSize
  {
    PairInfos(L.Pointer, L.Pointer, pointerSize);
    MultipleModulo(1, pointerSize);
    MultipleModulo(2, pointerSize);
    PairLayout(L.InfoOf(L.Pointer, pointerSize), L.InfoOf(L.Pointer, pointerSize));
    AlignedStays(2 * pointerSize, pointerSize);
    L.InfoOfAggregate([L.Pointer, L.Pointer], pointerSize);
  }

  /** An array is its elements, one behind the other. */
  lemma {:induction false} ArrayIsItsElements(n: nat, elem: Type, d: Declarations, types: seq<Prototype>,
                                              pointerSize: nat)
    requires Grounded(types) && DeclsIn(d, |types|) && IsPowerOfTwo(pointerSize)
    requires Lowerable(Type([], Array(n, elem)), d)
    ensures var s := LowerShape(Type([], Array(n, elem)), d, types);
            && Lowerable(elem, d) && s == L.Array(LowerShape(elem, d, types), n)
            && L.InfoOf(s, pointerSize).size == n * L.InfoOf(LowerShape(elem, d, types), pointerSize).size
            && L.InfoOf(s, pointerSize).align == L.InfoOf(LowerShape(elem, d, types), pointerSize).align
  {
  }

  /** A tuple has one element for each of its types, in their order. */
  lemma {:induction false} TupleIsItsTypes(ts: seq<Type>, i: nat, d: Declarations, types: seq<Prototype>)
    requires Grounded(types) && DeclsIn(d, |types|)
    requires Lowerable(Type([], Tuple(ts)), d) && i < |ts|
    ensures var s := LowerShape(Type([], Tuple(ts)), d, types);
            s.Aggregate? && |s.elems| == |ts| && Lowerable(ts[i], d) && s.elems[i] == LowerShape(ts[i], d, types)
  {
  }

  /** An element starts where the one before it ends or at the next place that is aligned for it. */
  ghost predicate IsPlaced(infos: seq<L.Elem>, i: nat)
    requires L.GoodElems(infos) && i < |infos|
  {
    var offsets := L.LayoutOf(infos).offsets;
    && L.IsLeast(offsets[i], if i == 0 then 0 else offsets[i - 1] + infos[i - 1].size, infos[i].align)
    && offsets[i] + infos[i].size <= L.LayoutOf(infos).size
  }

  lemma {:induction false} ElementIsPlaced(infos: seq<L.Elem>, i: nat)
    requires L.GoodElems(infos) && i < |infos|
    ensures IsPlaced(infos, i)
  {
    L.ElementsAreApart(infos, i, i);
  }

  /** So do the elements of a tuple, each with the layout of its type. */
  lemma {:induction false} TupleIsPlaced(ts: seq<Type>, i: nat, d: Declarations, types: seq<Prototype>,
                                         pointerSize: nat)
    requires Grounded(types) && DeclsIn(d, |types|) && IsPowerOfTwo(pointerSize)
    requires Lowerable(Type([], Tuple(ts)), d) && i < |ts|
    ensures var s := LowerShape(Type([], Tuple(ts)), d, types);
            && |s.elems| == |ts| && Lowerable(ts[i], d)
            && var infos := L.InfosOf(s.elems, pointerSize);
               infos[i] == L.InfoOf(LowerShape(ts[i], d, types), pointerSize) && IsPlaced(infos, i)
  {
    TupleIsItsTypes(ts, i, d, types);
    ElementIsPlaced(L.InfosOf(LowerShape(Type([], Tuple(ts)), d, types).elems, pointerSize), i);
  }

  /** Declared types have the structure of their prototype, enums that of their underlying type, broken ones a byte. */
  lemma {:induction false} DeclaredIsItsPrototype(info: nat, d: Declarations, types: seq<Prototype>, pointerSize: nat)
    requires Grounded(types) && DeclsIn(d, |types|) && IsPowerOfTwo(pointerSize) && info in d.prototypes
    ensures Lowerable(Type([], BaseType(info)), d)
    ensures var s := LowerShape(Type([], BaseType(info)), d, types);
            match d.prototypes[info]
            case Some(r) => s == ShapeOf(types, r)
            case None => L.InfoOf(s, pointerSize) == L.Elem(1, 1, false)
    ensures forall e :: e in d.underlying && d.underlying[e] == info ==>
              && Lowerable(Type([], Enum(e)), d)
              && LowerShape(Type([], Enum(e)), d, types) == LowerShape(Type([], BaseType(info)), d, types)
  {
    if d.prototypes[info].None? {
      L.InfoOfAggregate([], pointerSize);
      L.RoundUpZero(0);
    }
  }

  /** `void` has no bytes. */
  lemma {:induction false} VoidIsNothing(d: Declarations, types: seq<Prototype>, pointerSize: nat)
    requires Grounded(types) && DeclsIn(d, |types|) && IsPowerOfTwo(pointerSize)
    ensures Lowerable(Type([], Void), d)
    ensures L.InfoOf(LowerShape(Type([], Void), d, types), pointerSize) == L.Elem(0, 0, false)
  {
  }

  // ----- the prototypes that answer -----

  /** The answer to a request stores the size, alignment and padding of the structure of the type. */
  lemma {:induction false} AnswerHasBytes(before: seq<Prototype>, t: Type, d: Declarations, after: seq<Prototype>,
                                          r: Ref, pointerSize: nat)
    requires LoweredTo(before, t, d, after, r) && WellFormed(after, pointerSize) && IsPowerOfTwo(pointerSize)
    ensures ElemOf(after, r, pointerSize) == L.InfoOf(LowerShape(t, d, before), pointerSize)
  {
    StoredLayout(after, r, pointerSize);
  }
}
