/** The layout arithmetic of src/ast/type_prototype.cpp, over the deep structure of a type. */
module Layout {
  import opened Alignment

  datatype BuiltinKind = I1 | I8 | I16 | I32 | I64 | F32 | F64 | Void

  /** The structure of a type prototype with all pointers followed. */
  datatype Shape =
    | Builtin(kind: BuiltinKind)
    | Pointer
    | Aggregate(elems: seq<Shape>)
    | Array(elem: Shape, count: nat)

  /** What the layout of an aggregate needs to know of an element. */
  datatype Elem = Elem(size: nat, align: nat, padding: bool)

  /** `type_size_info` */
  datatype SizeInfo = SizeInfo(offsets: seq<nat>, size: nat, align: nat, hasPadding: bool)

  /** The size, and also the alignment, of a builtin type. */
  function BuiltinSize(k: BuiltinKind): (r: nat)
    ensures IsAlignment(r) && (r == 0 <==> k == Void)
  {
    assert IsPowerOfTwo(2) && IsPowerOfTwo(4);
    match k
    case I1 => 1 case I8 => 1 case I16 => 2 case I32 => 4 case I64 => 8 case F32 => 4 case F64 => 8 case Void => 0
  }

  function Max(a: nat, b: nat): nat {
    if a < b then b else a
  }

  // ----- one aggregate -----

  /** Alignments are powers of two; only a type without bytes has none. */
  ghost predicate GoodElem(e: Elem) {
    IsAlignment(e.align) && (e.align == 0 ==> e.size == 0)
  }

  ghost predicate GoodElems(elems: seq<Elem>) {
    forall i :: 0 <= i < |elems| ==> GoodElem(elems[i])
  }

  function MaxAlign(elems: seq<Elem>): (r: nat)
    ensures forall i :: 0 <= i < |elems| ==> elems[i].align <= r
    ensures r == 0 || exists i :: 0 <= i < |elems| && elems[i].align == r
  {
    if elems == [] then 0 else Max(MaxAlign(elems[..|elems| - 1]), elems[|elems| - 1].align)
  }

  /** The end of the last element, before the size is rounded up. */
  function End(elems: seq<Elem>): nat
    requires GoodElems(elems)
  {
    if elems == [] then 0
    else
      var last := elems[|elems| - 1];
      RoundUp(End(elems[..|elems| - 1]), last.align) + last.size
  }

  function OffsetsOf(elems: seq<Elem>): (r: seq<nat>)
    requires GoodElems(elems)
    ensures |r| == |elems|
  {
    if elems == [] then []
    else
      var init := elems[..|elems| - 1];
      OffsetsOf(init) + [RoundUp(End(init), elems[|elems| - 1].align)]
  }

  /** Some element has padding, or some element does not start where the one before it ends. */
  function PaddingInside(elems: seq<Elem>): bool
    requires GoodElems(elems)
  {
    elems != [] &&
    var init, last := elems[..|elems| - 1], elems[|elems| - 1];
    PaddingInside(init) || last.padding || RoundUp(End(init), last.align) != End(init)
  }

  function LayoutOf(elems: seq<Elem>): (r: SizeInfo)
    requires GoodElems(elems)
    ensures r.size > 0 && |r.offsets| == |elems|
  {
    var total := RoundUp(End(elems), MaxAlign(elems));
    SizeInfo(OffsetsOf(elems),
             if total == 0 then 1 else total,
             if total == 0 then 1 else MaxAlign(elems),
             PaddingInside(elems) || total != End(elems))
  }

  /** `get_type_size_info` */
  method GetTypeSizeInfo(elems: seq<Elem>) returns (info: SizeInfo)
    requires GoodElems(elems)
    ensures info == LayoutOf(elems)
  {
    var offsets: seq<nat> := [];
    var size, align, hasPadding := 0, 0, false;
    for i := 0 to |elems|
      invariant offsets == OffsetsOf(elems[..i])
      invariant size == End(elems[..i])
      invariant align == MaxAlign(elems[..i])
      invariant hasPadding == PaddingInside(elems[..i])
    {
      var t := elems[i];
      assert elems[..i + 1][..i] == elems[..i];
      hasPadding := hasPadding || t.padding;
      align := Max(align, t.align);
      var newSize := RoundUp(size, t.align);
      hasPadding := hasPadding || newSize != size;
      size := newSize;
      offsets := offsets + [size];
      size := size + t.size;
    }
    assert elems[..|elems|] == elems;
    var newSize := RoundUp(size, align);
    hasPadding := hasPadding || newSize != size;
    size := newSize;
    if size == 0 {
      size := 1;
      align := 1;
    }
    info := SizeInfo(offsets, size, align, hasPadding);
  }

  /** Where element `i` could start at the earliest. */
  function EndBefore(elems: seq<Elem>, offsets: seq<nat>, i: nat): nat
    requires |offsets| == |elems| && i <= |elems|
  {
    if i == 0 then 0 else offsets[i - 1] + elems[i - 1].size
  }

  /** `offset` is the least aligned position that is not before `from`. */
  ghost predicate IsLeast(offset: nat, from: nat, align: nat) {
    && offset >= from && Aligned(offset, align)
    && forall o: nat :: o >= from && Aligned(o, align) ==> offset <= o
  }

  lemma {:induction false} OffsetsAreLeast(elems: seq<Elem>)
    requires GoodElems(elems)
    ensures End(elems) == EndBefore(elems, OffsetsOf(elems), |elems|)
    ensures forall i :: 0 <= i < |elems| ==>
              IsLeast(OffsetsOf(elems)[i], EndBefore(elems, OffsetsOf(elems), i), elems[i].align)
  {
    if elems != [] {
      var n := |elems| - 1;
      OffsetsAreLeast(elems[..n]);
      forall i | 0 <= i < |elems|
        ensures IsLeast(OffsetsOf(elems)[i], EndBefore(elems, OffsetsOf(elems), i), elems[i].align)
      {
        LastIsLeast(elems, i);
      }
    }
  }

  lemma LastIsLeast(elems: seq<Elem>, i: nat)
    requires GoodElems(elems) && i < |elems|
    requires var init := elems[..|elems| - 1];
             && End(init) == EndBefore(init, OffsetsOf(init), |init|)
             && (i < |init| ==> IsLeast(OffsetsOf(init)[i], EndBefore(init, OffsetsOf(init), i), init[i].align))
    ensures IsLeast(OffsetsOf(elems)[i], EndBefore(elems, OffsetsOf(elems), i), elems[i].align)
  {
    var init := elems[..|elems| - 1];
    assert EndBefore(elems, OffsetsOf(elems), i) == EndBefore(init, OffsetsOf(init), i);
  }

  lemma NextOffset(elems: seq<Elem>, j: nat)
    requires GoodElems(elems) && j < |elems|
    ensures EndBefore(elems, OffsetsOf(elems), j) <= OffsetsOf(elems)[j]
  {
    OffsetsAreLeast(elems);
    assert IsLeast(OffsetsOf(elems)[j], EndBefore(elems, OffsetsOf(elems), j), elems[j].align);
  }

  lemma {:induction false} OffsetsAscend(elems: seq<Elem>, i: nat, j: nat)
    requires GoodElems(elems) && i < j <= |elems|
    ensures OffsetsOf(elems)[i] + elems[i].size <= EndBefore(elems, OffsetsOf(elems), j)
    ensures j < |elems| ==> OffsetsOf(elems)[i] + elems[i].size <= OffsetsOf(elems)[j]
    decreases j
  {
    if i < j - 1 {
      OffsetsAscend(elems, i, j - 1);
    }
    if j < |elems| {
      NextOffset(elems, j);
    }
  }

  lemma {:induction false} MaxAlignIsAlignment(elems: seq<Elem>)
    requires GoodElems(elems)
    ensures IsAlignment(MaxAlign(elems))
    ensures End(elems) > 0 ==> MaxAlign(elems) > 0
  {
    if elems != [] {
      MaxAlignIsAlignment(elems[..|elems| - 1]);
    }
  }

  /** No two elements share a byte, no element ends behind the aggregate, and each is as early as it can be. */
  lemma ElementsAreApart(elems: seq<Elem>, i: nat, j: nat)
    requires GoodElems(elems) && i < |elems|
    ensures IsLeast(LayoutOf(elems).offsets[i], EndBefore(elems, LayoutOf(elems).offsets, i), elems[i].align)
    ensures i < j < |elems| ==> LayoutOf(elems).offsets[i] + elems[i].size <= LayoutOf(elems).offsets[j]
    ensures LayoutOf(elems).offsets[i] + elems[i].size <= LayoutOf(elems).size
  {
    OffsetsAreLeast(elems);
    if i < j < |elems| {
      OffsetsAscend(elems, i, j);
    }
    OffsetsAscend(elems, i, |elems|);
    MaxAlignIsAlignment(elems);
  }

  /**
   * The size is the least multiple of the largest alignment that holds every element, and the alignment is the largest
   * one; but an aggregate whose elements have no bytes is given one byte of alignment one, whatever their alignments.
   */
  lemma SizeIsLeast(elems: seq<Elem>)
    requires GoodElems(elems)
    ensures var r := LayoutOf(elems);
            && r.size > 0 && IsPowerOfTwo(r.align) && Aligned(r.size, r.align)
            && (End(elems) > 0 ==> r.align == MaxAlign(elems) && IsLeast(r.size, End(elems), r.align))
            && (End(elems) == 0 ==> r.size == 1 && r.align == 1)
  {
    MaxAlignIsAlignment(elems);
  }

  /** The elements reach past zero exactly when one of them has a byte. */
  lemma {:induction false} HasBytes(elems: seq<Elem>)
    requires GoodElems(elems)
    ensures End(elems) > 0 <==> exists i :: 0 <= i < |elems| && elems[i].size > 0
  {
    if elems != [] {
      var n := |elems| - 1;
      var init := elems[..n];
      HasBytes(init);
      if i :| 0 <= i < |elems| && elems[i].size > 0 {
        if i < n {
          assert init[i].size > 0;
        }
      } else {
        assert RoundUp(End(init), elems[n].align) == 0 by { RoundUpZero(elems[n].align); }
      }
    }
  }

  lemma RoundUpZero(align: nat)
    requires IsAlignment(align)
    ensures RoundUp(0, align) == 0
  {
  }

  // ----- whole types -----

  /** Size, alignment and `has_padding` of a type; the size of a pointer is the target's. */
  function InfoOf(s: Shape, pointerSize: nat): (r: Elem)
    requires IsPowerOfTwo(pointerSize)
    ensures GoodElem(r)
    ensures Aligned(r.size, r.align)
    decreases s
  {
    match s
    case Builtin(k) => Elem(BuiltinSize(k), BuiltinSize(k), false)
    case Pointer => Elem(pointerSize, pointerSize, false)
    case Aggregate(elems) =>
      var infos := seq(|elems|, i requires 0 <= i < |elems| => InfoOf(elems[i], pointerSize));
      SizeIsLeast(infos);
      var r := LayoutOf(infos);
      Elem(r.size, r.align, r.hasPadding)
    case Array(elem, count) =>
      var e := InfoOf(elem, pointerSize);
      ArraySize(count, e.size, e.align);
      Elem(count * e.size, e.align, e.padding)
  }

  lemma ArraySize(count: nat, size: nat, align: nat)
    requires Aligned(size, align) && (align == 0 ==> size == 0)
    ensures count * size >= 0 && Aligned(count * size, align) && (align == 0 ==> count * size == 0)
  {
    if align > 0 {
      var q := size / align;
      assert size == q * align;
      assert count * size == (count * q) * align by { MulAssoc(count, q, align); }
      MultipleModulo(count * q, align);
    }
  }

  lemma MulAssoc(a: nat, b: nat, c: nat)
    ensures a * (b * c) == (a * b) * c
  {
  }

  function InfosOf(elems: seq<Shape>, pointerSize: nat): (r: seq<Elem>)
    requires IsPowerOfTwo(pointerSize)
    ensures |r| == |elems| && GoodElems(r)
    ensures forall i :: 0 <= i < |elems| ==> r[i] == InfoOf(elems[i], pointerSize)
  {
    seq(|elems|, i requires 0 <= i < |elems| => InfoOf(elems[i], pointerSize))
  }

  lemma InfoOfAggregate(elems: seq<Shape>, pointerSize: nat)
    requires IsPowerOfTwo(pointerSize)
    ensures var r := LayoutOf(InfosOf(elems, pointerSize));
            InfoOf(Aggregate(elems), pointerSize) == Elem(r.size, r.align, r.hasPadding)
  {
    assert InfosOf(elems, pointerSize)
        == seq(|elems|, i requires 0 <= i < |elems| => InfoOf(elems[i], pointerSize));
  }

  /** No array in the type has length zero. */
  ghost predicate NoEmptyArray(s: Shape) {
    match s
    case Builtin(_) => true
    case Pointer => true
    case Array(elem, count) => count > 0 && NoEmptyArray(elem)
    case Aggregate(elems) => forall i :: 0 <= i < |elems| ==> NoEmptyArray(elems[i])
  }

  lemma {:induction false} NoBytesNoAlignment(s: Shape, pointerSize: nat)
    requires IsPowerOfTwo(pointerSize) && NoEmptyArray(s) && InfoOf(s, pointerSize).size == 0
    ensures InfoOf(s, pointerSize).align == 0
  {
    match s
    case Builtin(_) =>
    case Pointer =>
    case Aggregate(_) =>
    case Array(elem, count) =>
      NoFactor(count, InfoOf(elem, pointerSize).size);
      NoBytesNoAlignment(elem, pointerSize);
  }

  lemma NoFactor(a: nat, b: nat)
    requires a > 0 && a * b == 0
    ensures b == 0
  {
  }

  /** Some element is aligned more strictly than the aggregate that it is in. */
  predicate Shrinks(elems: seq<Elem>)
    requires GoodElems(elems)
  {
    exists i :: 0 <= i < |elems| && elems[i].align > LayoutOf(elems).align
  }

  /** This happens exactly when no element has a byte but one has an alignment. */
  lemma ShrinksExactlyWhen(elems: seq<Elem>)
    requires GoodElems(elems)
    ensures Shrinks(elems) <==>
              && (forall i :: 0 <= i < |elems| ==> elems[i].size == 0)
              && (exists i :: 0 <= i < |elems| && elems[i].align > 1)
  {
    SizeIsLeast(elems);
    HasBytes(elems);
  }

  /** Without an array of length zero it does not happen. */
  lemma AlignmentIsKept(elems: seq<Shape>, pointerSize: nat, i: nat)
    requires IsPowerOfTwo(pointerSize) && i < |elems| && NoEmptyArray(elems[i])
    ensures InfoOf(elems[i], pointerSize).align <= InfoOf(Aggregate(elems), pointerSize).align
  {
    var infos := InfosOf(elems, pointerSize);
    InfoOfAggregate(elems, pointerSize);
    SizeIsLeast(infos);
    HasBytes(infos);
    if infos[i].size == 0 {
      NoBytesNoAlignment(elems[i], pointerSize);
    }
  }

  /** An array of no `i64` is aligned to eight bytes, the aggregate that holds it to one. */
  lemma AlignmentCanShrink(pointerSize: nat)
    requires IsPowerOfTwo(pointerSize)
    ensures InfoOf(Array(Builtin(I64), 0), pointerSize) == Elem(0, 8, false)
    ensures InfoOf(Aggregate([Array(Builtin(I64), 0)]), pointerSize) == Elem(1, 1, false)
  {
    InfoOfAggregate([Array(Builtin(I64), 0)], pointerSize);
    NoBytes(Elem(0, 8, false));
  }

  lemma NoBytes(e: Elem)
    requires GoodElem(e) && e.size == 0 && !e.padding
    ensures LayoutOf([e]) == SizeInfo([0], 1, 1, false)
  {
    var es := [e];
    assert es[..0] == [];
    RoundUpZero(e.align);
    assert End(es) == 0 && OffsetsOf(es) == [0] && !PaddingInside(es);
    RoundUpZero(MaxAlign(es));
  }
}
