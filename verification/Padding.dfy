/** What `has_padding` (src/ast/type_prototype.h:130-144) says about the bytes of a type. */
module Padding {
  import opened Alignment
  import opened Layout

  // ----- one aggregate -----

  ghost predicate InElem(elems: seq<Elem>, i: nat, b: nat)
    requires GoodElems(elems) && i < |elems|
  {
    OffsetsOf(elems)[i] <= b < OffsetsOf(elems)[i] + elems[i].size
  }

  /** Which byte of the element it is. */
  ghost function Within(elems: seq<Elem>, i: nat, b: nat): nat
    requires GoodElems(elems) && i < |elems| && InElem(elems, i, b)
  {
    b - OffsetsOf(elems)[i]
  }

  /** A byte of the aggregate that is in none of its elements. */
  ghost predicate Gap(elems: seq<Elem>, b: nat)
    requires GoodElems(elems)
  {
    b < LayoutOf(elems).size && forall i :: 0 <= i < |elems| ==> !InElem(elems, i, b)
  }

  ghost predicate Padded(elems: seq<Elem>) {
    exists i :: 0 <= i < |elems| && elems[i].padding
  }

  /** Where element `i` does not start where the one before it ends. */
  ghost predicate GapBefore(elems: seq<Elem>, i: nat)
    requires GoodElems(elems) && i < |elems|
  {
    OffsetsOf(elems)[i] != EndBefore(elems, OffsetsOf(elems), i)
  }

  lemma BeforeLast(elems: seq<Elem>, i: nat)
    requires GoodElems(elems) && i < |elems| - 1
    ensures GapBefore(elems, i) <==> GapBefore(elems[..|elems| - 1], i)
  {
  }

  lemma AtLast(elems: seq<Elem>)
    requires GoodElems(elems) && elems != []
    ensures var n := |elems| - 1;
            GapBefore(elems, n) <==> RoundUp(End(elems[..n]), elems[n].align) != End(elems[..n])
  {
    var n := |elems| - 1;
    OffsetsAreLeast(elems[..n]);
    assert n > 0 ==> OffsetsOf(elems)[n - 1] == OffsetsOf(elems[..n])[n - 1];
  }

  lemma {:induction false} PaddingIsFound(elems: seq<Elem>)
    requires GoodElems(elems) && PaddingInside(elems)
    ensures exists i :: 0 <= i < |elems| && (elems[i].padding || GapBefore(elems, i))
  {
    var n := |elems| - 1;
    AtLast(elems);
    if PaddingInside(elems[..n]) {
      PaddingIsFound(elems[..n]);
      var i :| 0 <= i < n && (elems[..n][i].padding || GapBefore(elems[..n], i));
      BeforeLast(elems, i);
      assert elems[i].padding || GapBefore(elems, i);
    } else {
      assert elems[n].padding || GapBefore(elems, n);
    }
  }

  lemma {:induction false} PaddingIsKept(elems: seq<Elem>, i: nat)
    requires GoodElems(elems) && i < |elems| && (elems[i].padding || GapBefore(elems, i))
    ensures PaddingInside(elems)
  {
    if i < |elems| - 1 {
      BeforeLast(elems, i);
      PaddingIsKept(elems[..|elems| - 1], i);
    } else {
      AtLast(elems);
    }
  }

  lemma GapIsBefore(elems: seq<Elem>, i: nat)
    requires GoodElems(elems) && i < |elems| && GapBefore(elems, i)
    ensures exists b: nat :: Gap(elems, b)
  {
    var b := EndBefore(elems, OffsetsOf(elems), i);
    ElementsAreApart(elems, i, i);
    assert b < OffsetsOf(elems)[i];
    forall k | 0 <= k < |elems| ensures !InElem(elems, k, b) {
      NotInElem(elems, i, k, b);
    }
    assert Gap(elems, b);
  }

  lemma NotInElem(elems: seq<Elem>, i: nat, k: nat, b: nat)
    requires GoodElems(elems) && i < |elems| && k < |elems|
    requires b == EndBefore(elems, OffsetsOf(elems), i) && b < OffsetsOf(elems)[i]
    ensures !InElem(elems, k, b)
  {
    if k < i {
      OffsetsAscend(elems, k, i);
    } else if i < k {
      OffsetsAscend(elems, i, k);
    }
  }

  lemma GapAtEnd(elems: seq<Elem>)
    requires GoodElems(elems) && End(elems) < LayoutOf(elems).size
    ensures Gap(elems, End(elems))
  {
    OffsetsAreLeast(elems);
    forall k | 0 <= k < |elems| ensures !InElem(elems, k, End(elems)) {
      OffsetsAscend(elems, k, |elems|);
    }
  }

  lemma {:induction false} NoGap(elems: seq<Elem>, b: nat)
    requires GoodElems(elems) && !PaddingInside(elems) && b < End(elems)
    ensures exists i :: 0 <= i < |elems| && InElem(elems, i, b)
  {
    var n := |elems| - 1;
    var init := elems[..n];
    if b < End(init) {
      NoGap(init, b);
      var i :| 0 <= i < n && InElem(init, i, b);
      assert InElem(elems, i, b);
    } else {
      assert InElem(elems, n, b);
    }
  }

  /** The flag of an aggregate is set exactly when an element has padding or a byte is in no element. */
  lemma FlagOfAggregate(elems: seq<Elem>)
    requires GoodElems(elems)
    ensures LayoutOf(elems).hasPadding <==> Padded(elems) || (End(elems) > 0 && exists b: nat :: Gap(elems, b))
  {
    MaxAlignIsAlignment(elems);
    if End(elems) == 0 {
      RoundUpZero(MaxAlign(elems));
      NothingBefore(elems);
    }
    if i :| 0 <= i < |elems| && elems[i].padding {
      PaddingIsKept(elems, i);
    }
    if PaddingInside(elems) {
      PaddingIsFound(elems);
      var i :| 0 <= i < |elems| && (elems[i].padding || GapBefore(elems, i));
      if GapBefore(elems, i) {
        GapIsBefore(elems, i);
      }
    } else if End(elems) < LayoutOf(elems).size {
      GapAtEnd(elems);
    } else {
      forall b: nat ensures !Gap(elems, b) {
        if b < End(elems) {
          NoGap(elems, b);
        }
      }
    }
  }

  lemma NothingBefore(elems: seq<Elem>)
    requires GoodElems(elems) && End(elems) == 0
    ensures forall i :: 0 <= i < |elems| ==> !GapBefore(elems, i)
  {
    OffsetsAreLeast(elems);
    forall i | 0 <= i < |elems| ensures !GapBefore(elems, i) {
      OffsetsAscend(elems, i, |elems|);
      assert IsLeast(OffsetsOf(elems)[i], EndBefore(elems, OffsetsOf(elems), i), elems[i].align);
    }
  }

  // ----- whole types -----

  /** The byte holds a part of some builtin value or pointer; the byte given to an aggregate without bytes counts. */
  ghost predicate Covered(s: Shape, pointerSize: nat, b: nat)
    requires IsPowerOfTwo(pointerSize)
    decreases s
  {
    match s
    case Builtin(k) => b < BuiltinSize(k)
    case Pointer => b < pointerSize
    case Array(elem, count) =>
      var size := InfoOf(elem, pointerSize).size;
      size > 0 && b < count * size && Covered(elem, pointerSize, b % size)
    case Aggregate(elems) =>
      var infos := InfosOf(elems, pointerSize);
      if End(infos) == 0 then b == 0
      else exists i :: 0 <= i < |elems| && CoveredIn(elems, infos, pointerSize, i, b)
  }

  ghost predicate CoveredIn(elems: seq<Shape>, infos: seq<Elem>, pointerSize: nat, i: nat, b: nat)
    requires IsPowerOfTwo(pointerSize) && GoodElems(infos) && |infos| == |elems| && i < |elems|
    decreases elems, 0
  {
    InElem(infos, i, b) && Covered(elems[i], pointerSize, Within(infos, i, b))
  }

  /** A byte that is part of the type but of none of its values. */
  ghost predicate Hole(s: Shape, pointerSize: nat, b: nat)
    requires IsPowerOfTwo(pointerSize)
  {
    b < InfoOf(s, pointerSize).size && !Covered(s, pointerSize, b)
  }

  ghost predicate HasHole(s: Shape, pointerSize: nat)
    requires IsPowerOfTwo(pointerSize)
  {
    exists b: nat :: Hole(s, pointerSize, b)
  }

  /** Somewhere in the type is an array of length zero whose elements would have a hole. */
  ghost predicate HasEmptyPaddedArray(s: Shape, pointerSize: nat)
    requires IsPowerOfTwo(pointerSize)
  {
    match s
    case Builtin(_) => false
    case Pointer => false
    case Array(elem, count) => HasEmptyPaddedArray(elem, pointerSize) || (count == 0 && HasHole(elem, pointerSize))
    case Aggregate(elems) => exists i :: 0 <= i < |elems| && HasEmptyPaddedArray(elems[i], pointerSize)
  }

  ghost predicate FlagIsRight(s: Shape, pointerSize: nat)
    requires IsPowerOfTwo(pointerSize)
  {
    InfoOf(s, pointerSize).padding <==> HasHole(s, pointerSize) || HasEmptyPaddedArray(s, pointerSize)
  }

  /**
   * `has_padding` is set exactly when some byte is not covered, or when an array of length zero has elements that
   * would leave a byte uncovered if there were any.
   */
  lemma {:induction false} FlagMeansHole(s: Shape, pointerSize: nat)
    requires IsPowerOfTwo(pointerSize)
    ensures FlagIsRight(s, pointerSize)
  {
    match s
    case Builtin(_) =>
    case Pointer =>
    case Array(elem, count) =>
      FlagMeansHole(elem, pointerSize);
      FlagOfArray(elem, count, pointerSize);
    case Aggregate(elems) =>
      forall i | 0 <= i < |elems| ensures FlagIsRight(elems[i], pointerSize) {
        FlagMeansHole(elems[i], pointerSize);
      }
      FlagIsHole(elems, pointerSize);
  }

  lemma FlagOfArray(elem: Shape, count: nat, pointerSize: nat)
    requires IsPowerOfTwo(pointerSize) && FlagIsRight(elem, pointerSize)
    ensures FlagIsRight(Array(elem, count), pointerSize)
  {
    var size := InfoOf(elem, pointerSize).size;
    var s := Array(elem, count);
    if b: nat :| Hole(s, pointerSize, b) {
      assert count * size > 0;
      assert Hole(elem, pointerSize, b % size);
    }
    if count > 0 {
      if b: nat :| Hole(elem, pointerSize, b) {
        ModuloIs(b, size, 0, b);
        MulMonotonic(1, count, size);
        assert Hole(s, pointerSize, b);
      }
    }
  }

  lemma FlagIsHole(elems: seq<Shape>, pointerSize: nat)
    requires IsPowerOfTwo(pointerSize)
    requires forall i :: 0 <= i < |elems| ==> FlagIsRight(elems[i], pointerSize)
    ensures FlagIsRight(Aggregate(elems), pointerSize)
  {
    var infos := InfosOf(elems, pointerSize);
    InfoOfAggregate(elems, pointerSize);
    FlagOfAggregate(infos);
    HasBytes(infos);
    if b: nat :| Hole(Aggregate(elems), pointerSize, b) {
      HoleIsGapOrInside(elems, pointerSize, b);
    }
    if i :| 0 <= i < |elems| && HasEmptyPaddedArray(elems[i], pointerSize) {
      assert infos[i].padding;
    }
    if b: nat :| Gap(infos, b) && End(infos) > 0 {
      assert Hole(Aggregate(elems), pointerSize, b);
    }
    if i :| 0 <= i < |elems| && HasHole(elems[i], pointerSize) {
      HoleInside(elems, pointerSize, i);
    }
  }

  lemma HoleIsGapOrInside(elems: seq<Shape>, pointerSize: nat, b: nat)
    requires IsPowerOfTwo(pointerSize) && Hole(Aggregate(elems), pointerSize, b)
    ensures var infos := InfosOf(elems, pointerSize);
            End(infos) > 0 && (Gap(infos, b) || exists i :: 0 <= i < |elems| && HasHole(elems[i], pointerSize))
  {
    var infos := InfosOf(elems, pointerSize);
    InfoOfAggregate(elems, pointerSize);
    SizeIsLeast(infos);
    if !Gap(infos, b) {
      var i :| 0 <= i < |elems| && InElem(infos, i, b);
      assert !CoveredIn(elems, infos, pointerSize, i, b);
      HoleOfElem(elems, infos, pointerSize, b, i);
    }
  }

  lemma HoleOfElem(elems: seq<Shape>, infos: seq<Elem>, pointerSize: nat, b: nat, i: nat)
    requires IsPowerOfTwo(pointerSize) && infos == InfosOf(elems, pointerSize) && i < |elems|
    requires InElem(infos, i, b) && !CoveredIn(elems, infos, pointerSize, i, b)
    ensures HasHole(elems[i], pointerSize)
  {
    assert Hole(elems[i], pointerSize, Within(infos, i, b));
  }

  lemma HoleInside(elems: seq<Shape>, pointerSize: nat, i: nat)
    requires IsPowerOfTwo(pointerSize) && i < |elems| && HasHole(elems[i], pointerSize)
    ensures HasHole(Aggregate(elems), pointerSize)
  {
    var infos := InfosOf(elems, pointerSize);
    var c: nat :| Hole(elems[i], pointerSize, c);
    var b := OffsetsOf(infos)[i] + c;
    InfoOfAggregate(elems, pointerSize);
    ElementsAreApart(infos, i, i);
    HasBytes(infos);
    assert Within(infos, i, b) == c;
    forall k | 0 <= k < |elems| ensures !CoveredIn(elems, infos, pointerSize, k, b) {
      UncoveredIn(elems, infos, pointerSize, i, b, k);
    }
    assert Hole(Aggregate(elems), pointerSize, b);
  }

  lemma UncoveredIn(elems: seq<Shape>, infos: seq<Elem>, pointerSize: nat, i: nat, b: nat, k: nat)
    requires IsPowerOfTwo(pointerSize) && infos == InfosOf(elems, pointerSize) && i < |elems| && k < |elems|
    requires InElem(infos, i, b) && !Covered(elems[i], pointerSize, Within(infos, i, b))
    ensures !CoveredIn(elems, infos, pointerSize, k, b)
  {
    if InElem(infos, k, b) {
      OnlyElem(infos, i, k, b);
    }
  }

  lemma OnlyElem(infos: seq<Elem>, i: nat, k: nat, b: nat)
    requires GoodElems(infos) && i < |infos| && k < |infos| && InElem(infos, i, b) && InElem(infos, k, b)
    ensures i == k
  {
    if k < i {
      ElementsAreApart(infos, k, i);
    } else if i < k {
      ElementsAreApart(infos, i, k);
    }
  }

  /** A type without padding is covered; and without empty arrays, only such a type is. */
  lemma NoPaddingMeansCovered(s: Shape, pointerSize: nat)
    requires IsPowerOfTwo(pointerSize)
    ensures !InfoOf(s, pointerSize).padding ==>
              forall b: nat :: b < InfoOf(s, pointerSize).size ==> Covered(s, pointerSize, b)
    ensures NoEmptyArray(s) && (forall b: nat :: b < InfoOf(s, pointerSize).size ==> Covered(s, pointerSize, b)) ==>
              !InfoOf(s, pointerSize).padding
  {
    FlagMeansHole(s, pointerSize);
    forall b: nat | b < InfoOf(s, pointerSize).size && !Covered(s, pointerSize, b)
      ensures HasHole(s, pointerSize)
    {
      assert Hole(s, pointerSize, b);
    }
    if NoEmptyArray(s) {
      NoEmptyPaddedArray(s, pointerSize);
    }
  }

  lemma {:induction false} NoEmptyPaddedArray(s: Shape, pointerSize: nat)
    requires IsPowerOfTwo(pointerSize) && NoEmptyArray(s)
    ensures !HasEmptyPaddedArray(s, pointerSize)
  {
    match s
    case Builtin(_) =>
    case Pointer =>
    case Array(elem, _) => NoEmptyPaddedArray(elem, pointerSize);
    case Aggregate(elems) =>
      forall i | 0 <= i < |elems| ensures !HasEmptyPaddedArray(elems[i], pointerSize) {
        NoEmptyPaddedArray(elems[i], pointerSize);
      }
  }
}
