/** The bit operations of the source on natural numbers, and the arithmetic that stands for them elsewhere. */
module Bitwise {
  import opened Alignment

  function And(a: nat, b: nat): nat {
    if a == 0 || b == 0 then 0 else 2 * And(a / 2, b / 2) + (if a % 2 == 1 && b % 2 == 1 then 1 else 0)
  }

  function Or(a: nat, b: nat): nat {
    if a == 0 then b else if b == 0 then a else 2 * Or(a / 2, b / 2) + (if a % 2 == 1 || b % 2 == 1 then 1 else 0)
  }

  /** `a << k` without an upper limit, and `a >> k`. */
  function Shl(a: nat, k: nat): nat {
    if k == 0 then a else 2 * Shl(a, k - 1)
  }

  function Shr(a: nat, k: nat): nat {
    if k == 0 then a else Shr(a / 2, k - 1)
  }

  /** `std::popcount` */
  function PopCount(a: nat): nat {
    if a == 0 then 0 else a % 2 + PopCount(a / 2)
  }

  lemma ShlGrows(a: nat, k: nat)
    ensures Shl(a, k) >= a
  {
  }

  /** The low bits are what the high bits leave. */
  lemma {:induction false} MaskLow(a: nat, k: nat)
    ensures Shl(1, k) > 0 && And(a, Shl(1, k) - 1) + Shl(Shr(a, k), k) == a
    ensures And(a, Shl(1, k) - 1) < Shl(1, k)
  {
    ShlGrows(1, k);
    if k > 0 {
      MaskLow(a / 2, k - 1);
      ShlGrows(1, k - 1);
      ZeroShifted(k);
    }
  }

  lemma ZeroShifted(k: nat)
    ensures Shl(0, k) == 0 && Shr(0, k) == 0
  {
  }

  lemma OrCommutes(a: nat, b: nat)
    ensures Or(a, b) == Or(b, a)
  {
  }

  /** High and low bits that do not overlap are put together by adding them. */
  lemma {:induction false} OrIsSum(high: nat, low: nat, k: nat)
    requires low < Shl(1, k)
    ensures Or(Shl(high, k), low) == Shl(high, k) + low
  {
    if k > 0 {
      OrIsSum(high, low / 2, k - 1);
    }
  }

  lemma {:induction false} ShlTwice(a: nat, j: nat, k: nat)
    ensures Shl(Shl(a, j), k) == Shl(a, j + k)
  {
    if k > 0 {
      ShlTwice(a, j, k - 1);
    }
  }

  lemma {:induction false} ShlOverOr(a: nat, b: nat, k: nat)
    ensures Or(Shl(a, k), Shl(b, k)) == Shl(Or(a, b), k)
  {
    if k > 0 {
      ShlOverOr(a, b, k - 1);
      OrDoubled(Shl(a, k - 1), Shl(b, k - 1));
    }
  }

  lemma OrDoubled(a: nat, b: nat)
    ensures Or(2 * a, 2 * b) == 2 * Or(a, b)
  {
  }

  /** A mask of high bits looks at the shifted number only. */
  lemma {:induction false} AndHigh(a: nat, mask: nat, k: nat)
    ensures And(a, Shl(mask, k)) == Shl(And(Shr(a, k), mask), k)
  {
    if k > 0 {
      AndHigh(a / 2, mask, k - 1);
      ZeroShifted(k);
    }
  }

  // ----- powers of two -----

  /** The assertion of `round_up` says that the alignment is a power of two. */
  lemma {:induction false} PopCountIsOne(a: nat)
    ensures PopCount(a) == 1 <==> IsPowerOfTwo(a)
    ensures PopCount(a) == 0 <==> a == 0
  {
    if a > 0 {
      PopCountIsOne(a / 2);
    }
  }

  lemma {:induction false} PowerIsShifted(n: nat) returns (k: nat)
    requires IsPowerOfTwo(n)
    ensures n == Shl(1, k)
  {
    if n == 1 {
      k := 0;
    } else {
      k := PowerIsShifted(n / 2);
      k := k + 1;
    }
  }

  lemma {:induction false} ShlIsProduct(a: nat, k: nat)
    ensures Shl(a, k) == a * Shl(1, k)
  {
    if k > 0 {
      ShlIsProduct(a, k - 1);
      DoubleProduct(a, Shl(1, k - 1));
    }
  }

  lemma DoubleProduct(a: nat, b: nat)
    ensures a * (2 * b) == 2 * (a * b)
  {
  }

  /** The mask of `round_up` gives the remainder. */
  lemma MaskIsRemainder(value: nat, align: nat)
    requires IsPowerOfTwo(align)
    ensures And(value, align - 1) == value % align
  {
    var k := PowerIsShifted(align);
    MaskLow(value, k);
    ShlIsProduct(Shr(value, k), k);
    ModuloIs(value, align, Shr(value, k), And(value, align - 1));
  }
}
