/** Powers of two and rounding up to them: `round_up` of src/ast/type_prototype.cpp:117-134. */
module Alignment {

  predicate IsPowerOfTwo(n: nat) {
    n == 1 || (n > 1 && n % 2 == 0 && IsPowerOfTwo(n / 2))
  }

  /** The alignment of `void`, and of nothing else, is zero. */
  predicate IsAlignment(n: nat) {
    n == 0 || IsPowerOfTwo(n)
  }

  predicate Aligned(offset: nat, align: nat) {
    align == 0 || offset % align == 0
  }

  /**
   * `round_up`. The precondition is its assertion; `Bitwise.MaskIsRemainder` and `Bitwise.PopCountIsOne` tie the
   * remainder and the power of two to the mask and the bit count of the source.
   */
  function RoundUp(value: nat, align: nat): (r: nat)
    requires IsAlignment(align)
    ensures r >= value && Aligned(r, align)
    ensures forall o: nat :: o >= value && Aligned(o, align) ==> r <= o
  {
    if align <= 1 then value
    else
      var rem := value % align;
      var r := if rem == 0 then value else value + align - rem;
      RoundUpIsLeast(value, align);
      r
  }

  lemma RoundUpIsLeast(value: nat, align: nat)
    requires align > 1
    ensures var r := if value % align == 0 then value else value + align - value % align;
            r % align == 0 && forall o: nat :: o >= value && o % align == 0 ==> r <= o
  {
    var q := value / align;
    var r := if value % align == 0 then value else value + align - value % align;
    if value % align == 0 {
    } else {
      assert r == (q + 1) * align;
      MultipleModulo(q + 1, align);
      forall o: nat | o >= value && o % align == 0 ensures r <= o {
        MultipleAbove(q, o / align, align, value);
      }
    }
  }

  lemma MulMonotonic(a: nat, b: nat, m: nat)
    requires a <= b
    ensures a * m <= b * m
  {
  }

  /** Quotient and remainder are unique. */
  lemma ModuloIs(x: nat, m: nat, q: nat, r: nat)
    requires m > 0 && x == q * m + r && r < m
    ensures x % m == r
  {
    var p := x / m;
    assert x == p * m + x % m;
    if q < p {
      MulMonotonic(q + 1, p, m);
    } else if p < q {
      MulMonotonic(p + 1, q, m);
    }
  }

  lemma MultipleModulo(k: nat, m: nat)
    requires m > 0
    ensures (k * m) % m == 0
  {
    ModuloIs(k * m, m, k, 0);
  }

  lemma MultipleAbove(q: nat, p: nat, m: nat, value: nat)
    requires m > 0 && q * m < value <= p * m
    ensures (q + 1) * m <= p * m
  {
    if p <= q {
      MulMonotonic(p, q, m);
    } else {
      MulMonotonic(q + 1, p, m);
    }
  }
}
