/** What equality of floating-point constants (src/ast/constant_value.cpp:639-642) means for the numbers of IEEE 754. */
module FloatMeaning {
  import opened Alignment
  import opened ConstantValues
  import V = ValueMangling

  /** The three fields of a number. */
  datatype Float = Float(negative: bool, exponent: nat, fraction: nat)

  /** The bits of the two fields: 8 and 23, or 11 and 52. */
  datatype Format = Format(exponents: nat, fractions: nat)

  const SINGLE: Format := Format(0x100, 0x80_0000)
  const DOUBLE: Format := Format(0x800, 0x10_0000_0000_0000)

  function FieldsOf(f: Format, bits: nat): Float
    requires f.exponents > 0 && f.fractions > 0
  {
    Float(bits / f.fractions / f.exponents == 1, bits / f.fractions % f.exponents, bits % f.fractions)
  }

  function Pow2(n: nat): (r: nat)
    ensures r > 0
  {
    if n == 0 then 1 else 2 * Pow2(n - 1)
  }

  /** The size of a finite number in units of the smallest one: subnormal numbers have no leading one. */
  function Magnitude(f: Format, x: Float): nat {
    if x.exponent == 0 then x.fraction else (f.fractions + x.fraction) * Pow2(x.exponent - 1)
  }

  function NumberOf(f: Format, x: Float): int {
    if x.negative then 0 - Magnitude(f, x) else Magnitude(f, x)
  }

  predicate NotANumber(f: Format, x: Float) {
    x.exponent == f.exponents - 1 && x.fraction != 0
  }

  predicate IsInfinite(f: Format, x: Float) {
    x.exponent == f.exponents - 1 && x.fraction == 0
  }

  /** Equal are the same infinities and finite numbers of the same value, and nothing else. */
  ghost predicate EqualNumbers(f: Format, x: Float, y: Float) {
    && !NotANumber(f, x) && !NotANumber(f, y)
    && (IsInfinite(f, x) <==> IsInfinite(f, y))
    && (if IsInfinite(f, x) then x.negative == y.negative else NumberOf(f, x) == NumberOf(f, y))
  }

  // ----- a finite number has one representation, but for zero -----

  ghost predicate InFormat(f: Format, x: Float) {
    f.fractions > 0 && x.exponent < f.exponents && x.fraction < f.fractions
  }

  /** The largest number of an exponent is below every number of the next one. */
  lemma {:induction false} Ascending(f: Format, x: Float, y: Float)
    requires InFormat(f, x) && InFormat(f, y) && x.exponent < y.exponent
    ensures Magnitude(f, x) < Magnitude(f, y)
    decreases y.exponent
  {
    if y.exponent == 1 {
      MulMonotonic(1, Pow2(0), f.fractions + y.fraction);
    } else {
      var z := Float(false, y.exponent - 1, f.fractions - 1);
      if x.exponent < z.exponent {
        Ascending(f, x, z);
      } else {
        Below(f.fractions + x.fraction, f.fractions + z.fraction, Pow2(z.exponent - 1));
      }
      NextExponent(f.fractions, y.fraction, Pow2(z.exponent - 1));
    }
  }

  lemma {:induction false} Below(a: nat, b: nat, p: nat)
    requires a <= b
    ensures a * p <= b * p
  {
  }

  lemma {:induction false} NextExponent(n: nat, fraction: nat, p: nat)
    requires n > 0 && p > 0
    ensures (n + (n - 1)) * p < (n + fraction) * (2 * p)
  {
    Below(n + (n - 1), 2 * n - 1, p);
    Below(2 * n, 2 * (n + fraction), p);
    assert 2 * n * p == (2 * n - 1) * p + p;
    assert (n + fraction) * (2 * p) == 2 * (n + fraction) * p;
  }

  lemma {:induction false} SameMagnitude(f: Format, x: Float, y: Float)
    requires InFormat(f, x) && InFormat(f, y) && Magnitude(f, x) == Magnitude(f, y)
    ensures x.exponent == y.exponent && x.fraction == y.fraction
  {
    if x.exponent < y.exponent {
      Ascending(f, x, y);
    } else if y.exponent < x.exponent {
      Ascending(f, y, x);
    } else if x.exponent > 0 {
      SameFactor(f.fractions + x.fraction, f.fractions + y.fraction, Pow2(x.exponent - 1));
    }
  }

  lemma {:induction false} SameFactor(a: nat, b: nat, p: nat)
    requires p > 0 && a * p == b * p
    ensures a == b
  {
    if a < b {
      LargerFactor(a, b, p);
    } else if b < a {
      LargerFactor(b, a, p);
    }
  }

  lemma {:induction false} LargerFactor(a: nat, b: nat, p: nat)
    requires a < b && p > 0
    ensures a * p < b * p
  {
    Below(a + 1, b, p);
  }

  lemma {:induction false} NoMagnitude(f: Format, x: Float)
    requires InFormat(f, x)
    ensures Magnitude(f, x) == 0 <==> x.exponent == 0 && x.fraction == 0
  {
    if x.exponent > 0 {
      Ascending(f, Float(false, 0, 0), x);
    }
  }

  /** Two finite numbers have one value exactly when they are the same or are the two zeros. */
  lemma {:induction false} SameNumber(f: Format, x: Float, y: Float)
    requires InFormat(f, x) && InFormat(f, y)
    ensures NumberOf(f, x) == NumberOf(f, y) <==>
            x == y || (x.exponent == 0 && x.fraction == 0 && y.exponent == 0 && y.fraction == 0)
  {
    NoMagnitude(f, x);
    NoMagnitude(f, y);
    if Magnitude(f, x) == Magnitude(f, y) {
      SameMagnitude(f, x, y);
    }
  }

  // ----- equality of constants -----

  function FormatOf(kind: V.NumberKind): Format {
    if kind.Float32? then SINGLE else DOUBLE
  }

  /** Floating-point constants are equal exactly when their numbers are. */
  lemma {:induction false} EqualAsNumbers(kind: V.NumberKind, a: nat, b: nat)
    requires (kind.Float32? || kind.Float64?) && V.NumberInRange(kind, a) && V.NumberInRange(kind, b)
    ensures var f := FormatOf(kind);
            ConstantEq(Number(kind, a), Number(kind, b)) <==> EqualNumbers(f, FieldsOf(f, a), FieldsOf(f, b))
  {
    var f := FormatOf(kind);
    FieldsInFormat(kind, a);
    FieldsInFormat(kind, b);
    FieldsDetermine(kind, a, b);
    SameNumber(f, FieldsOf(f, a), FieldsOf(f, b));
  }

  lemma {:induction false} FieldsInFormat(kind: V.NumberKind, a: nat)
    requires (kind.Float32? || kind.Float64?) && V.NumberInRange(kind, a)
    ensures var f := FormatOf(kind);
            var x := FieldsOf(f, a);
            && InFormat(f, x) && (IsNaN(kind, a) <==> NotANumber(f, x))
            && (IsZero(kind, a) <==> x.exponent == 0 && x.fraction == 0)
  {
    if kind.Float32? {
      SingleFields(a);
    } else {
      DoubleFields(a);
    }
  }

  lemma {:induction false} SingleFields(a: nat)
    requires a < 0x1_0000_0000
    ensures var e, n := a / 0x80_0000 % 0x100, a % 0x80_0000;
            && a % 0x8000_0000 == e * 0x80_0000 + n
            && (a % 0x8000_0000 > 0x7f80_0000 <==> e == 0xff && n != 0)
            && (a % 0x8000_0000 == 0 <==> e == 0 && n == 0)
  {
  }

  lemma {:induction false} DoubleFields(a: nat)
    requires a < 0x1_0000_0000_0000_0000
    ensures var e, n := a / 0x10_0000_0000_0000 % 0x800, a % 0x10_0000_0000_0000;
            && a % 0x8000_0000_0000_0000 == e * 0x10_0000_0000_0000 + n
            && (a % 0x8000_0000_0000_0000 > 0x7ff0_0000_0000_0000 <==> e == 0x7ff && n != 0)
            && (a % 0x8000_0000_0000_0000 == 0 <==> e == 0 && n == 0)
  {
  }

  lemma {:induction false} FieldsDetermine(kind: V.NumberKind, a: nat, b: nat)
    requires (kind.Float32? || kind.Float64?) && V.NumberInRange(kind, a) && V.NumberInRange(kind, b)
    ensures FieldsOf(FormatOf(kind), a) == FieldsOf(FormatOf(kind), b) <==> a == b
  {
  }
}
