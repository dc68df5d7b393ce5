/** Numerals as they appear in symbol names, and the facts that make the text around them readable again. */
module Numerals {

  predicate IsDigit(c: char) {
    '0' <= c <= '9'
  }

  predicate IsHexDigit(c: char) {
    '0' <= c <= '9' || 'a' <= c <= 'f'
  }

  /** What may follow the name of a type or a value inside a longer name. */
  predicate DotOrEnd(x: string) {
    x == [] || x[0] == '.'
  }

  predicate DotFree(s: string) {
    forall i :: 0 <= i < |s| ==> s[i] != '.'
  }

  predicate NotDot(c: char) {
    c != '.'
  }

  function DigitChar(d: nat): (c: char)
    requires d < 16
    ensures IsHexDigit(c) && HexValue(c) == d
    ensures d < 10 ==> IsDigit(c)
  {
    if d < 10 then '0' + d as char else 'a' + (d - 10) as char
  }

  function HexValue(c: char): (v: nat)
    requires IsHexDigit(c)
    ensures v < 16
  {
    if c <= '9' then c as int - '0' as int else c as int - 'a' as int + 10
  }

  /** `{}` of an unsigned integer: decimal, without leading zeros. */
  function Decimal(n: nat): (s: string)
    ensures s != [] && forall i :: 0 <= i < |s| ==> IsDigit(s[i])
  {
    if n < 10 then [DigitChar(n)] else Decimal(n / 10) + [DigitChar(n % 10)]
  }

  function Pow16(w: nat): (r: nat)
    ensures r > 0
  {
    if w == 0 then 1 else 16 * Pow16(w - 1)
  }

  /** `{:08x}` and `{:016x}` of a value that fits into `w` hexadecimal digits. */
  function Hex(n: nat, w: nat): (s: string)
    ensures |s| == w && forall i :: 0 <= i < |s| ==> IsHexDigit(s[i])
    decreases w
  {
    if w == 0 then [] else Hex(n / 16, w - 1) + [DigitChar(n % 16)]
  }

  /** The number of leading characters of `s` that satisfy `p`. */
  function RunLength(s: string, p: char -> bool): (n: nat)
    ensures n <= |s|
    ensures forall i :: 0 <= i < n ==> p(s[i])
    ensures n < |s| ==> !p(s[n])
  {
    if s != [] && p(s[0]) then 1 + RunLength(s[1..], p) else 0
  }

  /** A run of characters that satisfy `p` ends where the next text starts, when that begins with another character. */
  lemma RunLengthIs(u: string, x: string, p: char -> bool)
    requires forall i :: 0 <= i < |u| ==> p(u[i])
    requires x != [] ==> !p(x[0])
    ensures RunLength(u + x, p) == |u|
  {
    assert forall i :: 0 <= i < |u| ==> (u + x)[i] == u[i];
    assert x != [] ==> (u + x)[|u|] == x[0];
  }

  lemma SplitRuns(u: string, x: string, v: string, y: string, p: char -> bool)
    requires forall i :: 0 <= i < |u| ==> p(u[i])
    requires forall i :: 0 <= i < |v| ==> p(v[i])
    requires x != [] ==> !p(x[0])
    requires y != [] ==> !p(y[0])
    requires u + x == v + y
    ensures u == v && x == y
  {
    RunLengthIs(u, x, p);
    RunLengthIs(v, y, p);
    assert u == (u + x)[..|u|] && v == (v + y)[..|v|];
    assert x == (u + x)[|u|..] && y == (v + y)[|v|..];
  }

  // ----- reading numerals -----

  function ValueOf(s: string, base: nat): nat
    requires forall i :: 0 <= i < |s| ==> IsHexDigit(s[i])
  {
    if s == [] then 0 else ValueOf(s[..|s| - 1], base) * base + HexValue(s[|s| - 1])
  }

  lemma {:induction false} DecimalValue(n: nat)
    ensures ValueOf(Decimal(n), 10) == n
  {
    if n >= 10 {
      DecimalValue(n / 10);
      var s := Decimal(n);
      assert s[..|s| - 1] == Decimal(n / 10);
    } else {
      assert Decimal(n)[..0] == [];
    }
  }

  lemma {:induction false} HexValueOf(n: nat, w: nat)
    requires n < Pow16(w)
    ensures ValueOf(Hex(n, w), 16) == n
  {
    if w > 0 {
      HexValueOf(n / 16, w - 1);
      var s := Hex(n, w);
      assert s[..w - 1] == Hex(n / 16, w - 1);
    }
  }

  lemma DecimalInjective(a: nat, b: nat)
    requires Decimal(a) == Decimal(b)
    ensures a == b
  {
    DecimalValue(a);
    DecimalValue(b);
  }

  /** A decimal numeral and what follows it can be told apart when no digit follows. */
  lemma SplitDecimal(a: nat, x: string, b: nat, y: string)
    requires x != [] ==> !IsDigit(x[0])
    requires y != [] ==> !IsDigit(y[0])
    requires Decimal(a) + x == Decimal(b) + y
    ensures a == b && x == y
  {
    SplitRuns(Decimal(a), x, Decimal(b), y, IsDigit);
    DecimalInjective(a, b);
  }

  predicate AllDigits(s: string) {
    forall i :: 0 <= i < |s| ==> IsDigit(s[i])
  }

  /** Reading with the wrap-around of an unsigned integer type: `modulus` is two to the power of its width. */
  function WrappedValue(s: string, base: nat, modulus: nat): (v: nat)
    requires modulus > 0
    requires forall i :: 0 <= i < |s| ==> IsHexDigit(s[i])
    ensures v < modulus
  {
    if s == [] then 0
    else (WrappedValue(s[..|s| - 1], base, modulus) * base % modulus + HexValue(s[|s| - 1])) % modulus
  }

  /** Reading with the wrap-around gives the remainder of the number that was written: `k` multiples are missing. */
  lemma {:induction false} WrappedIsRemainder(s: string, base: nat, modulus: nat) returns (k: nat)
    requires modulus > 0
    requires forall i :: 0 <= i < |s| ==> IsHexDigit(s[i])
    ensures ValueOf(s, base) == WrappedValue(s, base, modulus) + k * modulus
    ensures WrappedValue(s, base, modulus) < modulus
  {
    k := 0;
    if s != [] {
      var w, d := WrappedValue(s[..|s| - 1], base, modulus), HexValue(s[|s| - 1]);
      var k0 := WrappedIsRemainder(s[..|s| - 1], base, modulus);
      var k1, r := Divide(w * base, modulus);
      var k2, _ := Divide(r + d, modulus);
      Gather(w, k0, modulus, base, r, k1);
      k := k0 * base + k1 + k2;
      SumOfMultiples(k0 * base, k1, k2, modulus);
    }
  }

  lemma Divide(x: nat, m: nat) returns (k: nat, r: nat)
    requires m > 0
    ensures r == x % m && x == r + k * m
  {
    k, r := x / m, x % m;
  }

  lemma Gather(w: nat, k: nat, m: nat, base: nat, r: nat, k1: nat)
    requires w * base == r + k1 * m
    ensures (w + k * m) * base == r + k1 * m + (k * base) * m
  {
  }

  lemma SumOfMultiples(a: nat, b: nat, c: nat, m: nat)
    ensures (a + b + c) * m == a * m + b * m + c * m
  {
  }

  lemma {:induction false} WrappedValueFits(s: string, base: nat, modulus: nat)
    requires modulus > 0 && base > 0
    requires forall i :: 0 <= i < |s| ==> IsHexDigit(s[i])
    requires ValueOf(s, base) < modulus
    ensures WrappedValue(s, base, modulus) == ValueOf(s, base)
  {
    if s != [] {
      var v, h := ValueOf(s[..|s| - 1], base), HexValue(s[|s| - 1]);
      AtMostMultiple(v, base);
      WrappedValueFits(s[..|s| - 1], base, modulus);
      SmallModulo(v * base, modulus);
      SmallModulo(v * base + h, modulus);
    }
  }

  /** A leading zero does not count. */
  lemma {:induction false} LeadingZero(s: string, base: nat)
    requires forall i :: 0 <= i < |s| ==> IsHexDigit(s[i])
    ensures ValueOf("0" + s, base) == ValueOf(s, base)
  {
    if s == [] {
      assert "0" + s == "0" && "0"[..0] == [];
    } else {
      LeadingZero(s[..|s| - 1], base);
      assert ("0" + s)[..|s|] == "0" + s[..|s| - 1];
    }
  }

  /** A decimal numeral begins with zero only if it is zero. */
  lemma {:induction false} FirstDigit(n: nat)
    ensures Decimal(n)[0] == '0' <==> n == 0
  {
    if n >= 10 {
      FirstDigit(n / 10);
      assert Decimal(n)[0] == Decimal(n / 10)[0];
    }
  }

  lemma AtMostMultiple(v: nat, base: nat)
    requires base > 0
    ensures v <= v * base
  {
  }

  lemma SmallModulo(x: nat, m: nat)
    requires x < m
    ensures x % m == x
  {
  }
}
