/**
 * The texts of symbol names, written out: what the encoders write, what the decoders read and what is printed all
 * follow the tables and examples here.
 */
module SymbolSpelling {
  import opened Numerals
  import opened Options
  import opened Sequences
  import opened Typespec
  import opened TypeMangling
  import opened TypeDecoding
  import F = FunctionMangling
  import V = ValueMangling

  // ----- numerals -----

  const DIGITS: string := "0123456789abcdef"

  /** Numerals have their highest digit first; decimal ones have no zero in front. */
  lemma {:induction false} Digits(n: nat, d: nat)
    requires d < 10
    ensures Decimal(d) == [DIGITS[d]] && (n > 0 ==> Decimal(10 * n + d) == Decimal(n) + [DIGITS[d]])
    ensures IsDigit(DIGITS[d]) && HexValue(DIGITS[d]) == d
  {
    assert (10 * n + d) / 10 == n && (10 * n + d) % 10 == d;
    DigitIs(d);
  }

  /** Hexadecimal ones have a fixed width. */
  lemma {:induction false} HexDigits(n: nat, d: nat, w: nat)
    requires d < 16
    ensures Hex(n, 0) == "" && Hex(16 * n + d, w + 1) == Hex(n, w) + [DIGITS[d]]
    ensures IsHexDigit(DIGITS[d]) && HexValue(DIGITS[d]) == d && (IsDigit(DIGITS[d]) <==> d < 10)
  {
    assert (16 * n + d) / 16 == n && (16 * n + d) % 16 == d;
    DigitIs(d);
  }

  lemma {:induction false} DigitIs(d: nat)
    requires d < 16
    ensures DigitChar(d) == DIGITS[d] && (IsDigit(DIGITS[d]) <==> d < 10)
  {
  }

  // ----- types -----

  /** How a modifier is written in a symbol name and how it is printed. */
  datatype Row = Row(modifier: Modifier, symbol: string, text: string)

  const MODIFIERS: seq<Row> := [
    Row(Mut, "mut.", "mut "),
    Row(Consteval, "consteval.", "consteval "),
    Row(Pointer, "0P.", "*"),
    Row(Optional, "0O.", "?"),
    Row(LvalueReference, "0R.", "&"),
    Row(MoveReference, "0M.", "move ")
  ]

  /** Names, printed types and the decoder follow the table. */
  lemma {:induction false} ModifiersAreSpelled(k: nat, ms: seq<Modifier>, t: Terminator, u: string, names: Names)
    requires k < |MODIFIERS| && GoodNames(names) && HasSymbolName(Type(ms, t))
    ensures var row := MODIFIERS[k];
            var more := Type([row.modifier] + ms, t);
            && HasSymbolName(more)
            && SymbolName(more, names) == row.symbol + SymbolName(Type(ms, t), names)
            && Format(more, names) == row.text + Format(Type(ms, t), names)
            && Decode(row.symbol + u) == Prepend(row.text, Decode(u))
  {
    var row := MODIFIERS[k];
    assert ModifierName(row.modifier) == row.symbol && ModifierText(row.modifier) == row.text;
    assert ([row.modifier] + ms)[0] == row.modifier && ([row.modifier] + ms)[1..] == ms;
    DecodeModifier(row.modifier, u);
    Associate(row.symbol, ModifierNames(ms), TerminatorName(t, names));
    Associate(row.text, ModifierTexts(ms), TerminatorText(t, names));
  }

  /** A variadic type has no dot behind its mark. */
  lemma {:induction false} VariadicIsSpelled(ms: seq<Modifier>, t: Terminator, names: Names)
    requires GoodNames(names) && HasSymbolName(Type(ms, t))
    ensures var more := Type([Variadic] + ms, t);
            && HasSymbolName(more)
            && SymbolName(more, names) == "0V" + SymbolName(Type(ms, t), names)
            && Format(more, names) == "..." + Format(Type(ms, t), names)
  {
    assert ([Variadic] + ms)[0] == Variadic && ([Variadic] + ms)[1..] == ms;
    Associate("0V", ModifierNames(ms), TerminatorName(t, names));
    Associate("...", ModifierTexts(ms), TerminatorText(t, names));
  }

  function Plain(t: Terminator): Type {
    Type([], t)
  }

  /** Types without modifiers: declared ones, `void` and `typename`. */
  lemma {:induction false} WordsAreSpelled(n: nat, names: Names)
    requires GoodNames(names)
    ensures SymbolName(Plain(BaseType(n)), names) == names.base(n)
    ensures SymbolName(Plain(Enum(n)), names)
         == (if names.enumGlobal(n) then "enum." else "non_global_enum.") + names.enumName(n)
    ensures SymbolName(Plain(Void), names) == "void" && SymbolName(Plain(Typename), names) == "0N"
    ensures Format(Plain(Enum(n)), names) == names.enumName(n)
    ensures Format(Plain(Void), names) == "void" && Format(Plain(Typename), names) == "typename"
    ensures forall s :: names.base(n) == "struct." + s ==> Format(Plain(BaseType(n)), names) == s
    ensures forall s :: names.base(n) == "builtin." + s ==> Format(Plain(BaseType(n)), names) == s
    ensures forall s :: names.base(n) == "non_global_struct." + s ==> Format(Plain(BaseType(n)), names) == s
  {
    forall s | names.base(n) == "struct." + s ensures Format(Plain(BaseType(n)), names) == s {
      Cut("struct.", s);
    }
    forall s | names.base(n) == "builtin." + s ensures Format(Plain(BaseType(n)), names) == s {
      Cut("builtin.", s);
    }
    forall s | names.base(n) == "non_global_struct." + s ensures Format(Plain(BaseType(n)), names) == s {
      Cut("non_global_struct.", s);
    }
  }

  lemma {:induction false} ArraysAreSpelled(n: nat, elem: Type, names: Names)
    requires GoodNames(names) && HasSymbolName(elem)
    ensures SymbolName(Plain(Array(n, elem)), names) == "0A." + Decimal(n) + "." + SymbolName(elem, names)
    ensures SymbolName(Plain(Slice(elem)), names) == "0S." + SymbolName(elem, names)
    ensures Format(Plain(Slice(elem)), names) == "[: " + Format(elem, names) + "]"
  {
    NoModifiers(Array(n, elem), names);
    NoModifiers(Slice(elem), names);
  }

  /** Arrays of arrays are printed with all sizes in front. */
  lemma {:induction false} ArraysArePrinted(n: nat, m: nat, elem: Type, names: Names)
    requires GoodNames(names) && HasSymbolName(elem) && (elem.modifiers != [] || !elem.terminator.Array?)
    requires n > 0 && m > 0
    ensures Format(Plain(Array(n, elem)), names) == "[" + (Decimal(n) + (": " + Format(elem, names) + "]"))
    ensures Format(Plain(Array(n, Plain(Array(m, elem)))), names)
         == "[" + (Decimal(n) + (", " + Decimal(m) + (": " + Format(elem, names) + "]")))
  {
    NoModifiers(Array(n, elem), names);
    NoModifiers(Array(n, Plain(Array(m, elem))), names);
    Associate("[", Decimal(n), ArrayTail(elem, names));
    Associate("[", Decimal(n), ArrayTail(Plain(Array(m, elem)), names));
  }

  /** Types that have no symbol name are printed all the same. */
  lemma {:induction false} OpenTypesArePrinted(ms: seq<Modifier>, t: Terminator, elem: Type, names: Names)
    requires GoodNames(names) && !t.Missing? && (elem.modifiers != [] || !elem.terminator.Array?)
    ensures Format(Type([AutoReference] + ms, t), names) == "#" + Format(Type(ms, t), names)
    ensures Format(Type([AutoReferenceMut] + ms, t), names) == "##" + Format(Type(ms, t), names)
    ensures Format(Plain(Auto), names) == "auto" && Format(Plain(Unresolved), names) == "<unresolved>"
    ensures Format(Plain(Missing), names) == "<error-type>"
    ensures Format(Plain(Array(0, elem)), names) == "[" + "??" + (": " + Format(elem, names) + "]")
  {
    assert ([AutoReference] + ms)[1..] == ms && ([AutoReferenceMut] + ms)[1..] == ms;
    Associate("#", ModifierTexts(ms), TerminatorText(t, names));
    Associate("##", ModifierTexts(ms), TerminatorText(t, names));
    Printed(Auto, names);
    Printed(Unresolved, names);
    Printed(Missing, names);
    Printed(Array(0, elem), names);
  }

  lemma {:induction false} Printed(t: Terminator, names: Names)
    requires GoodNames(names)
    ensures Format(Plain(t), names) == TerminatorText(t, names)
  {
  }

  lemma {:induction false} NoModifiers(t: Terminator, names: Names)
    requires GoodNames(names) && HasSymbolName(Plain(t))
    ensures SymbolName(Plain(t), names) == TerminatorName(t, names)
    ensures Format(Plain(t), names) == TerminatorText(t, names)
  {
  }

  /** Lists of types have their length in front in a name. */
  lemma {:induction false} ListsAreSpelled(a: Type, b: Type, r: Type, cc: nat, names: Names)
    requires GoodNames(names) && HasSymbolName(a) && HasSymbolName(b) && HasSymbolName(r)
    ensures SymbolName(Plain(Tuple([a, b])), names)
         == "0T." + "2" + ("." + SymbolName(a, names) + ("." + SymbolName(b, names)))
    ensures SymbolName(Plain(Function(cc, [a, b], r)), names)
         == "0F." + Decimal(cc) + "." + "2" + ("." + SymbolName(a, names) + ("." + SymbolName(b, names)))
            + "." + SymbolName(r, names)
  {
    NoModifiers(Tuple([a, b]), names);
    NoModifiers(Function(cc, [a, b], r), names);
    TwoNames(a, b, names);
    assert Decimal(2) == "2";
  }

  /** They have commas between them in print. */
  lemma {:induction false} ListsArePrinted(a: Type, b: Type, r: Type, cc: nat, names: Names)
    requires GoodNames(names) && HasSymbolName(a) && HasSymbolName(b) && HasSymbolName(r)
    ensures Format(Plain(Tuple([a, b])), names) == "[" + (Format(a, names) + ", " + Format(b, names)) + "]"
    ensures Format(Plain(Function(cc, [a, b], r)), names)
         == "function(" + (Format(a, names) + ", " + Format(b, names)) + ") -> " + Format(r, names)
  {
    NoModifiers(Tuple([a, b]), names);
    NoModifiers(Function(cc, [a, b], r), names);
    TwoNames(a, b, names);
  }

  lemma {:induction false} EmptyTupleIsSpelled(names: Names)
    requires GoodNames(names)
    ensures SymbolName(Plain(Tuple([])), names) == "0T.0" && Format(Plain(Tuple([])), names) == "[]"
  {
    NoModifiers(Tuple([]), names);
    assert Decimal(0) == "0" && DottedNames([], names) == "";
  }

  lemma {:induction false} TwoNames(a: Type, b: Type, names: Names)
    requires GoodNames(names) && HasSymbolName(a) && HasSymbolName(b)
    ensures DottedNames([a, b], names) == "." + SymbolName(a, names) + ("." + SymbolName(b, names))
    ensures Commas([a, b], names) == Format(a, names) + ", " + Format(b, names)
  {
    assert [a, b][1..] == [b] && [b][1..] == [];
    assert DottedNames([b], names) == "." + SymbolName(b, names);
  }

  const CONVENTIONS: seq<string> := ["c", "fast", "std"]

  /** The decoder prints the calling convention of a function. */
  lemma {:induction false} ConventionsArePrinted(cc: nat, i: nat, j: nat, names: Names)
    requires cc < |CONVENTIONS| && GoodNames(names)
    ensures Decode("0F." + (Decimal(cc) + ("." + (Decimal(1) + ("." + (names.base(i) + ("." + names.base(j))))))))
         == Some(Decoded("function \"" + CONVENTIONS[cc] + "\" (" + BaseText(names.base(i)) + ") -> "
                         + BaseText(names.base(j)), ""))
  {
    var back := "." + names.base(j);
    DecodeFunctionName(cc, 1, names.base(i) + back);
    DecodeBaseName(names.base(i), back);
    DecodeBaseName(names.base(j), "");
    SingleList(names.base(i) + back);
    Cut(".", names.base(j));
    assert names.base(j) + "" == names.base(j);
  }

  // ----- constant values -----

  /** How the kinds of numbers are marked, alone and in an array. */
  datatype Mark = Mark(kind: V.NumberKind, alone: char, inArray: char)

  const MARKS: seq<Mark> := [
    Mark(V.SInt, 'i', 'I'), Mark(V.UInt, 'u', 'U'), Mark(V.Float32, 'f', 'G'), Mark(V.Float64, 'd', 'D')
  ]

  lemma {:induction false} NumbersAreSpelled(k: nat, n: int, m: int)
    requires k < |MARKS| && V.NumberInRange(MARKS[k].kind, n) && V.NumberInRange(MARKS[k].kind, m)
    ensures V.Encode(V.Number(MARKS[k].kind, n)) == [MARKS[k].alone] + V.NumberText(MARKS[k].kind, n)
    ensures V.Encode(V.NumberArray(MARKS[k].kind, [n, m]))
         == [MARKS[k].inArray]
            + ("2." + (V.NumberText(MARKS[k].kind, n) + ("." + V.NumberText(MARKS[k].kind, m))))
  {
    TwoNumbers(MARKS[k].kind, n, m);
    assert V.NumberTag(MARKS[k].kind) == MARKS[k].alone && V.NumberArrayTag(MARKS[k].kind) == MARKS[k].inArray;
  }

  /** Integers are decimal, floating-point numbers are the hexadecimal digits of their bits. */
  lemma {:induction false} NumberTexts(n: int)
    requires 0 <= n < 0x1_0000_0000
    ensures V.NumberText(V.SInt, n) == Decimal(n) && V.NumberText(V.UInt, n) == Decimal(n)
    ensures V.NumberText(V.Float32, n) == Hex(n, 8) && V.NumberText(V.Float64, n) == Hex(n, 16)
  {
  }

  lemma {:induction false} TwoNumbers(kind: V.NumberKind, n: int, m: int)
    requires V.NumberInRange(kind, n) && V.NumberInRange(kind, m)
    ensures V.Encode(V.NumberArray(kind, [n, m]))
         == [V.NumberArrayTag(kind)] + ("2." + (V.NumberText(kind, n) + ("." + V.NumberText(kind, m))))
  {
    var a, b := V.NumberText(kind, n), V.NumberText(kind, m);
    assert [n, m][1..] == [m] && [m][1..] == [];
    assert V.NumberItems(kind, [m]) == "." + b;
    assert V.NumberItems(kind, [n, m]) == "." + (a + ("." + b));
    assert Decimal(2) == "2" && "2." == "2" + ".";
    Associate("2", ".", a + ("." + b));
  }

  /** A negative number is written as its two's complement in 64 bits. */
  lemma {:induction false} NegativeIsSpelled(n: int)
    requires -0x8000_0000_0000_0000 <= n < 0
    ensures V.Encode(V.Number(V.SInt, n)) == "i" + Decimal(0x1_0000_0000_0000_0000 + n)
  {
  }

  lemma {:induction false} ScalarsAreSpelled(c: nat, s: string, e: string, bits: nat)
    requires c < 0x1_0000_0000 && |s| < 0x1_0000_0000_0000_0000 && DotFree(e) && bits < 0x1_0000_0000_0000_0000
    ensures V.Encode(V.Char(c)) == "c" + Decimal(c) && V.Encode(V.Str(s)) == "s" + (Decimal(|s|) + ("." + s))
    ensures V.Encode(V.Boolean(true)) == "b1" && V.Encode(V.Boolean(false)) == "b0"
    ensures V.Encode(V.Null) == "n" && V.Encode(V.Void) == "v"
    ensures V.Encode(V.Function(s)) == "F" + (Decimal(|s|) + ("." + s))
    ensures V.Encode(V.TypeName(s)) == "t" + (Decimal(|s|) + ("." + s))
    ensures s != [] ==> V.Encode(V.EnumName(e, s)) == "e" + (e + ("." + (Decimal(|s|) + ("." + s))))
    ensures V.Encode(V.EnumNumber(e, true, bits)) == "e" + (e + ("." + ("0" + Decimal(bits))))
    ensures V.Encode(V.EnumNumber(e, false, bits)) == "e" + (e + ("." + Decimal(bits)))
  {
    assert "" + Decimal(bits) == Decimal(bits);
  }

  function ListLetter(kind: V.ListKind): char {
    match kind
    case Array => 'A'
    case Tuple => 'T'
    case Aggregate => 'a'
  }

  lemma {:induction false} ValueListsAreSpelled(kind: V.ListKind, v: V.Value, w: V.Value)
    requires V.InRange(v) && V.InRange(w)
    ensures V.InRange(V.List(kind, [v, w]))
    ensures V.Encode(V.List(kind, [v, w]))
         == [ListLetter(kind)] + ("2" + ("." + (V.Encode(v) + ("." + V.Encode(w)))))
  {
    ListBody(kind, v, w);
  }

  lemma {:induction false} ListBody(kind: V.ListKind, v: V.Value, w: V.Value)
    requires V.InRange(v) && V.InRange(w)
    ensures V.InRange(V.List(kind, [v, w]))
    ensures V.Body(V.List(kind, [v, w])) == "2" + ("." + (V.Encode(v) + ("." + V.Encode(w))))
  {
    TwoItems(v, w);
    assert Decimal(2) == "2";
  }

  lemma {:induction false} TwoItems(v: V.Value, w: V.Value)
    requires V.InRange(v) && V.InRange(w)
    ensures V.Items([v, w]) == "." + (V.Encode(v) + ("." + V.Encode(w)))
  {
    assert [v, w][1..] == [w] && [w][1..] == [];
    assert V.Items([w]) == "." + V.Encode(w);
  }

  // ----- functions -----

  lemma {:induction false} FunctionNamesAreSpelled(a: string, b: string, op: nat)
    requires a != [] && b != [] && DotFree(a) && DotFree(b)
    ensures F.NameText(F.Operator(op)) == "op." + Decimal(op)
    ensures F.NameText(F.Named([a])) == "func." + a && F.NameText(F.Named([a, b])) == "func." + (a + ("." + b))
  {
    assert [a, b][1..] == [b];
    assert F.Joined([b]) == b && F.Joined([a, b]) == a + ("." + F.Joined([a, b][1..]));
  }

  /** Two parameters, of which the second has a constant. */
  lemma {:induction false} ParametersAreSpelled(t: Type, u: Type, v: V.Value, names: Names)
    requires HasSymbolName(t) && HasSymbolName(u) && V.InRange(v)
    ensures F.ParamsText([], names) == ""
    ensures F.ParamsText([F.Param(t, None), F.Param(u, Some(v))], names)
         == "." + (SymbolName(t, names) + ("." + (SymbolName(u, names) + ("." + V.Encode(v)))))
  {
    var ps := [F.Param(t, None), F.Param(u, Some(v))];
    assert ps[1..] == [F.Param(u, Some(v))];
    F.ParamStart(ps, "", names);
    F.ParamStart(ps[1..], "", names);
    F.ValueStart(Some(v), "");
    F.Nothing(F.ParamsText(ps, names));
    F.Nothing(V.Encode(v));
    assert ps[1..][1..] == [];
    assert F.ValueText(None) + F.ParamsText(ps[1..], names) == F.ParamsText(ps[1..], names);
  }

  /** The number of parameters stands behind two dots, and the return type at the end. */
  lemma {:induction false} FunctionsAreSpelled(op: nat, r: Type, names: Names)
    requires HasSymbolName(r)
    ensures F.Symbol(F.Signature(F.Operator(op), [], r), names)
         == "op." + Decimal(op) + (".." + ("0" + ("." + SymbolName(r, names))))
  {
    assert Decimal(0) == "0";
    assert "" + ("." + SymbolName(r, names)) == "." + SymbolName(r, names);
  }
}
