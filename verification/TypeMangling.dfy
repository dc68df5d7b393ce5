/**
 * `typespec_view::get_symbol_name` of src/ast/typespec.cpp: a type's name is a prefix code. Two types with the same
 * name are the same type, and a name can be told apart from any text behind it that starts with a dot.
 */
module TypeMangling {
  import opened Typespec
  import opened Numerals
  import opened Sequences

  /** The names of declarations: a struct's whole symbol name, an enum's name and whether it is a global one. */
  datatype Names = Names(base: nat -> string, enumName: nat -> string, enumGlobal: nat -> bool)

  const BUILTIN: string := "builtin."
  const STRUCT: string := "struct."
  const NON_GLOBAL_STRUCT: string := "non_global_struct."
  const ENUM: string := "enum."
  const NON_GLOBAL_ENUM: string := "non_global_enum."

  /** Unresolved, auto and empty types, and auto references, have no symbol name: the code marks them unreachable. */
  predicate HasSymbolName(t: Type) {
    && (forall i :: 0 <= i < |t.modifiers| ==> !t.modifiers[i].AutoReference? && !t.modifiers[i].AutoReferenceMut?)
    && match t.terminator {
         case Unresolved | Auto | Missing => false
         case BaseType(_) | Enum(_) | Void | Typename => true
         case Function(_, params, returnType) =>
           (forall i :: 0 <= i < |params| ==> HasSymbolName(params[i])) && HasSymbolName(returnType)
         case Array(_, elem) => HasSymbolName(elem)
         case Slice(elem) => HasSymbolName(elem)
         case Tuple(types) => forall i :: 0 <= i < |types| ==> HasSymbolName(types[i])
       }
  }

  function ModifierName(m: Modifier): (s: string)
  {
    match m
    case Mut => "mut."
    case Consteval => "consteval."
    case Pointer => "0P."
    case Optional => "0O."
    case LvalueReference => "0R."
    case MoveReference => "0M."
    case Variadic => "0V"
    case AutoReference | AutoReferenceMut => ""
  }

  function SymbolName(t: Type, names: Names): string
    requires HasSymbolName(t)
    decreases t, |t.modifiers|
  {
    ModifierNames(t.modifiers) + TerminatorName(t.terminator, names)
  }

  function ModifierNames(ms: seq<Modifier>): string {
    if ms == [] then "" else ModifierName(ms[0]) + ModifierNames(ms[1..])
  }

  function TerminatorName(t: Terminator, names: Names): string
    requires HasSymbolName(Type([], t))
    decreases t
  {
    match t
    case BaseType(info) => names.base(info)
    case Enum(decl) => (if names.enumGlobal(decl) then ENUM else NON_GLOBAL_ENUM) + names.enumName(decl)
    case Array(size, elem) => "0A." + Decimal(size) + "." + SymbolName(elem, names)
    case Slice(elem) => "0S." + SymbolName(elem, names)
    case Void => "void"
    case Tuple(types) => "0T." + Decimal(|types|) + DottedNames(types, names)
    case Typename => "0N"
    case Function(cc, params, returnType) =>
      "0F." + Decimal(cc) + "." + Decimal(|params|) + DottedNames(params, names) + "." + SymbolName(returnType, names)
  }

  /** A dot and a name for each of the types. */
  function DottedNames(ts: seq<Type>, names: Names): string
    requires forall i :: 0 <= i < |ts| ==> HasSymbolName(ts[i])
  {
    if ts == [] then "" else "." + SymbolName(ts[0], names) + DottedNames(ts[1..], names)
  }

  // ----- the names of declarations -----

  /** `prefix` is one of the three that struct declarations get, and no dot follows it. */
  predicate IsBaseName(s: string) {
    || (BUILTIN <= s && DotFree(s[|BUILTIN|..]))
    || (STRUCT <= s && DotFree(s[|STRUCT|..]))
    || (NON_GLOBAL_STRUCT <= s && DotFree(s[|NON_GLOBAL_STRUCT|..]))
  }

  ghost predicate GoodNames(names: Names) {
    && (forall i :: IsBaseName(names.base(i)))
    && (forall i, j :: names.base(i) == names.base(j) ==> i == j)
    && (forall i :: DotFree(names.enumName(i)))
    && (forall i, j :: names.enumName(i) == names.enumName(j) && names.enumGlobal(i) == names.enumGlobal(j) ==> i == j)
  }

  // ----- telling names apart by their first characters -----

  /** The length of the prefix that decides which case a name is in; base names keep their own prefix. */
  function Kind(s: string): nat {
    if s == [] then 0
    else if s[0] == 'm' then 1
    else if s[0] == 'c' then 2
    else if s[0] == 'v' then 3
    else if s[0] == 'b' then 4
    else if s[0] == 's' then 5
    else if s[0] == 'e' then 6
    else if s[0] == 'n' then (if |s| > 11 && s[11] == 's' then 7 else 8)
    else if |s| < 2 then 9
    else 10 + s[1] as nat
  }

  function ModifierKind(m: Modifier): nat {
    match m
    case Mut => 1
    case Consteval => 2
    case Pointer => 10 + 'P' as nat
    case Optional => 10 + 'O' as nat
    case LvalueReference => 10 + 'R' as nat
    case MoveReference => 10 + 'M' as nat
    case Variadic => 10 + 'V' as nat
    case AutoReference | AutoReferenceMut => 0
  }

  lemma ModifierHasKind(m: Modifier, rest: string)
    requires !m.AutoReference? && !m.AutoReferenceMut?
    ensures Kind(ModifierName(m) + rest) == ModifierKind(m)
  {
  }

  function TerminatorKind(t: Terminator, names: Names): nat {
    match t
    case BaseType(info) => Kind(names.base(info))
    case Enum(decl) => if names.enumGlobal(decl) then 6 else 8
    case Void => 3
    case Array(_, _) => 10 + 'A' as nat
    case Slice(_) => 10 + 'S' as nat
    case Tuple(_) => 10 + 'T' as nat
    case Typename => 10 + 'N' as nat
    case Function(_, _, _) => 10 + 'F' as nat
    case _ => 0
  }

  /** Base names have a kind of their own, which what follows them does not change. */
  lemma BaseHasKind(s: string, rest: string)
    requires IsBaseName(s)
    ensures Kind(s + rest) == Kind(s) && Kind(s) in {4, 5, 7}
  {
  }

  lemma TerminatorHasKind(t: Terminator, names: Names, rest: string)
    requires GoodNames(names) && HasSymbolName(Type([], t))
    ensures Kind(TerminatorName(t, names) + rest) == TerminatorKind(t, names)
    ensures forall m: Modifier :: ModifierKind(m) != TerminatorKind(t, names)
    ensures t.BaseType? ==> TerminatorKind(t, names) in {4, 5, 7}
  {
    var s := TerminatorName(t, names);
    TerminatorIsNoModifier(t, names);
    match t
    case BaseType(info) => BaseHasKind(names.base(info), rest);
    case Enum(decl) => EnumHasKind(names.enumGlobal(decl), names.enumName(decl) + rest);
    case Array(size, elem) => HasMark(s, 'A', rest);
    case Slice(elem) => HasMark(s, 'S', rest);
    case Tuple(types) => HasMark(s, 'T', rest);
    case Function(cc, params, returnType) => HasMark(s, 'F', rest);
    case _ =>
  }

  lemma TerminatorIsNoModifier(t: Terminator, names: Names)
    requires GoodNames(names) && HasSymbolName(Type([], t))
    ensures forall m: Modifier :: ModifierKind(m) != TerminatorKind(t, names)
    ensures t.BaseType? ==> TerminatorKind(t, names) in {4, 5, 7}
  {
  }

  lemma HasMark(s: string, c: char, rest: string)
    requires |s| >= 2 && s[0] == '0' && s[1] == c
    ensures Kind(s + rest) == 10 + c as nat
  {
  }

  lemma EnumHasKind(global: bool, rest: string)
    ensures Kind((if global then ENUM else NON_GLOBAL_ENUM) + rest) == if global then 6 else 8
  {
  }

  lemma StripPrefix(p: string, u: string, v: string)
    requires p + u == p + v
    ensures u == v
  {
    assert u == (p + u)[|p|..] && v == (p + v)[|p|..];
  }

  // ----- unique decodability -----

  /**
   * Names are a prefix code up to dots: when two names, each followed by nothing or by a text that starts with a dot,
   * give the same string, the types are the same and so is what follows.
   */
  lemma {:induction false} UniquelyDecodable(a: Type, x: string, b: Type, y: string, names: Names)
    requires GoodNames(names) && HasSymbolName(a) && HasSymbolName(b) && DotOrEnd(x) && DotOrEnd(y)
    requires SymbolName(a, names) + x == SymbolName(b, names) + y
    ensures a == b && x == y
    decreases a.terminator, 2 + |a.modifiers|
  {
    PeelModifier(a, x, names);
    PeelModifier(b, y, names);
    if a.modifiers == [] {
      TerminatorUnique(a.terminator, x, b.terminator, y, names);
    } else {
      var a', b' := Type(a.modifiers[1..], a.terminator), Type(b.modifiers[1..], b.terminator);
      StripPrefix(ModifierName(a.modifiers[0]), SymbolName(a', names) + x, SymbolName(b', names) + y);
      UniquelyDecodable(a', x, b', y, names);
      assert a.modifiers == [a.modifiers[0]] + a'.modifiers;
      assert b.modifiers == [b.modifiers[0]] + b'.modifiers;
    }
  }

  /** The first characters of a name tell its first modifier, or that there is none. */
  lemma PeelModifier(t: Type, x: string, names: Names)
    requires GoodNames(names) && HasSymbolName(t)
    ensures t.modifiers == [] ==>
              && SymbolName(t, names) + x == TerminatorName(t.terminator, names) + x
              && Kind(SymbolName(t, names) + x) == TerminatorKind(t.terminator, names)
              && forall m: Modifier :: ModifierKind(m) != Kind(SymbolName(t, names) + x)
    ensures t.modifiers != [] ==>
              && SymbolName(t, names) + x
                 == ModifierName(t.modifiers[0]) + (SymbolName(Type(t.modifiers[1..], t.terminator), names) + x)
              && Kind(SymbolName(t, names) + x) == ModifierKind(t.modifiers[0])
  {
    if t.modifiers == [] {
      TerminatorHasKind(t.terminator, names, x);
    } else {
      ModifierHasKind(t.modifiers[0], SymbolName(Type(t.modifiers[1..], t.terminator), names) + x);
    }
  }

  lemma SameKindSameCase(a: Terminator, b: Terminator, names: Names)
    requires GoodNames(names) && HasSymbolName(Type([], a)) && HasSymbolName(Type([], b))
    requires TerminatorKind(a, names) == TerminatorKind(b, names)
    ensures a.BaseType? == b.BaseType? && a.Enum? == b.Enum? && a.Void? == b.Void? && a.Function? == b.Function?
    ensures a.Array? == b.Array? && a.Slice? == b.Slice? && a.Tuple? == b.Tuple? && a.Typename? == b.Typename?
    ensures a.Enum? ==> names.enumGlobal(a.decl) == names.enumGlobal(b.decl)
  {
    TerminatorHasKind(a, names, "");
    TerminatorHasKind(b, names, "");
  }

  lemma {:induction false} TerminatorUnique(a: Terminator, x: string, b: Terminator, y: string, names: Names)
    requires GoodNames(names) && HasSymbolName(Type([], a)) && HasSymbolName(Type([], b)) && DotOrEnd(x) && DotOrEnd(y)
    requires TerminatorName(a, names) + x == TerminatorName(b, names) + y
    ensures a == b && x == y
    decreases a, 1
  {
    TerminatorHasKind(a, names, x);
    TerminatorHasKind(b, names, y);
    SameKindSameCase(a, b, names);
    match a
    case BaseType(i) => BaseNameSplit(names.base(i), x, names.base(b.info), y);
    case Enum(i) => EnumUnique(i, x, b.decl, y, names);
    case Void => StripPrefix("void", x, y);
    case Typename => StripPrefix("0N", x, y);
    case Array(_, _) => ArrayUnique(a, x, b, y, names);
    case Slice(_) => SliceUnique(a, x, b, y, names);
    case Tuple(_) => TupleUnique(a, x, b, y, names);
    case Function(_, _, _) => FunctionUnique(a, x, b, y, names);
  }

  // a name and what follows it, cut at the dots

  lemma ArrayNameParts(t: Terminator, x: string, names: Names)
    requires t.Array? && HasSymbolName(Type([], t))
    ensures TerminatorName(t, names) + x == "0A." + (Decimal(t.size) + ("." + (SymbolName(t.elem, names) + x)))
  {
  }

  lemma TupleNameParts(t: Terminator, x: string, names: Names)
    requires t.Tuple? && HasSymbolName(Type([], t))
    ensures TerminatorName(t, names) + x == "0T." + (Decimal(|t.types|) + (DottedNames(t.types, names) + x))
  {
  }

  lemma FunctionNameParts(t: Terminator, x: string, names: Names)
    requires t.Function? && HasSymbolName(Type([], t))
    ensures TerminatorName(t, names) + x ==
            "0F." + (Decimal(t.cc) + ("." + (Decimal(|t.params|)
            + (DottedNames(t.params, names) + ("." + (SymbolName(t.returnType, names) + x))))))
  {
  }

  lemma {:induction false} ArrayUnique(a: Terminator, x: string, b: Terminator, y: string, names: Names)
    requires a.Array? && b.Array?
    requires GoodNames(names) && HasSymbolName(Type([], a)) && HasSymbolName(Type([], b)) && DotOrEnd(x) && DotOrEnd(y)
    requires TerminatorName(a, names) + x == TerminatorName(b, names) + y
    ensures a == b && x == y
    decreases a, 0
  {
    var na, nb := SymbolName(a.elem, names) + x, SymbolName(b.elem, names) + y;
    ArrayNameParts(a, x, names);
    ArrayNameParts(b, y, names);
    StripPrefix("0A.", Decimal(a.size) + ("." + na), Decimal(b.size) + ("." + nb));
    SplitDecimal(a.size, "." + na, b.size, "." + nb);
    StripPrefix(".", na, nb);
    UniquelyDecodable(a.elem, x, b.elem, y, names);
  }

  lemma SliceNameParts(t: Terminator, x: string, names: Names)
    requires t.Slice? && HasSymbolName(Type([], t))
    ensures TerminatorName(t, names) + x == "0S." + (SymbolName(t.sliceElem, names) + x)
  {
    Associate("0S.", SymbolName(t.sliceElem, names), x);
  }

  lemma {:induction false} SliceUnique(a: Terminator, x: string, b: Terminator, y: string, names: Names)
    requires a.Slice? && b.Slice?
    requires GoodNames(names) && HasSymbolName(Type([], a)) && HasSymbolName(Type([], b)) && DotOrEnd(x) && DotOrEnd(y)
    requires TerminatorName(a, names) + x == TerminatorName(b, names) + y
    ensures a == b && x == y
    decreases a, 0
  {
    SliceNameParts(a, x, names);
    SliceNameParts(b, y, names);
    StripPrefix("0S.", SymbolName(a.sliceElem, names) + x, SymbolName(b.sliceElem, names) + y);
    UniquelyDecodable(a.sliceElem, x, b.sliceElem, y, names);
  }

  lemma {:induction false} TupleUnique(a: Terminator, x: string, b: Terminator, y: string, names: Names)
    requires a.Tuple? && b.Tuple?
    requires GoodNames(names) && HasSymbolName(Type([], a)) && HasSymbolName(Type([], b)) && DotOrEnd(x) && DotOrEnd(y)
    requires TerminatorName(a, names) + x == TerminatorName(b, names) + y
    ensures a == b && x == y
    decreases a, 0
  {
    var u, v := DottedNames(a.types, names) + x, DottedNames(b.types, names) + y;
    DottedIsDotOrEnd(a.types, x, names);
    DottedIsDotOrEnd(b.types, y, names);
    TupleNameParts(a, x, names);
    TupleNameParts(b, y, names);
    StripPrefix("0T.", Decimal(|a.types|) + u, Decimal(|b.types|) + v);
    SplitDecimal(|a.types|, u, |b.types|, v);
    ListUnique(a.types, x, b.types, y, names);
  }

  lemma EnumUnique(i: nat, x: string, j: nat, y: string, names: Names)
    requires GoodNames(names) && DotOrEnd(x) && DotOrEnd(y)
    requires names.enumGlobal(i) == names.enumGlobal(j)
    requires TerminatorName(Enum(i), names) + x == TerminatorName(Enum(j), names) + y
    ensures i == j && x == y
  {
    var p := if names.enumGlobal(i) then ENUM else NON_GLOBAL_ENUM;
    assert TerminatorName(Enum(i), names) + x == p + (names.enumName(i) + x);
    assert TerminatorName(Enum(j), names) + y == p + (names.enumName(j) + y);
    StripPrefix(p, names.enumName(i) + x, names.enumName(j) + y);
    SplitRuns(names.enumName(i), x, names.enumName(j), y, NotDot);
  }

  lemma {:induction false} FunctionUnique(a: Terminator, x: string, b: Terminator, y: string, names: Names)
    requires a.Function? && b.Function?
    requires GoodNames(names) && HasSymbolName(Type([], a)) && HasSymbolName(Type([], b)) && DotOrEnd(x) && DotOrEnd(y)
    requires TerminatorName(a, names) + x == TerminatorName(b, names) + y
    ensures a == b && x == y
    decreases a, 0
  {
    FunctionNameParts(a, x, names);
    FunctionNameParts(b, y, names);
    var na, nb := SymbolName(a.returnType, names) + x, SymbolName(b.returnType, names) + y;
    var ua, ub := DottedNames(a.params, names) + ("." + na), DottedNames(b.params, names) + ("." + nb);
    var va, vb := "." + (Decimal(|a.params|) + ua), "." + (Decimal(|b.params|) + ub);
    StripPrefix("0F.", Decimal(a.cc) + va, Decimal(b.cc) + vb);
    SplitDecimal(a.cc, va, b.cc, vb);
    StripPrefix(".", Decimal(|a.params|) + ua, Decimal(|b.params|) + ub);
    DottedIsDotOrEnd(a.params, "." + na, names);
    DottedIsDotOrEnd(b.params, "." + nb, names);
    SplitDecimal(|a.params|, ua, |b.params|, ub);
    ListUnique(a.params, "." + na, b.params, "." + nb, names);
    StripPrefix(".", na, nb);
    UniquelyDecodable(a.returnType, x, b.returnType, y, names);
  }

  lemma DottedIsDotOrEnd(ts: seq<Type>, x: string, names: Names)
    requires DotOrEnd(x)
    requires forall i :: 0 <= i < |ts| ==> HasSymbolName(ts[i])
    ensures DotOrEnd(DottedNames(ts, names) + x)
    ensures ts != [] ==>
              DottedNames(ts, names) + x == "." + (SymbolName(ts[0], names) + (DottedNames(ts[1..], names) + x))
  {
  }

  lemma {:induction false} ListUnique(a: seq<Type>, x: string, b: seq<Type>, y: string, names: Names)
    requires GoodNames(names) && DotOrEnd(x) && DotOrEnd(y) && |a| == |b|
    requires forall i :: 0 <= i < |a| ==> HasSymbolName(a[i])
    requires forall i :: 0 <= i < |b| ==> HasSymbolName(b[i])
    requires DottedNames(a, names) + x == DottedNames(b, names) + y
    ensures a == b && x == y
    decreases a
  {
    if a == [] {
      assert DottedNames(a, names) + x == x && DottedNames(b, names) + y == y;
    } else {
      DottedIsDotOrEnd(a, x, names);
      DottedIsDotOrEnd(b, y, names);
      DottedIsDotOrEnd(a[1..], x, names);
      DottedIsDotOrEnd(b[1..], y, names);
      var u, v := DottedNames(a[1..], names) + x, DottedNames(b[1..], names) + y;
      StripPrefix(".", SymbolName(a[0], names) + u, SymbolName(b[0], names) + v);
      UniquelyDecodable(a[0], u, b[0], v, names);
      ListUnique(a[1..], x, b[1..], y, names);
      assert a == [a[0]] + a[1..] && b == [b[0]] + b[1..];
    }
  }

  function BasePrefix(s: string): (p: string)
    requires IsBaseName(s)
    ensures p <= s && DotFree(s[|p|..])
  {
    if s[0] == 'b' then BUILTIN else if s[0] == 's' then STRUCT else NON_GLOBAL_STRUCT
  }

  lemma BaseNameSplit(s: string, x: string, t: string, y: string)
    requires IsBaseName(s) && IsBaseName(t) && DotOrEnd(x) && DotOrEnd(y)
    requires s + x == t + y
    ensures s == t && x == y
  {
    var p, q := BasePrefix(s), BasePrefix(t);
    assert p == q by {
      assert s[0] == (s + x)[0] == (t + y)[0] == t[0];
    }
    AfterPrefix(p, s, x, t, y);
  }

  lemma AfterPrefix(p: string, s: string, x: string, t: string, y: string)
    requires p <= s && p <= t && DotFree(s[|p|..]) && DotFree(t[|p|..]) && DotOrEnd(x) && DotOrEnd(y)
    requires s + x == t + y
    ensures s == t && x == y
  {
    var u, v := s[|p|..], t[|p|..];
    assert s == p + u && t == p + v;
    assert s + x == p + (u + x) && t + y == p + (v + y);
    StripPrefix(p, u + x, v + y);
    SplitRuns(u, x, v, y, NotDot);
  }

  // ----- consequences -----

  /** Equal symbol names: the same type, calling conventions included, and so equal for `operator ==`. */
  lemma EqualNamesEqualTypes(a: Type, b: Type, names: Names)
    requires GoodNames(names) && HasSymbolName(a) && HasSymbolName(b)
    requires SymbolName(a, names) == SymbolName(b, names)
    ensures a == b && TypeEq(a, b)
  {
    assert SymbolName(a, names) + "" == SymbolName(b, names) + "";
    UniquelyDecodable(a, "", b, "", names);
    HasNameIsComparable(a);
    EqualIsErasedEqual(a, a);
  }

  lemma {:induction false} HasNameIsComparable(t: Type)
    requires HasSymbolName(t)
    ensures Comparable(t)
  {
    match t.terminator
    case Function(_, params, returnType) =>
      forall i | 0 <= i < |params| ensures Comparable(params[i]) { HasNameIsComparable(params[i]); }
      HasNameIsComparable(returnType);
    case Array(_, elem) => HasNameIsComparable(elem);
    case Slice(elem) => HasNameIsComparable(elem);
    case Tuple(types) =>
      forall i | 0 <= i < |types| ensures Comparable(types[i]) { HasNameIsComparable(types[i]); }
    case _ =>
  }

  /** No name followed by a dot begins another name. */
  lemma NoDottedPrefix(a: Type, x: string, b: Type, names: Names)
    requires GoodNames(names) && HasSymbolName(a) && HasSymbolName(b)
    ensures SymbolName(b, names) != SymbolName(a, names) + "." + x
  {
    if SymbolName(b, names) == SymbolName(a, names) + "." + x {
      assert SymbolName(a, names) + ("." + x) == SymbolName(b, names) + "";
      UniquelyDecodable(a, "." + x, b, "", names);
    }
  }

  /** Names agree exactly when types do, calling conventions included, which `operator ==` ignores. */
  lemma EqualTypesEqualNames(a: Type, b: Type, names: Names)
    requires GoodNames(names) && HasSymbolName(a) && HasSymbolName(b)
    ensures SymbolName(a, names) == SymbolName(b, names) <==> a == b
  {
    if SymbolName(a, names) == SymbolName(b, names) {
      EqualNamesEqualTypes(a, b, names);
    }
  }

  lemma ConventionsAreOnlyInNames(params: seq<Type>, returnType: Type, c: nat, d: nat, names: Names)
    requires GoodNames(names) && c != d
    requires HasSymbolName(Type([], Function(c, params, returnType)))
    ensures var a, b := Type([], Function(c, params, returnType)), Type([], Function(d, params, returnType));
            TypeEq(a, b) && HasSymbolName(b) && SymbolName(a, names) != SymbolName(b, names)
  {
    var a, b := Type([], Function(c, params, returnType)), Type([], Function(d, params, returnType));
    HasNameIsComparable(a);
    HasNameIsComparable(b);
    EqualIsErasedEqual(a, b);
    EqualTypesEqualNames(a, b, names);
  }

  // ----- the code -----

  lemma ModifierNamesAppend(ms: seq<Modifier>, m: Modifier)
    ensures ModifierNames(ms + [m]) == ModifierNames(ms) + ModifierName(m)
  {
    if ms == [] {
      assert [m][1..] == [];
    } else {
      assert (ms + [m])[1..] == ms[1..] + [m];
      ModifierNamesAppend(ms[1..], m);
    }
  }

  lemma DottedNamesAppend(ts: seq<Type>, t: Type, names: Names)
    requires HasSymbolName(t) && forall i :: 0 <= i < |ts| ==> HasSymbolName(ts[i])
    ensures DottedNames(ts + [t], names) == DottedNames(ts, names) + "." + SymbolName(t, names)
  {
    if ts == [] {
      assert [t][1..] == [];
    } else {
      assert (ts + [t])[1..] == ts[1..] + [t];
      DottedNamesAppend(ts[1..], t, names);
      Associate("." + SymbolName(ts[0], names), DottedNames(ts[1..], names), ".");
      Associate("." + SymbolName(ts[0], names), DottedNames(ts[1..], names) + ".", SymbolName(t, names));
    }
  }

  /** `get_symbol_name` appends to its result in loops over the modifiers and over the element types. */
  method GetSymbolName(t: Type, names: Names) returns (result: string)
    requires HasSymbolName(t)
    ensures result == SymbolName(t, names)
    decreases t, 1
  {
    result := "";
    for i := 0 to |t.modifiers|
      invariant result == ModifierNames(t.modifiers[..i])
    {
      result := result + ModifierName(t.modifiers[i]);
      ModifierNamesAppend(t.modifiers[..i], t.modifiers[i]);
      assert t.modifiers[..i + 1] == t.modifiers[..i] + [t.modifiers[i]];
    }
    assert t.modifiers[..|t.modifiers|] == t.modifiers;
    match t.terminator {
      case BaseType(info) =>
        result := result + names.base(info);
      case Enum(decl) =>
        if names.enumGlobal(decl) {
          result := result + (ENUM + names.enumName(decl));
        } else {
          result := result + (NON_GLOBAL_ENUM + names.enumName(decl));
        }
      case Array(size, elem) =>
        var name := GetSymbolName(elem, names);
        result := result + ("0A." + Decimal(size) + "." + name);
      case Slice(elem) =>
        var name := GetSymbolName(elem, names);
        result := result + ("0S." + name);
      case Void =>
        result := result + "void";
      case Tuple(types) =>
        var list := AppendNames("0T." + Decimal(|types|), types, names);
        result := result + list;
      case Typename =>
        result := result + "0N";
      case Function(cc, params, returnType) =>
        var list := AppendNames("0F." + Decimal(cc) + "." + Decimal(|params|), params, names);
        var name := GetSymbolName(returnType, names);
        result := result + (list + "." + name);
    }
  }

  method AppendNames(start: string, types: seq<Type>, names: Names) returns (result: string)
    requires forall i :: 0 <= i < |types| ==> HasSymbolName(types[i])
    ensures result == start + DottedNames(types, names)
    decreases types, 0
  {
    result := start;
    for i := 0 to |types|
      invariant result == start + DottedNames(types[..i], names)
    {
      var name := GetSymbolName(types[i], names);
      result := result + "." + name;
      DottedNamesAppend(types[..i], types[i], names);
      assert types[..i + 1] == types[..i] + [types[i]];
    }
    assert types[..|types|] == types;
  }
}
