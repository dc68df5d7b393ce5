/**
 * `typespec::decode_symbol_name` and the typespec formatter of src/ast/typespec.cpp. The decoder prints a type from its
 * symbol name; it agrees with the formatter on some types only, and this module proves on which.
 */
module TypeDecoding {
  import opened Options
  import opened Typespec
  import opened Numerals
  import opened Sequences
  import opened TypeMangling

  /** The printed text, and the rest of the input that the iterator was left at. */
  datatype Decoded = Decoded(text: string, rest: string)

  const SIZE_LIMIT: nat := 0x1_0000_0000_0000_0000

  // ----- the formatter -----

  function ModifierText(m: Modifier): string {
    match m
    case Mut => "mut "
    case Consteval => "consteval "
    case Pointer => "*"
    case Optional => "?"
    case LvalueReference => "&"
    case MoveReference => "move "
    case AutoReference => "#"
    case AutoReferenceMut => "##"
    case Variadic => "..."
  }

  function ModifierTexts(ms: seq<Modifier>): string {
    if ms == [] then "" else ModifierText(ms[0]) + ModifierTexts(ms[1..])
  }

  /** The part of a struct's symbol name behind its prefix is the name the formatter prints. */
  function BaseText(s: string): string
    requires IsBaseName(s)
  {
    s[|BasePrefix(s)|..]
  }

  function Format(t: Type, names: Names): string
    requires forall i :: IsBaseName(names.base(i))
    decreases t, 1
  {
    ModifierTexts(t.modifiers) + TerminatorText(t.terminator, names)
  }

  function TerminatorText(t: Terminator, names: Names): string
    requires forall i :: IsBaseName(names.base(i))
    decreases t, 1
  {
    match t
    case Unresolved => "<unresolved>"
    case BaseType(info) => BaseText(names.base(info))
    case Enum(decl) => names.enumName(decl)
    case Void => "void"
    case Function(_, params, returnType) => "function(" + Commas(params, names) + ") -> " + Format(returnType, names)
    case Array(size, elem) => "[" + (if size != 0 then Decimal(size) else "??") + ArrayTail(elem, names)
    case Slice(elem) => "[: " + Format(elem, names) + "]"
    case Tuple(types) => "[" + Commas(types, names) + "]"
    case Auto => "auto"
    case Typename => "typename"
    case Missing => "<error-type>"
  }

  /** Directly nested arrays are printed with one pair of brackets. */
  function ArrayTail(elem: Type, names: Names): string
    requires forall i :: IsBaseName(names.base(i))
    decreases elem, 2
  {
    if elem.modifiers == [] && elem.terminator.Array? then
      ", " + Decimal(elem.terminator.size) + ArrayTail(elem.terminator.elem, names)
    else ": " + Format(elem, names) + "]"
  }

  function Commas(ts: seq<Type>, names: Names): string
    requires forall i :: IsBaseName(names.base(i))
  {
    if ts == [] then ""
    else if |ts| == 1 then Format(ts[0], names)
    else Format(ts[0], names) + ", " + Commas(ts[1..], names)
  }

  // ----- the decoder -----

  /** `find(it, '.')`: the length of the text before the first dot, or of the whole text. */
  function BeforeDot(s: string): nat {
    RunLength(s, NotDot)
  }

  /** The local `parse_int`, whose assertion fails on anything but digits. */
  function ParseInt(s: string): Option<nat> {
    if AllDigits(s) then Some(WrappedValue(s, 10, SIZE_LIMIT)) else None
  }

  function ConventionText(cc: nat): string {
    if cc == 0 then "c" else if cc == 1 then "fast" else if cc == 2 then "std" else "<unknown>"
  }

  function Prepend(text: string, d: Option<Decoded>): Option<Decoded> {
    match d
    case None => None
    case Some(d) => Some(Decoded(text + d.text, d.rest))
  }

  /** What the text at the iterator starts with, in the order in which the decoder asks. */
  datatype Marker =
    | ModifierMarker(modifier: Modifier)
    | ArrayMarker | SliceMarker | TupleMarker | VoidMarker | TypenameMarker | FunctionMarker
    | EnumMarker | NonGlobalEnumMarker | OtherMarker

  /** Unlike the modifiers' names, the decoder's marker of a variadic type ends in a dot. */
  function MarkerText(m: Marker): string {
    match m
    case ModifierMarker(Variadic) => "0V."
    case ModifierMarker(m) => ModifierName(m)
    case ArrayMarker => "0A."
    case SliceMarker => "0S."
    case TupleMarker => "0T."
    case VoidMarker => "void"
    case TypenameMarker => "0N."
    case FunctionMarker => "0F."
    case EnumMarker => ENUM
    case NonGlobalEnumMarker => NON_GLOBAL_ENUM
    case OtherMarker => ""
  }

  predicate IsMarker(m: Marker) {
    match m
    case ModifierMarker(AutoReference) | ModifierMarker(AutoReferenceMut) | OtherMarker => false
    case _ => true
  }

  function MarkerOf(s: string): (m: Marker)
    ensures MarkerText(m) <= s
    ensures IsMarker(m) || (m.OtherMarker? && forall k :: IsMarker(k) ==> !(MarkerText(k) <= s))
  {
    if MarkerText(ModifierMarker(Pointer)) <= s then ModifierMarker(Pointer)
    else if MarkerText(ModifierMarker(Optional)) <= s then ModifierMarker(Optional)
    else if MarkerText(ModifierMarker(LvalueReference)) <= s then ModifierMarker(LvalueReference)
    else if MarkerText(ModifierMarker(MoveReference)) <= s then ModifierMarker(MoveReference)
    else if MarkerText(ModifierMarker(Mut)) <= s then ModifierMarker(Mut)
    else if MarkerText(ModifierMarker(Consteval)) <= s then ModifierMarker(Consteval)
    else if MarkerText(ModifierMarker(Variadic)) <= s then ModifierMarker(Variadic)
    else if MarkerText(ArrayMarker) <= s then ArrayMarker
    else if MarkerText(SliceMarker) <= s then SliceMarker
    else if MarkerText(TupleMarker) <= s then TupleMarker
    else if MarkerText(VoidMarker) <= s then VoidMarker
    else if MarkerText(TypenameMarker) <= s then TypenameMarker
    else if MarkerText(FunctionMarker) <= s then FunctionMarker
    else if MarkerText(EnumMarker) <= s then EnumMarker
    else if MarkerText(NonGlobalEnumMarker) <= s then NonGlobalEnumMarker
    else OtherMarker
  }

  /** No two markers can start the same text: they differ in one of their first twelve characters. */
  lemma MarkersDiffer(m: Marker, n: Marker, s: string)
    requires IsMarker(m) && IsMarker(n)
    requires MarkerText(m) <= s && MarkerText(n) <= s
    ensures m == n
  {
    var u, v := MarkerText(m), MarkerText(n);
    assert u[0] == s[0] && v[0] == s[0];
    if s[0] == '0' {
      assert u[1] == s[1] && v[1] == s[1];
    }
  }

  lemma MarkerIs(m: Marker, s: string)
    requires IsMarker(m) && MarkerText(m) <= s
    ensures MarkerOf(s) == m
  {
    MarkersDiffer(m, if MarkerOf(s).OtherMarker? then m else MarkerOf(s), s);
  }

  /**
   * The loop of `decode_symbol_name` from one position on. `None` stands for a failed assertion or for reading past the
   * end. Several branches leave the loop without having moved the iterator.
   */
  function Decode(s: string): (r: Option<Decoded>)
    ensures r.Some? ==> |r.value.rest| <= |s|
    decreases |s|, 2
  {
    if s == [] then Some(Decoded("", s))
    else
      var marker := MarkerOf(s);
      DecodeMarked(marker, s[|MarkerText(marker)|..], s)
  }

  /** One turn of the loop: `s` is the marker followed by `u`. */
  function DecodeMarked(marker: Marker, u: string, s: string): (r: Option<Decoded>)
    requires s == MarkerText(marker) + u
    ensures r.Some? ==> |r.value.rest| <= |s|
    decreases |s|, 1
  {
    match marker
    case ModifierMarker(m) =>
      if m.AutoReference? || m.AutoReferenceMut? then None else Prepend(ModifierText(m), Decode(u))
    case ArrayMarker =>
      // the size is looked for at the marker itself, so parse_int meets the 'A'
      (match ParseInt(s[..BeforeDot(s)])
       case None => None
       case Some(_) => assert s[1] == 'A'; None)
    case SliceMarker =>
      // the loop goes on behind the element type
      (match Decode(u)
       case None => None
       case Some(elem) => Prepend("[: " + elem.text + "]", Decode(elem.rest)))
    case TupleMarker => DecodeTuple(u, s)
    case VoidMarker => Some(Decoded("void", s))
    case TypenameMarker => Some(Decoded("typename", s))
    case FunctionMarker => DecodeFunction(u)
    case EnumMarker => Some(Decoded(u, s))
    case NonGlobalEnumMarker => Some(Decoded(u, s))
    case OtherMarker => DecodeBase(s)
  }

  /** `type_info::decode_symbol_name` */
  function DecodeBase(s: string): (r: Option<Decoded>)
    ensures r.Some? ==> |r.value.rest| <= |s|
  {
    if BUILTIN <= s then DecodeUpToDot(s[|BUILTIN|..])
    else if STRUCT <= s then DecodeUpToDot(s[|STRUCT|..])
    else if NON_GLOBAL_STRUCT <= s then DecodeUpToDot(s[|NON_GLOBAL_STRUCT|..])
    else None
  }

  function DecodeUpToDot(s: string): (r: Option<Decoded>)
    ensures r.Some? ==> |r.value.rest| <= |s|
  {
    Some(Decoded(s[..BeforeDot(s)], s[BeforeDot(s)..]))
  }

  function DecodeTuple(count: string, s: string): (r: Option<Decoded>)
    requires |count| < |s|
    ensures r.Some? ==> |r.value.rest| <= |s|
    decreases |s|, 0
  {
    match ParseInt(count[..BeforeDot(count)])
    case None => None
    case Some(n) =>
      if n == 0 then Some(Decoded("[]", s))
      else if BeforeDot(count) == |count| then None
      else
        match DecodeList(count[BeforeDot(count) + 1..], n)
        case None => None
        case Some(list) => Some(Decoded("[" + list.text + "]", list.rest))
  }

  /** The calling convention, the number of parameters and what stands behind the dot after them. */
  datatype Counts = Counts(cc: nat, params: nat, rest: string)

  function ReadCounts(cc: string): (r: Option<Counts>)
    ensures r.Some? ==> |r.value.rest| < |cc|
  {
    if BeforeDot(cc) == |cc| then None
    else
      var count := cc[BeforeDot(cc) + 1..];
      match (ParseInt(cc[..BeforeDot(cc)]), ParseInt(count[..BeforeDot(count)]))
      case (Some(c), Some(n)) =>
        if BeforeDot(count) == |count| then None else Some(Counts(c, n, count[BeforeDot(count) + 1..]))
      case _ => None
  }

  function DecodeFunction(cc: string): (r: Option<Decoded>)
    ensures r.Some? ==> |r.value.rest| <= |cc|
    decreases |cc|, 0
  {
    match ReadCounts(cc)
    case None => None
    case Some(counts) => FunctionRead(counts.cc, counts.params, counts.rest)
  }

  /** What is read behind the two numbers; with no parameters the iterator is not moved, and a dot should follow. */
  function FunctionRead(c: nat, n: nat, u: string): (r: Option<Decoded>)
    ensures r.Some? ==> |r.value.rest| <= |u|
    decreases |u|, 3 + n
  {
    if n == 0 then None
    else
      match DecodeList(u, n)
      case None => None
      case Some(list) =>
        if list.rest == [] || list.rest[0] != '.' then None
        else Prepend("function \"" + ConventionText(c) + "\" (" + list.text + ") -> ", Decode(list.rest[1..]))
  }

  /** `n` types with a dot in front of all but the first. */
  function DecodeList(s: string, n: nat): (r: Option<Decoded>)
    requires n > 0
    ensures r.Some? ==> |r.value.rest| <= |s|
    decreases |s|, 2 + n
  {
    match Decode(s)
    case None => None
    case Some(first) =>
      if n == 1 then Some(first)
      else if first.rest == [] || first.rest[0] != '.' then None
      else Prepend(first.text + ", ", DecodeList(first.rest[1..], n - 1))
  }

  // ----- where the two agree -----

  /**
   * The types whose names decode to what the formatter prints: structs behind any modifiers but a variadic one,
   * non-empty tuples of such types, and slices in a place where nothing follows them in the input.
   */
  predicate Decodable(t: Type, final: bool) {
    && (forall i :: 0 <= i < |t.modifiers| ==> !t.modifiers[i].Variadic?)
    && match t.terminator {
         case BaseType(_) => true
         case Slice(elem) => final && Decodable(elem, true)
         case Tuple(types) =>
           types != [] && forall i :: 0 <= i < |types| ==> Decodable(types[i], final && i == |types| - 1)
         case _ => false
       }
  }

  /** Element and parameter counts are values of `size_t`. */
  ghost predicate CountsFit(t: Type) {
    match t.terminator
    case Function(cc, params, returnType) =>
      |params| < SIZE_LIMIT && cc < SIZE_LIMIT
      && (forall i :: 0 <= i < |params| ==> CountsFit(params[i])) && CountsFit(returnType)
    case Array(_, elem) => CountsFit(elem)
    case Slice(elem) => CountsFit(elem)
    case Tuple(types) => |types| < SIZE_LIMIT && forall i :: 0 <= i < |types| ==> CountsFit(types[i])
    case _ => true
  }

  /**
   * Types that are printed as they should be, but with an iterator that is left inside the name: `void`, an enum at the
   * end of the input, `typename` elsewhere, the empty tuple, and tuples that end in one of these.
   */
  predicate PrintsOnly(t: Type, final: bool) {
    && (forall i :: 0 <= i < |t.modifiers| ==> !t.modifiers[i].Variadic?)
    && match t.terminator {
         case Void => true
         case Enum(_) => final
         case Typename => !final
         case Tuple(types) =>
           types == [] || (AllDecodable(types[..|types| - 1]) && PrintsOnly(types[|types| - 1], final))
         case _ => false
       }
  }

  predicate AllDecodable(ts: seq<Type>) {
    forall i :: 0 <= i < |ts| ==> Decodable(ts[i], false)
  }

  /** What decoding does to a name: all is right, or the text is but the iterator is not, or the text is wrong. */
  datatype Fate = Back | TextOnly | Lost

  function FateOf(t: Type, final: bool): Fate {
    if Decodable(t, final) then Back else if PrintsOnly(t, final) then TextOnly else Lost
  }

  function FateOfList(ts: seq<Type>, final: bool): Fate
    requires ts != []
  {
    if !AllDecodable(ts[..|ts| - 1]) then Lost else FateOf(ts[|ts| - 1], final)
  }

  /** No enum has an empty name; `strict` below stands for this. */
  ghost predicate EnumsHaveNames(names: Names) {
    forall i :: names.enumName(i) != ""
  }

  /** The decoder has printed something without moving its iterator, and would do so again. */
  ghost predicate Stuck(s: string, strict: bool) {
    && s != [] && s[0] != '.' && Decode(s).Some? && Decode(s).value.rest == s
    && (strict ==> Decode(s).value.text != "")
  }

  /** If not everything is right, the decoder fails, or its iterator is stuck, or it prints too much. */
  ghost predicate Verdict(r: Option<Decoded>, stuck: bool, fate: Fate, strict: bool, text: string, x: string) {
    match fate
    case Back => r == Some(Decoded(text, x))
    case TextOnly => WentWrong(r, stuck, text, x) && (strict ==> r.Some? && stuck && r.value.text == text)
    case Lost => WentWrong(r, stuck, text, x) && (strict ==> r.None? || |r.value.text| > |text|)
  }

  ghost predicate WentWrong(r: Option<Decoded>, stuck: bool, text: string, x: string) {
    r.None? || stuck || (r.value.rest == x && |r.value.text| > |text|)
  }

  ghost predicate IsStuck(r: Option<Decoded>, strict: bool) {
    r.Some? && Stuck(r.value.rest, strict)
  }

  ghost predicate Outcome(r: Option<Decoded>, fate: Fate, strict: bool, text: string, x: string) {
    Verdict(r, IsStuck(r, strict), fate, strict, text, x)
  }

  /** Decoding a text that starts with a known marker. */
  lemma DecodeAt(m: Marker, u: string)
    requires IsMarker(m)
    ensures Decode(MarkerText(m) + u) == DecodeMarked(m, u, MarkerText(m) + u)
  {
    var s := MarkerText(m) + u;
    MarkerIs(m, s);
    assert s[|MarkerText(m)|..] == u;
  }

  lemma DecodeModifier(m: Modifier, u: string)
    requires !m.AutoReference? && !m.AutoReferenceMut? && !m.Variadic?
    ensures Decode(ModifierName(m) + u) == Prepend(ModifierText(m), Decode(u))
  {
    DecodeAt(ModifierMarker(m), u);
  }

  lemma NoMarker(s: string)
    requires s != []
    requires forall m :: IsMarker(m) ==> !(MarkerText(m) <= s)
    ensures Decode(s) == DecodeBase(s)
  {
    assert MarkerOf(s) == OtherMarker;
    assert s[0..] == s;
  }

  /** The name of a variadic type lacks the dot that the decoder looks for. */
  lemma DecodeVariadic(u: string)
    requires u != [] && u[0] != '.'
    ensures Decode("0V" + u).None?
  {
    var s := "0V" + u;
    assert s[0] == '0' && s[1] == 'V' && s[2] == u[0];
    forall m | IsMarker(m) ensures !(MarkerText(m) <= s) {
      VariadicIsNoMarker(m, s);
    }
    NoMarker(s);
    StartsWithDigit(s);
  }

  lemma VariadicIsNoMarker(m: Marker, s: string)
    requires IsMarker(m) && |s| > 2 && s[0] == '0' && s[1] == 'V' && s[2] != '.'
    ensures !(MarkerText(m) <= s)
  {
  }

  lemma StartsWithDigit(s: string)
    requires s != [] && s[0] == '0'
    ensures DecodeBase(s).None?
  {
  }

  lemma DecodeBaseName(b: string, x: string)
    requires IsBaseName(b) && DotOrEnd(x)
    ensures Decode(b + x) == Some(Decoded(BaseText(b), x))
  {
    BaseStart(b, x);
    NoMarker(b + x);
    UpToDot(b, BasePrefix(b), x);
  }

  lemma UpToDot(b: string, p: string, x: string)
    requires p <= b && DotFree(b[|p|..]) && DotOrEnd(x)
    ensures DecodeUpToDot((b + x)[|p|..]) == Some(Decoded(b[|p|..], x))
  {
    var u := b[|p|..];
    assert (b + x)[|p|..] == u + x;
    RunLengthIs(u, x, NotDot);
    assert (u + x)[..|u|] == u && (u + x)[|u|..] == x;
  }

  lemma BaseStart(b: string, x: string)
    requires IsBaseName(b)
    ensures forall m :: IsMarker(m) ==> !(MarkerText(m) <= b + x)
    ensures DecodeBase(b + x) == DecodeUpToDot((b + x)[|BasePrefix(b)|..])
  {
    var p := BasePrefix(b);
    var s := b + x;
    assert s[0] == p[0] && p <= s;
    if p == NON_GLOBAL_STRUCT {
      assert s[11] == p[11];
    }
  }

  /** `void`, `typename`, enums and the empty tuple do not move the iterator. */
  lemma DecodeStuck(t: Terminator, x: string, names: Names)
    requires GoodNames(names) && DotOrEnd(x)
    requires t.Void? || t.Typename? || t.Enum? || t == Tuple([])
    ensures Outcome(Decode(TerminatorName(t, names) + x), FateOf(Type([], t), x == []), EnumsHaveNames(names),
                    TerminatorText(t, names), x)
  {
    var s := TerminatorName(t, names) + x;
    match t
    case Void =>
      DecodeAt(VoidMarker, x);
      StaysStuck(s, "void", EnumsHaveNames(names));
    case Enum(d) =>
      DecodeEnumName(d, x, names);
      StaysStuck(s, names.enumName(d) + x, EnumsHaveNames(names));
    case Tuple(_) =>
      EmptyTupleName(t, x, names);
      DecodeEmptyTuple(s, x);
      StaysStuck(s, "[]", EnumsHaveNames(names));
    case Typename =>
      DecodeTypename(x);
      if x != [] {
        StaysStuck(s, "typename", EnumsHaveNames(names));
      }
  }

  lemma StaysStuck(s: string, text: string, strict: bool)
    requires s != [] && s[0] != '.' && Decode(s) == Some(Decoded(text, s)) && (strict ==> text != "")
    ensures IsStuck(Decode(s), strict)
  {
  }

  lemma EmptyTupleName(t: Terminator, x: string, names: Names)
    requires GoodNames(names) && t == Tuple([])
    ensures TerminatorName(t, names) + x == "0T." + ("0" + x) && TerminatorText(t, names) == "[]"
  {
    Associate("0T.", "0", x);
    assert TerminatorName(t, names) == "0T." + "0";
  }

  lemma DecodeEnumName(d: nat, x: string, names: Names)
    requires GoodNames(names)
    ensures var s := TerminatorName(Enum(d), names) + x;
            Decode(s) == Some(Decoded(names.enumName(d) + x, s))
            && s[0] != '.'
  {
    var u := names.enumName(d) + x;
    if names.enumGlobal(d) {
      Associate(ENUM, names.enumName(d), x);
      DecodeAt(EnumMarker, u);
    } else {
      Associate(NON_GLOBAL_ENUM, names.enumName(d), x);
      DecodeAt(NonGlobalEnumMarker, u);
    }
  }

  lemma DecodeEmptyTuple(s: string, x: string)
    requires DotOrEnd(x) && s == "0T." + ("0" + x)
    ensures Decode(s) == Some(Decoded("[]", s))
  {
    DecodeAt(TupleMarker, "0" + x);
    ReadZero(x);
  }

  lemma ReadZero(x: string)
    requires DotOrEnd(x)
    ensures var count := "0" + x; ParseInt(count[..BeforeDot(count)]) == Some(0)
  {
    RunLengthIs("0", x, NotDot);
    Cut("0", x);
    assert Decimal(0) == "0";
    DecimalValue(0);
    WrappedValueFits("0", 10, SIZE_LIMIT);
  }

  lemma DecodeTypename(x: string)
    requires DotOrEnd(x)
    ensures Decode("0N" + x) == if x == [] then None else Some(Decoded("typename", "0N" + x))
  {
    var s := "0N" + x;
    if x == [] {
      forall m | IsMarker(m) ensures !(MarkerText(m) <= s) {
        assert s[0] == '0' && s[1] == 'N' && |s| == 2;
      }
      NoMarker(s);
      StartsWithDigit(s);
    } else {
      assert s == "0N." + x[1..];
      DecodeAt(TypenameMarker, x[1..]);
    }
  }

  lemma DecodeNothing(x: string)
    requires DotOrEnd(x)
    ensures Decode(x) == if x == [] then Some(Decoded("", x)) else None
  {
    if x != [] {
      forall m | IsMarker(m) ensures !(MarkerText(m) <= x) {
        assert MarkerText(m)[0] != '.';
      }
      NoMarker(x);
    }
  }

  lemma DecodeArrayFails(u: string)
    ensures Decode("0A." + u).None?
  {
    DecodeAt(ArrayMarker, u);
  }

  lemma DecodeSlice(u: string)
    ensures Decode("0S." + u) ==
            match Decode(u)
            case None => None
            case Some(elem) => Prepend("[: " + elem.text + "]", Decode(elem.rest))
  {
    DecodeAt(SliceMarker, u);
  }

  lemma DecodeTupleName(n: nat, u: string)
    requires 0 < n < SIZE_LIMIT
    ensures Decode("0T." + (Decimal(n) + ("." + u))) ==
            match DecodeList(u, n)
            case None => None
            case Some(list) => Some(Decoded("[" + list.text + "]", list.rest))
  {
    DecodeAt(TupleMarker, Decimal(n) + ("." + u));
    ReadCount(n, u);
  }

  lemma ReadCount(n: nat, u: string)
    requires n < SIZE_LIMIT
    ensures var count := Decimal(n) + ("." + u);
            && BeforeDot(count) < |count|
            && ParseInt(count[..BeforeDot(count)]) == Some(n)
            && count[BeforeDot(count) + 1..] == u
  {
    RunLengthIs(Decimal(n), "." + u, NotDot);
    CutAtDot(Decimal(n), u);
    DecimalValue(n);
    WrappedValueFits(Decimal(n), 10, SIZE_LIMIT);
  }

  lemma CutAtDot(a: string, u: string)
    ensures var s := a + ("." + u); s[..|a|] == a && s[|a| + 1..] == u && |a| < |s|
  {
    Cut(a, "." + u);
    Cut(".", u);
    CutBehind(a, "." + u, 1);
  }

  lemma DecodeFunctionName(c: nat, n: nat, u: string)
    requires c < SIZE_LIMIT && n < SIZE_LIMIT
    ensures Decode("0F." + (Decimal(c) + ("." + (Decimal(n) + ("." + u))))) == FunctionRead(c, n, u)
  {
    DecodeAt(FunctionMarker, Decimal(c) + ("." + (Decimal(n) + ("." + u))));
    DecodeFunctionCounts(c, n, u);
  }

  lemma DecodeFunctionCounts(c: nat, n: nat, u: string)
    requires c < SIZE_LIMIT && n < SIZE_LIMIT
    ensures ReadCounts(Decimal(c) + ("." + (Decimal(n) + ("." + u)))) == Some(Counts(c, n, u))
  {
    ReadCount(c, Decimal(n) + ("." + u));
    ReadCount(n, u);
  }

  // ----- the main result -----

  /**
   * For every name and everything that may follow it: the decoder prints what the formatter prints and leaves the
   * iterator at the end of the name, or only prints it, or fails or prints too much, as the structure of the type says.
   */
  lemma {:induction false} DecodeOutcome(t: Type, x: string, names: Names)
    requires GoodNames(names) && HasSymbolName(t) && CountsFit(t) && DotOrEnd(x)
    ensures Outcome(Decode(SymbolName(t, names) + x), FateOf(t, x == []), EnumsHaveNames(names), Format(t, names), x)
    decreases t.terminator, 2 + 2 * |t.modifiers|
  {
    if t.modifiers == [] {
      PeelModifier(t, x, names);
      TerminatorOutcome(t.terminator, x, names);
      FormatOfTerminator(t, names);
    } else {
      ModifierOutcome(t, x, names);
    }
  }

  lemma {:induction false} ModifierOutcome(t: Type, x: string, names: Names)
    requires GoodNames(names) && HasSymbolName(t) && CountsFit(t) && DotOrEnd(x) && t.modifiers != []
    ensures Outcome(Decode(SymbolName(t, names) + x), FateOf(t, x == []), EnumsHaveNames(names), Format(t, names), x)
    decreases t.terminator, 1 + 2 * |t.modifiers|
  {
    var m, inner := t.modifiers[0], Type(t.modifiers[1..], t.terminator);
    if m.Variadic? {
      VariadicOutcome(t, x, names);
    } else {
      var u := SymbolName(inner, names) + x;
      PeelModifier(t, x, names);
      DecodeOutcome(inner, x, names);
      ModifierStep(m, u, FateOf(inner, x == []), EnumsHaveNames(names), Format(inner, names), x);
      PeelFormat(t, x == [], names);
    }
  }

  lemma VariadicOutcome(t: Type, x: string, names: Names)
    requires GoodNames(names) && HasSymbolName(t) && t.modifiers != [] && t.modifiers[0].Variadic?
    ensures Outcome(Decode(SymbolName(t, names) + x), FateOf(t, x == []), EnumsHaveNames(names), Format(t, names), x)
  {
    var u := SymbolName(Type(t.modifiers[1..], t.terminator), names) + x;
    PeelModifier(t, x, names);
    NameStart(Type(t.modifiers[1..], t.terminator), x, names);
    DecodeVariadic(u);
    VariadicIsLost(t, x == []);
  }

  lemma VariadicIsLost(t: Type, final: bool)
    requires t.modifiers != [] && t.modifiers[0].Variadic?
    ensures FateOf(t, final) == Lost
  {
  }

  lemma ModifierStep(m: Modifier, u: string, fate: Fate, strict: bool, text: string, x: string)
    requires !m.AutoReference? && !m.AutoReferenceMut? && !m.Variadic?
    requires Outcome(Decode(u), fate, strict, text, x)
    ensures Outcome(Decode(ModifierName(m) + u), fate, strict, ModifierText(m) + text, x)
  {
    DecodeModifier(m, u);
  }

  lemma PeelFormat(t: Type, final: bool, names: Names)
    requires GoodNames(names) && t.modifiers != [] && !t.modifiers[0].Variadic?
    ensures var inner := Type(t.modifiers[1..], t.terminator);
            && Format(t, names) == ModifierText(t.modifiers[0]) + Format(inner, names)
            && FateOf(t, final) == FateOf(inner, final)
  {
    PeelVariadic(t.modifiers);
    Associate(ModifierText(t.modifiers[0]), ModifierTexts(t.modifiers[1..]), TerminatorText(t.terminator, names));
  }

  lemma PeelVariadic(ms: seq<Modifier>)
    requires ms != [] && !ms[0].Variadic?
    ensures (forall i :: 0 <= i < |ms| ==> !ms[i].Variadic?)
       <==> (forall i :: 0 <= i < |ms[1..]| ==> !ms[1..][i].Variadic?)
  {
    HeadAndTail(ms);
  }

  lemma FormatOfTerminator(t: Type, names: Names)
    requires GoodNames(names) && t.modifiers == []
    ensures Format(t, names) == TerminatorText(t.terminator, names)
  {
  }

  lemma NameStart(t: Type, x: string, names: Names)
    requires GoodNames(names) && HasSymbolName(t)
    ensures var s := SymbolName(t, names) + x; s != [] && s[0] != '.'
  {
    PeelModifier(t, x, names);
  }

  lemma {:induction false} TerminatorOutcome(t: Terminator, x: string, names: Names)
    requires GoodNames(names) && HasSymbolName(Type([], t)) && CountsFit(Type([], t)) && DotOrEnd(x)
    ensures Outcome(Decode(TerminatorName(t, names) + x), FateOf(Type([], t), x == []), EnumsHaveNames(names),
                    TerminatorText(t, names), x)
    decreases t, 1
  {
    match t
    case BaseType(info) => DecodeBaseName(names.base(info), x);
    case Enum(_) => DecodeStuck(t, x, names);
    case Void => DecodeStuck(t, x, names);
    case Typename => DecodeStuck(t, x, names);
    case Array(_, elem) =>
      ArrayNameParts(t, x, names);
      DecodeArrayFails(Decimal(t.size) + ("." + (SymbolName(elem, names) + x)));
    case Slice(_) => SliceOutcome(t, x, names);
    case Tuple(types) => if types == [] { DecodeStuck(t, x, names); } else { TupleOutcome(t, x, names); }
    case Function(_, _, _) => FunctionOutcome(t, x, names);
  }

  lemma {:induction false} SliceOutcome(t: Terminator, x: string, names: Names)
    requires t.Slice?
    requires GoodNames(names) && HasSymbolName(Type([], t)) && CountsFit(Type([], t)) && DotOrEnd(x)
    ensures Outcome(Decode(TerminatorName(t, names) + x), FateOf(Type([], t), x == []), EnumsHaveNames(names),
                    TerminatorText(t, names), x)
    decreases t, 0
  {
    var u := SymbolName(t.sliceElem, names) + x;
    assert TerminatorName(t, names) + x == "0S." + u;
    DecodeOutcome(t.sliceElem, x, names);
    SliceStep(u, FateOf(t.sliceElem, x == []), EnumsHaveNames(names), Format(t.sliceElem, names), x);
    FateOfSlice(t, x == []);
  }

  function AfterSlice(fate: Fate, final: bool): Fate {
    if final && fate == Back then Back else Lost
  }

  lemma FateOfSlice(t: Terminator, final: bool)
    requires t.Slice?
    ensures FateOf(Type([], t), final) == AfterSlice(FateOf(t.sliceElem, final), final)
  {
  }

  /** After the element type the loop goes on: that is harmless at the end of the input only. */
  lemma SliceStep(u: string, fate: Fate, strict: bool, text: string, x: string)
    requires DotOrEnd(x) && Outcome(Decode(u), fate, strict, text, x)
    ensures Outcome(Decode("0S." + u), AfterSlice(fate, x == []), strict, "[: " + text + "]", x)
  {
    DecodeSlice(u);
    DecodeNothing(x);
    var elem := Decode(u);
    if elem.Some? {
      var after := Decode(elem.value.rest);
      GoOn(elem.value, after, IsStuck(elem, strict), fate, strict, text, x);
    }
  }

  lemma GoOn(elem: Decoded, after: Option<Decoded>, stuck: bool, fate: Fate, strict: bool, text: string, x: string)
    requires Verdict(Some(elem), stuck, fate, strict, text, x)
    requires elem.rest == x && !stuck ==> after == if x == [] then Some(Decoded("", x)) else None
    requires stuck ==> after.Some? && after.value.rest == elem.rest && (strict ==> after.value.text != "")
    requires fate == Back ==> !stuck
    ensures Verdict(Prepend("[: " + elem.text + "]", after), stuck && after.Some?, AfterSlice(fate, x == []), strict,
                    "[: " + text + "]", x)
  {
    if elem.rest == x && x == [] {
      assert "[: " + elem.text + "]" + "" == "[: " + elem.text + "]";
    }
  }

  /** What the decoder is given for a list of types. */
  function ListName(ts: seq<Type>, x: string, names: Names): string
    requires ts != [] && forall i :: 0 <= i < |ts| ==> HasSymbolName(ts[i])
  {
    SymbolName(ts[0], names) + AfterFirst(ts, x, names)
  }

  function AfterFirst(ts: seq<Type>, x: string, names: Names): string
    requires ts != [] && forall i :: 0 <= i < |ts| ==> HasSymbolName(ts[i])
  {
    DottedNames(ts[1..], names) + x
  }

  /** The outcome for a name with `x` behind it. */
  ghost predicate TypeGoes(t: Type, x: string, names: Names)
    requires (forall i :: IsBaseName(names.base(i))) && HasSymbolName(t)
  {
    Outcome(Decode(SymbolName(t, names) + x), FateOf(t, x == []), EnumsHaveNames(names), Format(t, names), x)
  }

  ghost predicate ListGoes(ts: seq<Type>, x: string, names: Names)
    requires (forall i :: IsBaseName(names.base(i))) && ts != [] && forall i :: 0 <= i < |ts| ==> HasSymbolName(ts[i])
  {
    Outcome(DecodeList(ListName(ts, x, names), |ts|), FateOfList(ts, x == []), EnumsHaveNames(names),
            Commas(ts, names), x)
  }

  lemma {:induction false} ListOutcome(ts: seq<Type>, x: string, names: Names)
    requires GoodNames(names) && DotOrEnd(x) && ts != []
    requires forall i :: 0 <= i < |ts| ==> HasSymbolName(ts[i]) && CountsFit(ts[i])
    ensures ListGoes(ts, x, names)
    decreases ts, 1
  {
    FirstOutcome(ts, x, names);
    if |ts| == 1 {
      ListOfOne(ts, x, names);
    } else {
      ListOutcome(ts[1..], x, names);
      ListOfMany(ts, x, names);
    }
  }

  lemma {:induction false} FirstOutcome(ts: seq<Type>, x: string, names: Names)
    requires GoodNames(names) && DotOrEnd(x) && ts != []
    requires forall i :: 0 <= i < |ts| ==> HasSymbolName(ts[i]) && CountsFit(ts[i])
    ensures TypeGoes(ts[0], AfterFirst(ts, x, names), names)
    decreases ts, 0
  {
    DottedIsDotOrEnd(ts[1..], x, names);
    DecodeOutcome(ts[0], AfterFirst(ts, x, names), names);
  }

  lemma ListOfMany(ts: seq<Type>, x: string, names: Names)
    requires (forall i :: IsBaseName(names.base(i))) && DotOrEnd(x)
    requires |ts| > 1 && forall i :: 0 <= i < |ts| ==> HasSymbolName(ts[i])
    requires TypeGoes(ts[0], AfterFirst(ts, x, names), names) && ListGoes(ts[1..], x, names)
    ensures ListGoes(ts, x, names)
  {
    SecondOfList(ts, x, names);
    FateOfMany(ts, x == []);
    ListStep(ListName(ts, x, names), |ts|, FateOf(ts[0], false), Format(ts[0], names), AfterFirst(ts, x, names),
             ListName(ts[1..], x, names), FateOfList(ts[1..], x == []), Commas(ts[1..], names),
             FateOfList(ts, x == []), Commas(ts, names), EnumsHaveNames(names), x);
  }

  lemma ListOfOne(ts: seq<Type>, x: string, names: Names)
    requires (forall i :: IsBaseName(names.base(i))) && |ts| == 1 && HasSymbolName(ts[0])
    requires TypeGoes(ts[0], AfterFirst(ts, x, names), names)
    ensures ListGoes(ts, x, names)
  {
    assert AfterFirst(ts, x, names) == x;
    SingleList(ListName(ts, x, names));
  }

  lemma SecondOfList(ts: seq<Type>, x: string, names: Names)
    requires (forall i :: IsBaseName(names.base(i))) && |ts| > 1
    requires forall i :: 0 <= i < |ts| ==> HasSymbolName(ts[i])
    ensures AfterFirst(ts, x, names) == "." + ListName(ts[1..], x, names)
    ensures Commas(ts, names) == Format(ts[0], names) + ", " + Commas(ts[1..], names)
  {
  }

  lemma SingleList(s: string)
    ensures DecodeList(s, 1) == Decode(s)
  {
  }

  function AfterItem(first: Fate, rest: Fate): Fate {
    if first == Back then rest else Lost
  }

  lemma ListStep(s: string, n: nat, fateFirst: Fate, first: string, y: string, rest: string, fateRest: Fate,
                 texts: string, fate: Fate, all: string, strict: bool, x: string)
    requires n > 1 && DotOrEnd(x)
    requires y == "." + rest && all == first + ", " + texts && fate == AfterItem(fateFirst, fateRest)
    requires Outcome(Decode(s), fateFirst, strict, first, y)
    requires Outcome(DecodeList(rest, n - 1), fateRest, strict, texts, x)
    ensures Outcome(DecodeList(s, n), fate, strict, all, x)
  {
  }

  lemma FateOfMany(ts: seq<Type>, final: bool)
    requires |ts| > 1
    ensures FateOfList(ts, final) == AfterItem(FateOf(ts[0], false), FateOfList(ts[1..], final))
  {
    var n := |ts| - 1;
    assert ts[..n][0] == ts[0] && ts[..n][1..] == ts[1..][..n - 1];
    assert AllDecodable(ts[..n]) <==> Decodable(ts[0], false) && AllDecodable(ts[1..][..n - 1]);
  }

  lemma {:induction false} TupleOutcome(t: Terminator, x: string, names: Names)
    requires t.Tuple? && t.types != []
    requires GoodNames(names) && HasSymbolName(Type([], t)) && CountsFit(Type([], t)) && DotOrEnd(x)
    ensures Outcome(Decode(TerminatorName(t, names) + x), FateOf(Type([], t), x == []), EnumsHaveNames(names),
                    TerminatorText(t, names), x)
    decreases t, 0
  {
    var u := ListName(t.types, x, names);
    TupleNameParts(t, x, names);
    DottedIsDotOrEnd(t.types, x, names);
    DecodeTupleName(|t.types|, u);
    ListOutcome(t.types, x, names);
    FateOfTuple(t, x == []);
  }

  lemma FateOfTuple(t: Terminator, final: bool)
    requires t.Tuple? && t.types != []
    ensures FateOf(Type([], t), final) == FateOfList(t.types, final)
  {
    var n := |t.types| - 1;
    assert Decodable(Type([], t), final) <==> AllDecodable(t.types[..n]) && Decodable(t.types[n], final);
  }

  lemma {:induction false} FunctionOutcome(t: Terminator, x: string, names: Names)
    requires t.Function?
    requires GoodNames(names) && HasSymbolName(Type([], t)) && CountsFit(Type([], t)) && DotOrEnd(x)
    ensures Outcome(Decode(TerminatorName(t, names) + x), FateOf(Type([], t), x == []), EnumsHaveNames(names),
                    TerminatorText(t, names), x)
    decreases t, 0
  {
    var n := SymbolName(t.returnType, names) + x;
    FunctionNameParts(t, x, names);
    DottedIsDotOrEnd(t.params, "." + n, names);
    if t.params == [] {
      assert DottedNames(t.params, names) + ("." + n) == "." + n;
      DecodeFunctionName(t.cc, 0, n);
    } else {
      var u := ListName(t.params, "." + n, names);
      DecodeFunctionName(t.cc, |t.params|, u);
      ListOutcome(t.params, "." + n, names);
      DecodeOutcome(t.returnType, x, names);
      FunctionStep(u, t.cc, |t.params|, FateOfList(t.params, false), EnumsHaveNames(names), Commas(t.params, names),
                   n, FateOf(t.returnType, x == []), Format(t.returnType, names), x);
    }
  }

  /** The decoder prints the calling convention, which the formatter leaves out. */
  lemma FunctionStep(u: string, c: nat, n: nat, fateParams: Fate, strict: bool, params: string,
                     returnName: string, fateReturn: Fate, returnText: string, x: string)
    requires 0 < n < SIZE_LIMIT && c < SIZE_LIMIT && DotOrEnd(x)
    requires Outcome(DecodeList(u, n), fateParams, strict, params, "." + returnName)
    requires Outcome(Decode(returnName), fateReturn, strict, returnText, x)
    ensures Outcome(Decode("0F." + (Decimal(c) + ("." + (Decimal(n) + ("." + u))))), Lost, strict,
                    "function(" + params + ") -> " + returnText, x)
  {
    DecodeFunctionName(c, n, u);
    var list := DecodeList(u, n);
    if list.Some? && !IsStuck(list, strict) {
      assert list.value.rest == "." + returnName && list.value.rest[1..] == returnName;
    }
  }

  /** Exactly when the type is `Decodable` does its name decode to the formatter's text and end where it should. */
  lemma DecodesExactlyWhen(t: Type, x: string, names: Names)
    requires GoodNames(names) && HasSymbolName(t) && CountsFit(t) && DotOrEnd(x)
    ensures Decode(SymbolName(t, names) + x) == Some(Decoded(Format(t, names), x)) <==> Decodable(t, x == [])
  {
    DecodeOutcome(t, x, names);
  }

  /** For a caller that does not look at the iterator more types are printed as they should be. */
  lemma PrintsExactlyWhen(t: Type, x: string, names: Names)
    requires GoodNames(names) && EnumsHaveNames(names) && HasSymbolName(t) && CountsFit(t) && DotOrEnd(x)
    ensures var r := Decode(SymbolName(t, names) + x);
            r.Some? && r.value.text == Format(t, names) <==> Decodable(t, x == []) || PrintsOnly(t, x == [])
  {
    DecodeOutcome(t, x, names);
  }

  // ----- the code -----

  lemma PrependTwice(p: string, q: string, d: Option<Decoded>)
    ensures Prepend(p, Prepend(q, d)) == Prepend(p + q, d)
  {
    if d.Some? {
      assert p + (q + d.value.text) == p + q + d.value.text;
    }
  }

  lemma PrefixAndRest(p: string, s: string)
    requires p <= s
    ensures s == p + s[|p|..]
  {
  }

  lemma PrependNothing(d: Option<Decoded>)
    ensures Prepend("", d) == d
  {
    if d.Some? {
      assert "" + d.value.text == d.value.text;
    }
  }

  lemma ModifierTurn(result: string, it: string)
    requires it != [] && MarkerOf(it).ModifierMarker?
    ensures var m := MarkerOf(it);
            Prepend(result, Decode(it)) == Prepend(result + ModifierText(m.modifier), Decode(it[|MarkerText(m)|..]))
  {
    PrependTwice(result, ModifierText(MarkerOf(it).modifier), Decode(it[|MarkerText(MarkerOf(it))|..]));
  }

  lemma SliceTurn(result: string, it: string)
    requires it != [] && MarkerOf(it).SliceMarker?
    ensures Prepend(result, Decode(it)) ==
            match Decode(it[3..])
            case None => None
            case Some(elem) => Prepend(result + ("[: " + elem.text + "]"), Decode(elem.rest))
  {
    var elem := Decode(it[3..]);
    if elem.Some? {
      PrependTwice(result, "[: " + elem.value.text + "]", Decode(elem.value.rest));
    }
  }

  /** `decode_symbol_name`: a loop that appends to `result` and moves `it`. */
  method DecodeSymbolName(s: string) returns (r: Option<Decoded>)
    ensures r == Decode(s)
    decreases |s|, 2
  {
    var result, it := "", s;
    PrependNothing(Decode(s));
    while it != []
      invariant |it| <= |s|
      invariant Prepend(result, Decode(it)) == Decode(s)
      decreases |it|
    {
      var marker := MarkerOf(it);
      var u := it[|MarkerText(marker)|..];
      if marker.ModifierMarker? {
        ModifierTurn(result, it);
        result, it := result + ModifierText(marker.modifier), u;
      } else if marker.SliceMarker? {
        var elem := DecodeSliceElem(result, it);
        if elem.None? {
          return None;
        }
        result, it := result + ("[: " + elem.value.text + "]"), elem.value.rest;
      } else {
        PrefixAndRest(MarkerText(marker), it);
        var last := DecodeLast(marker, u, it);
        return Prepend(result, last);
      }
    }
    assert result + "" == result;
    return Some(Decoded(result, it));
  }

  /** The element type of a slice. */
  method DecodeSliceElem(ghost result: string, it: string) returns (elem: Option<Decoded>)
    requires it != [] && MarkerOf(it).SliceMarker?
    ensures elem.None? ==> Decode(it).None?
    ensures elem.Some? ==> |elem.value.rest| < |it|
    ensures elem.Some? ==>
              Prepend(result, Decode(it)) == Prepend(result + ("[: " + elem.value.text + "]"), Decode(elem.value.rest))
    decreases |it|, 1
  {
    SliceTurn(result, it);
    elem := DecodeSymbolName(it[3..]);
  }

  /** The branches of the loop that end in a `break`. */
  method DecodeLast(marker: Marker, u: string, s: string) returns (r: Option<Decoded>)
    requires s == MarkerText(marker) + u && !marker.ModifierMarker? && !marker.SliceMarker?
    ensures r == DecodeMarked(marker, u, s)
    decreases |s|, 1
  {
    match marker {
      case ArrayMarker =>
        r := None;
      case TupleMarker =>
        r := DecodeTupleTypes(u, s);
      case VoidMarker =>
        r := Some(Decoded("void", s));
      case TypenameMarker =>
        r := Some(Decoded("typename", s));
      case FunctionMarker =>
        r := DecodeFunctionTypes(u);
      case EnumMarker =>
        r := Some(Decoded(u, s));
      case NonGlobalEnumMarker =>
        r := Some(Decoded(u, s));
      case OtherMarker =>
        r := DecodeBaseType(s);
    }
  }

  /** The iterator moves behind the prefix and then to the next dot. */
  method DecodeBaseType(s: string) returns (r: Option<Decoded>)
    ensures r == DecodeBase(s)
  {
    var begin := 0;
    if BUILTIN <= s {
      begin := |BUILTIN|;
    } else if STRUCT <= s {
      begin := |STRUCT|;
    } else if NON_GLOBAL_STRUCT <= s {
      begin := |NON_GLOBAL_STRUCT|;
    } else {
      return None;
    }
    var it := s[begin..];
    var dot := BeforeDot(it);
    r := Some(Decoded(it[..dot], it[dot..]));
  }

  method DecodeTupleTypes(count: string, s: string) returns (r: Option<Decoded>)
    requires |count| < |s|
    ensures r == DecodeTuple(count, s)
    decreases |count|, 4
  {
    var n := ParseInt(count[..BeforeDot(count)]);
    if n.None? {
      return None;
    }
    if n.value == 0 {
      return Some(Decoded("[]", s));
    }
    if BeforeDot(count) == |count| {
      return None;
    }
    var list := DecodeTypeList(count[BeforeDot(count) + 1..], n.value);
    return match list case None => None case Some(d) => Some(Decoded("[" + d.text + "]", d.rest));
  }

  method DecodeFunctionTypes(cc: string) returns (r: Option<Decoded>)
    ensures r == DecodeFunction(cc)
    decreases |cc|, 4
  {
    if BeforeDot(cc) == |cc| {
      return None;
    }
    var c := ParseInt(cc[..BeforeDot(cc)]);
    var count := cc[BeforeDot(cc) + 1..];
    var n := ParseInt(count[..BeforeDot(count)]);
    if c.None? || n.None? || BeforeDot(count) == |count| {
      return None;
    }
    var it := count[BeforeDot(count) + 1..];
    assert ReadCounts(cc) == Some(Counts(c.value, n.value, it));
    if n.value == 0 {
      return None;
    }
    var list := DecodeTypeList(it, n.value);
    if list.None? || list.value.rest == [] || list.value.rest[0] != '.' {
      return None;
    }
    var returnType := DecodeSymbolName(list.value.rest[1..]);
    return Prepend("function \"" + ConventionText(c.value) + "\" (" + list.value.text + ") -> ", returnType);
  }

  /** The loop over the elements of a tuple and over the parameters of a function. */
  method DecodeTypeList(s: string, n: nat) returns (r: Option<Decoded>)
    requires n > 0
    ensures r == DecodeList(s, n)
    decreases |s|, 3
  {
    var first := DecodeSymbolName(s);
    if first.None? {
      return None;
    }
    var result, it := first.value.text, first.value.rest;
    ghost var head, last := "", result;
    ListFromStart(s, n);
    for i := 1 to n
      invariant |it| <= |s|
      invariant result == head + last
      invariant DecodeList(s, n) == Prepend(head, ListFrom(last, it, n - i))
    {
      ListFromTurn(last, it, n - i);
      if it == [] || it[0] != '.' {
        return None;
      }
      var next := DecodeSymbolName(it[1..]);
      if next.None? {
        return None;
      }
      PrependTwice(head, last + ", ", ListFrom(next.value.text, next.value.rest, n - i - 1));
      AppendType(head, last, next.value.text);
      head := head + (last + ", ");
      result, it := result + ", " + next.value.text, next.value.rest;
      last := next.value.text;
    }
    return Some(Decoded(result, it));
  }

  lemma AppendType(head: string, last: string, next: string)
    ensures head + last + ", " + next == head + (last + ", ") + next
  {
  }

  /** The rest of the list loop: `text` is the last type printed, `k` more follow. */
  ghost function ListFrom(text: string, it: string, k: nat): Option<Decoded> {
    if k == 0 then Some(Decoded(text, it))
    else if it == [] || it[0] != '.' then None
    else Prepend(text + ", ", DecodeList(it[1..], k))
  }

  lemma ListFromStart(s: string, n: nat)
    requires n > 0
    ensures DecodeList(s, n) ==
            match Decode(s)
            case None => None
            case Some(first) => Prepend("", ListFrom(first.text, first.rest, n - 1))
  {
    if Decode(s).Some? {
      var first := Decode(s).value;
      PrependNothing(ListFrom(first.text, first.rest, n - 1));
    }
  }

  lemma ListFromTurn(text: string, it: string, k: nat)
    requires k > 0
    ensures ListFrom(text, it, k) ==
            if it == [] || it[0] != '.' then None
            else
              match Decode(it[1..])
              case None => None
              case Some(next) => Prepend(text + ", ", ListFrom(next.text, next.rest, k - 1))
  {
  }
}
