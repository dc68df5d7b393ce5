/**
 * `constant_value::encode_for_symbol_name` and `decode_from_symbol_name` of src/ast/constant_value.cpp. Strings are
 * sequences of bytes. The decoder's printing is left out: what it hands to the formatter is put back into a value.
 */
module ValueMangling {
  import opened Options
  import opened Numerals
  import opened Sequences

  /** 64-bit integers, and floating-point numbers by their bit patterns. */
  datatype NumberKind = SInt | UInt | Float32 | Float64

  datatype ListKind = Array | Tuple | Aggregate

  /** Values of enums are known by the text that names them, or by their 64 bits if they have no name. */
  datatype Value =
    | Number(kind: NumberKind, value: int)
    | Char(c: nat)
    | Str(s: string)
    | Boolean(b: bool)
    | Null
    | Void
    | EnumName(enumName: string, valueName: string)
    | EnumNumber(enumName: string, isSigned: bool, bits: nat)
    | NumberArray(elemKind: NumberKind, values: seq<int>)
    | List(listKind: ListKind, elems: seq<Value>)
    | Function(symbol: string)
    | TypeName(typeSymbol: string)

  datatype Decoded = Decoded(value: Value, rest: string)
  datatype Read = Read(number: int, rest: string)

  const TWO_32: int := 0x1_0000_0000
  const TWO_63: int := 0x8000_0000_0000_0000
  const TWO_64: int := 0x1_0000_0000_0000_0000

  // ----- numbers -----

  predicate NumberInRange(kind: NumberKind, v: int) {
    match kind
    case SInt => -TWO_63 <= v < TWO_63
    case UInt => 0 <= v < TWO_64
    case Float32 => 0 <= v < TWO_32
    case Float64 => 0 <= v < TWO_64
  }

  /** `bit_cast<uint64_t>` of a signed integer, and back. */
  function ToUnsigned(v: int): nat
    requires NumberInRange(SInt, v)
  {
    if v < 0 then v + TWO_64 else v
  }

  function ToSigned(u: nat): int {
    if u < TWO_63 then u else u - TWO_64
  }

  function NumberText(kind: NumberKind, v: int): string
    requires NumberInRange(kind, v)
  {
    match kind
    case SInt => Decimal(ToUnsigned(v))
    case UInt => Decimal(v)
    case Float32 => Hex(v, 8)
    case Float64 => Hex(v, 16)
  }

  /** `parse_int`: the leading digits; no digit at all reads as zero. */
  function ParseInt(s: string, modulus: nat): (r: Read)
    requires modulus > 0
    ensures 0 <= r.number < modulus && |r.rest| <= |s|
  {
    var n := RunLength(s, IsDigit);
    Read(WrappedValue(s[..n], 10, modulus), s[n..])
  }

  /** `parse_hex` */
  function ParseHex(s: string, modulus: nat): (r: Read)
    requires modulus > 0
    ensures 0 <= r.number < modulus && |r.rest| <= |s|
  {
    var n := RunLength(s, IsHexDigit);
    Read(WrappedValue(s[..n], 16, modulus), s[n..])
  }

  function ReadNumber(kind: NumberKind, s: string): (r: Read)
    ensures |r.rest| <= |s|
  {
    match kind
    case SInt => var r := ParseInt(s, TWO_64); Read(ToSigned(r.number), r.rest)
    case UInt => ParseInt(s, TWO_64)
    case Float32 => ParseHex(s, TWO_32)
    case Float64 => ParseHex(s, TWO_64)
  }

  // ----- encoding -----

  /** What the value's types allow: machine integers, sizes that fit `size_t`, and identifiers without dots. */
  predicate InRange(v: Value) {
    match v
    case Number(kind, n) => NumberInRange(kind, n)
    case Char(c) => c < TWO_32
    case Str(s) => |s| < TWO_64
    case EnumName(e, s) => DotFree(e) && 0 < |s| < TWO_64
    case EnumNumber(e, _, bits) => DotFree(e) && bits < TWO_64
    case NumberArray(kind, ns) => |ns| < TWO_64 && forall i :: 0 <= i < |ns| ==> NumberInRange(kind, ns[i])
    case List(_, vs) => |vs| < TWO_64 && forall i :: 0 <= i < |vs| ==> InRange(vs[i])
    case Function(s) => |s| < TWO_64
    case TypeName(s) => |s| < TWO_64
    case _ => true
  }

  function NumberTag(kind: NumberKind): char {
    match kind case SInt => 'i' case UInt => 'u' case Float32 => 'f' case Float64 => 'd'
  }

  function NumberArrayTag(kind: NumberKind): char {
    match kind case SInt => 'I' case UInt => 'U' case Float32 => 'G' case Float64 => 'D'
  }

  function ListTag(kind: ListKind): char {
    match kind case Array => 'A' case Tuple => 'T' case Aggregate => 'a'
  }

  function Tag(v: Value): char {
    match v
    case Number(kind, _) => NumberTag(kind)
    case Char(_) => 'c'
    case Str(_) => 's'
    case Boolean(_) => 'b'
    case Null => 'n'
    case Void => 'v'
    case EnumName(_, _) => 'e'
    case EnumNumber(_, _, _) => 'e'
    case NumberArray(kind, _) => NumberArrayTag(kind)
    case List(kind, _) => ListTag(kind)
    case Function(_) => 'F'
    case TypeName(_) => 't'
  }

  /** The encoding behind the tag. */
  function Body(v: Value): string
    requires InRange(v)
    decreases v, 0
  {
    match v
    case Number(kind, n) => NumberText(kind, n)
    case Char(c) => Decimal(c)
    case Str(s) => Decimal(|s|) + ("." + s)
    case Boolean(b) => if b then "1" else "0"
    case Null => ""
    case Void => ""
    case EnumName(e, s) => e + ("." + (Decimal(|s|) + ("." + s)))
    case EnumNumber(e, isSigned, bits) => e + ("." + EnumDigits(isSigned, bits))
    case NumberArray(kind, ns) => Decimal(|ns|) + NumberItems(kind, ns)
    case List(_, vs) => Decimal(|vs|) + Items(vs)
    case Function(s) => Decimal(|s|) + ("." + s)
    case TypeName(s) => Decimal(|s|) + ("." + s)
  }

  /** A number of a signed enum is marked with a zero in front. */
  function EnumDigits(isSigned: bool, bits: nat): string {
    (if isSigned then "0" else "") + Decimal(bits)
  }

  function Encode(v: Value): string
    requires InRange(v)
    decreases v, 1
  {
    [Tag(v)] + Body(v)
  }

  function NumberItems(kind: NumberKind, ns: seq<int>): string
    requires forall i :: 0 <= i < |ns| ==> NumberInRange(kind, ns[i])
  {
    if ns == [] then "" else "." + (NumberText(kind, ns[0]) + NumberItems(kind, ns[1..]))
  }

  function Items(vs: seq<Value>): string
    requires forall i :: 0 <= i < |vs| ==> InRange(vs[i])
    decreases vs, 0
  {
    if vs == [] then "" else "." + (Encode(vs[0]) + Items(vs[1..]))
  }

  // ----- decoding -----

  /** `None` stands for a failed assertion, an unknown tag, or reading past the end. */
  function Decode(s: string): (r: Option<Decoded>)
    ensures r.Some? ==> |r.value.rest| <= |s|
    decreases |s|, 1
  {
    if s == [] then None else DecodeBranch(BranchOf(s[0]), s[1..], s)
  }

  /** The branches of the decoder's switch. */
  datatype Branch =
    | NumberBranch(kind: NumberKind) | CharBranch | StringBranch | BooleanBranch | NullBranch | VoidBranch | EnumBranch
    | NumberArrayBranch(elemKind: NumberKind) | ListBranch(listKind: ListKind) | FunctionBranch | TypeBranch
    | UnknownBranch

  function BranchOf(tag: char): Branch {
    match tag
    case 'i' => NumberBranch(SInt)
    case 'u' => NumberBranch(UInt)
    case 'f' => NumberBranch(Float32)
    case 'd' => NumberBranch(Float64)
    case 'c' => CharBranch
    case 's' => StringBranch
    case 'b' => BooleanBranch
    case 'n' => NullBranch
    case 'v' => VoidBranch
    case 'e' => EnumBranch
    case 'A' => ListBranch(Array)
    case 'I' => NumberArrayBranch(SInt)
    case 'U' => NumberArrayBranch(UInt)
    case 'G' => NumberArrayBranch(Float32)
    case 'D' => NumberArrayBranch(Float64)
    case 'T' => ListBranch(Tuple)
    case 'F' => FunctionBranch
    case 't' => TypeBranch
    case 'a' => ListBranch(Aggregate)
    case _ => UnknownBranch
  }

  /** `s` is the tag followed by `u`; the tags of null and void are not consumed. */
  function DecodeBranch(b: Branch, u: string, s: string): (r: Option<Decoded>)
    requires |s| == |u| + 1
    ensures r.Some? ==> |r.value.rest| <= |s|
    decreases |s|, 0
  {
    match b
    case NumberBranch(kind) => ShowNumber(kind, u)
    case CharBranch => ShowChar(u)
    case StringBranch => DecodeString(u)
    case BooleanBranch => DecodeBoolean(u)
    case NullBranch => Some(Decoded(Null, s))
    case VoidBranch => Some(Decoded(Void, s))
    case EnumBranch => DecodeEnum(u)
    case NumberArrayBranch(kind) => DecodeNumberArray(kind, u)
    case ListBranch(kind) => DecodeList(kind, u)
    case FunctionBranch => DecodeFunction(u)
    case TypeBranch => DecodeTypeName(u)
    case UnknownBranch => None
  }

  function ShowNumber(kind: NumberKind, u: string): (r: Option<Decoded>)
    ensures r.Some? ==> |r.value.rest| <= |u|
  {
    var r := ReadNumber(kind, u);
    Some(Decoded(Number(kind, r.number), r.rest))
  }

  function ShowChar(u: string): (r: Option<Decoded>)
    ensures r.Some? ==> |r.value.rest| <= |u|
  {
    var r := ParseInt(u, TWO_32);
    Some(Decoded(Char(r.number), r.rest))
  }

  function DecodeBoolean(u: string): (r: Option<Decoded>)
    ensures r.Some? ==> |r.value.rest| <= |u|
  {
    if u == [] then None else Some(Decoded(Boolean(u[0] == '1'), u[1..]))
  }

  function DecodeString(u: string): (r: Option<Decoded>)
    ensures r.Some? ==> |r.value.rest| <= |u|
  {
    var size := ParseInt(u, TWO_64);
    if size.rest == [] || size.rest[0] != '.' then None
    else
      var t := size.rest[1..];
      if |t| < size.number then None else Some(Decoded(Str(t[..size.number]), t[size.number..]))
  }

  /** Up to the dot is the enum; a digit behind it is taken for a number, signed if it is zero. */
  function DecodeEnum(u: string): (r: Option<Decoded>)
    ensures r.Some? ==> |r.value.rest| <= |u|
  {
    var dot := RunLength(u, NotDot);
    if |u| - dot < 2 then None
    else
      var t := u[dot + 1..];
      var value := ParseInt(t, TWO_64);
      if IsDigit(t[0]) then Some(Decoded(EnumNumber(u[..dot], t[0] == '0', value.number), value.rest))
      else Some(Decoded(EnumName(u[..dot], ""), value.rest))
  }

  function DecodeFunction(u: string): (r: Option<Decoded>)
    ensures r.Some? ==> |r.value.rest| <= |u|
  {
    match DecodeSymbol(u)
    case None => None
    case Some((t, rest)) => Some(Decoded(Function(t), rest))
  }

  function DecodeTypeName(u: string): (r: Option<Decoded>)
    ensures r.Some? ==> |r.value.rest| <= |u|
  {
    match DecodeSymbol(u)
    case None => None
    case Some((t, rest)) => Some(Decoded(TypeName(t), rest))
  }

  /** Functions and types: the text is taken from the dot on instead of from behind it. */
  function DecodeSymbol(u: string): (r: Option<(string, string)>)
    ensures r.Some? ==> |r.value.1| <= |u|
  {
    var size := ParseInt(u, TWO_64);
    if size.rest == [] || size.rest[0] != '.' then None
    else
      var t := size.rest;
      if |t| < size.number then None else Some((t[..size.number], t[size.number..]))
  }

  function DecodeNumberArray(kind: NumberKind, u: string): (r: Option<Decoded>)
    ensures r.Some? ==> |r.value.rest| <= |u|
  {
    var size := ParseInt(u, TWO_64);
    match DecodeNumbers(kind, size.number, size.rest)
    case None => None
    case Some((ns, rest)) => Some(Decoded(NumberArray(kind, ns), rest))
  }

  function DecodeNumbers(kind: NumberKind, n: nat, s: string): (r: Option<(seq<int>, string)>)
    ensures r.Some? ==> |r.value.1| <= |s|
    decreases n
  {
    if n == 0 then Some(([], s))
    else if s == [] || s[0] != '.' then None
    else
      var first := ReadNumber(kind, s[1..]);
      match DecodeNumbers(kind, n - 1, first.rest)
      case None => None
      case Some((ns, rest)) => Some(([first.number] + ns, rest))
  }

  function DecodeList(kind: ListKind, u: string): (r: Option<Decoded>)
    ensures r.Some? ==> |r.value.rest| <= |u|
    decreases |u|, 2
  {
    var size := ParseInt(u, TWO_64);
    ListFrom(kind, DecodeElems(size.number, size.rest))
  }

  function ListFrom(kind: ListKind, r: Option<(seq<Value>, string)>): Option<Decoded> {
    match r
    case None => None
    case Some((vs, rest)) => Some(Decoded(List(kind, vs), rest))
  }

  function DecodeElems(n: nat, s: string): (r: Option<(seq<Value>, string)>)
    ensures r.Some? ==> |r.value.1| <= |s|
    decreases |s|, 0
  {
    if n == 0 then Some(([], s))
    else if s == [] || s[0] != '.' then None
    else
      match Decode(s[1..])
      case None => None
      case Some(first) =>
        match DecodeElems(n - 1, first.rest)
        case None => None
        case Some((vs, rest)) => Some(([first.value] + vs, rest))
  }

  // ----- where decoding inverts encoding -----

  /** The elements read so far in front of what the rest of the loop reads. */
  function InFront<T>(done: seq<T>, r: Option<(seq<T>, string)>): Option<(seq<T>, string)> {
    match r
    case None => None
    case Some((ts, rest)) => Some((done + ts, rest))
  }

  /** What the formatter is given: of an enum value without a name only the enum and the number. */
  datatype Shown =
    | Plain(value: Value)
    | ShownEnum(enumName: string, number: int)
    | ShownList(kind: ListKind, elems: seq<Shown>)

  function Show(v: Value): Shown
    decreases v, 1
  {
    match v
    case EnumNumber(e, isSigned, bits) => ShownEnum(e, if isSigned then ToSigned(bits) else bits)
    case List(kind, vs) => ShownList(kind, ShowAll(vs))
    case _ => Plain(v)
  }

  function ShowAll(vs: seq<Value>): (r: seq<Shown>)
    ensures |r| == |vs|
    decreases vs, 0
  {
    if vs == [] then [] else [Show(vs[0])] + ShowAll(vs[1..])
  }

  /** No null, void, function, type or named enum value anywhere in the value. */
  predicate Invertible(v: Value) {
    match v
    case Null | Void | Function(_) | TypeName(_) | EnumName(_, _) => false
    case List(_, vs) => AllInvertible(vs)
    case _ => true
  }

  predicate AllInvertible(vs: seq<Value>) {
    forall i :: 0 <= i < |vs| ==> Invertible(vs[i])
  }

  /**
   * A null or void is printed without being consumed, which nothing notices if it is the very last element at every
   * level. So is a symbol that is read one character too early, if it consists of dots.
   */
  predicate LastIsKept(v: Value) {
    match v
    case Null | Void => true
    case Function(s) => OnlyDots(s)
    case TypeName(s) => OnlyDots(s)
    case List(_, vs) => vs != [] && AllInvertible(vs[..|vs| - 1]) && LastIsKept(vs[|vs| - 1])
    case _ => false
  }

  predicate OnlyDots(s: string) {
    forall i :: 0 <= i < |s| ==> s[i] == '.'
  }

  /** What decoding does to an encoding: it comes back, it is printed but one character is left, or neither. */
  datatype Fate = Back | OneLeft | Lost

  function FateOf(v: Value): Fate {
    if Invertible(v) then Back else if LastIsKept(v) then OneLeft else Lost
  }

  function FateOfAll(vs: seq<Value>): Fate {
    if AllInvertible(vs) then Back
    else if AllInvertible(vs[..|vs| - 1]) && LastIsKept(vs[|vs| - 1]) then OneLeft
    else Lost
  }

  lemma ReadDecimal(n: nat, modulus: nat, x: string)
    requires n < modulus && (x != [] ==> !IsDigit(x[0]))
    ensures ParseInt(Decimal(n) + x, modulus) == Read(n, x)
  {
    RunLengthIs(Decimal(n), x, IsDigit);
    var s := Decimal(n) + x;
    assert s[..|Decimal(n)|] == Decimal(n) && s[|Decimal(n)|..] == x;
    DecimalValue(n);
    WrappedValueFits(Decimal(n), 10, modulus);
  }

  lemma ReadHexadecimal(n: nat, w: nat, modulus: nat, x: string)
    requires n < modulus && n < Pow16(w) && (x != [] ==> !IsHexDigit(x[0]))
    ensures ParseHex(Hex(n, w) + x, modulus) == Read(n, x)
  {
    RunLengthIs(Hex(n, w), x, IsHexDigit);
    var s := Hex(n, w) + x;
    assert s[..w] == Hex(n, w) && s[w..] == x;
    HexValueOf(n, w);
    WrappedValueFits(Hex(n, w), 16, modulus);
  }

  lemma NumberRoundTrip(kind: NumberKind, v: int, x: string)
    requires NumberInRange(kind, v) && DotOrEnd(x)
    ensures ReadNumber(kind, NumberText(kind, v) + x) == Read(v, x)
  {
    match kind
    case SInt => ReadDecimal(ToUnsigned(v), TWO_64, x);
    case UInt => ReadDecimal(v, TWO_64, x);
    case Float32 => assert Pow16(8) == TWO_32; ReadHexadecimal(v, 8, TWO_32, x);
    case Float64 =>
      assert Pow16(8) == TWO_32;
      assert Pow16(16) == TWO_64;
      ReadHexadecimal(v, 16, TWO_64, x);
  }

  ghost predicate Outcome(r: Option<Decoded>, v: Value, fate: Fate, x: string) {
    match fate
    case Back => r.Some? && Show(r.value.value) == Show(v) && r.value.rest == x
    case OneLeft => r.Some? && Show(r.value.value) == Show(v) && LeavesOneMore(r.value.rest, x)
    case Lost => r.None? || Show(r.value.value) != Show(v)
  }

  ghost predicate LeavesOneMore(rest: string, x: string) {
    |rest| == |x| + 1 && rest[1..] == x
  }

  ghost predicate ElemsOutcome(r: Option<(seq<Value>, string)>, vs: seq<Value>, fate: Fate, x: string) {
    match fate
    case Back => r.Some? && ShowAll(r.value.0) == ShowAll(vs) && r.value.1 == x
    case OneLeft => r.Some? && ShowAll(r.value.0) == ShowAll(vs) && LeavesOneMore(r.value.1, x)
    case Lost => r.None? || ShowAll(r.value.0) != ShowAll(vs)
  }

  /**
   * For every value and everything that may follow its encoding: the decoder hands the value's payload to the formatter
   * and stops at the end, or it hands it over but leaves the last character, or it does not hand it over.
   */
  lemma {:induction false} DecodeOutcome(v: Value, x: string)
    requires InRange(v) && DotOrEnd(x)
    ensures Outcome(Decode(Encode(v) + x), v, FateOf(v), x)
    decreases v, 1
  {
    SplitTag(Tag(v), Body(v), x);
    TagSelectsBranch(v);
    if v.List? {
      ListOutcome(v.listKind, v.elems, x);
    } else if v.EnumName? || v.EnumNumber? {
      EnumOutcome(v, x);
    } else {
      LeafOutcome(v, x);
    }
  }

  lemma LeafOutcome(v: Value, x: string)
    requires InRange(v) && DotOrEnd(x) && !v.List? && !v.EnumName? && !v.EnumNumber?
    ensures Outcome(DecodeBranch(BranchFor(v), Body(v) + x, [Tag(v)] + Body(v) + x), v, FateOf(v), x)
  {
    if v.Null? || v.Void? {
      NothingRead(v, x);
      UnreadOutcome(v, x);
    } else if v.Function? {
      FunctionOutcome(v.symbol, x);
    } else if v.TypeName? {
      TypeOutcome(v.typeSymbol, x);
    } else {
      PlainRoundTrip(v, x);
      PlainOutcome(v, x);
    }
  }

  lemma UnreadOutcome(v: Value, x: string)
    requires (v.Null? || v.Void?) && LeavesOneMore([Tag(v)] + Body(v) + x, x)
    ensures Outcome(Some(Decoded(v, [Tag(v)] + Body(v) + x)), v, FateOf(v), x)
  {
  }

  lemma PlainOutcome(v: Value, x: string)
    requires v.Number? || v.Char? || v.Str? || v.Boolean? || v.NumberArray?
    ensures Outcome(Some(Decoded(v, x)), v, FateOf(v), x)
  {
  }

  lemma FunctionOutcome(s: string, x: string)
    requires |s| < TWO_64
    ensures Outcome(DecodeFunction(Body(Function(s)) + x), Function(s), FateOf(Function(s)), x)
  {
    SymbolOutcome(s, x);
  }

  lemma TypeOutcome(s: string, x: string)
    requires |s| < TWO_64
    ensures Outcome(DecodeTypeName(Body(TypeName(s)) + x), TypeName(s), FateOf(TypeName(s)), x)
  {
    SymbolOutcome(s, x);
  }

  lemma EnumOutcome(v: Value, x: string)
    requires InRange(v) && DotOrEnd(x) && (v.EnumName? || v.EnumNumber?)
    ensures Outcome(DecodeEnum(Body(v) + x), v, FateOf(v), x)
  {
    if v.EnumName? {
      EnumNameIsMisread(v.enumName, v.valueName, x);
      MisreadOutcome(v, Decoded(EnumNumber(v.enumName, false, |v.valueName|), "." + v.valueName + x), x);
    } else {
      EnumNumberRoundTrip(v.enumName, v.isSigned, v.bits, x);
      NumberOutcome(v, x);
    }
  }

  lemma MisreadOutcome(v: Value, d: Decoded, x: string)
    requires v.EnumName? && d.value.EnumNumber?
    ensures Outcome(Some(d), v, FateOf(v), x)
  {
  }

  lemma NumberOutcome(v: Value, x: string)
    requires v.EnumNumber?
    ensures Outcome(Some(Decoded(EnumNumber(v.enumName, v.isSigned || v.bits == 0, v.bits), x)), v, FateOf(v), x)
  {
  }

  lemma PlainRoundTrip(v: Value, x: string)
    requires InRange(v) && DotOrEnd(x) && (v.Number? || v.Char? || v.Str? || v.Boolean? || v.NumberArray?)
    ensures DecodeBranch(BranchFor(v), Body(v) + x, [Tag(v)] + Body(v) + x) == Some(Decoded(v, x))
  {
    match v
    case Number(kind, n) => NumberRoundTrip(kind, n, x);
    case Char(c) => ReadDecimal(c, TWO_32, x);
    case Str(s) => StringRoundTrip(s, x);
    case Boolean(b) => Cut(Body(v), x);
    case NumberArray(kind, ns) => NumberArrayRoundTrip(kind, ns, x);
  }

  function BranchFor(v: Value): Branch {
    match v
    case Number(kind, _) => NumberBranch(kind)
    case Char(_) => CharBranch
    case Str(_) => StringBranch
    case Boolean(_) => BooleanBranch
    case Null => NullBranch
    case Void => VoidBranch
    case EnumName(_, _) => EnumBranch
    case EnumNumber(_, _, _) => EnumBranch
    case NumberArray(kind, _) => NumberArrayBranch(kind)
    case List(kind, _) => ListBranch(kind)
    case Function(_) => FunctionBranch
    case TypeName(_) => TypeBranch
  }

  lemma TagSelectsBranch(v: Value)
    ensures BranchOf(Tag(v)) == BranchFor(v)
  {
  }

  lemma NothingRead(v: Value, x: string)
    requires v.Null? || v.Void?
    ensures LeavesOneMore(Encode(v) + x, x)
  {
    assert (Encode(v) + x)[1..] == x;
  }

  lemma SplitTag(tag: char, body: string, x: string)
    ensures Decode([tag] + body + x) == DecodeBranch(BranchOf(tag), body + x, [tag] + body + x)
  {
    assert ([tag] + body + x)[1..] == body + x;
  }

  lemma StringRoundTrip(s: string, x: string)
    requires |s| < TWO_64
    ensures DecodeString(Decimal(|s|) + ("." + s) + x) == Some(Decoded(Str(s), x))
  {
    Associate(Decimal(|s|), "." + s, x);
    Associate(".", s, x);
    ReadDecimal(|s|, TWO_64, "." + (s + x));
    Cut(".", s + x);
    Cut(s, x);
  }

  /** A function's or type's symbol comes back with a dot in front and without its last character. */
  lemma SymbolOffByOne(s: string, x: string)
    requires |s| < TWO_64
    ensures var t := "." + s;
            DecodeSymbol(Decimal(|s|) + ("." + s) + x) == Some((t[..|s|], [t[|s|]] + x))
    ensures LeavesOneMore([("." + s)[|s|]] + x, x)
  {
    var t := "." + s;
    Associate(Decimal(|s|), t, x);
    ReadDecimal(|s|, TWO_64, t + x);
    var front, last := t[..|s|], [t[|s|]];
    AllButLast(t);
    Associate(front, last, x);
    Cut(front, last + x);
  }

  lemma SymbolOutcome(s: string, x: string)
    requires |s| < TWO_64
    ensures var r := DecodeSymbol(Decimal(|s|) + ("." + s) + x);
            r.Some? && (r.value.0 == s <==> OnlyDots(s)) && LeavesOneMore(r.value.1, x)
  {
    SymbolOffByOne(s, x);
    ShiftedByDot(s);
  }

  lemma {:induction false} ShiftedByDot(s: string)
    ensures ("." + s)[..|s|] == s <==> OnlyDots(s)
  {
    if s != [] && ("." + s)[..|s|] == s {
      var n := |s| - 1;
      assert s == s[..n] + [s[n]];
      assert ("." + s)[..|s|][..n] == ("." + s[..n])[..n];
      ShiftedByDot(s[..n]);
      assert s[n] == ("." + s)[n];
    }
  }

  /** What the decoder sees behind the name of the enum. */
  lemma EnumStart(e: string, t: string)
    requires DotFree(e) && t != [] && IsDigit(t[0])
    ensures var value := ParseInt(t, TWO_64);
            DecodeEnum(e + ("." + t)) == Some(Decoded(EnumNumber(e, t[0] == '0', value.number), value.rest))
  {
    var u := e + ("." + t);
    RunLengthIs(e, "." + t, NotDot);
    assert u[..|e|] == e && u[|e| + 1..] == t;
  }

  /** The length of the name is taken for a number, and the name itself is left over. */
  lemma EnumNameIsMisread(e: string, s: string, x: string)
    requires DotFree(e) && 0 < |s| < TWO_64
    ensures DecodeEnum(Body(EnumName(e, s)) + x) == Some(Decoded(EnumNumber(e, false, |s|), "." + s + x))
  {
    InsideText(e, Decimal(|s|), "." + s, x);
    LengthIsMisread(e, |s|, "." + s + x);
  }

  lemma InsideText(e: string, n: string, s: string, x: string)
    ensures e + ("." + (n + s)) + x == e + ("." + (n + (s + x)))
  {
    EnumText(e, n + s, x);
    Associate(n, s, x);
  }

  lemma LengthIsMisread(e: string, n: nat, rest: string)
    requires DotFree(e) && 0 < n < TWO_64 && rest != [] && rest[0] == '.'
    ensures DecodeEnum(e + ("." + (Decimal(n) + rest))) == Some(Decoded(EnumNumber(e, false, n), rest))
  {
    EnumStart(e, Decimal(n) + rest);
    ReadDecimal(n, TWO_64, rest);
    FirstDigit(n);
  }

  lemma EnumText(e: string, t: string, x: string)
    ensures e + ("." + t) + x == e + ("." + (t + x))
  {
    Associate(e, "." + t, x);
    Associate(".", t, x);
  }

  lemma EnumNumberRoundTrip(e: string, isSigned: bool, bits: nat, x: string)
    requires DotFree(e) && bits < TWO_64 && DotOrEnd(x)
    ensures DecodeEnum(Body(EnumNumber(e, isSigned, bits)) + x)
         == Some(Decoded(EnumNumber(e, isSigned || bits == 0, bits), x))
  {
    var digits := EnumDigits(isSigned, bits);
    EnumText(e, digits, x);
    EnumStart(e, digits + x);
    ReadEnumDigits(isSigned, bits, x);
    FirstDigit(bits);
    assert (digits + x)[0] == digits[0];
  }

  lemma ReadEnumDigits(isSigned: bool, bits: nat, x: string)
    requires bits < TWO_64 && DotOrEnd(x)
    ensures ParseInt(EnumDigits(isSigned, bits) + x, TWO_64) == Read(bits, x)
  {
    var digits := EnumDigits(isSigned, bits);
    var s := digits + x;
    RunLengthIs(digits, x, IsDigit);
    assert s[..|digits|] == digits && s[|digits|..] == x;
    assert !isSigned ==> digits == Decimal(bits);
    DecimalValue(bits);
    LeadingZero(Decimal(bits), 10);
    WrappedValueFits(digits, 10, TWO_64);
  }

  lemma NumberArrayRoundTrip(kind: NumberKind, ns: seq<int>, x: string)
    requires InRange(NumberArray(kind, ns)) && DotOrEnd(x)
    ensures DecodeNumberArray(kind, Body(NumberArray(kind, ns)) + x) == Some(Decoded(NumberArray(kind, ns), x))
  {
    Associate(Decimal(|ns|), NumberItems(kind, ns), x);
    NumbersRoundTrip(kind, ns, x);
    ReadDecimal(|ns|, TWO_64, NumberItems(kind, ns) + x);
  }

  lemma {:induction false} NumbersRoundTrip(kind: NumberKind, ns: seq<int>, x: string)
    requires DotOrEnd(x) && forall i :: 0 <= i < |ns| ==> NumberInRange(kind, ns[i])
    ensures DotOrEnd(NumberItems(kind, ns) + x)
    ensures DecodeNumbers(kind, |ns|, NumberItems(kind, ns) + x) == Some((ns, x))
  {
    if ns == [] {
      assert NumberItems(kind, ns) + x == x;
    } else {
      var text, rest := NumberText(kind, ns[0]), NumberItems(kind, ns[1..]);
      NumbersRoundTrip(kind, ns[1..], x);
      NumberRoundTrip(kind, ns[0], rest + x);
      OneMoreNumber(kind, |ns| - 1, text, ns[0], rest + x, ns[1..], x);
      Associate(".", text + rest, x);
      Associate(text, rest, x);
      HeadAndTail(ns);
    }
  }

  lemma OneMoreNumber(kind: NumberKind, n: nat, text: string, v: int, more: string, ns: seq<int>, x: string)
    requires ReadNumber(kind, text + more) == Read(v, more) && DecodeNumbers(kind, n, more) == Some((ns, x))
    ensures DecodeNumbers(kind, n + 1, "." + (text + more)) == Some(([v] + ns, x))
  {
    Cut(".", text + more);
  }

  lemma {:induction false} ListOutcome(kind: ListKind, vs: seq<Value>, x: string)
    requires InRange(List(kind, vs)) && DotOrEnd(x)
    ensures Outcome(DecodeList(kind, Decimal(|vs|) + Items(vs) + x), List(kind, vs), FateOf(List(kind, vs)), x)
    decreases vs, 2
  {
    Associate(Decimal(|vs|), Items(vs), x);
    ItemsStart(vs, x);
    ReadDecimal(|vs|, TWO_64, Items(vs) + x);
    ElemsRoundTrip(vs, x);
    FateOfList(kind, vs);
    AsList(kind, DecodeElems(|vs|, Items(vs) + x), vs, FateOfAll(vs), x);
  }

  lemma AsList(kind: ListKind, r: Option<(seq<Value>, string)>, vs: seq<Value>, fate: Fate, x: string)
    requires ElemsOutcome(r, vs, fate, x)
    ensures Outcome(ListFrom(kind, r), List(kind, vs), fate, x)
  {
  }

  lemma FateOfList(kind: ListKind, vs: seq<Value>)
    ensures FateOf(List(kind, vs)) == FateOfAll(vs)
  {
  }

  lemma ItemsStart(vs: seq<Value>, x: string)
    requires DotOrEnd(x) && forall i :: 0 <= i < |vs| ==> InRange(vs[i])
    ensures DotOrEnd(Items(vs) + x)
    ensures vs == [] ==> Items(vs) + x == x
    ensures vs != [] ==> Items(vs) + x == "." + (Encode(vs[0]) + (Items(vs[1..]) + x))
  {
    if vs == [] {
      assert Items(vs) + x == x;
    } else {
      Associate(".", Encode(vs[0]) + Items(vs[1..]), x);
      Associate(Encode(vs[0]), Items(vs[1..]), x);
    }
  }

  lemma {:induction false} ElemsRoundTrip(vs: seq<Value>, x: string)
    requires DotOrEnd(x) && forall i :: 0 <= i < |vs| ==> InRange(vs[i])
    ensures ElemsOutcome(DecodeElems(|vs|, Items(vs) + x), vs, FateOfAll(vs), x)
    decreases vs, 1
  {
    ItemsStart(vs, x);
    if vs != [] {
      var rest := Items(vs[1..]) + x;
      ItemsStart(vs[1..], x);
      DecodeOutcome(vs[0], rest);
      ElemsRoundTrip(vs[1..], x);
      FateOfFirst(vs);
      ElemsStep(vs, Encode(vs[0]) + rest, rest, x, FateOf(vs[0]), FateOfAll(vs[1..]), FateOfAll(vs));
    }
  }

  /** A first element that leaves one character too many is only noticed by the elements behind it. */
  function FateWith(first: Fate, others: Fate, alone: bool): Fate {
    match first
    case Back => others
    case OneLeft => if alone then OneLeft else Lost
    case Lost => Lost
  }

  lemma ElemsStep(vs: seq<Value>, s: string, rest: string, x: string, fate: Fate, others: Fate, all: Fate)
    requires vs != [] && DotOrEnd(rest) && DotOrEnd(x) && all == FateWith(fate, others, |vs| == 1)
    requires |vs| == 1 ==> rest == x
    requires |vs| > 1 ==> rest != []
    requires Outcome(Decode(s), vs[0], fate, rest)
    requires ElemsOutcome(DecodeElems(|vs| - 1, rest), vs[1..], others, x)
    ensures ElemsOutcome(DecodeElems(|vs|, "." + s), vs, all, x)
  {
    Cut(".", s);
    ElemsTurn(|vs|, "." + s);
    if Decode(s).Some? {
      var first := Decode(s).value;
      var r := DecodeElems(|vs| - 1, first.rest);
      match fate
      case Back => AfterFirst(vs, first.value, r, others, x);
      case OneLeft => LeftOver(first.rest, rest, |vs| - 1); OneIsLeft(vs, first.value, r, first.rest, x);
      case Lost => WrongFirst(vs, first.value, r);
    }
  }

  lemma FateOfFirst(vs: seq<Value>)
    requires vs != []
    ensures FateOfAll(vs) == FateWith(FateOf(vs[0]), FateOfAll(vs[1..]), |vs| == 1)
  {
    HeadAndTail(vs);
    var n := |vs| - 1;
    assert AllInvertible(vs) <==> Invertible(vs[0]) && AllInvertible(vs[1..]);
    if n > 0 {
      assert vs[1..][..n - 1] == vs[..n][1..];
      assert AllInvertible(vs[..n]) <==> Invertible(vs[0]) && AllInvertible(vs[1..][..n - 1]);
    }
  }

  lemma ShowFirst(v: Value, vs: seq<Value>)
    ensures ShowAll([v] + vs) == [Show(v)] + ShowAll(vs)
  {
    Cut([v], vs);
  }

  lemma AfterFirst(vs: seq<Value>, v: Value, r: Option<(seq<Value>, string)>, others: Fate, x: string)
    requires vs != [] && Show(v) == Show(vs[0]) && ElemsOutcome(r, vs[1..], others, x)
    ensures ElemsOutcome(InFront([v], r), vs, others, x)
  {
    if r.Some? {
      ShowFirst(v, r.value.0);
      SameTail(Show(v), ShowAll(r.value.0), ShowAll(vs[1..]));
    }
  }

  lemma SameTail<T>(t: T, a: seq<T>, b: seq<T>)
    ensures [t] + a == [t] + b <==> a == b
  {
    Cut([t], a);
    Cut([t], b);
  }

  lemma OneIsLeft(vs: seq<Value>, v: Value, r: Option<(seq<Value>, string)>, s: string, x: string)
    requires vs != [] && Show(v) == Show(vs[0])
    requires if |vs| == 1 then r == Some(([], s)) && LeavesOneMore(s, x) else r.None?
    ensures ElemsOutcome(InFront([v], r), vs, if |vs| == 1 then OneLeft else Lost, x)
  {
    if |vs| == 1 {
      ShowFirst(v, []);
      assert vs[1..] == [];
    }
  }

  lemma WrongFirst(vs: seq<Value>, v: Value, r: Option<(seq<Value>, string)>)
    requires vs != [] && Show(v) != Show(vs[0])
    ensures InFront([v], r).Some? ==> ShowAll(InFront([v], r).value.0) != ShowAll(vs)
  {
    if r.Some? {
      ShowFirst(v, r.value.0);
      assert ([Show(v)] + ShowAll(r.value.0))[0] == Show(v);
    }
  }

  lemma ElemsTurn(n: nat, s: string)
    requires n > 0 && s != [] && s[0] == '.'
    ensures DecodeElems(n, s) ==
            match Decode(s[1..])
            case None => None
            case Some(first) => InFront([first.value], DecodeElems(n - 1, first.rest))
  {
  }

  lemma LeftOver(s: string, rest: string, n: nat)
    requires LeavesOneMore(s, rest) && DotOrEnd(rest) && (n > 0 ==> rest != [])
    ensures n == 0 ==> DecodeElems(n, s) == Some(([], s))
    ensures n > 0 ==> DecodeElems(n, s).None?
  {
    if n > 0 {
      DotDecodesToNothing(rest);
    }
  }

  lemma DotDecodesToNothing(s: string)
    requires s != [] && s[0] == '.'
    ensures Decode(s) == None
  {
    assert BranchOf(s[0]) == UnknownBranch;
  }

  /** Decoding inverts encoding, up to what the formatter sees, exactly on the invertible values. */
  lemma RoundTripExactlyWhen(v: Value, x: string)
    requires InRange(v) && DotOrEnd(x)
    ensures var r := Decode(Encode(v) + x);
            r.Some? && Show(r.value.value) == Show(v) && r.value.rest == x <==> Invertible(v)
  {
    DecodeOutcome(v, x);
  }

  /** For a caller that does not look at the iterator, a last null or void is no obstacle. */
  lemma ShownExactlyWhen(v: Value, x: string)
    requires InRange(v) && DotOrEnd(x)
    ensures var r := Decode(Encode(v) + x);
            r.Some? && Show(r.value.value) == Show(v) <==> Invertible(v) || LastIsKept(v)
  {
    DecodeOutcome(v, x);
  }

  // ----- the code -----

  /** `parse_int`: one digit at a time, with the wrap-around of the unsigned result. */
  method ParseIntLoop(s: string, modulus: nat) returns (r: Read)
    requires modulus > 0
    ensures r == ParseInt(s, modulus)
  {
    var result, i := 0, 0;
    while i < |s| && IsDigit(s[i])
      invariant i <= |s| && forall k :: 0 <= k < i ==> IsDigit(s[k])
      invariant result == WrappedValue(s[..i], 10, modulus)
    {
      assert s[..i + 1][..i] == s[..i];
      result := (result * 10 % modulus + HexValue(s[i])) % modulus;
      i := i + 1;
    }
    RunLengthAt(s, i, IsDigit);
    r := Read(result, s[i..]);
  }

  lemma RunLengthAt(s: string, i: nat, accepts: char -> bool)
    requires i <= |s| && (forall k :: 0 <= k < i ==> accepts(s[k])) && (i < |s| ==> !accepts(s[i]))
    ensures RunLength(s, accepts) == i
  {
    RunLengthIs(s[..i], s[i..], accepts);
    assert s[..i] + s[i..] == s;
  }

  /** `parse_hex` */
  method ParseHexLoop(s: string, modulus: nat) returns (r: Read)
    requires modulus > 0
    ensures r == ParseHex(s, modulus)
  {
    var result, i := 0, 0;
    while i < |s| && IsHexDigit(s[i])
      invariant i <= |s| && forall k :: 0 <= k < i ==> IsHexDigit(s[k])
      invariant result == WrappedValue(s[..i], 16, modulus)
    {
      assert s[..i + 1][..i] == s[..i];
      result := (result * 16 % modulus + HexValue(s[i])) % modulus;
      i := i + 1;
    }
    RunLengthAt(s, i, IsHexDigit);
    r := Read(result, s[i..]);
  }

  /** `encode_for_symbol_name` appends to `out`. */
  method EncodeForSymbolName(out: string, v: Value) returns (r: string)
    requires InRange(v)
    ensures r == out + Encode(v)
    decreases v, 1
  {
    AppendTag(out, v);
    match v {
      case Number(kind, n) =>
        r := EncodeNumber(out, kind, n);
      case Char(c) =>
        r := out + "c";
        r := r + Decimal(c);
      case Str(str) =>
        r := EncodeSized(out + "s", str);
      case Boolean(b) =>
        r := out + "b";
        r := r + (if b then "1" else "0");
      case Null =>
        r := out + "n";
        assert r + "" == r;
      case Void =>
        r := out + "v";
        assert r + "" == r;
      case EnumName(e, name) =>
        r := EncodeEnumName(out + "e", e, name);
      case EnumNumber(e, isSigned, bits) =>
        r := EncodeEnumNumber(out + "e", e, isSigned, bits);
      case NumberArray(kind, ns) =>
        r := EncodeNumbers(out + [NumberArrayTag(kind)], kind, ns);
      case List(kind, vs) =>
        r := EncodeArrayLike(out + [ListTag(kind)], vs);
      case Function(symbol) =>
        r := EncodeSized(out + "F", symbol);
      case TypeName(symbol) =>
        r := EncodeSized(out + "t", symbol);
    }
  }

  method EncodeNumber(out: string, kind: NumberKind, n: int) returns (r: string)
    requires NumberInRange(kind, n)
    ensures r == out + [NumberTag(kind)] + NumberText(kind, n)
  {
    match kind {
      case SInt =>
        r := out + "i";
        r := r + Decimal(ToUnsigned(n));
      case UInt =>
        r := out + "u";
        r := r + Decimal(n);
      case Float32 =>
        r := out + "f";
        r := r + Hex(n, 8);
      case Float64 =>
        r := out + "d";
        r := r + Hex(n, 16);
    }
  }

  /** A text with its length in front. */
  method EncodeSized(out: string, text: string) returns (r: string)
    ensures r == out + (Decimal(|text|) + ("." + text))
  {
    r := out + Decimal(|text|);
    r := r + ".";
    r := r + text;
    Associate(out + Decimal(|text|), ".", text);
    Associate(out, Decimal(|text|), "." + text);
  }

  method EncodeEnumName(out: string, e: string, name: string) returns (r: string)
    ensures r == out + (e + ("." + (Decimal(|name|) + ("." + name))))
  {
    r := out + e;
    r := r + ".";
    r := EncodeSized(r, name);
    var sized := Decimal(|name|) + ("." + name);
    Associate(out + e, ".", sized);
    Associate(out, e, "." + sized);
  }

  method EncodeEnumNumber(out: string, e: string, isSigned: bool, bits: nat) returns (r: string)
    ensures r == out + (e + ("." + EnumDigits(isSigned, bits)))
  {
    r := out + e;
    r := r + ".";
    Associate(out, e, ".");
    Associate(out, e + ".", EnumDigits(isSigned, bits));
    Associate(e, ".", EnumDigits(isSigned, bits));
    if isSigned {
      r := r + ("0" + Decimal(bits));
    } else {
      assert EnumDigits(isSigned, bits) == Decimal(bits);
      r := r + Decimal(bits);
    }
  }

  lemma AppendTag(out: string, v: Value)
    requires InRange(v)
    ensures out + [Tag(v)] + Body(v) == out + Encode(v)
  {
    Associate(out, [Tag(v)], Body(v));
  }

  /** `encode_array_like` for arrays of numbers. */
  method EncodeNumbers(out: string, kind: NumberKind, ns: seq<int>) returns (r: string)
    requires forall i :: 0 <= i < |ns| ==> NumberInRange(kind, ns[i])
    ensures r == out + (Decimal(|ns|) + NumberItems(kind, ns))
  {
    r := out + Decimal(|ns|);
    for i := 0 to |ns|
      invariant r + NumberItems(kind, ns[i..]) == out + Decimal(|ns|) + NumberItems(kind, ns)
    {
      NextNumber(r, kind, ns, i);
      r := r + "." + NumberText(kind, ns[i]);
    }
    Associate(out, Decimal(|ns|), NumberItems(kind, ns));
    assert r + "" == r;
  }

  lemma NextNumber(r: string, kind: NumberKind, ns: seq<int>, i: nat)
    requires i < |ns| && forall k :: 0 <= k < |ns| ==> NumberInRange(kind, ns[k])
    ensures r + NumberItems(kind, ns[i..]) == r + "." + NumberText(kind, ns[i]) + NumberItems(kind, ns[i + 1..])
  {
    assert ns[i..][1..] == ns[i + 1..];
    var text, items := NumberText(kind, ns[i]), NumberItems(kind, ns[i + 1..]);
    Associate(r, ".", text + items);
    Associate(r + ".", text, items);
  }

  /** `encode_array_like` for arrays, tuples and aggregates. */
  method EncodeArrayLike(out: string, vs: seq<Value>) returns (r: string)
    requires forall i :: 0 <= i < |vs| ==> InRange(vs[i])
    ensures r == out + (Decimal(|vs|) + Items(vs))
    decreases vs, 0
  {
    r := out + Decimal(|vs|);
    for i := 0 to |vs|
      invariant r + Items(vs[i..]) == out + Decimal(|vs|) + Items(vs)
    {
      NextItem(r, vs, i);
      r := EncodeForSymbolName(r + ".", vs[i]);
    }
    Associate(out, Decimal(|vs|), Items(vs));
    assert r + "" == r;
  }

  lemma NextItem(r: string, vs: seq<Value>, i: nat)
    requires i < |vs| && forall k :: 0 <= k < |vs| ==> InRange(vs[k])
    ensures r + Items(vs[i..]) == r + "." + Encode(vs[i]) + Items(vs[i + 1..])
  {
  }

  lemma InFrontTwice<T>(done: seq<T>, t: T, r: Option<(seq<T>, string)>)
    ensures InFront(done, InFront([t], r)) == InFront(done + [t], r)
  {
    if r.Some? {
      assert done + ([t] + r.value.0) == done + [t] + r.value.0;
    }
  }

  lemma InFrontNothing<T>(r: Option<(seq<T>, string)>)
    ensures InFront([], r) == r
  {
    if r.Some? {
      assert [] + r.value.0 == r.value.0;
    }
  }

  /** The loop of `decode_sint_array` and its three siblings. */
  method DecodeNumbersLoop(kind: NumberKind, n: nat, s: string) returns (r: Option<(seq<int>, string)>)
    ensures r == DecodeNumbers(kind, n, s)
  {
    var done, it := [], s;
    ghost var all := DecodeNumbers(kind, n, s);
    InFrontNothing(all);
    for i := 0 to n
      invariant all == InFront(done, DecodeNumbers(kind, n - i, it))
    {
      var x := NextNumberRead(done, kind, n - i, it);
      if x.None? {
        return None;
      }
      done, it := done + [x.value.number], x.value.rest;
    }
    assert done + [] == done;
    return Some((done, it));
  }

  /** The body of the loop; a missing dot fails an assertion. */
  method NextNumberRead(ghost done: seq<int>, kind: NumberKind, n: nat, it: string) returns (x: Option<Read>)
    requires n > 0
    ensures InFront(done, DecodeNumbers(kind, n, it)) ==
            match x
            case None => None
            case Some(x) => InFront(done + [x.number], DecodeNumbers(kind, n - 1, x.rest))
  {
    NumbersTurn(done, kind, n, it);
    if it == [] || it[0] != '.' {
      return None;
    }
    var number := ReadNumberLoop(kind, it[1..]);
    return Some(number);
  }

  lemma NumbersTurn(done: seq<int>, kind: NumberKind, n: nat, s: string)
    requires n > 0
    ensures InFront(done, DecodeNumbers(kind, n, s)) ==
            if s == [] || s[0] != '.' then None
            else
              var x := ReadNumber(kind, s[1..]);
              InFront(done + [x.number], DecodeNumbers(kind, n - 1, x.rest))
  {
    if s != [] && s[0] == '.' {
      var x := ReadNumber(kind, s[1..]);
      InFrontTwice(done, x.number, DecodeNumbers(kind, n - 1, x.rest));
    }
  }

  /** The loop of `decode_array_like`. */
  method DecodeElemsLoop(n: nat, s: string) returns (r: Option<(seq<Value>, string)>)
    ensures r == DecodeElems(n, s)
    decreases |s|, 0
  {
    var done, it := [], s;
    ghost var all := DecodeElems(n, s);
    InFrontNothing(all);
    for i := 0 to n
      invariant |it| <= |s|
      invariant all == InFront(done, DecodeElems(n - i, it))
    {
      TurnInFront(done, n - i, it);
      if it == [] || it[0] != '.' {
        return None;
      }
      var x := DecodeFromSymbolName(it[1..]);
      if x.None? {
        return None;
      }
      done, it := done + [x.value.value], x.value.rest;
    }
    assert done + [] == done;
    return Some((done, it));
  }

  lemma TurnInFront(done: seq<Value>, n: nat, s: string)
    requires n > 0
    ensures InFront(done, DecodeElems(n, s)) ==
            if s == [] || s[0] != '.' then None
            else
              match Decode(s[1..])
              case None => None
              case Some(x) => InFront(done + [x.value], DecodeElems(n - 1, x.rest))
  {
    if s != [] && s[0] == '.' && Decode(s[1..]).Some? {
      var x := Decode(s[1..]).value;
      ElemsTurn(n, s);
      InFrontTwice(done, x.value, DecodeElems(n - 1, x.rest));
    }
  }

  /** `decode_from_symbol_name` */
  method DecodeFromSymbolName(s: string) returns (r: Option<Decoded>)
    ensures r == Decode(s)
    decreases |s|, 1
  {
    if s == [] {
      return None;
    }
    var branch, u := BranchOf(s[0]), s[1..];
    match branch {
      case NumberBranch(kind) =>
        var number := ReadNumberLoop(kind, u);
        r := Some(Decoded(Number(kind, number.number), number.rest));
      case CharBranch =>
        var c := ParseIntLoop(u, TWO_32);
        r := Some(Decoded(Char(c.number), c.rest));
      case StringBranch =>
        r := ReadString(u);
      case BooleanBranch =>
        r := if u == [] then None else Some(Decoded(Boolean(u[0] == '1'), u[1..]));
      case NullBranch =>
        r := Some(Decoded(Null, s));
      case VoidBranch =>
        r := Some(Decoded(Void, s));
      case EnumBranch =>
        r := ReadEnum(u);
      case NumberArrayBranch(kind) =>
        r := DecodeNumberArrayLike(kind, u);
      case ListBranch(kind) =>
        r := DecodeArrayLike(kind, u);
      case FunctionBranch =>
        var symbol := ReadSymbol(u);
        r := if symbol.None? then None else Some(Decoded(Function(symbol.value.0), symbol.value.1));
      case TypeBranch =>
        var symbol := ReadSymbol(u);
        r := if symbol.None? then None else Some(Decoded(TypeName(symbol.value.0), symbol.value.1));
      case UnknownBranch =>
        r := None;
    }
  }

  method ReadNumberLoop(kind: NumberKind, s: string) returns (r: Read)
    ensures r == ReadNumber(kind, s)
  {
    match kind {
      case SInt =>
        var u := ParseIntLoop(s, TWO_64);
        r := Read(ToSigned(u.number), u.rest);
      case UInt =>
        r := ParseIntLoop(s, TWO_64);
      case Float32 =>
        r := ParseHexLoop(s, TWO_32);
      case Float64 =>
        r := ParseHexLoop(s, TWO_64);
    }
  }

  method ReadString(u: string) returns (r: Option<Decoded>)
    ensures r == DecodeString(u)
  {
    var size := ParseIntLoop(u, TWO_64);
    var it := size.rest;
    if it == [] || it[0] != '.' {
      return None;
    }
    it := it[1..];
    if |it| < size.number {
      return None;
    }
    return Some(Decoded(Str(it[..size.number]), it[size.number..]));
  }

  /** The branches for functions and types, which do not move behind the dot. */
  method ReadSymbol(u: string) returns (r: Option<(string, string)>)
    ensures r == DecodeSymbol(u)
  {
    var size := ParseIntLoop(u, TWO_64);
    var it := size.rest;
    if it == [] || it[0] != '.' || |it| < size.number {
      return None;
    }
    return Some((it[..size.number], it[size.number..]));
  }

  method ReadEnum(u: string) returns (r: Option<Decoded>)
    ensures r == DecodeEnum(u)
  {
    var dot := 0;
    while dot < |u| && u[dot] != '.'
      invariant dot <= |u| && forall k :: 0 <= k < dot ==> NotDot(u[k])
    {
      dot := dot + 1;
    }
    RunLengthAt(u, dot, NotDot);
    if |u| - dot < 2 {
      return None;
    }
    var it := u[dot + 1..];
    var value := ParseIntLoop(it, TWO_64);
    if '0' <= it[0] <= '9' {
      return Some(Decoded(EnumNumber(u[..dot], it[0] == '0', value.number), value.rest));
    } else {
      return Some(Decoded(EnumName(u[..dot], ""), value.rest));
    }
  }

  method DecodeArrayLike(kind: ListKind, u: string) returns (r: Option<Decoded>)
    ensures r == DecodeList(kind, u)
    decreases |u|, 2
  {
    var size := ParseIntLoop(u, TWO_64);
    var elems := DecodeElemsLoop(size.number, size.rest);
    if elems.None? {
      return None;
    }
    return Some(Decoded(List(kind, elems.value.0), elems.value.1));
  }

  method DecodeNumberArrayLike(kind: NumberKind, u: string) returns (r: Option<Decoded>)
    ensures r == DecodeNumberArray(kind, u)
  {
    var size := ParseIntLoop(u, TWO_64);
    var numbers := DecodeNumbersLoop(kind, size.number, size.rest);
    if numbers.None? {
      return None;
    }
    return Some(Decoded(NumberArray(kind, numbers.value.0), numbers.value.1));
  }
}
