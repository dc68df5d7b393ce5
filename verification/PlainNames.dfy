/** Names of enum values that cannot be confused with anything else in the symbol of a function. */
module PlainNames {
  import opened FunctionMangling
  import opened Numerals
  import opened Options
  import opened Sequences
  import opened Typespec
  import opened TypeMangling
  import V = ValueMangling
  import U = ValueUniqueness

  predicate AllDigits(s: string) {
    forall i :: 0 <= i < |s| ==> IsDigit(s[i])
  }

  predicate AllHexDigits(s: string) {
    forall i :: 0 <= i < |s| ==> IsHexDigit(s[i])
  }

  /** The text up to the first dot of an encoding that is not an enum's. */
  predicate BeginsValue(s: string) {
    s != [] &&
    match V.BranchOf(s[0])
    case NumberBranch(Float32) => |s| == 9 && AllHexDigits(s[1..])
    case NumberBranch(Float64) => |s| == 17 && AllHexDigits(s[1..])
    case NullBranch | VoidBranch => |s| == 1
    case EnumBranch | UnknownBranch => false
    case _ => |s| > 1 && AllDigits(s[1..])
  }

  /** The text up to the first dot of a type's name. */
  predicate BeginsType(s: string) {
    || (s != [] && s[0] == '0')
    || s == "mut" || s == "consteval" || s == "builtin" || s == "struct" || s == "non_global_struct" || s == "enum"
    || s == "non_global_enum" || s == "void"
  }

  predicate IsPlain(s: string) {
    s != [] && DotFree(s) && !BeginsValue(s) && !BeginsType(s)
  }

  // ----- how entries begin -----

  /** `s` is `h`, without dots, and then nothing or a dot. */
  ghost predicate Begins(s: string, h: string, t: string) {
    s == h + t && DotFree(h) && DotOrEnd(t)
  }

  lemma ValueBegins(v: V.Value, x: string) returns (h: string, t: string)
    requires V.InRange(v) && DotOrEnd(x) && !v.EnumName? && !v.EnumNumber?
    ensures Begins(V.Encode(v) + x, h, t) && BeginsValue(h)
  {
    var run, rest := BodyBegins(v, x);
    h, t := [V.Tag(v)] + run, rest;
    Associate([V.Tag(v)], V.Body(v), x);
    Associate([V.Tag(v)], run, rest);
    V.TagSelectsBranch(v);
    Cut([V.Tag(v)], run);
  }

  /** The digits behind the tag. */
  lemma BodyBegins(v: V.Value, x: string) returns (run: string, rest: string)
    requires V.InRange(v) && DotOrEnd(x) && !v.EnumName? && !v.EnumNumber?
    ensures V.Body(v) + x == run + rest && DotOrEnd(rest) && AllHexDigits(run)
    ensures v.Null? || v.Void? ==> run == ""
    ensures v.Number? && v.kind.Float32? ==> |run| == 8
    ensures v.Number? && v.kind.Float64? ==> |run| == 16
    ensures !v.Null? && !v.Void? && !(v.Number? && (v.kind.Float32? || v.kind.Float64?)) ==> run != [] && AllDigits(run)
  {
    if v.Str? || v.Function? || v.TypeName? {
      var s := if v.Str? then v.s else if v.Function? then v.symbol else v.typeSymbol;
      run, rest := Decimal(|s|), "." + s + x;
      Associate(run, "." + s, x);
    } else if v.List? {
      run, rest := Decimal(|v.elems|), V.Items(v.elems) + x;
      Associate(run, V.Items(v.elems), x);
      V.ItemsStart(v.elems, x);
    } else if v.NumberArray? {
      run, rest := Decimal(|v.values|), V.NumberItems(v.elemKind, v.values) + x;
      Associate(run, V.NumberItems(v.elemKind, v.values), x);
      V.NumbersRoundTrip(v.elemKind, v.values, x);
    } else {
      run, rest := V.Body(v), x;
    }
  }

  lemma UpToDot(p: string, z: string, s: string, y: string)
    requires DotFree(p) && DotFree(s) && DotOrEnd(z) && DotOrEnd(y) && p + z == s + y
    ensures p == s && z == y
  {
    SplitRuns(p, z, s, y, NotDot);
  }

  lemma TypeBegins(t: Type, x: string, s: string, y: string, names: Names)
    requires GoodNames(names) && HasSymbolName(t) && s != [] && DotFree(s) && DotOrEnd(x) && DotOrEnd(y)
    requires SymbolName(t, names) + x == s + y
    ensures BeginsType(s)
  {
    PeelModifier(t, x, names);
    if t.modifiers == [] {
      TerminatorBegins(t.terminator, x, s, y, names);
    } else {
      ModifierBegins(t.modifiers[0], SymbolName(Type(t.modifiers[1..], t.terminator), names) + x, s, y);
    }
  }

  lemma ModifierBegins(m: Modifier, rest: string, s: string, y: string)
    requires !m.AutoReference? && !m.AutoReferenceMut? && s != [] && DotFree(s) && DotOrEnd(y)
    requires ModifierName(m) + rest == s + y
    ensures BeginsType(s)
  {
    assert (s + y)[0] == s[0];
    if m.Mut? {
      WordBegins("mut", rest, s, y);
    } else if m.Consteval? {
      WordBegins("consteval", rest, s, y);
    } else {
      assert (ModifierName(m) + rest)[0] == '0';
    }
  }

  lemma WordBegins(word: string, rest: string, s: string, y: string)
    requires DotFree(word) && DotFree(s) && DotOrEnd(y) && word + "." + rest == s + y
    ensures s == word
  {
    Associate(word, ".", rest);
    UpToDot(word, "." + rest, s, y);
  }

  lemma TerminatorBegins(t: Terminator, x: string, s: string, y: string, names: Names)
    requires GoodNames(names) && HasSymbolName(Type([], t)) && s != [] && DotFree(s) && DotOrEnd(x) && DotOrEnd(y)
    requires TerminatorName(t, names) + x == s + y
    ensures BeginsType(s)
  {
    assert (s + y)[0] == s[0];
    match t
    case BaseType(info) => BaseBegins(names.base(info), x, s, y);
    case Enum(decl) =>
      Associate(if names.enumGlobal(decl) then ENUM else NON_GLOBAL_ENUM, names.enumName(decl), x);
      WordBegins(if names.enumGlobal(decl) then "enum" else "non_global_enum", names.enumName(decl) + x, s, y);
    case Void => UpToDot("void", x, s, y);
    case _ =>
  }

  lemma BaseBegins(name: string, x: string, s: string, y: string)
    requires IsBaseName(name) && DotFree(s) && DotOrEnd(y) && name + x == s + y
    ensures BeginsType(s)
  {
    var word := if BUILTIN <= name then "builtin" else if STRUCT <= name then "struct" else "non_global_struct";
    var n := |word| + 1;
    assert word + "." <= name;
    assert name + x == word + "." + (name[n..] + x);
    WordBegins(word, name[n..] + x, s, y);
  }

  /** A digit at the beginning is a zero with a letter behind it. */
  predicate NoNumber(s: string) {
    s != [] && (IsDigit(s[0]) ==> s[0] == '0' && |s| > 1 && !IsDigit(s[1]) && s[1] != '.')
  }

  lemma TypeIsNoNumber(t: Type, x: string, names: Names)
    requires GoodNames(names) && HasSymbolName(t)
    ensures NoNumber(SymbolName(t, names) + x)
  {
    PeelModifier(t, x, names);
    if t.modifiers == [] {
      TerminatorIsNoNumber(t.terminator, x, names);
    } else {
      var m := ModifierName(t.modifiers[0]);
      var s := m + (SymbolName(Type(t.modifiers[1..], t.terminator), names) + x);
      assert s[0] == m[0] && s[1] == m[1];
    }
  }

  lemma TerminatorIsNoNumber(t: Terminator, x: string, names: Names)
    requires GoodNames(names) && HasSymbolName(Type([], t))
    ensures NoNumber(TerminatorName(t, names) + x)
  {
    var name := TerminatorName(t, names);
    if t.BaseType? {
      assert IsBaseName(names.base(t.info));
    }
    assert |name| > 1 && (name + x)[0] == name[0] && (name + x)[1] == name[1];
  }

  // ----- enum values are not confused with each other -----

  lemma EntryIsNoNumber(f: Entry, x: string, names: Names, enums: U.Enums)
    requires GoodNames(names) && GoodEntry(f, enums)
    ensures NoNumber(EntryText(f, names, enums) + x)
  {
    match f
    case TypeEntry(t) => TypeIsNoNumber(t, x, names);
    case ValueEntry(v) => ValueIsNoNumber(v, x);
  }

  lemma ValueIsNoNumber(v: V.Value, x: string)
    requires V.InRange(v)
    ensures NoNumber(V.Encode(v) + x)
  {
    assert (V.Encode(v) + x)[0] == V.Tag(v);
  }

  lemma EnumTailIsNumber(v: V.Value, x: string)
    requires (v.EnumName? || v.EnumNumber?) && V.InRange(v) && DotOrEnd(x)
    ensures var s := U.EnumTail(v) + x;
            s != [] && IsDigit(s[0]) && (s[0] == '0' ==> |s| == 1 || IsDigit(s[1]) || s[1] == '.')
  {
    var s := U.EnumTail(v);
    assert (s + x)[0] == s[0];
    if v.EnumName? {
      FirstDigit(|v.valueName|);
    } else {
      FirstDigit(v.bits);
      if v.isSigned {
        assert (s + x)[1] == s[1] == Decimal(v.bits)[0];
      } else {
        assert s == Decimal(v.bits);
      }
    }
  }

  lemma EnumBegins(v: V.Value, x: string, s: string, y: string, names: Names, enums: U.Enums)
    requires GoodNames(names) && (v.EnumName? || v.EnumNumber?) && V.InRange(v) && DotOrEnd(x)
    requires DotFree(s) && IsEntries(y, names, enums)
    ensures V.Encode(v) + x != s + y
  {
    if V.Encode(v) + x == s + y {
      var e, tail := "e" + v.enumName, U.EnumTail(v) + x;
      Associate("e", V.Body(v), x);
      V.EnumText(v.enumName, U.EnumTail(v), x);
      Associate("e", v.enumName, "." + tail);
      UpToDot(e, "." + tail, s, y);
      var es :| GoodEntries(es, enums) && y == EntriesText(es, names, enums);
      var rest := EntryText(es[0], names, enums) + EntriesText(es[1..], names, enums);
      Cut(".", tail);
      Cut(".", rest);
      EnumTailIsNumber(v, x);
      EntryIsNoNumber(es[0], EntriesText(es[1..], names, enums), names, enums);
    }
  }

  // ----- plain names do not clash -----

  lemma PlainIsNotOptional(s: string, y: string, names: Names, enums: U.Enums)
    requires GoodNames(names) && IsPlain(s)
    ensures !U.IsOptional(EntriesFollowing(names, enums), s, y)
  {
    if U.IsOptional(EntriesFollowing(names, enums), s, y) {
      EntriesAreClosed(names, enums);
      var es :| GoodEntries(es, enums) && "." + s + y == EntriesText(es, names, enums);
      var f, x := es[0], EntriesText(es[1..], names, enums);
      assert IsEntries(x, names, enums) && EntriesFollowing(names, enums)(x);
      Associate(".", s, y);
      Cut(".", s + y);
      Cut(".", EntryText(f, names, enums) + x);
      EntryIsNotPlain(f, x, s, y, names, enums);
    }
  }

  lemma EntryIsNotPlain(f: Entry, x: string, s: string, y: string, names: Names, enums: U.Enums)
    requires GoodNames(names) && GoodEntry(f, enums) && DotOrEnd(x) && DotOrEnd(y) && IsEntries(y, names, enums)
    requires s != [] && DotFree(s) && EntryText(f, names, enums) + x == s + y
    ensures !IsPlain(s)
  {
    match f
    case TypeEntry(t) => TypeBegins(t, x, s, y, names);
    case ValueEntry(v) =>
      if v.EnumName? || v.EnumNumber? {
        EnumBegins(v, x, s, y, names, enums);
      } else {
        var h, t := ValueBegins(v, x);
        UpToDot(h, t, s, y);
      }
  }

  /**
   * If in every unsigned enum the names whose length is a number without a name are plain, then functions with the same
   * symbol have the same signature.
   */
  lemma PlainNamesSuffice(a: Signature, b: Signature, names: Names, generic: Type -> bool, enums: U.Enums)
    requires GoodNames(names) && Good(a, generic, enums) && Good(b, generic, enums)
    requires forall e, s :: U.Clashes(enums, e, s) ==> IsPlain(s)
    ensures Symbol(a, names) == Symbol(b, names) <==> a == b
  {
    if Symbol(a, names) == Symbol(b, names) {
      forall e, s, y | U.Clashes(enums, e, s) ensures !U.IsOptional(EntriesFollowing(names, enums), s, y) {
        PlainIsNotOptional(s, y, names, enums);
      }
      SameSymbolSameSignature(a, b, names, generic, enums);
    }
  }
}
