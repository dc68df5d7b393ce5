/**
 * Symbol names of functions and operators (`function_body::get_symbol_name`, src/ast/statement.cpp:84-137): names,
 * types and constants one behind the other.
 */
module FunctionMangling {
  import opened Numerals
  import opened Options
  import opened Sequences
  import opened Typespec
  import opened TypeMangling
  import V = ValueMangling
  import U = ValueUniqueness

  /** An operator is known by its token, a function by the parts of its qualified name. */
  datatype FunctionName = Operator(op: nat) | Named(parts: seq<string>)

  /** A generic parameter has the constant that it stands for. */
  datatype Param = Param(type_: Type, value: Option<V.Value>)

  datatype Signature = Signature(name: FunctionName, params: seq<Param>, returnType: Type)

  predicate GoodParam(p: Param, generic: Type -> bool, enums: U.Enums) {
    && HasSymbolName(p.type_)
    && (p.value.Some? <==> generic(p.type_))
    && (p.value.Some? ==> U.Fits(p.value.value, enums))
  }

  predicate GoodParams(ps: seq<Param>, generic: Type -> bool, enums: U.Enums) {
    forall i :: 0 <= i < |ps| ==> GoodParam(ps[i], generic, enums)
  }

  predicate GoodName(name: FunctionName) {
    match name
    case Operator(_) => true
    case Named(parts) => parts != [] && forall i :: 0 <= i < |parts| ==> parts[i] != [] && DotFree(parts[i])
  }

  predicate Good(s: Signature, generic: Type -> bool, enums: U.Enums) {
    && GoodName(s.name)
    && GoodParams(s.params, generic, enums)
    && HasSymbolName(s.returnType)
  }

  // ----- the name -----

  /** `format_for_symbol` */
  function Joined(parts: seq<string>): string
    requires parts != []
  {
    if |parts| == 1 then parts[0] else parts[0] + ("." + Joined(parts[1..]))
  }

  function NameText(name: FunctionName): string
    requires GoodName(name)
  {
    match name
    case Operator(op) => "op." + Decimal(op)
    case Named(parts) => "func." + Joined(parts)
  }

  function ValueText(value: Option<V.Value>): string
    requires value.Some? ==> V.InRange(value.value)
  {
    if value.Some? then "." + V.Encode(value.value) else ""
  }

  predicate HasText(p: Param) {
    HasSymbolName(p.type_) && (p.value.Some? ==> V.InRange(p.value.value))
  }

  function ParamsText(ps: seq<Param>, names: Names): string
    requires forall i :: 0 <= i < |ps| ==> HasText(ps[i])
  {
    if ps == [] then
      ""
    else
      var p := ps[0];
      assert HasText(p);
      "." + (SymbolName(p.type_, names) + (ValueText(p.value) + ParamsText(ps[1..], names)))
  }

  function Symbol(s: Signature, names: Names): string
    requires GoodName(s.name) && HasSymbolName(s.returnType)
    requires forall i :: 0 <= i < |s.params| ==> HasText(s.params[i])
  {
    NameText(s.name)
    + (".." + (Decimal(|s.params|) + (ParamsText(s.params, names) + ("." + SymbolName(s.returnType, names)))))
  }

  // ----- what follows a constant in a symbol -----

  datatype Entry = TypeEntry(type_: Type) | ValueEntry(value: V.Value)

  predicate GoodEntry(e: Entry, enums: U.Enums) {
    match e
    case TypeEntry(t) => HasSymbolName(t)
    case ValueEntry(v) => U.Fits(v, enums)
  }

  predicate GoodEntries(es: seq<Entry>, enums: U.Enums) {
    forall i :: 0 <= i < |es| ==> GoodEntry(es[i], enums)
  }

  function EntryText(e: Entry, names: Names, ghost enums: U.Enums): string
    requires GoodEntry(e, enums)
  {
    match e
    case TypeEntry(t) => SymbolName(t, names)
    case ValueEntry(v) => V.Encode(v)
  }

  function EntriesText(es: seq<Entry>, names: Names, ghost enums: U.Enums): string
    requires GoodEntries(es, enums)
  {
    if es == [] then "" else "." + (EntryText(es[0], names, enums) + EntriesText(es[1..], names, enums))
  }

  ghost predicate IsEntries(x: string, names: Names, enums: U.Enums) {
    exists es :: GoodEntries(es, enums) && x == EntriesText(es, names, enums)
  }

  /** Types and values in any order, each with a dot in front. */
  ghost function EntriesFollowing(names: Names, enums: U.Enums): string -> bool {
    x => IsEntries(x, names, enums)
  }

  lemma OneMoreEntry(e: Entry, x: string, names: Names, enums: U.Enums)
    requires GoodEntry(e, enums) && IsEntries(x, names, enums)
    ensures IsEntries("." + (EntryText(e, names, enums) + x), names, enums)
  {
    var es :| GoodEntries(es, enums) && x == EntriesText(es, names, enums);
    Cut([e], es);
    assert GoodEntries([e] + es, enums);
  }

  lemma NoEntry(names: Names, enums: U.Enums)
    ensures IsEntries("", names, enums)
  {
    assert GoodEntries([], enums);
  }

  lemma EntriesAreClosed(names: Names, enums: U.Enums)
    ensures U.Closed(EntriesFollowing(names, enums), enums)
  {
    var follows := EntriesFollowing(names, enums);
    forall x | follows(x) ensures DotOrEnd(x) {
      var es :| GoodEntries(es, enums) && x == EntriesText(es, names, enums);
    }
    forall v, x | U.Fits(v, enums) && follows(x) ensures follows(U.WithItem(v, x)) {
      OneMoreEntry(ValueEntry(v), x, names, enums);
    }
  }

  /** The constants of functions cannot be confused. */
  ghost predicate NoClash(names: Names, enums: U.Enums) {
    U.NoClash(EntriesFollowing(names, enums), enums)
  }

  // ----- it identifies the signature -----

  lemma {:induction false} JoinedIsUnique(a: seq<string>, x: string, b: seq<string>, y: string)
    requires GoodName(Named(a)) && GoodName(Named(b))
    requires Joined(a) + (".." + x) == Joined(b) + (".." + y)
    ensures a == b && x == y
  {
    var s, t := BehindFirst(a, x), BehindFirst(b, y);
    FirstPart(a, x);
    FirstPart(b, y);
    SplitRuns(a[0], "." + s, b[0], "." + t, NotDot);
    Cut(".", s);
    Cut(".", t);
    if |a| > 1 {
      JoinedIsUnique(a[1..], x, b[1..], y);
      HeadAndTail(a);
      HeadAndTail(b);
    } else {
      Cut(".", x);
      Cut(".", y);
    }
  }

  /** What follows the first part and its dot begins with a dot only if there is no other part. */
  function BehindFirst(parts: seq<string>, x: string): string
    requires parts != []
  {
    if |parts| == 1 then "." + x else Joined(parts[1..]) + (".." + x)
  }

  lemma FirstPart(parts: seq<string>, x: string)
    requires GoodName(Named(parts))
    ensures Joined(parts) + (".." + x) == parts[0] + ("." + BehindFirst(parts, x))
    ensures BehindFirst(parts, x) != [] && (BehindFirst(parts, x)[0] == '.' <==> |parts| == 1)
  {
    if |parts| == 1 {
      TwoDots(x);
    } else {
      FirstOfSeveral(parts, x);
    }
  }

  lemma TwoDots(x: string)
    ensures ".." + x == "." + ("." + x)
    ensures ("." + x)[0] == '.'
  {
  }

  lemma FirstOfSeveral(parts: seq<string>, x: string)
    requires GoodName(Named(parts)) && |parts| > 1
    ensures Joined(parts) + (".." + x) == parts[0] + ("." + BehindFirst(parts, x))
    ensures BehindFirst(parts, x) != [] && BehindFirst(parts, x)[0] != '.'
  {
    var rest := Joined(parts[1..]);
    JoinedStart(parts[1..]);
    PartAndRest(parts[0], rest, ".." + x);
    assert (rest + (".." + x))[0] == rest[0];
  }

  lemma PartAndRest(part: string, rest: string, x: string)
    ensures part + ("." + rest) + x == part + ("." + (rest + x))
  {
    Associate(part, "." + rest, x);
    Associate(".", rest, x);
  }

  lemma JoinedStart(parts: seq<string>)
    requires GoodName(Named(parts))
    ensures Joined(parts) != [] && Joined(parts)[0] != '.'
  {
    assert parts[0] != [] && DotFree(parts[0]);
    assert Joined(parts)[0] == parts[0][0];
  }

  lemma NameIsUnique(a: FunctionName, x: string, b: FunctionName, y: string)
    requires GoodName(a) && GoodName(b)
    requires NameText(a) + (".." + x) == NameText(b) + (".." + y)
    ensures a == b && x == y
  {
    assert (NameText(a) + (".." + x))[0] == NameText(a)[0];
    assert (NameText(b) + (".." + y))[0] == NameText(b)[0];
    if a.Operator? {
      Associate("op.", Decimal(a.op), ".." + x);
      Associate("op.", Decimal(b.op), ".." + y);
      Cut("op.", Decimal(a.op) + (".." + x));
      Cut("op.", Decimal(b.op) + (".." + y));
      SplitDecimal(a.op, ".." + x, b.op, ".." + y);
      Cut("..", x);
      Cut("..", y);
    } else {
      Associate("func.", Joined(a.parts), ".." + x);
      Associate("func.", Joined(b.parts), ".." + y);
      Cut("func.", Joined(a.parts) + (".." + x));
      Cut("func.", Joined(b.parts) + (".." + y));
      JoinedIsUnique(a.parts, x, b.parts, y);
    }
  }

  function FirstText(p: Param, rest: string, names: Names): string
    requires HasText(p)
  {
    "." + (SymbolName(p.type_, names) + (ValueText(p.value) + rest))
  }

  lemma ParamStart(ps: seq<Param>, x: string, names: Names)
    requires forall i :: 0 <= i < |ps| ==> HasText(ps[i])
    ensures ps == [] ==> ParamsText(ps, names) + x == x
    ensures ps != [] ==> ParamsText(ps, names) + x == FirstText(ps[0], ParamsText(ps[1..], names) + x, names)
  {
    if ps == [] {
      assert "" + x == x;
    } else {
      var t, v, r := SymbolName(ps[0].type_, names), ValueText(ps[0].value), ParamsText(ps[1..], names);
      Associate(".", t + (v + r), x);
      Associate(t, v + r, x);
      Associate(v, r, x);
    }
  }

  lemma ValueStart(value: Option<V.Value>, x: string)
    requires value.Some? ==> V.InRange(value.value)
    ensures value.None? ==> ValueText(value) + x == x
    ensures value.Some? ==> ValueText(value) + x == "." + (V.Encode(value.value) + x)
  {
    if value.None? {
      assert "" + x == x;
    } else {
      Associate(".", V.Encode(value.value), x);
    }
  }

  lemma ValueFollows(value: Option<V.Value>, x: string, names: Names, enums: U.Enums)
    requires (value.Some? ==> U.Fits(value.value, enums)) && IsEntries(x, names, enums)
    ensures IsEntries(ValueText(value) + x, names, enums)
  {
    ValueStart(value, x);
    if value.Some? {
      OneMoreEntry(ValueEntry(value.value), x, names, enums);
    }
  }

  lemma {:induction false} ParamsFollow(ps: seq<Param>, x: string, names: Names, generic: Type -> bool, enums: U.Enums)
    requires GoodParams(ps, generic, enums) && IsEntries(x, names, enums)
    ensures IsEntries(ParamsText(ps, names) + x, names, enums)
  {
    ParamStart(ps, x, names);
    if ps != [] {
      var p := ps[0];
      ParamsFollow(ps[1..], x, names, generic, enums);
      assert GoodParam(p, generic, enums);
      ValueFollows(p.value, ParamsText(ps[1..], names) + x, names, enums);
      OneMoreEntry(TypeEntry(p.type_), ValueText(p.value) + (ParamsText(ps[1..], names) + x), names, enums);
    }
  }

  lemma {:induction false} ParamsAreUnique(a: seq<Param>, x: string, b: seq<Param>, y: string,
                                           names: Names, generic: Type -> bool, enums: U.Enums)
    requires GoodNames(names) && NoClash(names, enums) && |a| == |b|
    requires IsEntries(x, names, enums) && IsEntries(y, names, enums)
    requires GoodParams(a, generic, enums) && GoodParams(b, generic, enums)
    requires ParamsText(a, names) + x == ParamsText(b, names) + y
    ensures a == b && x == y
  {
    ParamStart(a, x, names);
    ParamStart(b, y, names);
    if a != [] {
      var r, s := ParamsText(a[1..], names) + x, ParamsText(b[1..], names) + y;
      ParamsFollow(a[1..], x, names, generic, enums);
      ParamsFollow(b[1..], y, names, generic, enums);
      FirstParamIsUnique(a[0], r, b[0], s, names, generic, enums);
      ParamsAreUnique(a[1..], x, b[1..], y, names, generic, enums);
      HeadAndTail(a);
      HeadAndTail(b);
    }
  }

  lemma FirstParamIsUnique(p: Param, r: string, q: Param, s: string, names: Names, generic: Type -> bool,
                           enums: U.Enums)
    requires GoodNames(names) && NoClash(names, enums)
    requires IsEntries(r, names, enums) && IsEntries(s, names, enums)
    requires GoodParam(p, generic, enums) && GoodParam(q, generic, enums)
    requires FirstText(p, r, names) == FirstText(q, s, names)
    ensures p == q && r == s
  {
    Cut(".", SymbolName(p.type_, names) + (ValueText(p.value) + r));
    Cut(".", SymbolName(q.type_, names) + (ValueText(q.value) + s));
    EntriesAreClosed(names, enums);
    ValueFollows(p.value, r, names, enums);
    ValueFollows(q.value, s, names, enums);
    SameEntries(p.type_, ValueText(p.value) + r, q.type_, ValueText(q.value) + s, names, enums);
    ValueStart(p.value, r);
    ValueStart(q.value, s);
    if p.value.Some? {
      Cut(".", V.Encode(p.value.value) + r);
      Cut(".", V.Encode(q.value.value) + s);
      U.EncodingIsInjective(p.value.value, r, q.value.value, s, EntriesFollowing(names, enums), enums);
    }
  }

  lemma SameEntries(t: Type, x: string, u: Type, y: string, names: Names, enums: U.Enums)
    requires GoodNames(names) && HasSymbolName(t) && HasSymbolName(u)
    requires IsEntries(x, names, enums) && IsEntries(y, names, enums)
    requires SymbolName(t, names) + x == SymbolName(u, names) + y
    ensures t == u && x == y
  {
    EntriesAreClosed(names, enums);
    assert EntriesFollowing(names, enums)(x) && EntriesFollowing(names, enums)(y);
    UniquelyDecodable(t, x, u, y, names);
  }

  /**
   * Functions with the same symbol have the same name, parameter types, generic constants and return type, unless a
   * value's name that clashes can be followed by types and values both with and without it.
   */
  lemma SameSymbolSameSignature(a: Signature, b: Signature, names: Names, generic: Type -> bool, enums: U.Enums)
    requires GoodNames(names) && NoClash(names, enums) && Good(a, generic, enums) && Good(b, generic, enums)
    requires Symbol(a, names) == Symbol(b, names)
    ensures a == b
  {
    var ra, rb := "." + SymbolName(a.returnType, names), "." + SymbolName(b.returnType, names);
    var x, y := ParamsText(a.params, names) + ra, ParamsText(b.params, names) + rb;
    ReturnFollows(a, names, generic, enums);
    ReturnFollows(b, names, generic, enums);
    NameIsUnique(a.name, Decimal(|a.params|) + x, b.name, Decimal(|b.params|) + y);
    SplitDecimal(|a.params|, x, |b.params|, y);
    ParamsAreUnique(a.params, ra, b.params, rb, names, generic, enums);
    Cut(".", SymbolName(a.returnType, names));
    Cut(".", SymbolName(b.returnType, names));
    Nothing(SymbolName(a.returnType, names));
    Nothing(SymbolName(b.returnType, names));
    UniquelyDecodable(a.returnType, "", b.returnType, "", names);
  }

  lemma ReturnFollows(s: Signature, names: Names, generic: Type -> bool, enums: U.Enums)
    requires Good(s, generic, enums)
    ensures var r := "." + SymbolName(s.returnType, names);
            IsEntries(r, names, enums) && IsEntries(ParamsText(s.params, names) + r, names, enums)
            && DotOrEnd(ParamsText(s.params, names) + r)
  {
    NoEntry(names, enums);
    Nothing(SymbolName(s.returnType, names));
    OneMoreEntry(TypeEntry(s.returnType), "", names, enums);
    ParamsFollow(s.params, "." + SymbolName(s.returnType, names), names, generic, enums);
    EntriesAreClosed(names, enums);
    assert EntriesFollowing(names, enums)(ParamsText(s.params, names) + ("." + SymbolName(s.returnType, names)));
  }

  /**
   * A value's name that looks like the beginning of a string is enough for two functions of one name, whose only
   * parameters have one type, to have the same symbol with different constants.
   */
  lemma SameTypeSameSymbol(name: FunctionName, t: Type, returnType: Type, kind: V.ListKind, e: string, names: Names)
    requires GoodName(name) && HasSymbolName(t) && HasSymbolName(returnType) && DotFree(e)
    ensures var v := V.List(kind, [V.EnumName(e, "s3"), V.Str("")]);
            var w := V.List(kind, [V.EnumNumber(e, false, 2), V.Str("s0.")]);
            && v != w && V.InRange(v) && V.InRange(w)
            && Symbol(Signature(name, [Param(t, Some(v))], returnType), names)
               == Symbol(Signature(name, [Param(t, Some(w))], returnType), names)
  {
    var v := V.List(kind, [V.EnumName(e, "s3"), V.Str("")]);
    var w := V.List(kind, [V.EnumNumber(e, false, 2), V.Str("s0.")]);
    U.TypedClash(kind, e);
    assert v.elems[0] != w.elems[0];
    OneParam(t, v, names);
    OneParam(t, w, names);
  }

  lemma OneParam(t: Type, v: V.Value, names: Names)
    requires HasSymbolName(t) && V.InRange(v)
    ensures ParamsText([Param(t, Some(v))], names) == FirstText(Param(t, Some(v)), "", names)
  {
    assert [Param(t, Some(v))][1..] == [];
  }

  lemma Nothing(s: string)
    ensures s + "" == s
  {
  }

  // ----- the code -----

  method GetSymbolName(s: Signature, names: Names) returns (r: string)
    requires GoodName(s.name) && HasSymbolName(s.returnType)
    requires forall i :: 0 <= i < |s.params| ==> HasText(s.params[i])
    ensures r == Symbol(s, names)
  {
    match s.name {
      case Operator(op) =>
        r := "op." + Decimal(op);
      case Named(parts) =>
        r := "func." + Joined(parts);
    }
    r := r + ("..") + Decimal(|s.params|);
    ghost var start := r;
    for i := 0 to |s.params|
      invariant r + ParamsText(s.params[i..], names) == start + ParamsText(s.params, names)
    {
      NextParam(r, s.params, i, names);
      r := r + ".";
      var t := TypeMangling.GetSymbolName(s.params[i].type_, names);
      r := r + t;
      if s.params[i].value.Some? {
        r := r + ".";
        r := V.EncodeForSymbolName(r, s.params[i].value.value);
      }
    }
    Nothing(r);
    r := r + ".";
    var t := TypeMangling.GetSymbolName(s.returnType, names);
    r := r + t;
    Assembled(NameText(s.name), Decimal(|s.params|), ParamsText(s.params, names), t);
  }

  lemma Assembled(name: string, count: string, params: string, returnType: string)
    ensures name + ".." + count + params + "." + returnType == name + (".." + (count + (params + ("." + returnType))))
  {
    Associate(name + ".." + count + params, ".", returnType);
    Associate(name + ".." + count, params, "." + returnType);
    Associate(name + "..", count, params + ("." + returnType));
    Associate(name, "..", count + (params + ("." + returnType)));
  }

  function WithValue(r: string, value: Option<V.Value>): string
    requires value.Some? ==> V.InRange(value.value)
  {
    if value.Some? then r + "." + V.Encode(value.value) else r
  }

  lemma NextParam(r: string, ps: seq<Param>, i: nat, names: Names)
    requires i < |ps| && forall k :: 0 <= k < |ps| ==> HasText(ps[k])
    ensures r + ParamsText(ps[i..], names)
         == WithValue(r + "." + SymbolName(ps[i].type_, names), ps[i].value) + ParamsText(ps[i + 1..], names)
  {
    var p := ps[i];
    var t, v, rest := SymbolName(p.type_, names), ValueText(p.value), ParamsText(ps[i + 1..], names);
    assert ps[i..][1..] == ps[i + 1..];
    Associate(r, ".", t + (v + rest));
    Associate(r + ".", t, v + rest);
    Associate(r + "." + t, v, rest);
    if p.value.Some? {
      Associate(r + "." + t, ".", V.Encode(p.value.value));
    } else {
      Nothing(r + "." + t);
    }
  }
}
