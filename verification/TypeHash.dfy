/** `hash_combine` (src/core.h:85-88) and `typespec_hash` (src/ast/typespec.cpp:442-493). */
module TypeHash {
  import opened Typespec

  /** `std::hash` of sizes and of addresses, about which nothing is known. */
  datatype StdHash = StdHash(ofSize: nat -> bv64, ofPointer: nat -> bv64)

  function HashCombine(a: bv64, b: bv64): bv64 {
    a ^ (b + 0x9e3779b9 + (a << 6) + (a >> 2))
  }

  function ModifierIndex(m: Modifier): nat {
    match m
    case Mut => 0 case Consteval => 1 case Pointer => 2 case Optional => 3 case LvalueReference => 4
    case MoveReference => 5 case AutoReference => 6 case AutoReferenceMut => 7 case Variadic => 8
  }

  function TerminatorIndex(t: Terminator): nat {
    match t
    case Unresolved => 0 case BaseType(_) => 1 case Enum(_) => 2 case Void => 3 case Function(_, _, _) => 4
    case Array(_, _) => 5 case Slice(_) => 6 case Tuple(_) => 7 case Auto => 8 case Typename => 9
    case Missing => 10
  }

  function HashModifiers(h: StdHash, ms: seq<Modifier>): bv64 {
    if ms == [] then 0
    else HashCombine(HashModifiers(h, ms[..|ms| - 1]), h.ofSize(ModifierIndex(ms[|ms| - 1])))
  }

  function HashType(h: StdHash, t: Type): bv64
    decreases t, 0
  {
    if t.terminator.Missing? then HashModifiers(h, t.modifiers)
    else
      var start := HashCombine(HashModifiers(h, t.modifiers), h.ofSize(TerminatorIndex(t.terminator)));
      HashTerminator(h, start, t.terminator)
  }

  function HashTerminator(h: StdHash, start: bv64, t: Terminator): bv64
    decreases t, 0
  {
    match t
    case BaseType(info) => HashCombine(start, h.ofPointer(info))
    case Enum(decl) => HashCombine(start, h.ofPointer(decl))
    case Function(_, params, returnType) => HashTypes(h, HashCombine(start, HashType(h, returnType)), params)
    case Array(size, elem) => HashCombine(HashCombine(start, h.ofSize(size)), HashType(h, elem))
    case Slice(elem) => HashCombine(start, HashType(h, elem))
    case Tuple(types) => HashTypes(h, start, types)
    case _ => start
  }

  function HashTypes(h: StdHash, start: bv64, ts: seq<Type>): bv64
    decreases ts, |ts|
  {
    if ts == [] then start
    else HashCombine(HashTypes(h, start, ts[..|ts| - 1]), HashType(h, ts[|ts| - 1]))
  }

  method GetHash(h: StdHash, t: Type) returns (result: bv64)
    ensures result == HashType(h, t)
    decreases t, 0
  {
    result := 0;
    for i := 0 to |t.modifiers|
      invariant result == HashModifiers(h, t.modifiers[..i])
    {
      result := HashCombine(result, h.ofSize(ModifierIndex(t.modifiers[i])));
      assert t.modifiers[..i + 1][..i] == t.modifiers[..i];
    }
    assert t.modifiers[..|t.modifiers|] == t.modifiers;
    if t.terminator.Missing? {
      return;
    }
    result := HashCombine(result, h.ofSize(TerminatorIndex(t.terminator)));
    match t.terminator
    case BaseType(info) =>
      result := HashCombine(result, h.ofPointer(info));
    case Enum(decl) =>
      result := HashCombine(result, h.ofPointer(decl));
    case Function(_, params, returnType) =>
      var r := GetHash(h, returnType);
      result := GetHashes(h, HashCombine(result, r), params);
    case Array(size, elem) =>
      var e := GetHash(h, elem);
      result := HashCombine(HashCombine(result, h.ofSize(size)), e);
    case Slice(elem) =>
      var e := GetHash(h, elem);
      result := HashCombine(result, e);
    case Tuple(types) =>
      result := GetHashes(h, result, types);
    case _ =>
  }

  method GetHashes(h: StdHash, start: bv64, ts: seq<Type>) returns (result: bv64)
    ensures result == HashTypes(h, start, ts)
    decreases ts, 0
  {
    result := start;
    for i := 0 to |ts|
      invariant result == HashTypes(h, start, ts[..i])
    {
      var e := GetHash(h, ts[i]);
      result := HashCombine(result, e);
      assert ts[..i + 1][..i] == ts[..i];
    }
    assert ts[..|ts|] == ts;
  }

  // ----- the hash respects equality -----

  lemma {:induction false} HashOfErased(h: StdHash, t: Type)
    ensures HashType(h, Erase(t)) == HashType(h, t)
    decreases t, 0
  {
    HashOfErasedTerminator(
      h, HashCombine(HashModifiers(h, t.modifiers), h.ofSize(TerminatorIndex(t.terminator))), t.terminator);
  }

  lemma {:induction false} HashOfErasedTerminator(h: StdHash, start: bv64, t: Terminator)
    ensures HashTerminator(h, start, EraseTerminator(t)) == HashTerminator(h, start, t)
    decreases t, 0
  {
    match t
    case Function(_, params, returnType) =>
      HashOfErased(h, returnType);
      HashesOfErased(h, HashCombine(start, HashType(h, returnType)), params);
    case Array(_, elem) => HashOfErased(h, elem);
    case Slice(elem) => HashOfErased(h, elem);
    case Tuple(types) => HashesOfErased(h, start, types);
    case _ =>
  }

  lemma {:induction false} HashesOfErased(h: StdHash, start: bv64, ts: seq<Type>)
    ensures HashTypes(h, start, EraseAll(ts)) == HashTypes(h, start, ts)
    decreases ts, |ts|
  {
    if ts != [] {
      var init := ts[..|ts| - 1];
      HashesOfErased(h, start, init);
      HashOfErased(h, ts[|ts| - 1]);
      assert EraseAll(ts)[..|ts| - 1] == EraseAll(init);
    }
  }

  /** Equal types have equal hashes. */
  lemma EqualTypesHashAlike(h: StdHash, a: Type, b: Type)
    requires Comparable(a) && Comparable(b) && TypeEq(a, b)
    ensures HashType(h, a) == HashType(h, b)
  {
    EqualIsErasedEqual(a, b);
    HashOfErased(h, a);
    HashOfErased(h, b);
  }

  /** That an empty type has no modifiers is needed: equality would ignore them, the hash does not. */
  lemma EmptyTypeWithModifiers()
    ensures var a, b := Type([Mut], Missing), Type([], Missing);
            TypeEq(a, b) && exists h :: HashType(h, a) != HashType(h, b)
  {
    var h := StdHash(_ => 0, _ => 0);
    var a, b := Type([Mut], Missing), Type([], Missing);
    assert [Mut][..0] == [];
    assert HashModifiers(h, [Mut]) == HashCombine(0, 0);
    assert HashType(h, a) != HashType(h, b);
  }
}
