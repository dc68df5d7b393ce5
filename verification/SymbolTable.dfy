/**
 * The index of global symbols of src/ast/scope.{h,cpp} on values: its tables, what a lookup means, and what the plain
 * history of declarations says it should mean.
 */
module SymbolTable {
  import opened Sequences

  /** A possibly qualified name. */
  type Id = seq<string>

  datatype Kind = FunctionSet | Variable | VariadicVariable | TypeAlias | Struct | Enum | Ambiguous | NoSymbol

  datatype SymbolIndex = SymbolIndex(kind: Kind, index: nat)

  /** A declaration, known by its address. */
  datatype Symbol =
    | VariableSymbol(decl: nat)
    | VariadicSymbol(original: nat, decls: seq<nat>)
    | FunctionSymbol(decl: nat)
    | FunctionAliasSymbol(decl: nat)
    | TypeAliasSymbol(decl: nat)
    | StructSymbol(decl: nat)
    | EnumSymbol(decl: nat)
  {
    predicate IsFunction() {
      FunctionSymbol? || FunctionAliasSymbol?
    }
  }

  datatype OverloadSet = OverloadSet(funcDecls: seq<nat>, aliasDecls: seq<nat>)

  datatype Table = Table(
    functionSets: seq<OverloadSet>,
    variables: seq<nat>,
    variadicVariables: seq<(nat, seq<nat>)>,
    typeAliases: seq<nat>,
    structs: seq<nat>,
    enums: seq<nat>,
    idMap: map<Id, SymbolIndex>,
    ambiguousIdMap: map<Id, seq<SymbolIndex>>)

  const EMPTY := Table([], [], [], [], [], [], map[], map[])

  // ----- what the history of an id means -----

  datatype Entry = Overloads(set_: OverloadSet) | One(symbol: Symbol)

  datatype Meaning = NotFound | Unique(entry: Entry) | Many(entries: seq<Entry>)

  function FuncDecls(h: seq<Symbol>): seq<nat> {
    if h == [] then []
    else
      var last := h[|h| - 1];
      FuncDecls(h[..|h| - 1]) + (if last.FunctionSymbol? then [last.decl] else [])
  }

  function AliasDecls(h: seq<Symbol>): seq<nat> {
    if h == [] then []
    else
      var last := h[|h| - 1];
      AliasDecls(h[..|h| - 1]) + (if last.FunctionAliasSymbol? then [last.decl] else [])
  }

  /** The entry of one declaration, or of functions and function aliases in the order they were added. */
  function EntryOf(h: seq<Symbol>): Entry
    requires h != []
  {
    if h[0].IsFunction() then Overloads(OverloadSet(FuncDecls(h), AliasDecls(h))) else One(h[0])
  }

  lemma {:induction false} DeclsAreDeclared(h: seq<Symbol>, n: nat)
    ensures n in FuncDecls(h) <==> FunctionSymbol(n) in h
    ensures n in AliasDecls(h) <==> FunctionAliasSymbol(n) in h
  {
    if h != [] {
      DeclsAreDeclared(h[..|h| - 1], n);
      assert h == h[..|h| - 1] + [h[|h| - 1]];
    }
  }

  /**
   * An overload set has the functions on one side and the aliases on the other, all of them and no others; any other
   * unambiguous id stands for its one declaration.
   */
  lemma UniqueIsDeclared(h: seq<Symbol>, n: nat)
    requires MeaningOf(h).Unique?
    ensures match MeaningOf(h).entry
            case One(s) => h == [s] && !s.IsFunction()
            case Overloads(o) =>
              && (n in o.funcDecls <==> FunctionSymbol(n) in h) && (n in o.aliasDecls <==> FunctionAliasSymbol(n) in h)
              && forall i :: 0 <= i < |h| ==> h[i].FunctionSymbol? || h[i].FunctionAliasSymbol?
  {
    DeclsAreDeclared(h, n);
  }

  /**
   * The entries of an ambiguous id: the first declaration with the functions that follow it if it is one, the one that
   * made the id ambiguous, and every later one that is no function.
   */
  lemma ManyAreDeclared(h: seq<Symbol>, s: Symbol)
    requires MeaningOf(h).Many?
    ensures s in h && !s.FunctionSymbol? && !s.FunctionAliasSymbol? <==> One(s) in MeaningOf(h).entries
    ensures |h| >= 2 && (h[0].FunctionSymbol? ==> MeaningOf(h).entries[0].Overloads?
                                                  && h[0].decl in MeaningOf(h).entries[0].set_.funcDecls)
  {
    var n := FirstCount(h);
    assert h == h[..n] + [h[n]] + h[n + 1..];
    OthersAreDeclared(h[n + 1..], s);
    if h[0].FunctionSymbol? {
      DeclsAreDeclared(h[..n], h[0].decl);
      assert h[..n][0] == h[0];
    }
  }

  lemma {:induction false} OthersAreDeclared(h: seq<Symbol>, s: Symbol)
    ensures One(s) in Others(h) <==> s in h && !s.IsFunction()
  {
    if h != [] {
      OthersAreDeclared(h[..|h| - 1], s);
      assert h == h[..|h| - 1] + [h[|h| - 1]];
    }
  }

  /** How many functions and function aliases stand in front. */
  function LeadingFunctions(h: seq<Symbol>): (n: nat)
    ensures n <= |h|
    ensures forall i :: 0 <= i < n ==> h[i].IsFunction()
    ensures n < |h| ==> !h[n].IsFunction()
  {
    if h == [] || !h[0].IsFunction() then 0 else 1 + LeadingFunctions(h[1..])
  }

  function Others(h: seq<Symbol>): seq<Entry> {
    if h == [] then []
    else
      var last := h[|h| - 1];
      Others(h[..|h| - 1]) + (if last.IsFunction() then [] else [One(last)])
  }

  /** The declarations that the first entry of an id stands for. */
  function FirstCount(h: seq<Symbol>): (n: nat)
    requires h != []
    ensures 0 < n <= |h|
  {
    if h[0].IsFunction() then LeadingFunctions(h) else 1
  }

  /**
   * What the declarations `h` of one id, in order, make of it: nothing, one overload set or one symbol; or ambiguous
   * symbols, where a function added later than the second entry is dropped.
   */
  function MeaningOf(h: seq<Symbol>): Meaning {
    if h == [] then NotFound
    else
      var n := FirstCount(h);
      if n == |h| then Unique(EntryOf(h)) else Many(AmbiguousEntries(h, n))
  }

  /** The first entry, the second, and a third and later entry for each of the rest that is not a function. */
  function AmbiguousEntries(h: seq<Symbol>, n: nat): seq<Entry>
    requires 0 < n < |h|
  {
    [EntryOf(h[..n]), EntryOf([h[n]])] + Others(h[n + 1..])
  }

  function Overloaded(o: OverloadSet, s: Symbol): OverloadSet
    requires s.IsFunction()
  {
    if s.FunctionSymbol? then o.(funcDecls := o.funcDecls + [s.decl]) else o.(aliasDecls := o.aliasDecls + [s.decl])
  }

  /** How one more declaration changes the meaning. */
  function Next(m: Meaning, s: Symbol): Meaning {
    match m
    case NotFound => Unique(EntryOf([s]))
    case Unique(e) =>
      if e.Overloads? && s.IsFunction() then Unique(Overloads(Overloaded(e.set_, s))) else Many([e, EntryOf([s])])
    case Many(es) =>
      if s.IsFunction() then m else Many(es + [One(s)])
  }

  lemma {:induction false} LeadingFunctionsStep(h: seq<Symbol>, s: Symbol)
    ensures LeadingFunctions(h + [s]) ==
            if LeadingFunctions(h) == |h| && s.IsFunction() then |h| + 1 else LeadingFunctions(h)
  {
    if h != [] {
      assert (h + [s])[1..] == h[1..] + [s];
      LeadingFunctionsStep(h[1..], s);
    }
  }

  lemma EntryStep(h: seq<Symbol>, s: Symbol)
    requires h != [] && h[0].IsFunction() && s.IsFunction()
    ensures EntryOf(h + [s]) == Overloads(Overloaded(EntryOf(h).set_, s))
  {
    assert (h + [s])[..|h|] == h;
  }

  lemma OthersStep(h: seq<Symbol>, s: Symbol)
    ensures Others(h + [s]) == Others(h) + (if s.IsFunction() then [] else [One(s)])
  {
    assert (h + [s])[..|h|] == h;
  }

  /** One more declaration moves the meaning of the history one step. */
  lemma MeaningStep(h: seq<Symbol>, s: Symbol)
    ensures MeaningOf(h + [s]) == Next(MeaningOf(h), s)
  {
    var g := h + [s];
    LeadingFunctionsStep(h, s);
    if h == [] {
      assert g == [s];
    } else if FirstCount(h) < |h| {
      LateStep(h, s, FirstCount(h));
    } else if h[0].IsFunction() && s.IsFunction() {
      EntryStep(h, s);
    } else {
      assert FirstCount(g) == |h| && g[..|h|] == h && g[|h| + 1..] == [];
    }
  }

  lemma LateStep(h: seq<Symbol>, s: Symbol, n: nat)
    requires 0 < n < |h|
    ensures AmbiguousEntries(h + [s], n) == AmbiguousEntries(h, n) + (if s.IsFunction() then [] else [One(s)])
  {
    var first := [EntryOf(h[..n]), EntryOf([h[n]])];
    OthersStep(h[n + 1..], s);
    CutAppend(h, [s], n);
    CutAppend(h, [s], n + 1);
    assert (h + [s])[n] == h[n];
    Associate(first, Others(h[n + 1..]), if s.IsFunction() then [] else [One(s)]);
  }

  /**
   * An id is ambiguous exactly when it has more than one declaration and not all of them are functions; it is unknown
   * exactly when it has none.
   */
  lemma AmbiguousExactlyWhen(h: seq<Symbol>)
    ensures MeaningOf(h).Many? <==> |h| > 1 && exists i :: 0 <= i < |h| && !h[i].IsFunction()
    ensures MeaningOf(h).NotFound? <==> h == []
    ensures MeaningOf(h).Many? ==> |MeaningOf(h).entries| >= 2
  {
  }

  // ----- what the tables mean -----

  predicate InRange(t: Table, s: SymbolIndex) {
    match s.kind
    case FunctionSet => s.index < |t.functionSets|
    case Variable => s.index < |t.variables|
    case VariadicVariable => s.index < |t.variadicVariables|
    case TypeAlias => s.index < |t.typeAliases|
    case Struct => s.index < |t.structs|
    case Enum => s.index < |t.enums|
    case Ambiguous => false
    case NoSymbol => false
  }

  function Fetch(t: Table, s: SymbolIndex): Entry
    requires InRange(t, s)
  {
    match s.kind
    case FunctionSet => Overloads(t.functionSets[s.index])
    case Variable => One(VariableSymbol(t.variables[s.index]))
    case VariadicVariable =>
      var v := t.variadicVariables[s.index];
      One(VariadicSymbol(v.0, v.1))
    case TypeAlias => One(TypeAliasSymbol(t.typeAliases[s.index]))
    case Struct => One(StructSymbol(t.structs[s.index]))
    case Enum => One(EnumSymbol(t.enums[s.index]))
  }

  ghost predicate AllInRange(t: Table, ss: seq<SymbolIndex>) {
    forall i :: 0 <= i < |ss| ==> InRange(t, ss[i])
  }

  function FetchAll(t: Table, ss: seq<SymbolIndex>): (r: seq<Entry>)
    requires AllInRange(t, ss)
    ensures |r| == |ss| && forall i :: 0 <= i < |ss| ==> r[i] == Fetch(t, ss[i])
  {
    seq(|ss|, i requires 0 <= i < |ss| => Fetch(t, ss[i]))
  }

  /** The symbol index leads to is stored under the id. */
  ghost predicate Reaches(t: Table, id: Id, s: SymbolIndex) {
    id in t.idMap &&
    if t.idMap[id].kind.Ambiguous? then id in t.ambiguousIdMap && s in t.ambiguousIdMap[id] else t.idMap[id] == s
  }

  /** Every stored symbol is known under exactly one id, its owner, and no id knows anything that is not stored. */
  ghost predicate Owned(t: Table, owner: map<SymbolIndex, Id>) {
    && (forall s :: s in owner <==> InRange(t, s))
    && (forall id, s :: Reaches(t, id, s) <==> s in owner && owner[s] == id)
  }

  ghost predicate DistinctIndices(ss: seq<SymbolIndex>) {
    forall i, j :: 0 <= i < j < |ss| ==> ss[i] != ss[j]
  }

  /** Exactly the ambiguous ids have a list, of two or more different symbols. */
  ghost predicate AmbiguousAgree(t: Table) {
    && (forall id :: id in t.ambiguousIdMap <==> id in t.idMap && t.idMap[id].kind.Ambiguous?)
    && (forall id :: id in t.ambiguousIdMap ==>
          |t.ambiguousIdMap[id]| >= 2 && DistinctIndices(t.ambiguousIdMap[id]))
  }

  ghost predicate WellFormed(t: Table, owner: map<SymbolIndex, Id>) {
    Owned(t, owner) && AmbiguousAgree(t)
  }

  /** What a lookup finds. */
  ghost function Lookup(t: Table, owner: map<SymbolIndex, Id>, id: Id): Meaning
    requires WellFormed(t, owner)
  {
    if id !in t.idMap then NotFound
    else if t.idMap[id].kind.Ambiguous? then
      ReachedAll(t, owner, id);
      Many(FetchAll(t, t.ambiguousIdMap[id]))
    else
      assert Reaches(t, id, t.idMap[id]);
      Unique(Fetch(t, t.idMap[id]))
  }

  lemma ReachedAll(t: Table, owner: map<SymbolIndex, Id>, id: Id)
    requires WellFormed(t, owner) && id in t.ambiguousIdMap
    ensures AllInRange(t, t.ambiguousIdMap[id])
  {
    forall i | 0 <= i < |t.ambiguousIdMap[id]| ensures InRange(t, t.ambiguousIdMap[id][i]) {
      assert Reaches(t, id, t.ambiguousIdMap[id][i]);
    }
  }

  // ----- adding a declaration -----

  function KindOf(s: Symbol): Kind {
    match s
    case VariableSymbol(_) => Variable
    case VariadicSymbol(_, _) => VariadicVariable
    case FunctionSymbol(_) => FunctionSet
    case FunctionAliasSymbol(_) => FunctionSet
    case TypeAliasSymbol(_) => TypeAlias
    case StructSymbol(_) => Struct
    case EnumSymbol(_) => Enum
  }

  /** Where the declaration goes if it is stored. */
  function SlotOf(t: Table, s: Symbol): SymbolIndex {
    SymbolIndex(KindOf(s),
                match s
                case VariableSymbol(_) => |t.variables|
                case VariadicSymbol(_, _) => |t.variadicVariables|
                case FunctionSymbol(_) => |t.functionSets|
                case FunctionAliasSymbol(_) => |t.functionSets|
                case TypeAliasSymbol(_) => |t.typeAliases|
                case StructSymbol(_) => |t.structs|
                case EnumSymbol(_) => |t.enums|)
  }

  function Push(t: Table, s: Symbol): Table {
    match s
    case VariableSymbol(d) => t.(variables := t.variables + [d])
    case VariadicSymbol(d, ds) => t.(variadicVariables := t.variadicVariables + [(d, ds)])
    case FunctionSymbol(d) => t.(functionSets := t.functionSets + [OverloadSet([d], [])])
    case FunctionAliasSymbol(d) => t.(functionSets := t.functionSets + [OverloadSet([], [d])])
    case TypeAliasSymbol(d) => t.(typeAliases := t.typeAliases + [d])
    case StructSymbol(d) => t.(structs := t.structs + [d])
    case EnumSymbol(d) => t.(enums := t.enums + [d])
  }

  /** The stored symbol `s` becomes known as `id`, which is made ambiguous if it was known already. */
  function File(t: Table, id: Id, s: SymbolIndex): Table {
    if id !in t.idMap then t.(idMap := t.idMap[id := s])
    else
      var found := t.idMap[id];
      var list := if id in t.ambiguousIdMap then t.ambiguousIdMap[id] else [];
      if found.kind.Ambiguous? then t.(ambiguousIdMap := t.ambiguousIdMap[id := list + [s]])
      else t.(idMap := t.idMap[id := SymbolIndex(Ambiguous, found.index)],
              ambiguousIdMap := t.ambiguousIdMap[id := list + [found] + [s]])
  }

  /** The effect of `add_variable`, `add_function` and their like. */
  function Add(t: Table, id: Id, s: Symbol): Table {
    if !s.IsFunction() || id !in t.idMap then File(Push(t, s), id, SlotOf(t, s))
    else
      var found := t.idMap[id];
      if found.kind.FunctionSet? then
        if found.index < |t.functionSets| then
          t.(functionSets := t.functionSets[found.index := Overloaded(t.functionSets[found.index], s)])
        else t
      else if found.kind.Ambiguous? then t
      else File(Push(t, s), id, SlotOf(t, s))
  }

  // ----- adding keeps the tables well formed and moves the meaning of one id -----

  lemma PushStores(t: Table, s: Symbol)
    ensures var u := Push(t, s);
            && u.idMap == t.idMap && u.ambiguousIdMap == t.ambiguousIdMap
            && !InRange(t, SlotOf(t, s))
            && (forall x :: InRange(u, x) <==> InRange(t, x) || x == SlotOf(t, s))
            && (forall x :: InRange(t, x) ==> Fetch(u, x) == Fetch(t, x))
            && Fetch(u, SlotOf(t, s)) == EntryOf([s])
  {
    assert [s][..0] == [];
    assert FuncDecls([s]) == if s.FunctionSymbol? then [s.decl] else [];
    assert AliasDecls([s]) == if s.FunctionAliasSymbol? then [s.decl] else [];
  }

  /** Before a pushed symbol is filed, everything but its slot is owned. */
  ghost predicate Pushed(t: Table, u: Table, s: SymbolIndex) {
    && u.idMap == t.idMap && u.ambiguousIdMap == t.ambiguousIdMap
    && !InRange(t, s)
    && (forall x :: InRange(u, x) <==> InRange(t, x) || x == s)
    && (forall x :: InRange(t, x) ==> Fetch(u, x) == Fetch(t, x))
  }

  lemma FileReaches(t: Table, u: Table, owner: map<SymbolIndex, Id>, id: Id, s: SymbolIndex, other: Id, x: SymbolIndex)
    requires WellFormed(t, owner) && Pushed(t, u, s)
    ensures Reaches(File(u, id, s), other, x) <==> Reaches(t, other, x) || (other == id && x == s)
  {
  }

  lemma FileKeepsOwned(t: Table, u: Table, owner: map<SymbolIndex, Id>, id: Id, s: SymbolIndex)
    requires WellFormed(t, owner) && Pushed(t, u, s)
    ensures Owned(File(u, id, s), owner[s := id])
  {
    var v := File(u, id, s);
    forall x ensures x in owner[s := id] <==> InRange(v, x) {
      assert InRange(v, x) <==> InRange(u, x);
    }
    forall other, x
      ensures Reaches(v, other, x) <==> x in owner[s := id] && owner[s := id][x] == other
    {
      FileReaches(t, u, owner, id, s, other, x);
      assert s !in owner;
    }
  }

  lemma FileKeepsAmbiguous(t: Table, u: Table, owner: map<SymbolIndex, Id>, id: Id, s: SymbolIndex)
    requires WellFormed(t, owner) && Pushed(t, u, s)
    ensures AmbiguousAgree(File(u, id, s))
  {
    var v := File(u, id, s);
    assert s !in owner;
    if id in t.ambiguousIdMap {
      forall i | 0 <= i < |t.ambiguousIdMap[id]| ensures t.ambiguousIdMap[id][i] != s {
        assert Reaches(t, id, t.ambiguousIdMap[id][i]);
      }
    } else if id in t.idMap {
      assert Reaches(t, id, t.idMap[id]);
      assert v.ambiguousIdMap[id] == [t.idMap[id], s];
    }
  }

  /** An id whose entries are what they were means what it meant. */
  lemma LookupSame(t: Table, v: Table, owner: map<SymbolIndex, Id>, more: map<SymbolIndex, Id>, id: Id)
    requires WellFormed(t, owner) && WellFormed(v, more)
    requires id in t.idMap <==> id in v.idMap
    requires id in t.idMap ==> t.idMap[id] == v.idMap[id]
    requires id in t.ambiguousIdMap ==> id in v.ambiguousIdMap && t.ambiguousIdMap[id] == v.ambiguousIdMap[id]
    requires forall x :: Reaches(t, id, x) ==> InRange(v, x) && InRange(t, x) && Fetch(v, x) == Fetch(t, x)
    ensures Lookup(v, more, id) == Lookup(t, owner, id)
  {
  }

  lemma FileMeans(t: Table, u: Table, owner: map<SymbolIndex, Id>, id: Id, s: SymbolIndex)
    requires WellFormed(t, owner) && Pushed(t, u, s)
    ensures WellFormed(File(u, id, s), owner[s := id])
    ensures Lookup(File(u, id, s), owner[s := id], id) ==
            match Lookup(t, owner, id)
            case NotFound => Unique(Fetch(u, s))
            case Unique(e) => Many([e, Fetch(u, s)])
            case Many(es) => Many(es + [Fetch(u, s)])
  {
    FileKeepsOwned(t, u, owner, id, s);
    FileKeepsAmbiguous(t, u, owner, id, s);
    if id in t.ambiguousIdMap {
      ReachedAll(t, owner, id);
      FileFetches(t, u, id, s, t.ambiguousIdMap[id]);
    } else if id in t.idMap {
      assert Reaches(t, id, t.idMap[id]);
      FileFetches(t, u, id, s, [t.idMap[id]]);
    }
  }

  lemma FileFetches(t: Table, u: Table, id: Id, s: SymbolIndex, list: seq<SymbolIndex>)
    requires Pushed(t, u, s) && AllInRange(t, list)
    ensures AllInRange(File(u, id, s), list + [s])
    ensures FetchAll(File(u, id, s), list + [s]) == FetchAll(t, list) + [Fetch(u, s)]
  {
    var v := File(u, id, s);
    assert forall x :: InRange(u, x) ==> InRange(v, x) && Fetch(v, x) == Fetch(u, x);
  }

  lemma FileLeavesOthers(t: Table, u: Table, owner: map<SymbolIndex, Id>, id: Id, s: SymbolIndex, other: Id)
    requires WellFormed(t, owner) && Pushed(t, u, s) && other != id
    requires WellFormed(File(u, id, s), owner[s := id])
    ensures Lookup(File(u, id, s), owner[s := id], other) == Lookup(t, owner, other)
  {
    var v := File(u, id, s);
    forall x | Reaches(t, other, x) ensures InRange(v, x) && InRange(t, x) && Fetch(v, x) == Fetch(t, x) {
      assert x in owner;
      assert InRange(u, x);
    }
    LookupSame(t, v, owner, owner[s := id], other);
  }

  /** The owner of everything after `Add`. */
  function AddOwner(t: Table, owner: map<SymbolIndex, Id>, id: Id, s: Symbol): map<SymbolIndex, Id> {
    if s.IsFunction() && id in t.idMap && (t.idMap[id].kind.FunctionSet? || t.idMap[id].kind.Ambiguous?) then owner
    else owner[SlotOf(t, s) := id]
  }

  /**
   * Adding a declaration moves the meaning of its id one step and leaves every other id, and every stored symbol still
   * belongs to exactly one id.
   */
  lemma AddMeans(t: Table, owner: map<SymbolIndex, Id>, id: Id, s: Symbol)
    requires WellFormed(t, owner)
    ensures WellFormed(Add(t, id, s), AddOwner(t, owner, id, s))
    ensures Lookup(Add(t, id, s), AddOwner(t, owner, id, s), id) == Next(Lookup(t, owner, id), s)
    ensures forall other :: other != id ==>
              Lookup(Add(t, id, s), AddOwner(t, owner, id, s), other) == Lookup(t, owner, other)
  {
    if s.IsFunction() && id in t.idMap && t.idMap[id].kind.FunctionSet? {
      OverloadMeans(t, owner, id, s);
    } else if s.IsFunction() && id in t.idMap && t.idMap[id].kind.Ambiguous? {
    } else {
      PushStores(t, s);
      var u := Push(t, s);
      var slot := SlotOf(t, s);
      FileMeans(t, u, owner, id, slot);
      forall other | other != id
        ensures Lookup(File(u, id, slot), owner[slot := id], other) == Lookup(t, owner, other)
      {
        FileLeavesOthers(t, u, owner, id, slot, other);
      }
    }
  }

  lemma OverloadMeans(t: Table, owner: map<SymbolIndex, Id>, id: Id, s: Symbol)
    requires WellFormed(t, owner) && s.IsFunction() && id in t.idMap && t.idMap[id].kind.FunctionSet?
    ensures WellFormed(Add(t, id, s), owner)
    ensures Lookup(Add(t, id, s), owner, id) == Next(Lookup(t, owner, id), s)
    ensures forall other :: other != id ==> Lookup(Add(t, id, s), owner, other) == Lookup(t, owner, other)
  {
    var found := t.idMap[id];
    assert Reaches(t, id, found);
    var v := Add(t, id, s);
    assert forall x :: InRange(v, x) <==> InRange(t, x);
    assert forall other, x :: Reaches(v, other, x) <==> Reaches(t, other, x);
    forall other | other != id ensures Lookup(v, owner, other) == Lookup(t, owner, other) {
      forall x | Reaches(t, other, x) ensures InRange(v, x) && InRange(t, x) && Fetch(v, x) == Fetch(t, x) {
        assert x in owner && x != found;
      }
      LookupSame(t, v, owner, owner, other);
    }
  }
}
