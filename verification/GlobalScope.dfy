/** `global_scope_symbol_list_t` and `global_scope_t` of src/ast/scope.{h,cpp}. */
module GlobalScope {
  import opened OperatorTable
  import opened SymbolTable

  datatype Declaration = Declaration(id: Id, symbol: Symbol)

  /** The declarations of one id, in order. */
  function HistoryOf(h: seq<Declaration>, id: Id): seq<Symbol> {
    if h == [] then []
    else
      var last := h[|h| - 1];
      HistoryOf(h[..|h| - 1], id) + (if last.id == id then [last.symbol] else [])
  }

  /** Every lookup finds what the declarations made so far say it should. */
  ghost predicate Refines(t: Table, owner: map<SymbolIndex, Id>, h: seq<Declaration>) {
    WellFormed(t, owner) && forall id :: Lookup(t, owner, id) == MeaningOf(HistoryOf(h, id))
  }

  lemma HistoryStep(h: seq<Declaration>, d: Declaration, id: Id)
    ensures HistoryOf(h + [d], id) == if d.id == id then HistoryOf(h, id) + [d.symbol] else HistoryOf(h, id)
  {
    assert (h + [d])[..|h|] == h;
  }

  lemma EmptyRefines()
    ensures Refines(EMPTY, map[], [])
  {
    assert forall s :: !InRange(EMPTY, s);
    assert forall id, s :: !Reaches(EMPTY, id, s);
  }

  lemma AddRefines(t: Table, owner: map<SymbolIndex, Id>, h: seq<Declaration>, id: Id, s: Symbol)
    requires Refines(t, owner, h)
    ensures Refines(Add(t, id, s), AddOwner(t, owner, id, s), h + [Declaration(id, s)])
  {
    AddMeans(t, owner, id, s);
    forall other
      ensures Lookup(Add(t, id, s), AddOwner(t, owner, id, s), other)
           == MeaningOf(HistoryOf(h + [Declaration(id, s)], other))
    {
      HistoryStep(h, Declaration(id, s), other);
      if other == id {
        MeaningStep(HistoryOf(h, id), s);
      }
    }
  }

  /** What the id means once these declarations have been made. */
  function MeaningAfter(h: seq<Declaration>, id: Id): Meaning {
    MeaningOf(HistoryOf(h, id))
  }

  /** The id has one more declaration, and every other id means what it meant. */
  ghost predicate Moves(h: seq<Declaration>, more: seq<Declaration>, id: Id, s: Symbol) {
    && MeaningAfter(more, id) == Next(MeaningAfter(h, id), s)
    && forall other :: other != id ==> MeaningAfter(more, other) == MeaningAfter(h, other)
  }

  /** The declaration went under the given id, or under its own if none was given. */
  ghost predicate Takes(h: seq<Declaration>, more: seq<Declaration>, id: Id, own: Id, s: Symbol) {
    if id != [] then Moves(h, more, id, s) else Moves(h, more, own, s)
  }

  lemma HistoryMoves(h: seq<Declaration>, id: Id, s: Symbol)
    ensures Moves(h, h + [Declaration(id, s)], id, s)
  {
    forall other
      ensures MeaningAfter(h + [Declaration(id, s)], other) ==
              if other == id then Next(MeaningAfter(h, id), s) else MeaningAfter(h, other)
    {
      HistoryStep(h, Declaration(id, s), other);
      MeaningStep(HistoryOf(h, other), s);
    }
  }

  /** An empty id stands for the declaration's own. */
  function EffectiveId(id: Id, own: Id): Id {
    if id == [] then own else id
  }

  ghost predicate StoredIds(storage: seq<Id>, idMap: map<Id, SymbolIndex>) {
    && (forall id :: id in idMap <==> id in storage)
    && (forall i, j :: 0 <= i < j < |storage| ==> storage[i] != storage[j])
  }

  class SymbolList {
    var functionSets: seq<OverloadSet>
    var operatorSets: seq<OperatorSet>
    var variables: seq<nat>
    var variadicVariables: seq<(nat, seq<nat>)>
    var typeAliases: seq<nat>
    var structs: seq<nat>
    var enums: seq<nat>
    var idMap: map<Id, SymbolIndex>
    var ambiguousIdMap: map<Id, seq<SymbolIndex>>
    var idStorage: seq<Id>
    ghost var owner: map<SymbolIndex, Id>
    ghost var history: seq<Declaration>
    ghost var operators: seq<OperatorSymbol>

    ghost function Contents(): Table
      reads this
    {
      Table(functionSets, variables, variadicVariables, typeAliases, structs, enums, idMap, ambiguousIdMap)
    }

    ghost predicate Valid()
      reads this
    {
      && Refines(Contents(), owner, history)
      && StoredIds(idStorage, idMap)
      && SetsMatch(operatorSets, operators)
    }

    /** What a lookup of the id finds. */
    ghost function Means(id: Id): (r: Meaning)
      requires Valid()
      ensures r == MeaningAfter(history, id)
      reads this
    {
      Lookup(Contents(), owner, id)
    }

    constructor ()
      ensures Valid() && history == [] && operators == []
    {
      functionSets, operatorSets, variables, variadicVariables := [], [], [], [];
      typeAliases, structs, enums := [], [], [];
      idMap, ambiguousIdMap, idStorage := map[], map[], [];
      owner, history, operators := map[], [], [];
      new;
      EmptyRefines();
    }

    /** `insert` */
    method Insert(id: Id, index: SymbolIndex) returns (found: SymbolIndex, inserted: bool)
      requires StoredIds(idStorage, idMap)
      modifies `idMap, `idStorage
      ensures StoredIds(idStorage, idMap)
      ensures inserted <==> id !in old(idMap)
      ensures idMap == if inserted then old(idMap)[id := index] else old(idMap)
      ensures id in idMap && found == idMap[id]
    {
      if id in idMap {
        found, inserted := idMap[id], false;
      } else {
        idStorage := idStorage + [id];
        idMap := idMap[id := index];
        found, inserted := index, true;
      }
    }

    /** What every `add_` function does with an id that was there already. */
    method MakeAmbiguous(id: Id, found: SymbolIndex, index: SymbolIndex)
      requires StoredIds(idStorage, idMap) && id in idMap && idMap[id] == found
      modifies `idMap, `ambiguousIdMap
      ensures StoredIds(idStorage, idMap)
      ensures Contents() == File(old(Contents()), id, index)
    {
      var ambiguousIds := if id in ambiguousIdMap then ambiguousIdMap[id] else [];
      if !found.kind.Ambiguous? {
        ambiguousIds := ambiguousIds + [found];
        idMap := idMap[id := SymbolIndex(Ambiguous, found.index)];
      }
      ambiguousIds := ambiguousIds + [index];
      ambiguousIdMap := ambiguousIdMap[id := ambiguousIds];
    }

    /** The symbol `index` that was just stored gets its id. */
    method FileSymbol(id: Id, index: SymbolIndex)
      requires StoredIds(idStorage, idMap)
      modifies `idMap, `ambiguousIdMap, `idStorage
      ensures StoredIds(idStorage, idMap)
      ensures Contents() == File(old(Contents()), id, index)
    {
      var found, inserted := Insert(id, index);
      if !inserted {
        MakeAmbiguous(id, found, index);
      }
    }

    /** The declaration becomes part of the history. */
    ghost method Record(id: Id, s: Symbol, before: Table)
      requires Refines(before, owner, history) && Contents() == Add(before, id, s)
      requires StoredIds(idStorage, idMap) && SetsMatch(operatorSets, operators)
      modifies `owner, `history
      ensures Valid() && history == old(history) + [Declaration(id, s)]
      ensures Moves(old(history), history, id, s)
    {
      HistoryMoves(history, id, s);
      AddRefines(before, owner, history, id, s);
      owner := AddOwner(before, owner, id, s);
      history := history + [Declaration(id, s)];
    }

    method AddVariable(id: Id, own: Id, decl: nat)
      requires Valid()
      modifies this
      ensures Valid() && operators == old(operators)
      ensures history == old(history) + [Declaration(EffectiveId(id, own), VariableSymbol(decl))]
      ensures Takes(old(history), history, id, own, VariableSymbol(decl))
    {
      ghost var before := Contents();
      var index := |variables|;
      variables := variables + [decl];
      var key := EffectiveId(id, own);
      FileSymbol(key, SymbolIndex(Variable, index));
      Record(key, VariableSymbol(decl), before);
    }

    method AddVariadicVariable(id: Id, own: Id, original: nat, decls: seq<nat>)
      requires Valid()
      modifies this
      ensures Valid() && operators == old(operators)
      ensures history == old(history) + [Declaration(EffectiveId(id, own), VariadicSymbol(original, decls))]
      ensures Takes(old(history), history, id, own, VariadicSymbol(original, decls))
    {
      ghost var before := Contents();
      var index := |variadicVariables|;
      variadicVariables := variadicVariables + [(original, decls)];
      var key := EffectiveId(id, own);
      FileSymbol(key, SymbolIndex(VariadicVariable, index));
      Record(key, VariadicSymbol(original, decls), before);
    }

    method AddFunction(id: Id, own: Id, decl: nat)
      requires Valid()
      modifies this
      ensures Valid() && operators == old(operators)
      ensures history == old(history) + [Declaration(EffectiveId(id, own), FunctionSymbol(decl))]
      ensures Takes(old(history), history, id, own, FunctionSymbol(decl))
    {
      ghost var before := Contents();
      var key := EffectiveId(id, own);
      var found, inserted := Insert(key, SymbolIndex(FunctionSet, |functionSets|));
      if inserted {
        functionSets := functionSets + [OverloadSet([decl], [])];
      } else if found.kind.FunctionSet? {
        assert Reaches(before, key, found);
        var set_ := functionSets[found.index];
        functionSets := functionSets[found.index := set_.(funcDecls := set_.funcDecls + [decl])];
      } else if !found.kind.Ambiguous? {
        var index := |functionSets|;
        functionSets := functionSets + [OverloadSet([decl], [])];
        MakeAmbiguous(key, found, SymbolIndex(FunctionSet, index));
      }
      Record(key, FunctionSymbol(decl), before);
    }

    method AddFunctionAlias(id: Id, own: Id, decl: nat)
      requires Valid()
      modifies this
      ensures Valid() && operators == old(operators)
      ensures history == old(history) + [Declaration(EffectiveId(id, own), FunctionAliasSymbol(decl))]
      ensures Takes(old(history), history, id, own, FunctionAliasSymbol(decl))
    {
      ghost var before := Contents();
      var key := EffectiveId(id, own);
      var found, inserted := Insert(key, SymbolIndex(FunctionSet, |functionSets|));
      if inserted {
        functionSets := functionSets + [OverloadSet([], [decl])];
      } else if found.kind.FunctionSet? {
        assert Reaches(before, key, found);
        var set_ := functionSets[found.index];
        functionSets := functionSets[found.index := set_.(aliasDecls := set_.aliasDecls + [decl])];
      } else if !found.kind.Ambiguous? {
        var index := |functionSets|;
        functionSets := functionSets + [OverloadSet([], [decl])];
        MakeAmbiguous(key, found, SymbolIndex(FunctionSet, index));
      }
      Record(key, FunctionAliasSymbol(decl), before);
    }

    method AddTypeAlias(id: Id, own: Id, decl: nat)
      requires Valid()
      modifies this
      ensures Valid() && operators == old(operators)
      ensures history == old(history) + [Declaration(EffectiveId(id, own), TypeAliasSymbol(decl))]
      ensures Takes(old(history), history, id, own, TypeAliasSymbol(decl))
    {
      ghost var before := Contents();
      var index := |typeAliases|;
      typeAliases := typeAliases + [decl];
      var key := EffectiveId(id, own);
      FileSymbol(key, SymbolIndex(TypeAlias, index));
      Record(key, TypeAliasSymbol(decl), before);
    }

    method AddStruct(id: Id, own: Id, decl: nat)
      requires Valid()
      modifies this
      ensures Valid() && operators == old(operators)
      ensures history == old(history) + [Declaration(EffectiveId(id, own), StructSymbol(decl))]
      ensures Takes(old(history), history, id, own, StructSymbol(decl))
    {
      ghost var before := Contents();
      var index := |structs|;
      structs := structs + [decl];
      var key := EffectiveId(id, own);
      FileSymbol(key, SymbolIndex(Struct, index));
      Record(key, StructSymbol(decl), before);
    }

    method AddEnum(id: Id, own: Id, decl: nat)
      requires Valid()
      modifies this
      ensures Valid() && operators == old(operators)
      ensures history == old(history) + [Declaration(EffectiveId(id, own), EnumSymbol(decl))]
      ensures Takes(old(history), history, id, own, EnumSymbol(decl))
    {
      ghost var before := Contents();
      var index := |enums|;
      enums := enums + [decl];
      var key := EffectiveId(id, own);
      FileSymbol(key, SymbolIndex(Enum, index));
      Record(key, EnumSymbol(decl), before);
    }

    method FindOperator(op: nat) returns (i: nat)
      ensures i <= |operatorSets| && forall j :: 0 <= j < i ==> operatorSets[j].op != op
      ensures i < |operatorSets| ==> operatorSets[i].op == op
    {
      i := 0;
      while i < |operatorSets| && operatorSets[i].op != op
        invariant i <= |operatorSets|
        invariant forall j :: 0 <= j < i ==> operatorSets[j].op != op
      {
        i := i + 1;
      }
    }

    /** `add_operator` and `add_operator_alias` */
    method AddOperator(d: OperatorSymbol)
      requires Valid()
      modifies `operatorSets, `operators
      ensures Valid() && history == old(history)
      ensures operators == old(operators) + [d]
    {
      var i := FindOperator(d.op);
      if i < |operatorSets| {
        ExtendMatches(operatorSets, operators, d, i);
        operatorSets := operatorSets[i := Extended(operatorSets[i], d)];
      } else {
        AppendMatches(operatorSets, operators, d);
        operatorSets := operatorSets + [Extended(OperatorSet(d.op, [], []), d)];
      }
      operators := operators + [d];
    }

    /** `get_symbol_index_by_id`: none, where to find the one entry, or ambiguous. */
    method GetSymbolIndexById(id: Id) returns (s: SymbolIndex)
      requires Valid()
      ensures match MeaningAfter(history, id)
              case NotFound => s == SymbolIndex(NoSymbol, 0)
              case Unique(e) => InRange(Contents(), s) && Fetch(Contents(), s) == e
              case Many(_) => s.kind == Ambiguous
    {
      assert Lookup(Contents(), owner, id) == MeaningAfter(history, id);
      if id in idMap {
        s := idMap[id];
        if !s.kind.Ambiguous? {
          assert Reaches(Contents(), id, s);
        }
      } else {
        s := SymbolIndex(NoSymbol, 0);
      }
    }

    /** `get_ambiguous_symbols_by_id`: the entries of an ambiguous id, and nothing for any other. */
    method GetAmbiguousSymbolsById(id: Id) returns (ss: seq<SymbolIndex>)
      requires Valid()
      ensures AllInRange(Contents(), ss) && DistinctIndices(ss)
      ensures match MeaningAfter(history, id)
              case Many(es) => |es| >= 2 && FetchAll(Contents(), ss) == es
              case _ => ss == []
    {
      assert Lookup(Contents(), owner, id) == MeaningAfter(history, id);
      if id in ambiguousIdMap {
        ReachedAll(Contents(), owner, id);
        ss := ambiguousIdMap[id];
      } else {
        ss := [];
      }
    }
  }

  /** Every stored symbol is reachable from one id, and from one only. */
  lemma ReachedFromOneId(t: Table, owner: map<SymbolIndex, Id>, h: seq<Declaration>, s: SymbolIndex)
    requires Refines(t, owner, h) && InRange(t, s)
    ensures exists id :: Reaches(t, id, s) && forall other :: Reaches(t, other, s) ==> other == id
  {
    assert Reaches(t, owner[s], s);
  }

  // ----- the exported part -----

  datatype ScopeEvent =
    | Declared(declaration: Declaration, exported: bool)
    | DeclaredOperator(op: OperatorSymbol, exported: bool)

  function DeclarationsIn(es: seq<ScopeEvent>, exportedOnly: bool): seq<Declaration> {
    if es == [] then []
    else
      var last := es[|es| - 1];
      DeclarationsIn(es[..|es| - 1], exportedOnly)
      + (if last.Declared? && (last.exported || !exportedOnly) then [last.declaration] else [])
  }

  function OperatorsIn(es: seq<ScopeEvent>, exportedOnly: bool): seq<OperatorSymbol> {
    if es == [] then []
    else
      var last := es[|es| - 1];
      OperatorsIn(es[..|es| - 1], exportedOnly)
      + (if last.DeclaredOperator? && (last.exported || !exportedOnly) then [last.op] else [])
  }

  class Scope {
    const allSymbols: SymbolList
    const exportSymbols: SymbolList
    ghost var events: seq<ScopeEvent>

    /** Both tables agree with the history, the export table with its exported part. */
    ghost predicate Valid()
      reads this, allSymbols, exportSymbols
    {
      && allSymbols != exportSymbols
      && allSymbols.Valid() && exportSymbols.Valid()
      && allSymbols.history == DeclarationsIn(events, false)
      && exportSymbols.history == DeclarationsIn(events, true)
      && allSymbols.operators == OperatorsIn(events, false)
      && exportSymbols.operators == OperatorsIn(events, true)
    }

    constructor ()
      ensures Valid() && events == [] && fresh(allSymbols) && fresh(exportSymbols)
    {
      allSymbols := new SymbolList();
      exportSymbols := new SymbolList();
      events := [];
    }

    /** Both tables have taken the event in. */
    ghost method Record(e: ScopeEvent)
      requires allSymbols != exportSymbols && allSymbols.Valid() && exportSymbols.Valid()
      requires allSymbols.history
            == DeclarationsIn(events, false) + (if e.Declared? then [e.declaration] else [])
      requires exportSymbols.history
            == DeclarationsIn(events, true) + (if e.Declared? && e.exported then [e.declaration] else [])
      requires allSymbols.operators
            == OperatorsIn(events, false) + (if e.DeclaredOperator? then [e.op] else [])
      requires exportSymbols.operators
            == OperatorsIn(events, true) + (if e.DeclaredOperator? && e.exported then [e.op] else [])
      modifies `events
      ensures Valid() && events == old(events) + [e]
    {
      assert (events + [e])[..|events|] == events;
      events := events + [e];
    }

    method AddVariable(id: Id, own: Id, decl: nat, exported: bool)
      requires Valid()
      modifies this, allSymbols, exportSymbols
      ensures Valid()
      ensures events == old(events) + [Declared(Declaration(EffectiveId(id, own), VariableSymbol(decl)), exported)]
      ensures Takes(old(allSymbols.history), allSymbols.history, id, own, VariableSymbol(decl))
      ensures exported ==> Takes(old(exportSymbols.history), exportSymbols.history, id, own, VariableSymbol(decl))
      ensures !exported ==> exportSymbols.history == old(exportSymbols.history)
    {
      allSymbols.AddVariable(id, own, decl);
      if exported {
        exportSymbols.AddVariable(id, own, decl);
      }
      Record(Declared(Declaration(EffectiveId(id, own), VariableSymbol(decl)), exported));
    }

    method AddVariadicVariable(id: Id, own: Id, original: nat, decls: seq<nat>, exported: bool)
      requires Valid()
      modifies this, allSymbols, exportSymbols
      ensures Valid()
      ensures events
           == old(events) + [Declared(Declaration(EffectiveId(id, own), VariadicSymbol(original, decls)), exported)]
      ensures Takes(old(allSymbols.history), allSymbols.history, id, own, VariadicSymbol(original, decls))
      ensures exported ==>
                Takes(old(exportSymbols.history), exportSymbols.history, id, own, VariadicSymbol(original, decls))
      ensures !exported ==> exportSymbols.history == old(exportSymbols.history)
    {
      allSymbols.AddVariadicVariable(id, own, original, decls);
      if exported {
        exportSymbols.AddVariadicVariable(id, own, original, decls);
      }
      Record(Declared(Declaration(EffectiveId(id, own), VariadicSymbol(original, decls)), exported));
    }

    method AddFunction(id: Id, own: Id, decl: nat, exported: bool)
      requires Valid()
      modifies this, allSymbols, exportSymbols
      ensures Valid()
      ensures events == old(events) + [Declared(Declaration(EffectiveId(id, own), FunctionSymbol(decl)), exported)]
      ensures Takes(old(allSymbols.history), allSymbols.history, id, own, FunctionSymbol(decl))
      ensures exported ==> Takes(old(exportSymbols.history), exportSymbols.history, id, own, FunctionSymbol(decl))
      ensures !exported ==> exportSymbols.history == old(exportSymbols.history)
    {
      allSymbols.AddFunction(id, own, decl);
      if exported {
        exportSymbols.AddFunction(id, own, decl);
      }
      Record(Declared(Declaration(EffectiveId(id, own), FunctionSymbol(decl)), exported));
    }

    method AddFunctionAlias(id: Id, own: Id, decl: nat, exported: bool)
      requires Valid()
      modifies this, allSymbols, exportSymbols
      ensures Valid()
      ensures events == old(events) + [Declared(Declaration(EffectiveId(id, own), FunctionAliasSymbol(decl)), exported)]
      ensures Takes(old(allSymbols.history), allSymbols.history, id, own, FunctionAliasSymbol(decl))
      ensures exported ==> Takes(old(exportSymbols.history), exportSymbols.history, id, own, FunctionAliasSymbol(decl))
      ensures !exported ==> exportSymbols.history == old(exportSymbols.history)
    {
      allSymbols.AddFunctionAlias(id, own, decl);
      if exported {
        exportSymbols.AddFunctionAlias(id, own, decl);
      }
      Record(Declared(Declaration(EffectiveId(id, own), FunctionAliasSymbol(decl)), exported));
    }

    method AddOperator(d: OperatorSymbol, exported: bool)
      requires Valid()
      modifies this, allSymbols, exportSymbols
      ensures Valid()
      ensures events == old(events) + [DeclaredOperator(d, exported)]
      ensures allSymbols.operators == old(allSymbols.operators) + [d] && allSymbols.history == old(allSymbols.history)
      ensures exported ==> exportSymbols.operators == old(exportSymbols.operators) + [d]
      ensures !exported ==> exportSymbols.operators == old(exportSymbols.operators)
    {
      allSymbols.AddOperator(d);
      if exported {
        exportSymbols.AddOperator(d);
      }
      Record(DeclaredOperator(d, exported));
    }

    method AddTypeAlias(id: Id, own: Id, decl: nat, exported: bool)
      requires Valid()
      modifies this, allSymbols, exportSymbols
      ensures Valid()
      ensures events == old(events) + [Declared(Declaration(EffectiveId(id, own), TypeAliasSymbol(decl)), exported)]
      ensures Takes(old(allSymbols.history), allSymbols.history, id, own, TypeAliasSymbol(decl))
      ensures exported ==> Takes(old(exportSymbols.history), exportSymbols.history, id, own, TypeAliasSymbol(decl))
      ensures !exported ==> exportSymbols.history == old(exportSymbols.history)
    {
      allSymbols.AddTypeAlias(id, own, decl);
      if exported {
        exportSymbols.AddTypeAlias(id, own, decl);
      }
      Record(Declared(Declaration(EffectiveId(id, own), TypeAliasSymbol(decl)), exported));
    }

    method AddStruct(id: Id, own: Id, decl: nat, exported: bool)
      requires Valid()
      modifies this, allSymbols, exportSymbols
      ensures Valid()
      ensures events == old(events) + [Declared(Declaration(EffectiveId(id, own), StructSymbol(decl)), exported)]
      ensures Takes(old(allSymbols.history), allSymbols.history, id, own, StructSymbol(decl))
      ensures exported ==> Takes(old(exportSymbols.history), exportSymbols.history, id, own, StructSymbol(decl))
      ensures !exported ==> exportSymbols.history == old(exportSymbols.history)
    {
      allSymbols.AddStruct(id, own, decl);
      if exported {
        exportSymbols.AddStruct(id, own, decl);
      }
      Record(Declared(Declaration(EffectiveId(id, own), StructSymbol(decl)), exported));
    }

    method AddEnum(id: Id, own: Id, decl: nat, exported: bool)
      requires Valid()
      modifies this, allSymbols, exportSymbols
      ensures Valid()
      ensures events == old(events) + [Declared(Declaration(EffectiveId(id, own), EnumSymbol(decl)), exported)]
      ensures Takes(old(allSymbols.history), allSymbols.history, id, own, EnumSymbol(decl))
      ensures exported ==> Takes(old(exportSymbols.history), exportSymbols.history, id, own, EnumSymbol(decl))
      ensures !exported ==> exportSymbols.history == old(exportSymbols.history)
    {
      allSymbols.AddEnum(id, own, decl);
      if exported {
        exportSymbols.AddEnum(id, own, decl);
      }
      Record(Declared(Declaration(EffectiveId(id, own), EnumSymbol(decl)), exported));
    }
  }
}
