/** The operator sets of a global scope (src/ast/scope.cpp:172-210) against the history of operator declarations. */
module OperatorTable {

  datatype OperatorSymbol = OperatorSymbol(op: nat, isAlias: bool, decl: nat)

  datatype OperatorSet = OperatorSet(op: nat, opDecls: seq<nat>, aliasDecls: seq<nat>)

  /** The declarations of one operator in the order they were added. */
  function DeclsOf(h: seq<OperatorSymbol>, op: nat, isAlias: bool): seq<nat> {
    if h == [] then []
    else
      var last := h[|h| - 1];
      DeclsOf(h[..|h| - 1], op, isAlias) + (if last.op == op && last.isAlias == isAlias then [last.decl] else [])
  }

  function SetFor(h: seq<OperatorSymbol>, op: nat): OperatorSet {
    OperatorSet(op, DeclsOf(h, op, false), DeclsOf(h, op, true))
  }

  ghost predicate Known(sets: seq<OperatorSet>, op: nat) {
    exists i :: 0 <= i < |sets| && sets[i].op == op
  }

  /** One set for every operator that was declared, with exactly its declarations. */
  ghost predicate SetsMatch(sets: seq<OperatorSet>, h: seq<OperatorSymbol>) {
    && (forall i, j :: 0 <= i < j < |sets| ==> sets[i].op != sets[j].op)
    && (forall i :: 0 <= i < |sets| ==> sets[i] == SetFor(h, sets[i].op))
    && (forall k :: 0 <= k < |h| ==> Known(sets, h[k].op))
  }

  function Extended(s: OperatorSet, d: OperatorSymbol): OperatorSet {
    if d.isAlias then s.(aliasDecls := s.aliasDecls + [d.decl]) else s.(opDecls := s.opDecls + [d.decl])
  }

  lemma SetForStep(h: seq<OperatorSymbol>, d: OperatorSymbol, op: nat)
    ensures SetFor(h + [d], op) == if d.op == op then Extended(SetFor(h, op), d) else SetFor(h, op)
  {
    assert (h + [d])[..|h|] == h;
  }

  lemma {:induction false} NotDeclared(h: seq<OperatorSymbol>, op: nat)
    requires forall k :: 0 <= k < |h| ==> h[k].op != op
    ensures SetFor(h, op) == OperatorSet(op, [], [])
  {
    if h != [] {
      NotDeclared(h[..|h| - 1], op);
    }
  }

  lemma ExtendMatches(sets: seq<OperatorSet>, h: seq<OperatorSymbol>, d: OperatorSymbol, i: nat)
    requires SetsMatch(sets, h) && i < |sets| && sets[i].op == d.op
    ensures SetsMatch(sets[i := Extended(sets[i], d)], h + [d])
  {
    var more := sets[i := Extended(sets[i], d)];
    forall j | 0 <= j < |more| ensures more[j] == SetFor(h + [d], more[j].op) {
      SetForStep(h, d, sets[j].op);
    }
    forall k | 0 <= k < |h + [d]| ensures Known(more, (h + [d])[k].op) {
      KnownStays(sets, more, (h + [d])[k].op);
    }
  }

  lemma {:induction false} DeclsAreDeclared(h: seq<OperatorSymbol>, op: nat, isAlias: bool, n: nat)
    ensures n in DeclsOf(h, op, isAlias) <==> OperatorSymbol(op, isAlias, n) in h
  {
    if h != [] {
      DeclsAreDeclared(h[..|h| - 1], op, isAlias, n);
      assert h == h[..|h| - 1] + [h[|h| - 1]];
    }
  }

  /** The set of an operator holds its operators and its aliases, each on its side, and there is none for others. */
  lemma SetIsDeclared(sets: seq<OperatorSet>, h: seq<OperatorSymbol>, op: nat, n: nat)
    requires SetsMatch(sets, h)
    ensures forall i :: 0 <= i < |sets| && sets[i].op == op ==>
              && (n in sets[i].opDecls <==> OperatorSymbol(op, false, n) in h)
              && (n in sets[i].aliasDecls <==> OperatorSymbol(op, true, n) in h)
    ensures forall isAlias :: OperatorSymbol(op, isAlias, n) in h ==> Known(sets, op)
  {
    DeclsAreDeclared(h, op, false, n);
    DeclsAreDeclared(h, op, true, n);
  }

  lemma KnownStays(sets: seq<OperatorSet>, more: seq<OperatorSet>, op: nat)
    requires Known(sets, op) && |sets| <= |more| && forall j :: 0 <= j < |sets| ==> more[j].op == sets[j].op
    ensures Known(more, op)
  {
    var j :| 0 <= j < |sets| && sets[j].op == op;
    assert more[j].op == op;
  }

  lemma AppendMatches(sets: seq<OperatorSet>, h: seq<OperatorSymbol>, d: OperatorSymbol)
    requires SetsMatch(sets, h) && forall i :: 0 <= i < |sets| ==> sets[i].op != d.op
    ensures SetsMatch(sets + [Extended(OperatorSet(d.op, [], []), d)], h + [d])
  {
    var more := sets + [Extended(OperatorSet(d.op, [], []), d)];
    forall k | 0 <= k < |h| ensures h[k].op != d.op {
      assert Known(sets, h[k].op);
    }
    NotDeclared(h, d.op);
    forall j | 0 <= j < |more| ensures more[j] == SetFor(h + [d], more[j].op) {
      SetForStep(h, d, more[j].op);
    }
    assert more[|sets|].op == d.op;
    forall k | 0 <= k < |h + [d]| ensures Known(more, (h + [d])[k].op) {
      if k < |h| {
        KnownStays(sets, more, h[k].op);
      }
    }
  }
}
