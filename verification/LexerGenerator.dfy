/**
 * scripts/generate_lexer.cpp: a table of tokens is sorted and compiled into nested switches. The generated text is
 * modelled as a tree, and `Run` says what the compiled switches do with an input.
 */
module LexerGenerator {
  import opened Options
  import BubbleSort

  /** An entry of the table; text is a sequence of code points. */
  datatype Token = Token(text: string, kind: nat)

  /** One `switch (*stream.it)`; the outermost one has no `default:` label. */
  datatype Switch = Switch(cases: seq<Case>, default: Option<nat>)

  /** `case 'label':` advances the stream, then returns `kind` or, when more input is left, enters `next`. */
  datatype Case = Case(labelChar: char, kind: nat, next: Option<Switch>)

  /** The token kind returned by the generated code, and the number of code points the token spans. */
  datatype Lexed = Lexed(kind: nat, length: nat)

  // ----- what the generated code does -----

  function FindCase(cases: seq<Case>, c: char): (r: Option<Case>)
    ensures r.Some? ==> r.value in cases && r.value.labelChar == c
    ensures r.None? ==> forall k :: 0 <= k < |cases| ==> cases[k].labelChar != c
  {
    if cases == [] then None
    else if cases[0].labelChar == c then Some(cases[0])
    else FindCase(cases[1..], c)
  }

  /** The switch looks at `input[pos]`; `None` means that it was left without returning a token. */
  function Run(sw: Switch, input: string, pos: nat): Option<Lexed>
    requires pos < |input|
    decreases |input| - pos, 1
  {
    match FindCase(sw.cases, input[pos])
    case Some(cs) => RunCase(cs, input, pos + 1)
    case None => if sw.default.Some? then Some(Lexed(sw.default.value, pos)) else None
  }

  function RunCase(cs: Case, input: string, pos: nat): Option<Lexed>
    requires pos <= |input|
    decreases |input| - pos, 2
  {
    if cs.next.None? || pos == |input| then Some(Lexed(cs.kind, pos))
    else Run(cs.next.value, input, pos)
  }

  /** C++ rejects a switch with two equal labels. */
  ghost predicate DistinctLabels(sw: Switch)
    decreases sw
  {
    && (forall i, j :: 0 <= i < j < |sw.cases| ==> sw.cases[i].labelChar != sw.cases[j].labelChar)
    && (forall i :: 0 <= i < |sw.cases| ==> CaseDistinctLabels(sw.cases[i]))
  }

  ghost predicate CaseDistinctLabels(cs: Case)
    decreases cs
  {
    cs.next.Some? ==> DistinctLabels(cs.next.value)
  }

  // ----- what the generated code should do -----

  /** `r` is the longest token of `tokens` that begins `input`. */
  ghost predicate IsLongest(tokens: seq<Token>, input: string, r: Lexed) {
    && r.length <= |input|
    && Token(input[..r.length], r.kind) in tokens
    && forall t :: t in tokens && t.text <= input ==> |t.text| <= r.length
  }

  ghost predicate SomeTokenBegins(tokens: seq<Token>, input: string) {
    exists t :: t in tokens && t.text <= input
  }

  /** The longest token when there is one, and otherwise what falling out of the switch gives. */
  ghost predicate LexesAs(tokens: seq<Token>, input: string, otherwise: Option<Lexed>, r: Option<Lexed>) {
    if SomeTokenBegins(tokens, input) then r.Some? && IsLongest(tokens, input, r.value)
    else r == otherwise
  }

  /** The generated lexer means longest match on every input. */
  ghost predicate MeansLongestMatch(sw: Switch, tokens: seq<Token>) {
    forall input: string :: input != [] ==> LexesAs(tokens, input, None, Run(sw, input, 0))
  }

  ghost predicate DistinctTokens(tokens: seq<Token>) {
    && (forall i :: 0 <= i < |tokens| ==> tokens[i].text != [])
    && (forall i, j :: 0 <= i < j < |tokens| ==> tokens[i].text != tokens[j].text)
  }

  ghost predicate HasText(tokens: seq<Token>, text: string) {
    exists t :: t in tokens && t.text == text
  }

  /** Every non-empty prefix of a token is a token as well. */
  ghost predicate PrefixClosed(tokens: seq<Token>) {
    forall t, n :: t in tokens && 0 < n <= |t.text| ==> HasText(tokens, t.text[..n])
  }

  // ----- the order of the table -----

  /** The comparison given to the sort: lexicographic, a proper prefix comes first. */
  function TextLess(lhs: string, rhs: string): bool {
    if lhs == [] || rhs == [] then rhs != []
    else if lhs[0] < rhs[0] then true
    else if lhs[0] > rhs[0] then false
    else TextLess(lhs[1..], rhs[1..])
  }

  lemma {:induction false} TextLessAsymmetric(x: string, y: string)
    ensures !(TextLess(x, y) && TextLess(y, x))
    ensures x != y ==> TextLess(x, y) || TextLess(y, x)
  {
    if x != [] && y != [] {
      TextLessAsymmetric(x[1..], y[1..]);
      if x != y && x[0] == y[0] {
        assert x == [x[0]] + x[1..] && y == [y[0]] + y[1..];
      }
    }
  }

  lemma {:induction false} TextLessTransitive(x: string, y: string, z: string)
    requires !TextLess(y, x) && !TextLess(z, y)
    ensures !TextLess(z, x)
  {
    if x != [] && y != [] && z != [] {
      if x[0] == y[0] == z[0] {
        TextLessTransitive(x[1..], y[1..], z[1..]);
      }
    }
  }

  /** Where two texts first differ decides their order. */
  lemma {:induction false} TextLessAt(x: string, y: string, n: nat)
    requires n < |x| && n < |y| && x[..n] == y[..n]
    requires TextLess(x, y)
    ensures x[n] <= y[n]
  {
    if n > 0 {
      assert x[0] == x[..n][0] == y[..n][0] == y[0];
      assert x[1..][..n - 1] == x[..n][1..] == y[..n][1..] == y[1..][..n - 1];
      TextLessAt(x[1..], y[1..], n - 1);
    }
  }

  lemma {:induction false} PrefixIsNotAfter(x: string, y: string)
    requires x <= y
    ensures !TextLess(y, x)
  {
    if x != [] {
      assert x[0] == y[0];
      PrefixIsNotAfter(x[1..], y[1..]);
    }
  }

  function TokenLess(): (Token, Token) -> bool {
    (lhs: Token, rhs: Token) => TextLess(lhs.text, rhs.text)
  }

  lemma TokenLessOrders()
    ensures BubbleSort.StrictWeakOrder(TokenLess())
  {
    var less := TokenLess();
    forall x, y | less(x, y) ensures !less(y, x) {
      TextLessAsymmetric(x.text, y.text);
    }
    forall x, y, z | !less(y, x) && !less(z, y) ensures !less(z, x) {
      TextLessTransitive(x.text, y.text, z.text);
    }
  }

  ghost predicate StrictlyAscending(tokens: seq<Token>) {
    forall i, j :: 0 <= i < j < |tokens| ==> TextLess(tokens[i].text, tokens[j].text)
  }

  // ----- the recursive generator -----

  /**
   * What the slice handed to the generator at depth `level` looks like: the tokens agree on their first `level` code
   * points, every one is longer than that, and the longer prefixes of each are in the slice too.
   */
  ghost predicate Slice(tokens: seq<Token>, level: nat, prefix: string) {
    && |prefix| == level
    && StrictlyAscending(tokens)
    && (forall i :: 0 <= i < |tokens| ==> level < |tokens[i].text| && tokens[i].text[..level] == prefix)
    && (forall i, n :: 0 <= i < |tokens| && level < n <= |tokens[i].text| ==> HasText(tokens, tokens[i].text[..n]))
  }

  /** On every input that continues `prefix`, the switch finds the longest token of the slice. */
  ghost predicate Means(sw: Switch, tokens: seq<Token>, level: nat, prefix: string, otherwise: Option<Lexed>) {
    && |prefix| == level
    && forall input: string :: prefix < input ==> LexesAs(tokens, input, otherwise, Run(sw, input, level))
  }

  /** The part of the switch that has been emitted for `tokens`. */
  ghost predicate CasesMean(cases: seq<Case>, tokens: seq<Token>, level: nat, prefix: string) {
    && |prefix| == level
    && forall input: string :: prefix < input ==> CasesLex(cases, tokens, level, input)
  }

  ghost predicate CasesLex(cases: seq<Case>, tokens: seq<Token>, level: nat, input: string)
    requires level < |input|
  {
    match FindCase(cases, input[level])
    case None => !SomeTokenBegins(tokens, input)
    case Some(cs) =>
      && RunCase(cs, input, level + 1).Some?
      && IsLongest(tokens, input, RunCase(cs, input, level + 1).value)
  }

  /** The tokens of `s[lo..hi]` share their code point at `level`, and it occurs nowhere else in the slice. */
  ghost predicate IsGroup(tokens: seq<Token>, level: nat, lo: nat, hi: nat)
    requires lo < hi <= |tokens| && forall i :: 0 <= i < |tokens| ==> level < |tokens[i].text|
  {
    && (forall k :: 0 <= k < lo ==> tokens[k].text[level] < tokens[lo].text[level])
    && (forall k :: lo <= k < hi ==> tokens[k].text[level] == tokens[lo].text[level])
    && (forall k :: hi <= k < |tokens| ==> tokens[lo].text[level] < tokens[k].text[level])
  }

  lemma AscendingAtLevel(tokens: seq<Token>, level: nat, prefix: string, i: nat, j: nat)
    requires Slice(tokens, level, prefix) && i <= j < |tokens|
    ensures tokens[i].text[level] <= tokens[j].text[level]
  {
    if i < j {
      TextLessAt(tokens[i].text, tokens[j].text, level);
    }
  }

  /** The first token of a group is the shared prefix itself: this makes the generator's assertions hold. */
  lemma GroupHead(tokens: seq<Token>, level: nat, prefix: string, lo: nat)
    requires Slice(tokens, level, prefix) && lo < |tokens|
    requires forall k :: 0 <= k < lo ==> tokens[k].text[level] < tokens[lo].text[level]
    ensures tokens[lo].text == prefix + [tokens[lo].text[level]]
  {
    var text := tokens[lo].text;
    assert HasText(tokens, text[..level + 1]);
    var t :| t in tokens && t.text == text[..level + 1];
    var k :| 0 <= k < |tokens| && tokens[k] == t;
    assert tokens[k].text[level] == text[level];
    PrefixIsNotAfter(t.text, text);
    assert k == lo;
    assert text == text[..level] + [text[level]];
  }

  /** What is left of a group below its head is again a slice, one level deeper. */
  lemma GroupTail(tokens: seq<Token>, level: nat, prefix: string, lo: nat, hi: nat)
    requires Slice(tokens, level, prefix) && lo < hi <= |tokens| && IsGroup(tokens, level, lo, hi)
    requires tokens[lo].text == prefix + [tokens[lo].text[level]]
    ensures Slice(tokens[lo + 1..hi], level + 1, tokens[lo].text)
  {
    var head := tokens[lo].text;
    var tail := tokens[lo + 1..hi];
    forall i | 0 <= i < |tail| ensures level + 1 < |tail[i].text| && tail[i].text[..level + 1] == head {
      var text := tokens[lo + 1 + i].text;
      assert text[..level + 1] == text[..level] + [text[level]];
      TextLessAsymmetric(head, text);
      assert text[..|text|] == text;
    }
    forall i, n | 0 <= i < |tail| && level + 1 < n <= |tail[i].text| ensures HasText(tail, tail[i].text[..n]) {
      var text := tokens[lo + 1 + i].text;
      assert HasText(tokens, text[..n]);
      var t :| t in tokens && t.text == text[..n];
      var k :| 0 <= k < |tokens| && tokens[k] == t;
      assert tokens[k].text[level] == text[level] == head[level];
      assert k != lo;
      assert tail[k - lo - 1] == t;
    }
    forall i, j | 0 <= i < j < |tail| ensures TextLess(tail[i].text, tail[j].text) {
      assert tail[i] == tokens[lo + 1 + i] && tail[j] == tokens[lo + 1 + j];
    }
  }

  /** A token outside the group has another code point at this level than the input. */
  lemma BeginsInGroup(tokens: seq<Token>, level: nat, prefix: string, lo: nat, hi: nat, input: string, t: Token)
    requires Slice(tokens, level, prefix) && lo < hi <= |tokens| && IsGroup(tokens, level, lo, hi)
    requires prefix < input && |prefix| == level && input[level] == tokens[lo].text[level]
    requires t in tokens && t.text <= input
    ensures t == tokens[lo] || t in tokens[lo + 1..hi]
  {
  }

  /** The case emitted for a group finds the longest token of the whole slice when its label is next in the input. */
  lemma GroupCase(tokens: seq<Token>, level: nat, prefix: string, lo: nat, hi: nat, cs: Case, input: string)
    requires Slice(tokens, level, prefix) && lo < hi <= |tokens| && IsGroup(tokens, level, lo, hi)
    requires tokens[lo].text == prefix + [tokens[lo].text[level]]
    requires cs.labelChar == tokens[lo].text[level] && cs.kind == tokens[lo].kind
    requires lo + 1 == hi ==> cs.next.None?
    requires lo + 1 < hi ==>
               && cs.next.Some?
               && Means(cs.next.value, tokens[lo + 1..hi], level + 1, tokens[lo].text, Some(Lexed(cs.kind, level + 1)))
    requires prefix < input && input[level] == cs.labelChar
    ensures RunCase(cs, input, level + 1).Some?
    ensures IsLongest(tokens, input, RunCase(cs, input, level + 1).value)
  {
    var head := tokens[lo].text;
    var tail := tokens[lo + 1..hi];
    var r := RunCase(cs, input, level + 1);
    assert input[..level + 1] == head;
    assert tokens[lo] in tokens;
    forall t | t in tokens && t.text <= input ensures t == tokens[lo] || t in tail {
      BeginsInGroup(tokens, level, prefix, lo, hi, input, t);
    }
    if lo + 1 == hi {
      assert tail == [];
    } else if level + 1 == |input| {
    } else {
      assert head < input;
      assert LexesAs(tail, input, Some(Lexed(cs.kind, level + 1)), Run(cs.next.value, input, level + 1));
      GroupTail(tokens, level, prefix, lo, hi);
      if SomeTokenBegins(tail, input) {
        assert r.value.length > level + 1 by {
          var t :| t in tail && t.text <= input;
          assert |t.text| > level + 1;
        }
        assert forall t :: t in tail ==> t in tokens;
      }
    }
  }

  lemma FindCaseAppend(cases: seq<Case>, cs: Case, c: char)
    ensures FindCase(cases + [cs], c) ==
            match FindCase(cases, c)
            case Some(x) => Some(x)
            case None => if cs.labelChar == c then Some(cs) else None
  {
    if cases == [] {
      assert cases + [cs] == [cs];
    } else {
      assert (cases + [cs])[1..] == cases[1..] + [cs];
      FindCaseAppend(cases[1..], cs, c);
    }
  }

  /** Emitting the case of one more group. */
  lemma EmitCase(cases: seq<Case>, tokens: seq<Token>, level: nat, prefix: string, lo: nat, hi: nat, cs: Case)
    requires Slice(tokens, level, prefix) && lo < hi <= |tokens| && IsGroup(tokens, level, lo, hi)
    requires tokens[lo].text == prefix + [tokens[lo].text[level]]
    requires cs.labelChar == tokens[lo].text[level] && cs.kind == tokens[lo].kind
    requires lo + 1 == hi ==> cs.next.None?
    requires lo + 1 < hi ==>
               && cs.next.Some?
               && Means(cs.next.value, tokens[lo + 1..hi], level + 1, tokens[lo].text, Some(Lexed(cs.kind, level + 1)))
    requires CasesMean(cases, tokens[..lo], level, prefix)
    ensures CasesMean(cases + [cs], tokens[..hi], level, prefix)
  {
    forall input: string | prefix < input ensures CasesLex(cases + [cs], tokens[..hi], level, input) {
      var c := input[level];
      FindCaseAppend(cases, cs, c);
      assert CasesLex(cases, tokens[..lo], level, input);
      forall t | t in tokens[..hi] && t.text <= input
        ensures t in tokens[..lo] || c == cs.labelChar
      {
        var k :| 0 <= k < hi && tokens[k] == t;
        assert t.text[level] == c;
        if k < lo {
          assert tokens[..lo][k] == t;
        }
      }
      if FindCase(cases, c).Some? {
        var r := RunCase(FindCase(cases, c).value, input, level + 1).value;
        assert Token(input[..r.length], r.kind) in tokens[..hi];
        assert c < cs.labelChar by {
          var k :| 0 <= k < lo && tokens[k] == Token(input[..r.length], r.kind);
          assert tokens[k].text[level] == c;
        }
      } else if c == cs.labelChar {
        GroupCase(tokens, level, prefix, lo, hi, cs, input);
        var r := RunCase(cs, input, level + 1).value;
        var k :| 0 <= k < |tokens| && tokens[k] == Token(input[..r.length], r.kind);
        assert tokens[k].text[level] == c;
        assert tokens[..hi][k] == tokens[k];
      }
    }
  }

  /** The immediately called lambda of the generator: the first index after `i` that leaves the group. */
  method EndOfGroup(tokens: seq<Token>, level: nat, i: nat, ghost prefix: string) returns (nextI: nat)
    requires Slice(tokens, level, prefix) && i < |tokens|
    requires forall k :: 0 <= k < i ==> tokens[k].text[level] < tokens[i].text[level]
    ensures i < nextI <= |tokens|
    ensures IsGroup(tokens, level, i, nextI)
  {
    var c := tokens[i].text[level];
    nextI := i + 1;
    while nextI < |tokens|
      invariant i < nextI <= |tokens|
      invariant forall k :: i <= k < nextI ==> tokens[k].text[level] == c
    {
      var nextTokenValue := tokens[nextI].text;
      if |nextTokenValue| <= level {
        break;
      }
      if nextTokenValue[level] != c {
        break;
      }
      nextI := nextI + 1;
    }
    forall k | nextI <= k < |tokens| ensures c < tokens[k].text[level] {
      AscendingAtLevel(tokens, level, prefix, i, nextI);
      AscendingAtLevel(tokens, level, prefix, nextI, k);
    }
  }

  /**
   * `generate_regular_token_lexer_helper`. The loop emits one case per group of tokens with the same code point
   * at this level, and the recursion compiles the rest of the group. Both
   * `bz_assert`s of the source are proved in the body.
   */
  method GenerateHelper(tokens: seq<Token>, level: nat, defaultKind: nat, ghost prefix: string)
    returns (sw: Switch)
    requires Slice(tokens, level, prefix)
    ensures DistinctLabels(sw)
    ensures Means(sw, tokens, level, prefix, if level == 0 then None else Some(Lexed(defaultKind, level)))
    decreases |tokens|
  {
    var cases: seq<Case> := [];
    var i := 0;
    while i < |tokens|
      invariant 0 <= i <= |tokens|
      invariant CasesMean(cases, tokens[..i], level, prefix)
      invariant forall k :: 0 <= k < |cases| ==> CaseDistinctLabels(cases[k])
      invariant forall j, k :: 0 <= j < k < |cases| ==> cases[j].labelChar < cases[k].labelChar
      invariant i < |tokens| ==> forall k :: 0 <= k < |cases| ==> cases[k].labelChar < tokens[i].text[level]
      invariant i < |tokens| ==> forall k :: 0 <= k < i ==> tokens[k].text[level] < tokens[i].text[level]
    {
      var tokenValue, kind := tokens[i].text, tokens[i].kind;
      GroupHead(tokens, level, prefix, i);
      assert level != 0 || |tokenValue| == 1;
      var c := tokenValue[level];

      var nextI := EndOfGroup(tokens, level, i, prefix);

      var cs: Case;
      if i + 1 != nextI {
        GroupTail(tokens, level, prefix, i, nextI);
        GroupHead(tokens[i + 1..nextI], level + 1, tokenValue, 0);
        assert |tokens[i + 1].text| == |tokens[i].text| + 1;
        var next := GenerateHelper(tokens[i + 1..nextI], level + 1, kind, tokenValue);
        cs := Case(c, kind, Some(next));
      } else {
        cs := Case(c, kind, None);
      }
      EmitCase(cases, tokens, level, prefix, i, nextI, cs);
      cases := cases + [cs];
      i := nextI;
    }
    assert tokens[..i] == tokens;
    sw := Switch(cases, if level != 0 then Some(defaultKind) else None);
    CasesThenDefault(sw, tokens, level, prefix);
  }

  lemma CasesThenDefault(sw: Switch, tokens: seq<Token>, level: nat, prefix: string)
    requires CasesMean(sw.cases, tokens, level, prefix)
    ensures Means(sw, tokens, level, prefix,
                  if sw.default.Some? then Some(Lexed(sw.default.value, level)) else None)
  {
    var otherwise := if sw.default.Some? then Some(Lexed(sw.default.value, level)) else None;
    forall input: string | prefix < input ensures LexesAs(tokens, input, otherwise, Run(sw, input, level)) {
      assert CasesLex(sw.cases, tokens, level, input);
      if FindCase(sw.cases, input[level]).Some? {
        var r := Run(sw, input, level).value;
        assert IsLongest(tokens, input, r);
        assert Token(input[..r.length], r.kind).text <= input;
        assert SomeTokenBegins(tokens, input);
      }
    }
  }

  /** A sorted table with distinct tokens is strictly ascending. */
  lemma SortedIsAscending(tokens: seq<Token>)
    requires BubbleSort.SortedBy(tokens, TokenLess())
    requires forall i, j :: 0 <= i < j < |tokens| ==> tokens[i].text != tokens[j].text
    ensures StrictlyAscending(tokens)
  {
    forall i, j | 0 <= i < j < |tokens| ensures TextLess(tokens[i].text, tokens[j].text) {
      assert !TokenLess()(tokens[j], tokens[i]);
      TextLessAsymmetric(tokens[i].text, tokens[j].text);
    }
  }

  /** Distinctness does not depend on the order of the table. */
  lemma DistinctAfterSort(s: seq<Token>, t: seq<Token>)
    requires multiset(s) == multiset(t)
    requires DistinctTokens(s)
    ensures DistinctTokens(t)
  {
    SameMembers(s, t);
    forall i | 0 <= i < |t| ensures t[i].text != [] {
      assert t[i] in s;
    }
    forall i, j | 0 <= i < j < |t| ensures t[i].text != t[j].text {
      assert t[i] in s && t[j] in s;
      var a :| 0 <= a < |s| && s[a] == t[i];
      AtMostOnce(s, a);
      if t[i] == t[j] {
        TwiceIn(t, i, j);
      }
    }
  }

  lemma TwiceIn(t: seq<Token>, i: nat, j: nat)
    requires i < j < |t| && t[i] == t[j]
    ensures multiset(t)[t[i]] >= 2
  {
    assert t == t[..i] + [t[i]] + t[i + 1..j] + [t[j]] + t[j + 1..];
  }

  lemma AtMostOnce(s: seq<Token>, a: nat)
    requires DistinctTokens(s) && a < |s|
    ensures multiset(s)[s[a]] == 1
  {
    assert s == s[..a] + [s[a]] + s[a + 1..];
    assert s[a] !in s[..a] && s[a] !in s[a + 1..];
  }

  /**
   * `regular_tokens` and `generate_regular_token_lexer`: sort the table in place, then compile it from level 0. For
   * every table of distinct non-empty tokens that is closed under non-empty prefixes, in any initial order, the
   * result has no repeated label and means longest match.
   */
  method GenerateRegularTokenLexer(regularTokens: array<Token>) returns (sw: Switch)
    requires DistinctTokens(regularTokens[..]) && PrefixClosed(regularTokens[..])
    modifies regularTokens
    ensures multiset(regularTokens[..]) == multiset(old(regularTokens[..]))
    ensures BubbleSort.SortedBy(regularTokens[..], TokenLess())
    ensures DistinctLabels(sw)
    ensures MeansLongestMatch(sw, old(regularTokens[..]))
  {
    ghost var table := regularTokens[..];
    TokenLessOrders();
    BubbleSort.Sort(regularTokens, TokenLess());
    var sorted := regularTokens[..];
    DistinctAfterSort(table, sorted);
    SortedIsAscending(sorted);
    SameMembers(table, sorted);
    forall i, n | 0 <= i < |sorted| && 0 < n <= |sorted[i].text| ensures HasText(sorted, sorted[i].text[..n]) {
      assert sorted[i] in table;
      assert HasText(table, sorted[i].text[..n]);
      var t :| t in table && t.text == sorted[i].text[..n];
      assert t in sorted;
    }
    sw := GenerateHelper(sorted, 0, 0, []);
    MeaningIgnoresOrder(sw, table, sorted);
  }

  lemma SameMembers(s: seq<Token>, t: seq<Token>)
    requires multiset(s) == multiset(t)
    ensures forall x :: x in s <==> x in t
  {
    forall x ensures x in s <==> x in t {
      assert x in s <==> x in multiset(s);
      assert x in t <==> x in multiset(t);
    }
  }

  lemma MeaningIgnoresOrder(sw: Switch, s: seq<Token>, t: seq<Token>)
    requires forall x :: x in s <==> x in t
    requires Means(sw, t, 0, [], None)
    ensures MeansLongestMatch(sw, s)
  {
  }

  // ----- closure under prefixes is necessary -----

  /** A tree that consumes `n` code points on some input consumes `m` of the first `m` of them, for all `m <= n`. */
  lemma {:induction false} RunStopsAtPrefix(sw: Switch, input: string, pos: nat, m: nat)
    requires pos < m <= |input|
    requires Run(sw, input, pos).Some? && m <= Run(sw, input, pos).value.length
    ensures Run(sw, input[..m], pos).Some? && Run(sw, input[..m], pos).value.length == m
    decreases |input| - pos
  {
    var cs := FindCase(sw.cases, input[pos]).value;
    if pos + 1 < m {
      RunStopsAtPrefix(cs.next.value, input, pos + 1, m);
    }
  }

  /** Whatever tree means longest match for a table, the table is closed under non-empty prefixes. */
  lemma ClosureIsNecessary(sw: Switch, tokens: seq<Token>)
    requires DistinctTokens(tokens)
    requires MeansLongestMatch(sw, tokens)
    ensures PrefixClosed(tokens)
  {
    forall t, n | t in tokens && 0 < n <= |t.text| ensures HasText(tokens, t.text[..n]) {
      var text := t.text;
      assert LexesAs(tokens, text, None, Run(sw, text, 0));
      assert SomeTokenBegins(tokens, text);
      RunStopsAtPrefix(sw, text, 0, n);
      assert LexesAs(tokens, text[..n], None, Run(sw, text[..n], 0));
      assert text[..n][..n] == text[..n];
      assert Token(text[..n], Run(sw, text[..n], 0).value.kind).text == text[..n];
    }
  }
}
