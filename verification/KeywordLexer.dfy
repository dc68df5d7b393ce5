/**
 * The keyword part of scripts/generate_lexer.cpp: keywords are sorted by their number of code points and compiled into
 * a switch on the number of bytes.
 */
module KeywordLexer {
  import opened LexerGenerator
  import opened Options
  import BubbleSort
  import Utf8

  // ----- what the generated code does -----

  /** `case size:` followed by one comparison per keyword of that size. */
  datatype Group = Group(size: nat, tests: seq<Token>)

  /** `size()`, the number of bytes; `length()` is the number of code points. */
  function ByteSize(text: string): nat {
    if text == [] then 0 else |Utf8.Encode(text[0] as int)| + ByteSize(text[1..])
  }

  function FindTest(tests: seq<Token>, id: string): (r: Option<nat>)
    ensures r.Some? ==> Token(id, r.value) in tests
    ensures r.None? ==> forall k :: Token(id, k) !in tests
  {
    if tests == [] then None
    else if tests[0].text == id then Some(tests[0].kind)
    else FindTest(tests[1..], id)
  }

  /** `switch (id_value.size())`; `None` is the identifier token returned after the switch. */
  function LookUp(groups: seq<Group>, id: string): (r: Option<nat>)
    ensures r.Some? ==> InGroups(groups, Token(id, r.value))
  {
    if groups == [] then None
    else if groups[0].size == ByteSize(id) then FindTest(groups[0].tests, id)
    else
      var r := LookUp(groups[1..], id);
      assert forall g :: 0 <= g < |groups| - 1 ==> groups[1..][g] == groups[g + 1];
      r
  }

  /** C++ rejects a switch with two equal labels. */
  ghost predicate DistinctSizes(groups: seq<Group>) {
    forall g, h :: 0 <= g < h < |groups| ==> groups[g].size != groups[h].size
  }

  // ----- labels -----

  /** One label for every stretch of keywords with the same size. */
  function Labels(sizes: seq<nat>): seq<nat> {
    if sizes == [] then []
    else
      var n := |sizes| - 1;
      if n > 0 && sizes[n - 1] == sizes[n] then Labels(sizes[..n]) else Labels(sizes[..n]) + [sizes[n]]
  }

  lemma {:induction false} LabelsAreSizes(sizes: seq<nat>)
    ensures sizes == [] <==> Labels(sizes) == []
    ensures sizes != [] ==> Labels(sizes)[|Labels(sizes)| - 1] == sizes[|sizes| - 1]
    ensures forall x :: x in Labels(sizes) <==> x in sizes
  {
    if sizes != [] {
      var n := |sizes| - 1;
      LabelsAreSizes(sizes[..n]);
      assert sizes == sizes[..n] + [sizes[n]];
    }
  }

  ghost predicate Distinct(labels: seq<nat>) {
    forall g, h :: 0 <= g < h < |labels| ==> labels[g] != labels[h]
  }

  /** Equal numbers stand together. */
  ghost predicate Together(sizes: seq<nat>) {
    forall i, j, k :: 0 <= i < j < k < |sizes| && sizes[i] == sizes[k] ==> sizes[j] == sizes[i]
  }

  lemma {:induction false} DistinctExactlyWhen(sizes: seq<nat>)
    ensures Distinct(Labels(sizes)) <==> Together(sizes)
  {
    if sizes != [] {
      var n := |sizes| - 1;
      DistinctExactlyWhen(sizes[..n]);
      LabelsAreSizes(sizes[..n]);
      OneMore(sizes[..n], sizes[n]);
      OneMoreLabel(Labels(sizes[..n]), sizes[n]);
      assert sizes == sizes[..n] + [sizes[n]];
    }
  }

  lemma OneMoreLabel(labels: seq<nat>, x: nat)
    ensures Distinct(labels + [x]) <==> Distinct(labels) && x !in labels
  {
    var more := labels + [x];
    if Distinct(more) {
      forall g, h | 0 <= g < h < |labels| ensures labels[g] != labels[h] {
        assert more[g] != more[h];
      }
      forall g | 0 <= g < |labels| ensures labels[g] != x {
        assert more[g] != more[|labels|];
      }
    }
  }

  lemma OneMore(sizes: seq<nat>, size: nat)
    ensures Together(sizes + [size]) <==>
              && Together(sizes)
              && (sizes != [] && size in sizes ==> sizes[|sizes| - 1] == size)
  {
    var more, n := sizes + [size], |sizes|;
    if Together(more) {
      forall i, j, k | 0 <= i < j < k < n && sizes[i] == sizes[k] ensures sizes[j] == sizes[i] {
        assert more[i] == sizes[i] && more[j] == sizes[j] && more[k] == sizes[k];
      }
      if i :| 0 <= i < n - 1 && sizes[i] == size {
        assert more[i] == size && more[n - 1] == sizes[n - 1] && more[n] == size;
      }
    }
  }

  // ----- groups -----

  function Sizes(tokens: seq<Token>): seq<nat> {
    seq(|tokens|, i requires 0 <= i < |tokens| => ByteSize(tokens[i].text))
  }

  function GroupSizes(groups: seq<Group>): seq<nat> {
    seq(|groups|, i requires 0 <= i < |groups| => groups[i].size)
  }

  ghost predicate InGroups(groups: seq<Group>, t: Token) {
    exists g :: 0 <= g < |groups| && t in groups[g].tests
  }

  ghost predicate TestsFit(group: Group, tokens: seq<Token>) {
    forall t :: t in group.tests ==> ByteSize(t.text) == group.size && t in tokens
  }

  ghost predicate GroupsOf(groups: seq<Group>, tokens: seq<Token>) {
    && (forall g :: 0 <= g < |groups| ==> TestsFit(groups[g], tokens))
    && (forall t :: t in tokens ==> InGroups(groups, t))
  }

  lemma {:induction false} LookUpFindsGroup(groups: seq<Group>, id: string, g: nat)
    requires DistinctSizes(groups) && g < |groups| && groups[g].size == ByteSize(id)
    ensures LookUp(groups, id) == FindTest(groups[g].tests, id)
  {
    if g > 0 {
      LookUpFindsGroup(groups[1..], id, g - 1);
    }
  }

  ghost predicate AnswersAs(groups: seq<Group>, tokens: seq<Token>) {
    forall id, kind: nat :: LookUp(groups, id) == Some(kind) <==> Token(id, kind) in tokens
  }

  /** Without a repeated label the nested tests answer exactly as the table. */
  lemma LookUpCorrect(groups: seq<Group>, tokens: seq<Token>)
    requires DistinctTokens(tokens) && GroupsOf(groups, tokens) && DistinctSizes(groups)
    ensures AnswersAs(groups, tokens)
  {
    forall id, kind: nat ensures LookUp(groups, id) == Some(kind) <==> Token(id, kind) in tokens {
      if LookUp(groups, id) == Some(kind) {
        AnswerIsInTable(groups, tokens, id);
      }
      if Token(id, kind) in tokens {
        TokenIsFound(groups, tokens, id, kind);
      }
    }
  }

  lemma AnswerIsInTable(groups: seq<Group>, tokens: seq<Token>, id: string)
    requires GroupsOf(groups, tokens) && LookUp(groups, id).Some?
    ensures Token(id, LookUp(groups, id).value) in tokens
  {
    var g :| 0 <= g < |groups| && Token(id, LookUp(groups, id).value) in groups[g].tests;
    assert TestsFit(groups[g], tokens);
  }

  lemma TokenIsFound(groups: seq<Group>, tokens: seq<Token>, id: string, kind: nat)
    requires DistinctTokens(tokens) && GroupsOf(groups, tokens) && DistinctSizes(groups) && Token(id, kind) in tokens
    ensures LookUp(groups, id) == Some(kind)
  {
    assert InGroups(groups, Token(id, kind));
    var g :| 0 <= g < |groups| && Token(id, kind) in groups[g].tests;
    assert TestsFit(groups[g], tokens);
    LookUpFindsGroup(groups, id, g);
    AnswerIsInTable(groups, tokens, id);
  }

  /** The test of one more keyword goes into the last group, or opens a new group. */
  function WithTest(groups: seq<Group>, t: Token, size: nat): seq<Group> {
    var last := |groups| - 1;
    if groups != [] && groups[last].size == size then groups[..last] + [Group(size, groups[last].tests + [t])]
    else groups + [Group(size, [t])]
  }

  lemma AddTest(groups: seq<Group>, tokens: seq<Token>, t: Token, size: nat)
    requires GroupsOf(groups, tokens) && size == ByteSize(t.text)
    ensures GroupsOf(WithTest(groups, t, size), tokens + [t])
  {
    var next := WithTest(groups, t, size);
    forall g | 0 <= g < |next| ensures TestsFit(next[g], tokens + [t]) {
      if g < |groups| {
        assert TestsFit(groups[g], tokens);
      }
    }
    assert t in next[|next| - 1].tests;
    forall x | x in tokens ensures InGroups(next, x) {
      assert InGroups(groups, x);
      TestStays(groups, t, size, x);
    }
  }

  lemma TestStays(groups: seq<Group>, t: Token, size: nat, x: Token)
    requires InGroups(groups, x)
    ensures InGroups(WithTest(groups, t, size), x)
  {
    var g :| 0 <= g < |groups| && x in groups[g].tests;
    assert x in WithTest(groups, t, size)[g].tests;
  }

  // ----- the generator -----

  function ShorterThan(): (Token, Token) -> bool {
    (lhs: Token, rhs: Token) => |lhs.text| < |rhs.text|
  }

  lemma HasBytes(text: string)
    requires text != []
    ensures ByteSize(text) > 0
  {
  }

  predicate IsCurrent(groups: seq<Group>, currentSize: nat) {
    && currentSize == (if groups == [] then 0 else groups[|groups| - 1].size)
    && (groups != [] ==> currentSize > 0)
  }

  /** Every keyword has a test under its size, and every stretch of equal sizes one label. */
  ghost predicate Compiled(groups: seq<Group>, tokens: seq<Token>) {
    GroupsOf(groups, tokens) && GroupSizes(groups) == Labels(Sizes(tokens))
  }

  lemma AddToCompiled(groups: seq<Group>, tokens: seq<Token>, t: Token)
    requires Compiled(groups, tokens)
    ensures Compiled(WithTest(groups, t, ByteSize(t.text)), tokens + [t])
  {
    AddTest(groups, tokens, t, ByteSize(t.text));
    AddLabel(groups, tokens, t, ByteSize(t.text));
  }

  /** The body of the loop: a new case if the size has changed, and the test of the keyword. */
  method AddKeyword(before: seq<Group>, size: nat, ghost done: seq<Token>, t: Token)
    returns (groups: seq<Group>, currentSize: nat)
    requires IsCurrent(before, size) && Compiled(before, done) && t.text != []
    ensures Compiled(groups, done + [t]) && IsCurrent(groups, currentSize)
  {
    AddToCompiled(before, done, t);
    groups, currentSize := before, size;
    HasBytes(t.text);
    if ByteSize(t.text) != currentSize {
      groups := groups + [Group(ByteSize(t.text), [])];
      currentSize := ByteSize(t.text);
      assert groups[..|before|] == before && groups[|before|].tests + [t] == [t];
    }
    var last := |groups| - 1;
    groups := groups[..last] + [Group(groups[last].size, groups[last].tests + [t])];
  }

  lemma NothingCompiled()
    ensures Compiled([], [])
  {
  }

  /** `generate_keyword_lexer`: a new case whenever the size changes. */
  method CompileKeywords(keywords: seq<Token>) returns (groups: seq<Group>)
    requires DistinctTokens(keywords)
    ensures Compiled(groups, keywords)
  {
    groups := [];
    var currentSize := 0;
    ghost var done := [];
    NothingCompiled();
    for i := 0 to |keywords|
      invariant done == keywords[..i] && Compiled(groups, done)
      invariant IsCurrent(groups, currentSize)
    {
      groups, currentSize := AddKeyword(groups, currentSize, done, keywords[i]);
      done := done + [keywords[i]];
    }
    assert done == keywords;
  }

  /**
   * The table of keywords is sorted by length and then compiled. A keyword gets its kind and every other text is an
   * identifier, unless a label is repeated.
   */
  method GenerateKeywordLexer(keywords: array<Token>) returns (groups: seq<Group>)
    requires DistinctTokens(keywords[..])
    modifies keywords
    ensures multiset(keywords[..]) == multiset(old(keywords[..]))
    ensures BubbleSort.SortedBy(keywords[..], ShorterThan())
    ensures DistinctSizes(groups) <==> Together(Sizes(keywords[..]))
    ensures DistinctSizes(groups) ==> AnswersAs(groups, old(keywords[..]))
    ensures !MaySplit(old(keywords[..])) ==> DistinctSizes(groups)
    ensures Splits(old(keywords[..])) ==> !DistinctSizes(groups)
  {
    ghost var table := keywords[..];
    BubbleSort.Sort(keywords, ShorterThan());
    DistinctAfterSort(table, keywords[..]);
    SameMembers(table, keywords[..]);
    groups := CompileKeywords(keywords[..]);
    CompiledMeans(groups, table, keywords[..]);
  }

  /** Two keywords of one size, and one of another size whose length is between theirs. */
  predicate Separates(a: Token, b: Token, c: Token) {
    && a != c && |a.text| <= |b.text| <= |c.text|
    && ByteSize(a.text) == ByteSize(c.text) && ByteSize(b.text) != ByteSize(a.text)
  }

  /** However keywords of the same length come to stand, no two of one size are separated if this is false. */
  ghost predicate MaySplit(table: seq<Token>) {
    exists a, b, c :: a in table && b in table && c in table && Separates(a, b, c)
  }

  /** However keywords of the same length come to stand, two of one size are separated if this is true. */
  ghost predicate Splits(table: seq<Token>) {
    exists a, b, c ::
      a in table && b in table && c in table && Separates(a, b, c) && |a.text| < |b.text| < |c.text|
  }

  lemma SortedBetween(sorted: seq<Token>)
    requires DistinctTokens(sorted) && BubbleSort.SortedBy(sorted, ShorterThan())
    ensures !MaySplit(sorted) ==> Together(Sizes(sorted))
    ensures Splits(sorted) ==> !Together(Sizes(sorted))
  {
    forall i, j, k | 0 <= i < j < k < |sorted| && Sizes(sorted)[i] == Sizes(sorted)[k]
                     && Sizes(sorted)[j] != Sizes(sorted)[i]
      ensures MaySplit(sorted)
    {
      LengthsAscend(sorted);
      assert Separates(sorted[i], sorted[j], sorted[k]);
    }
    if a, b, c :| a in sorted && b in sorted && c in sorted && Separates(a, b, c) && |a.text| < |b.text| < |c.text| {
      SeparatedInOrder(sorted, a, b, c);
    }
  }

  lemma LengthsAscend(sorted: seq<Token>)
    requires BubbleSort.SortedBy(sorted, ShorterThan())
    ensures forall i, j :: 0 <= i <= j < |sorted| ==> |sorted[i].text| <= |sorted[j].text|
  {
    forall i, j | 0 <= i < j < |sorted| ensures |sorted[i].text| <= |sorted[j].text| {
      assert !ShorterThan()(sorted[j], sorted[i]);
    }
  }

  lemma SeparatedInOrder(sorted: seq<Token>, a: Token, b: Token, c: Token)
    requires BubbleSort.SortedBy(sorted, ShorterThan()) && a in sorted && b in sorted && c in sorted
    requires Separates(a, b, c) && |a.text| < |b.text| < |c.text|
    ensures !Together(Sizes(sorted))
  {
    var i :| 0 <= i < |sorted| && sorted[i] == a;
    var j :| 0 <= j < |sorted| && sorted[j] == b;
    var k :| 0 <= k < |sorted| && sorted[k] == c;
    LengthsAscend(sorted);
    var sizes := Sizes(sorted);
    assert sizes[i] == sizes[k] && sizes[j] != sizes[i];
  }

  lemma SameSplits(table: seq<Token>, sorted: seq<Token>)
    requires forall t :: t in table <==> t in sorted
    ensures MaySplit(table) <==> MaySplit(sorted)
    ensures Splits(table) <==> Splits(sorted)
  {
  }

  lemma CompiledMeans(groups: seq<Group>, table: seq<Token>, sorted: seq<Token>)
    requires DistinctTokens(sorted) && BubbleSort.SortedBy(sorted, ShorterThan())
    requires Compiled(groups, sorted)
    requires forall t :: t in table <==> t in sorted
    ensures DistinctSizes(groups) <==> Together(Sizes(sorted))
    ensures DistinctSizes(groups) ==> AnswersAs(groups, table)
    ensures !MaySplit(table) ==> DistinctSizes(groups)
    ensures Splits(table) ==> !DistinctSizes(groups)
  {
    SizesAreDistinct(groups, sorted);
    SortedBetween(sorted);
    SameSplits(table, sorted);
    if DistinctSizes(groups) {
      LookUpCorrect(groups, sorted);
      AnswersAsEither(groups, table, sorted);
    }
  }

  lemma AddLabel(groups: seq<Group>, tokens: seq<Token>, t: Token, size: nat)
    requires GroupSizes(groups) == Labels(Sizes(tokens)) && size == ByteSize(t.text)
    ensures GroupSizes(WithTest(groups, t, size)) == Labels(Sizes(tokens + [t]))
  {
    SizesWithTest(groups, t, size);
    LabelsAreSizes(Sizes(tokens));
    assert Sizes(tokens + [t]) == Sizes(tokens) + [size];
    assert (Sizes(tokens) + [size])[..|tokens|] == Sizes(tokens);
  }

  lemma SizesWithTest(groups: seq<Group>, t: Token, size: nat)
    ensures var sizes := GroupSizes(groups);
            GroupSizes(WithTest(groups, t, size))
            == if sizes != [] && sizes[|sizes| - 1] == size then sizes else sizes + [size]
  {
  }

  lemma SizesAreDistinct(groups: seq<Group>, sorted: seq<Token>)
    requires GroupSizes(groups) == Labels(Sizes(sorted))
    ensures DistinctSizes(groups) <==> Together(Sizes(sorted))
  {
    DistinctExactlyWhen(Sizes(sorted));
    var sizes := GroupSizes(groups);
    assert |sizes| == |groups| && forall g :: 0 <= g < |groups| ==> sizes[g] == groups[g].size;
  }

  lemma AnswersAsEither(groups: seq<Group>, table: seq<Token>, sorted: seq<Token>)
    requires AnswersAs(groups, sorted) && forall t :: t in table <==> t in sorted
    ensures AnswersAs(groups, table)
  {
  }

  // ----- when labels are repeated -----

  predicate IsAscii(text: string) {
    forall i :: 0 <= i < |text| ==> text[i] as int < 0x80
  }

  lemma {:induction false} AsciiSize(text: string)
    requires IsAscii(text)
    ensures ByteSize(text) == |text|
  {
    if text != [] {
      AsciiSize(text[1..]);
    }
  }

  /** Keywords in ASCII, as those of the language are, never repeat a label. */
  lemma AsciiNeverSplits(table: seq<Token>)
    requires forall t :: t in table ==> IsAscii(t.text)
    ensures !MaySplit(table)
  {
    forall t | t in table ensures ByteSize(t.text) == |t.text| {
      AsciiSize(t.text);
    }
  }

  /** If the number of code points determines the number of bytes, the two conditions are the same. */
  lemma SplitsExactlyWhen(table: seq<Token>)
    requires forall a, b :: a in table && b in table && |a.text| == |b.text| ==> ByteSize(a.text) == ByteSize(b.text)
    ensures MaySplit(table) <==> Splits(table)
  {
  }

  /** Others can: the sign of the euro takes three bytes, like three letters, and two letters come in between. */
  lemma LabelIsRepeated()
    ensures var sorted := [Token("\U{20ac}", 0), Token("ab", 1), Token("abc", 2)];
            DistinctTokens(sorted) && BubbleSort.SortedBy(sorted, ShorterThan()) && !Together(Sizes(sorted))
  {
    var sorted := [Token("\U{20ac}", 0), Token("ab", 1), Token("abc", 2)];
    EuroSize();
    AsciiSize("ab");
    AsciiSize("abc");
    var sizes := Sizes(sorted);
    assert sizes[0] == sizes[2] && sizes[1] != sizes[0];
  }

  lemma EuroSize()
    ensures ByteSize("\U{20ac}") == 3
  {
    assert "\U{20ac}"[1..] == "";
  }
}
