/** Byte-level search (include/bz/u8string_view.h:391-464, 557-623) and erase (include/bz/u8string.h:548-642). */
module Utf8Search {
  import opened Options
  import opened Sequences
  import opened Utf8

  // ----- bytes -----

  ghost predicate Matches(s: seq<Byte>, i: nat, e: seq<Byte>) {
    i + |e| <= |s| && s[i..i + |e|] == e
  }

  /** Comparing `e` with the bytes from `i` on, up to the first difference, reads only bytes of the string. */
  predicate StaysInside(s: seq<Byte>, i: nat, e: seq<Byte>)
    decreases e
  {
    e == [] || (i < |s| && (s[i] != e[0] || StaysInside(s, i + 1, e[1..])))
  }

  /** The string ends with a beginning of `e`, but not with all of it. */
  ghost predicate EndsInside(s: seq<Byte>, e: seq<Byte>) {
    exists n :: 0 < n < |e| && n <= |s| && s[|s| - n..] == e[..n]
  }

  lemma {:induction false} StaysInsideUnlessCutOff(s: seq<Byte>, i: nat, e: seq<Byte>)
    requires i <= |s|
    ensures StaysInside(s, i, e) <==> |s| - i >= |e| || s[i..] != e[..|s| - i]
    decreases e
  {
    if e != [] && i < |s| {
      StaysInsideUnlessCutOff(s, i + 1, e[1..]);
      if |s| - i < |e| {
        assert s[i..] == [s[i]] + s[i + 1..];
        assert e[..|s| - i] == [e[0]] + e[1..][..|s| - i - 1];
      }
    }
  }

  /** No comparison, wherever in the string it starts, reads behind the end. */
  ghost predicate ReadsInside(s: seq<Byte>, e: seq<Byte>) {
    forall i: nat :: i < |s| ==> StaysInside(s, i, e)
  }

  /** That is so exactly when the string is not cut off inside `e`. */
  lemma ReadsInsideExactlyWhen(s: seq<Byte>, e: seq<Byte>)
    ensures ReadsInside(s, e) <==> !EndsInside(s, e)
  {
    if n :| 0 < n < |e| && n <= |s| && s[|s| - n..] == e[..n] {
      StaysInsideUnlessCutOff(s, |s| - n, e);
      assert !StaysInside(s, |s| - n, e);
    } else {
      forall i: nat | i < |s| ensures StaysInside(s, i, e) {
        StaysInsideUnlessCutOff(s, i, e);
      }
    }
  }

  /** `is_char` */
  method IsCharAt(s: seq<Byte>, i: nat, e: seq<Byte>) returns (matches: bool)
    requires i < |s| && StaysInside(s, i, e)
    ensures matches <==> Matches(s, i, e)
  {
    for j := 0 to |e|
      invariant i + j <= |s| && StaysInside(s, i + j, e[j..])
      invariant forall k :: 0 <= k < j ==> s[i + k] == e[k]
    {
      assert e[j..][1..] == e[j + 1..];
      if s[i + j] != e[j] {
        DiffersAt(s, i, e, j);
        return false;
      }
    }
    return true;
  }

  lemma DiffersAt(s: seq<Byte>, i: nat, e: seq<Byte>, j: nat)
    requires j < |e| && i + j < |s| && s[i + j] != e[j]
    ensures !Matches(s, i, e)
  {
    assert i + |e| <= |s| ==> s[i..i + |e|][j] == s[i + j];
  }

  // ----- verified strings -----

  ghost predicate AllCharacters(parts: seq<seq<Byte>>) {
    forall i :: 0 <= i < |parts| ==> IsCharacter(parts[i])
  }

  /** Where character `k` begins. */
  function Offset(parts: seq<seq<Byte>>, k: nat): nat
    requires k <= |parts|
  {
    |Concat(parts[..k])|
  }

  /** A character with the bytes `e` begins at byte `i`. */
  ghost predicate Occurs(parts: seq<seq<Byte>>, e: seq<Byte>, i: nat) {
    exists k :: 0 <= k < |parts| && parts[k] == e && Offset(parts, k) == i
  }

  lemma {:induction false} ConcatAppend(a: seq<seq<Byte>>, b: seq<seq<Byte>>)
    ensures Concat(a + b) == Concat(a) + Concat(b)
  {
    if a == [] {
      assert a + b == b;
    } else {
      ConcatAppend(a[1..], b);
      CutAppend(a, b, 1);
      Associate(a[0], Concat(a[1..]), Concat(b));
    }
  }

  lemma PartAt(parts: seq<seq<Byte>>, k: nat)
    requires k < |parts|
    ensures Matches(Concat(parts), Offset(parts, k), parts[k])
  {
    assert parts == parts[..k] + parts[k..];
    ConcatAppend(parts[..k], parts[k..]);
    MatchInMiddle(Concat(parts[..k]), parts[k], Concat(parts[k..][1..]));
  }

  lemma MatchInMiddle(x: seq<Byte>, y: seq<Byte>, z: seq<Byte>)
    ensures Matches(x + (y + z), |x|, y)
  {
  }

  /** Every byte is some byte of some character. */
  lemma {:induction false} Locate(parts: seq<seq<Byte>>, i: nat) returns (k: nat, d: nat)
    requires i < |Concat(parts)|
    ensures k < |parts| && d < |parts[k]| && i == Offset(parts, k) + d
    ensures Concat(parts)[i] == parts[k][d]
  {
    var n := |parts[0]|;
    if i < n {
      k, d := 0, i;
      assert parts[..0] == [];
    } else {
      k, d := Locate(parts[1..], i - n);
      k := k + 1;
      OffsetStep(parts, k);
    }
  }

  lemma OffsetStep(parts: seq<seq<Byte>>, k: nat)
    requires 0 < k <= |parts|
    ensures Offset(parts, k) == |parts[0]| + Offset(parts[1..], k - 1)
  {
    assert parts[..k][1..] == parts[1..][..k - 1];
  }

  /** A byte that can begin the character `e` is the first byte of a character as long as `e`. */
  lemma LeadIsBoundary(parts: seq<seq<Byte>>, i: nat, e: seq<Byte>) returns (k: nat)
    requires AllCharacters(parts) && IsCharacter(e) && i < |Concat(parts)| && Concat(parts)[i] == e[0]
    ensures k < |parts| && Offset(parts, k) == i && |parts[k]| == |e| && i + |e| <= |Concat(parts)|
  {
    var d;
    k, d := Locate(parts, i);
    PartAt(parts, k);
  }

  /** The bytes of a character are found exactly where that character begins. */
  lemma MatchIsOccurrence(parts: seq<seq<Byte>>, e: seq<Byte>, i: nat)
    requires AllCharacters(parts) && IsCharacter(e)
    ensures Matches(Concat(parts), i, e) <==> Occurs(parts, e, i)
  {
    var s := Concat(parts);
    if Matches(s, i, e) {
      assert s[i] == s[i..i + |e|][0];
      var k := LeadIsBoundary(parts, i, e);
      PartAt(parts, k);
    }
    if Occurs(parts, e, i) {
      var k :| 0 <= k < |parts| && parts[k] == e && Offset(parts, k) == i;
      PartAt(parts, k);
    }
  }

  /** On a verified string no search for a character reads behind the end. */
  lemma VerifiedIsNotCutOff(s: seq<Byte>, e: seq<Byte>)
    requires Verified(s) && IsCharacter(e)
    ensures !EndsInside(s, e)
  {
    var parts := Split(s);
    forall n | 0 < n < |e| && n <= |s| ensures s[|s| - n..] != e[..n] {
      if s[|s| - n] == e[0] {
        var _ := LeadIsBoundary(parts, |s| - n, e);
      } else {
        assert s[|s| - n..][0] != e[..n][0];
      }
    }
  }

  // ----- find -----

  /** The first match at or after `from`, or the end. */
  ghost predicate IsFirst(s: seq<Byte>, e: seq<Byte>, from: nat, i: nat) {
    && from <= i <= |s|
    && (i < |s| ==> Matches(s, i, e))
    && forall j: nat :: from <= j < i ==> !Matches(s, j, e)
  }

  /** The search comes to a place that it cannot compare without reading behind the end. */
  ghost predicate FindLeaves(s: seq<Byte>, e: seq<Byte>, from: nat) {
    exists i: nat :: from <= i < |s| && !StaysInside(s, i, e) && forall j: nat :: from <= j < i ==> !Matches(s, j, e)
  }

  /** That is so exactly when the string is cut off inside `e`, behind `from` and with no match in between. */
  lemma FindLeavesExactlyWhen(s: seq<Byte>, e: seq<Byte>, from: nat)
    ensures FindLeaves(s, e, from) <==>
            exists i: nat :: from <= i < |s| && |s| - i < |e| && s[i..] == e[..|s| - i]
                             && forall j: nat :: from <= j < i ==> !Matches(s, j, e)
  {
    forall i: nat | i < |s| ensures StaysInside(s, i, e) <==> |s| - i >= |e| || s[i..] != e[..|s| - i] {
      StaysInsideUnlessCutOff(s, i, e);
    }
  }

  /** `find` */
  method Find(s: seq<Byte>, from: nat, c: CodePoint) returns (it: nat)
    requires from <= |s| && !FindLeaves(s, Encode(c), from)
    ensures IsFirst(s, Encode(c), from, it)
  {
    it := from;
    if c <= MAX_ONE_BYTE_CHAR {
      while it != |s|
        invariant from <= it <= |s| && forall j: nat :: from <= j < it ==> !Matches(s, j, Encode(c))
        decreases |s| - it
      {
        OneByte(s, it, c);
        if s[it] == c {
          return;
        }
        it := it + 1;
      }
    } else {
      var encodedChar := Encode(c);
      while it != |s|
        invariant from <= it <= |s| && forall j: nat :: from <= j < it ==> !Matches(s, j, encodedChar)
        decreases |s| - it
      {
        var isChar := IsCharAt(s, it, encodedChar);
        if isChar {
          return;
        }
        it := it + 1;
      }
    }
  }

  lemma OneByte(s: seq<Byte>, i: nat, b: Byte)
    requires i < |s|
    ensures Matches(s, i, [b]) <==> s[i] == b
  {
    assert s[i..i + 1] == [s[i]];
  }

  /** What has to hold of the string before the search: on verified strings, and for ASCII characters, nothing. */
  lemma FindStays(s: seq<Byte>, c: CodePoint, from: nat)
    requires Verified(s) || c <= MAX_ONE_BYTE_CHAR
    ensures !FindLeaves(s, Encode(c), from)
  {
    ReadsInsideExactlyWhen(s, Encode(c));
    if Verified(s) {
      EncodeIsCharacter(c);
      VerifiedIsNotCutOff(s, Encode(c));
    }
  }

  // ----- rfind -----

  /** The last match, if there is one. */
  ghost predicate IsLast(s: seq<Byte>, e: seq<Byte>, r: Option<nat>) {
    match r
    case Some(i) => Matches(s, i, e) && forall j: nat :: i < j ==> !Matches(s, j, e)
    case None => forall j: nat :: !Matches(s, j, e)
  }

  /** Going backwards, every place where a comparison would read behind the end is met before any match. */
  lemma RfindMeets(s: seq<Byte>, e: seq<Byte>, i: nat, j: nat)
    requires i < |s| && !StaysInside(s, i, e) && Matches(s, j, e)
    ensures j < i
  {
    StaysInsideUnlessCutOff(s, i, e);
  }

  /** `rfind` */
  method Rfind(s: seq<Byte>, c: CodePoint) returns (r: Option<nat>)
    requires !EndsInside(s, Encode(c))
    ensures IsLast(s, Encode(c), r)
  {
    ReadsInsideExactlyWhen(s, Encode(c));
    var it: nat := |s|;
    if c <= MAX_ONE_BYTE_CHAR {
      while it != 0
        invariant it <= |s| && forall j: nat :: it <= j ==> !Matches(s, j, Encode(c))
      {
        it := it - 1;
        OneByte(s, it, c);
        if s[it] == c {
          return Some(it);
        }
      }
    } else {
      var encodedChar := Encode(c);
      while it != 0
        invariant it <= |s| && forall j: nat :: it <= j ==> !Matches(s, j, encodedChar)
      {
        it := it - 1;
        var isChar := IsCharAt(s, it, encodedChar);
        if isChar {
          return Some(it);
        }
      }
    }
    return None;
  }

  // ----- code points -----

  /** A verified string in which every character is encoded in the shortest way. */
  predicate ShortestForm(s: seq<Byte>) {
    Verified(s) && EncodeAll(CodePoints(s)) == s
  }

  lemma EncodedIsShortestForm(cs: seq<CodePoint>)
    ensures ShortestForm(EncodeAll(cs)) && CodePoints(EncodeAll(cs)) == cs
  {
    RoundTrip(cs);
  }

  function EncodeEach(cs: seq<CodePoint>): (parts: seq<seq<Byte>>)
    ensures |parts| == |cs| && forall i :: 0 <= i < |cs| ==> parts[i] == Encode(cs[i])
  {
    seq(|cs|, i requires 0 <= i < |cs| => Encode(cs[i]))
  }

  lemma {:induction false} ConcatOfEach(cs: seq<CodePoint>)
    ensures Concat(EncodeEach(cs)) == EncodeAll(cs)
  {
    if cs != [] {
      ConcatOfEach(cs[1..]);
      assert EncodeEach(cs)[1..] == EncodeEach(cs[1..]);
    }
  }

  /** The code point `c` begins at byte `i`. */
  ghost predicate PointAt(cs: seq<CodePoint>, c: CodePoint, i: nat) {
    exists k :: 0 <= k < |cs| && cs[k] == c && |EncodeAll(cs[..k])| == i
  }

  /** In shortest form the bytes of a code point are found exactly where the code point begins. */
  lemma MatchIsCodePoint(cs: seq<CodePoint>, c: CodePoint, i: nat)
    ensures Matches(EncodeAll(cs), i, Encode(c)) <==> PointAt(cs, c, i)
  {
    var parts := EncodeEach(cs);
    ConcatOfEach(cs);
    forall k | 0 <= k < |cs|
      ensures IsCharacter(parts[k]) && (parts[k] == Encode(c) <==> cs[k] == c)
      ensures Offset(parts, k) == |EncodeAll(cs[..k])|
    {
      EncodeIsCharacter(cs[k]);
      EncodeRoundTrip(cs[k]);
      EncodeRoundTrip(c);
      ConcatOfEach(cs[..k]);
      assert parts[..k] == EncodeEach(cs[..k]);
    }
    EncodeIsCharacter(c);
    MatchIsOccurrence(parts, Encode(c), i);
  }

  // ----- erase -----

  /** Scanning from the left, every match of `e` is left out and every other byte is kept. */
  function EraseBytes(s: seq<Byte>, e: seq<Byte>): seq<Byte>
    requires e != []
  {
    if s == [] then []
    else if e <= s then EraseBytes(s[|e|..], e)
    else [s[0]] + EraseBytes(s[1..], e)
  }

  function Without<T(==)>(xs: seq<T>, x: T): seq<T> {
    if xs == [] then []
    else if xs[0] == x then Without(xs[1..], x)
    else [xs[0]] + Without(xs[1..], x)
  }

  lemma {:induction false} ContinuationsAreKept(x: seq<Byte>, t: seq<Byte>, e: seq<Byte>)
    requires e != [] && !IsContinuation(e[0])
    requires forall i :: 0 <= i < |x| ==> IsContinuation(x[i])
    ensures EraseBytes(x + t, e) == x + EraseBytes(t, e)
  {
    if x == [] {
      assert x + t == t;
    } else {
      ContinuationsAreKept(x[1..], t, e);
      CutAppend(x, t, 1);
      Associate([x[0]], x[1..], EraseBytes(t, e));
      HeadAndTail(x);
    }
  }

  lemma CharacterIsKept(x: seq<Byte>, t: seq<Byte>, e: seq<Byte>)
    requires IsCharacter(x) && IsCharacter(e) && x != e
    ensures EraseBytes(x + t, e) == x + EraseBytes(t, e)
  {
    if e <= x + t {
      PrefixMeansSame(x, t, e);
    }
    CutAppend(x, t, 1);
    ContinuationsAreKept(x[1..], t, e);
    HeadAndTail(x);
    Associate([x[0]], x[1..], EraseBytes(t, e));
  }

  lemma PrefixMeansSame(x: seq<Byte>, t: seq<Byte>, e: seq<Byte>)
    requires IsCharacter(x) && IsCharacter(e) && e <= x + t
    ensures e == x
  {
    assert e[0] == x[0];
    assert e == (x + t)[..|e|];
  }

  /** On verified strings exactly the characters with these bytes are erased, and the others keep their order. */
  lemma {:induction false} EraseIsWithout(parts: seq<seq<Byte>>, e: seq<Byte>)
    requires AllCharacters(parts) && IsCharacter(e)
    ensures EraseBytes(Concat(parts), e) == Concat(Without(parts, e))
  {
    if parts != [] {
      var x, t := parts[0], Concat(parts[1..]);
      EraseIsWithout(parts[1..], e);
      if x == e {
        assert e <= x + t;
        CutAppend(x, t, |x|);
      } else {
        CharacterIsKept(x, t, e);
      }
    }
  }

  lemma {:induction false} WithoutEach(cs: seq<CodePoint>, c: CodePoint)
    ensures EncodeEach(Without(cs, c)) == Without(EncodeEach(cs), Encode(c))
  {
    if cs != [] {
      WithoutEach(cs[1..], c);
      EncodeRoundTrip(cs[0]);
      EncodeRoundTrip(c);
      assert EncodeEach(cs)[1..] == EncodeEach(cs[1..]);
      assert cs[0] != c ==> EncodeEach(Without(cs, c)) == [Encode(cs[0])] + EncodeEach(Without(cs[1..], c));
    }
  }

  lemma ErasedFromVerified(s: seq<Byte>, c: CodePoint)
    requires Verified(s)
    ensures !EndsInside(s, Encode(c))
    ensures EraseBytes(s, Encode(c)) == Concat(Without(Split(s), Encode(c)))
  {
    EncodeIsCharacter(c);
    VerifiedIsNotCutOff(s, Encode(c));
    EraseIsWithout(Split(s), Encode(c));
  }

  /** In shortest form these are the code points other than `c`. */
  lemma EraseIsWithoutCodePoint(cs: seq<CodePoint>, c: CodePoint)
    ensures EraseBytes(EncodeAll(cs), Encode(c)) == EncodeAll(Without(cs, c))
  {
    forall k | 0 <= k < |cs| ensures IsCharacter(EncodeEach(cs)[k]) {
      EncodeIsCharacter(cs[k]);
    }
    EncodeIsCharacter(c);
    ConcatOfEach(cs);
    EraseIsWithout(EncodeEach(cs), Encode(c));
    WithoutEach(cs, c);
    ConcatOfEach(Without(cs, c));
  }

  /** What is kept of the first `it` bytes is before what is kept of the others. */
  ghost predicate Scanned(s: seq<Byte>, e: seq<Byte>, it: nat, kept: seq<Byte>)
    requires e != []
  {
    it <= |s| && EraseBytes(s, e) == kept + EraseBytes(s[it..], e)
  }

  lemma MatchIsPrefix(s: seq<Byte>, i: nat, e: seq<Byte>)
    requires i <= |s|
    ensures Matches(s, i, e) <==> e <= s[i..]
  {
    assert i + |e| <= |s| ==> s[i..i + |e|] == s[i..][..|e|];
  }

  lemma ScanSkips(s: seq<Byte>, e: seq<Byte>, it: nat, kept: seq<Byte>)
    requires e != [] && Scanned(s, e, it, kept) && Matches(s, it, e)
    ensures Scanned(s, e, it + |e|, kept)
  {
    MatchIsPrefix(s, it, e);
    assert s[it..][|e|..] == s[it + |e|..];
  }

  lemma ScanKeeps(s: seq<Byte>, e: seq<Byte>, it: nat, kept: seq<Byte>)
    requires e != [] && Scanned(s, e, it, kept) && it < |s| && !Matches(s, it, e)
    ensures Scanned(s, e, it + 1, kept + [s[it]])
  {
    MatchIsPrefix(s, it, e);
    assert s[it..][1..] == s[it + 1..];
    Associate(kept, [s[it]], EraseBytes(s[it + 1..], e));
  }

  lemma AllScanned(s: seq<Byte>, e: seq<Byte>, kept: seq<Byte>)
    requires e != [] && Scanned(s, e, |s|, kept)
    ensures kept == EraseBytes(s, e)
  {
    assert s[|s|..] == [];
  }

  /** The scan of `erase` jumps over no place where a comparison would read behind the end. */
  lemma EraseMeets(s: seq<Byte>, e: seq<Byte>, i: nat, j: nat)
    requires IsCharacter(e) && i < |s| && !StaysInside(s, i, e) && Matches(s, j, e)
    ensures !(j < i < j + |e|)
  {
    StaysInsideUnlessCutOff(s, i, e);
    assert s[i..][0] == e[0];
    if j < i < j + |e| {
      ByteOfMatch(s, e, j, i);
    }
  }

  lemma ByteOfMatch(s: seq<Byte>, e: seq<Byte>, j: nat, i: nat)
    requires Matches(s, j, e) && j <= i < j + |e|
    ensures s[i] == e[i - j]
  {
    assert s[j..j + |e|][i - j] == s[i];
  }

  /** The loop of `erase` on the bytes in front of `n`: kept bytes move to the left over erased ones. */
  method EraseInPlace(a: array<Byte>, n: nat, c: CodePoint) returns (trail: nat)
    requires n <= a.Length && !EndsInside(a[..n], Encode(c))
    modifies a
    ensures trail <= n && a[..trail] == EraseBytes(old(a[..n]), Encode(c))
    ensures forall k :: n <= k < a.Length ==> a[k] == old(a[k])
  {
    ReadsInsideExactlyWhen(a[..n], Encode(c));
    trail := EraseLoop(a, n, c, a[..n]);
  }

  method EraseLoop(a: array<Byte>, n: nat, c: CodePoint, ghost s: seq<Byte>) returns (trail: nat)
    requires n <= a.Length && s == a[..n] && ReadsInside(s, Encode(c))
    modifies a
    ensures trail <= n && a[..trail] == EraseBytes(s, Encode(c))
    ensures forall k :: n <= k < a.Length ==> a[k] == old(a[k])
  {
    ghost var kept: seq<Byte> := [];
    var it := 0;
    trail := 0;
    while it != n
      invariant trail <= it <= n && trail == |kept|
      invariant forall k :: it <= k < n ==> a[k] == s[k]
      invariant forall k :: n <= k < a.Length ==> a[k] == old(a[k])
      invariant a[..trail] == kept && Scanned(s, Encode(c), it, kept)
      decreases n - it
    {
      var isChar := IsCharInPlace(a, n, it, c, s);
      if !isChar {
        a[trail] := a[it];
        trail := trail + 1;
      }
      it, kept := ScanStep(s, it, isChar, c, kept);
    }
    AllScanned(s, Encode(c), kept);
  }

  /** Where the scan goes on, and what has been kept so far. */
  method ScanStep(ghost s: seq<Byte>, it: nat, isChar: bool, c: CodePoint, ghost kept: seq<Byte>)
    returns (next: nat, ghost more: seq<Byte>)
    requires it < |s| && Scanned(s, Encode(c), it, kept) && (isChar <==> Matches(s, it, Encode(c)))
    ensures next == (if isChar then it + |Encode(c)| else it + 1) && next <= |s|
    ensures more == (if isChar then kept else kept + [s[it]])
    ensures Scanned(s, Encode(c), next, more)
  {
    if isChar {
      ScanSkips(s, Encode(c), it, kept);
      next, more := it + |Encode(c)|, kept;
    } else {
      ScanKeeps(s, Encode(c), it, kept);
      next, more := it + 1, kept + [s[it]];
    }
  }

  /** `*it == c` or `is_char(it)` on bytes of the buffer that have not been written yet. */
  method IsCharInPlace(a: array<Byte>, n: nat, i: nat, c: CodePoint, ghost s: seq<Byte>) returns (matches: bool)
    requires i < n <= a.Length && |s| == n && StaysInside(s, i, Encode(c))
    requires forall k :: i <= k < n ==> a[k] == s[k]
    ensures matches <==> Matches(s, i, Encode(c))
  {
    if c <= MAX_ONE_BYTE_CHAR {
      OneByte(s, i, c);
      return a[i] == c;
    }
    matches := AgreesInPlace(a, n, i, Encode(c), s);
  }

  method AgreesInPlace(a: array<Byte>, n: nat, i: nat, e: seq<Byte>, ghost s: seq<Byte>) returns (matches: bool)
    requires i < n <= a.Length && |s| == n && StaysInside(s, i, e)
    requires forall k :: i <= k < n ==> a[k] == s[k]
    ensures matches <==> Matches(s, i, e)
  {
    for j := 0 to |e|
      invariant i + j <= n && StaysInside(s, i + j, e[j..])
      invariant forall k :: 0 <= k < j ==> s[i + k] == e[k]
    {
      assert e[j..][1..] == e[j + 1..];
      if a[i + j] != e[j] {
        DiffersAt(s, i, e, j);
        return false;
      }
    }
    return true;
  }
}
