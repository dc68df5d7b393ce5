/** In-place `reverse` (include/bz/u8string.h:706-727): single bytes change places, runs of other bytes move whole. */
module Utf8Reverse {
  import opened Sequences
  import opened Utf8

  predicate IsAscii(b: Byte) {
    b < 0x80
  }

  /** How many bytes in front are not ASCII. */
  function RunLength(s: seq<Byte>): (n: nat)
    ensures n <= |s|
    ensures forall i :: 0 <= i < n ==> !IsAscii(s[i])
    ensures n < |s| ==> IsAscii(s[n])
  {
    if s == [] || IsAscii(s[0]) then 0 else 1 + RunLength(s[1..])
  }

  /** An ASCII byte, or a maximal run of other bytes. */
  function BlockLength(s: seq<Byte>): (n: nat)
    requires s != []
    ensures 0 < n <= |s|
  {
    if IsAscii(s[0]) then 1 else RunLength(s)
  }

  /** The blocks of the string in reverse order. */
  function Reversed(s: seq<Byte>): (r: seq<Byte>)
    ensures |r| == |s|
  {
    if s == [] then [] else Reversed(s[BlockLength(s)..]) + s[..BlockLength(s)]
  }

  // ----- blocks -----

  /** No run reaches over the end of `a`. */
  predicate Apart(a: seq<Byte>, b: seq<Byte>) {
    a == [] || b == [] || IsAscii(a[|a| - 1]) || IsAscii(b[0])
  }

  lemma {:induction false} RunOfAppend(a: seq<Byte>, b: seq<Byte>)
    requires a != [] && Apart(a, b)
    ensures RunLength(a + b) == RunLength(a)
  {
    if !IsAscii(a[0]) {
      CutAppend(a, b, 1);
      if |a| > 1 {
        RunOfAppend(a[1..], b);
      } else {
        assert a[1..] + b == b;
      }
    }
  }

  lemma {:induction false} ReversedAppend(a: seq<Byte>, b: seq<Byte>)
    requires Apart(a, b)
    ensures Reversed(a + b) == Reversed(b) + Reversed(a)
    decreases |a|
  {
    if a == [] {
      assert a + b == b;
    } else {
      RunOfAppend(a, b);
      var n := BlockLength(a);
      CutAppend(a, b, n);
      ReversedAppend(a[n..], b);
      Associate(Reversed(b), Reversed(a[n..]), a[..n]);
    }
  }

  lemma ReversedBlock(s: seq<Byte>)
    requires s != [] && BlockLength(s) == |s|
    ensures Reversed(s) == s
  {
    assert s[|s|..] == [];
  }

  lemma BlockIsApart(s: seq<Byte>)
    requires s != []
    ensures Apart(Reversed(s[BlockLength(s)..]), s[..BlockLength(s)])
    ensures BlockLength(s[..BlockLength(s)]) == BlockLength(s)
  {
  }

  /** Reversing twice gives the original bytes, whatever they are. */
  lemma {:induction false} ReversedTwice(s: seq<Byte>)
    ensures Reversed(Reversed(s)) == s
    decreases |s|
  {
    if s != [] {
      var n := BlockLength(s);
      ReversedTwice(s[n..]);
      BlockIsApart(s);
      ReversedAppend(Reversed(s[n..]), s[..n]);
      ReversedBlock(s[..n]);
    }
  }

  // ----- characters -----

  lemma CharacterIsNotAscii(s: seq<Byte>)
    requires IsCharacter(s) && |s| > 1
    ensures forall i :: 0 <= i < |s| ==> !IsAscii(s[i])
  {
  }

  lemma {:induction false} RunOfBytes(a: seq<Byte>, b: seq<Byte>)
    requires forall i :: 0 <= i < |a| ==> !IsAscii(a[i])
    ensures RunLength(a + b) == |a| + RunLength(b)
  {
    if a == [] {
      assert a + b == b;
    } else {
      CutAppend(a, b, 1);
      RunOfBytes(a[1..], b);
    }
  }

  /** A run begins and ends where characters do. */
  lemma {:induction false} RunIsVerified(s: seq<Byte>)
    requires Verified(s)
    ensures Verified(s[..RunLength(s)]) && Verified(s[RunLength(s)..])
  {
    if s != [] && !IsAscii(s[0]) {
      var n := CharSize(s[0]);
      var c, t := s[..n], s[n..];
      assert s == c + t;
      CharacterIsNotAscii(c);
      RunOfBytes(c, t);
      RunIsVerified(t);
      OneCharacter(c);
      VerifiedAppend(c, t[..RunLength(t)]);
      CutBehind(c, t, RunLength(t));
    }
  }

  lemma BlockIsVerified(s: seq<Byte>)
    requires s != [] && Verified(s)
    ensures var n := BlockLength(s); Verified(s[..n]) && Verified(s[n..])
    ensures var n := BlockLength(s); CodePoints(s) == CodePoints(s[..n]) + CodePoints(s[n..])
  {
    var n := BlockLength(s);
    if IsAscii(s[0]) {
      OneCharacter(s[..1]);
    } else {
      RunIsVerified(s);
    }
    VerifiedAppend(s[..n], s[n..]);
    assert s == s[..n] + s[n..];
  }

  /** A verified string stays verified, with as many characters. */
  lemma {:induction false} ReversedIsVerified(s: seq<Byte>)
    requires Verified(s)
    ensures Verified(Reversed(s)) && |CodePoints(Reversed(s))| == |CodePoints(s)|
    decreases |s|
  {
    if s != [] {
      var n := BlockLength(s);
      BlockIsVerified(s);
      ReversedIsVerified(s[n..]);
      VerifiedAppend(Reversed(s[n..]), s[..n]);
    }
  }

  function Backwards<T>(s: seq<T>): (r: seq<T>)
    ensures |r| == |s|
  {
    if s == [] then [] else Backwards(s[1..]) + [s[0]]
  }

  lemma {:induction false} BackwardsAppend<T>(a: seq<T>, b: seq<T>)
    ensures Backwards(a + b) == Backwards(b) + Backwards(a)
  {
    if a == [] {
      assert a + b == b;
    } else {
      BackwardsAppend(a[1..], b);
      CutAppend(a, b, 1);
      Associate(Backwards(b), Backwards(a[1..]), [a[0]]);
    }
  }

  /** The characters of every maximal run outside ASCII read the same in both directions. */
  predicate RunsArePalindromes(s: seq<Byte>)
    requires Verified(s)
    decreases |s|
  {
    s == [] ||
    (BlockIsVerified(s);
     var n := BlockLength(s);
     CodePoints(s[..n]) == Backwards(CodePoints(s[..n])) && RunsArePalindromes(s[n..]))
  }

  /** The characters come out in reverse order exactly when every run is a palindrome. */
  lemma {:induction false} ReversedExactlyWhen(s: seq<Byte>)
    requires Verified(s)
    ensures Verified(Reversed(s))
    ensures CodePoints(Reversed(s)) == Backwards(CodePoints(s)) <==> RunsArePalindromes(s)
    decreases |s|
  {
    ReversedIsVerified(s);
    if s != [] {
      var n := BlockLength(s);
      BlockIsVerified(s);
      ReversedExactlyWhen(s[n..]);
      ReversedIsVerified(s[n..]);
      VerifiedAppend(Reversed(s[n..]), s[..n]);
      BackwardsAppend(CodePoints(s[..n]), CodePoints(s[n..]));
      SameHalves(CodePoints(Reversed(s[n..])), Backwards(CodePoints(s[n..])),
                 CodePoints(s[..n]), Backwards(CodePoints(s[..n])));
    }
  }

  lemma SameHalves<T>(a: seq<T>, b: seq<T>, c: seq<T>, d: seq<T>)
    requires |a| == |b|
    ensures a + c == b + d <==> a == b && c == d
  {
    Cut(a, c);
    Cut(b, d);
  }

  /** Of any two neighbouring characters at least one is ASCII. */
  predicate NoRuns(s: seq<Byte>)
    requires Verified(s)
  {
    s == [] ||
    var n := CharSize(s[0]);
    (n == 1 || n == |s| || IsAscii(s[n])) && NoRuns(s[n..])
  }

  lemma BlockIsCharacter(s: seq<Byte>)
    requires s != [] && Verified(s) && NoRuns(s)
    ensures BlockLength(s) == CharSize(s[0])
  {
    if !IsAscii(s[0]) {
      var n := CharSize(s[0]);
      CharacterIsNotAscii(s[..n]);
      RunOfBytes(s[..n], s[n..]);
      assert s == s[..n] + s[n..];
    }
  }

  lemma {:induction false} NoRunsArePalindromes(s: seq<Byte>)
    requires Verified(s) && NoRuns(s)
    ensures RunsArePalindromes(s)
  {
    if s != [] {
      var n := CharSize(s[0]);
      BlockIsCharacter(s);
      NoRunsArePalindromes(s[n..]);
      OneCharacter(s[..n]);
      BlockIsVerified(s);
    }
  }

  /** So they do when no two characters outside ASCII are neighbours. */
  lemma ReversedCharacters(s: seq<Byte>)
    requires Verified(s) && NoRuns(s)
    ensures Verified(Reversed(s)) && CodePoints(Reversed(s)) == Backwards(CodePoints(s))
  {
    NoRunsArePalindromes(s);
    ReversedExactlyWhen(s);
  }

  /** The string of two different neighbours outside ASCII is not changed at all. */
  lemma RunsAreKept(c: CodePoint, d: CodePoint)
    requires c > MAX_ONE_BYTE_CHAR && d > MAX_ONE_BYTE_CHAR && c != d
    ensures var s := EncodeAll([c, d]); Verified(s) && Reversed(s) == s && !RunsArePalindromes(s)
  {
    var s := EncodeAll([c, d]);
    RoundTrip([c, d]);
    assert EncodeAll([d]) == Encode(d) by {
      assert [d][1..] == [];
    }
    assert [c, d][1..] == [d];
    EncodeIsCharacter(c);
    EncodeIsCharacter(d);
    CharacterIsNotAscii(Encode(c));
    CharacterIsNotAscii(Encode(d));
    RunOfBytes(s, []);
    assert s + [] == s;
    ReversedBlock(s);
    assert s[..|s|] == s;
    assert Backwards([c, d])[0] == d;
  }

  // ----- the method -----

  /** `std::reverse` */
  method ReverseRange(a: array<Byte>, lo: nat, hi: nat)
    requires lo <= hi <= a.Length
    modifies a
    ensures forall k :: lo <= k < hi ==> a[k] == old(a[lo + hi - 1 - k])
    ensures forall k :: 0 <= k < lo || hi <= k < a.Length ==> a[k] == old(a[k])
  {
    var i, j := lo, hi;
    while i + 1 < j
      invariant lo <= i <= j <= hi && i + j == lo + hi
      invariant forall k :: lo <= k < i || j <= k < hi ==> a[k] == old(a[lo + hi - 1 - k])
      invariant forall k :: i <= k < j ==> a[k] == old(a[k])
      invariant forall k :: 0 <= k < lo || hi <= k < a.Length ==> a[k] == old(a[k])
      decreases j - i
    {
      j := j - 1;
      a[i], a[j] := a[j], a[i];
      i := i + 1;
    }
  }

  /** The bytes from `it` on still stand as in the plain reversal of `s`. */
  ghost predicate Mirrored(a: seq<Byte>, s: seq<Byte>, it: nat)
    requires |a| == |s|
  {
    forall k :: it <= k < |s| ==> a[k] == s[|s| - 1 - k]
  }

  /** The first `it` bytes are done: they are the last blocks of `s` in their new order. */
  ghost predicate Done(a: seq<Byte>, s: seq<Byte>, it: nat)
    requires |a| == |s|
  {
    && it <= |s|
    && a[..it] == Reversed(s[|s| - it..])
    && Mirrored(a, s, it)
    && Apart(s[..|s| - it], s[|s| - it..])
  }

  lemma BlockDone(a: seq<Byte>, b: seq<Byte>, s: seq<Byte>, it: nat, end: nat)
    requires |a| == |s| == |b| && Done(a, s, it) && it < end <= |s|
    requires b[..end] == a[..it] + s[|s| - end..|s| - it] && Mirrored(b, s, end)
    requires BlockLength(s[|s| - end..|s| - it]) == end - it
    requires Apart(s[..|s| - end], s[|s| - end..])
    ensures Done(b, s, end)
  {
    var x, y := |s| - end, |s| - it;
    ReversedTail(s, x, y);
    assert b[..end] == Reversed(s[x..]);
  }

  lemma ReversedTail(s: seq<Byte>, x: nat, y: nat)
    requires x < y <= |s| && BlockLength(s[x..y]) == y - x && Apart(s[..y], s[y..])
    ensures Reversed(s[x..]) == Reversed(s[y..]) + s[x..y]
  {
    assert s[x..] == s[x..y] + s[y..];
    assert s[x..y][y - x - 1] == s[..y][y - 1];
    ReversedAppend(s[x..y], s[y..]);
    ReversedBlock(s[x..y]);
  }

  /** Turning a stretch of the plain reversal around puts the original bytes there. */
  lemma TurnedAround(a: seq<Byte>, b: seq<Byte>, s: seq<Byte>, it: nat, end: nat)
    requires |a| == |s| == |b| && Mirrored(a, s, it) && it < end <= |s|
    requires forall k :: it <= k < end ==> b[k] == a[it + end - 1 - k]
    requires forall k :: 0 <= k < it || end <= k < |s| ==> b[k] == a[k]
    ensures b[..end] == a[..it] + s[|s| - end..|s| - it] && Mirrored(b, s, end)
  {
  }

  /** `reverse`, on the bytes in front of `n`. */
  method Reverse(a: array<Byte>, n: nat)
    requires n <= a.Length
    modifies a
    ensures a[..n] == Reversed(old(a[..n]))
    ensures forall k :: n <= k < a.Length ==> a[k] == old(a[k])
  {
    ghost var s := a[..n];
    ReverseRange(a, 0, n);
    var it := 0;
    assert s[n..] == [] && s[..n] == s;
    while it != n
      invariant it <= n && Done(a[..n], s, it)
      invariant forall k :: n <= k < a.Length ==> a[k] == old(a[k])
      decreases n - it
    {
      it := ReverseBlock(a, n, it, s);
    }
    assert s[0..] == s;
  }

  method ReverseBlock(a: array<Byte>, n: nat, it: nat, ghost s: seq<Byte>) returns (end: nat)
    requires it < n <= a.Length && |s| == n && Done(a[..n], s, it)
    modifies a
    ensures it < end <= n && Done(a[..n], s, end)
    ensures forall k :: n <= k < a.Length ==> a[k] == old(a[k])
  {
    ghost var before := a[..n];
    if !IsAscii(a[it]) {
      end := it;
      while end != n && !IsAscii(a[end])
        invariant it <= end <= n && forall k :: it <= k < end ==> !IsAscii(a[k])
      {
        end := end + 1;
      }
      ReverseRange(a, it, end);
    } else {
      end := it + 1;
    }
    BlockFound(before, s, it, end);
    TurnedAround(before, a[..n], s, it, end);
    BlockDone(before, a[..n], s, it, end);
  }

  lemma BlockFound(a: seq<Byte>, s: seq<Byte>, it: nat, end: nat)
    requires |a| == |s| && Mirrored(a, s, it) && it < end <= |s|
    requires if IsAscii(a[it]) then end == it + 1
             else (forall k :: it <= k < end ==> !IsAscii(a[k])) && (end < |s| ==> IsAscii(a[end]))
    ensures BlockLength(s[|s| - end..|s| - it]) == end - it
    ensures Apart(s[..|s| - end], s[|s| - end..])
  {
    var block := s[|s| - end..|s| - it];
    assert block[|block| - 1] == a[it];
    if !IsAscii(a[it]) {
      forall i | 0 <= i < |block| ensures !IsAscii(block[i]) {
        assert block[i] == s[|s| - end + i] == a[end - 1 - i];
      }
      RunOfBytes(block, []);
      assert block + [] == block;
      if end < |s| {
        assert s[..|s| - end][|s| - end - 1] == a[end];
      }
    }
  }
}
