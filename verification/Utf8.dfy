/**
 * The UTF-8 encoder of include/bz/u8string.h:420-503 and the decoder and validator of include/bz/u8string_view.h. The
 * encoding is that of section 3 of RFC 3629, but for values below 2^21; shifts and masks are written as quotients and
 * remainders, which `EncoderMasks` and `DecoderMasks` justify.
 */
module Utf8 {
  import opened Alignment
  import opened Bitwise
  import opened Sequences

  type Byte = b: int | 0 <= b < 0x100

  const MAX_ONE_BYTE_CHAR := 0x7f
  const MAX_TWO_BYTE_CHAR := 0x7ff
  const MAX_THREE_BYTE_CHAR := 0xffff
  const MAX_FOUR_BYTE_CHAR := 0x1f_ffff

  type CodePoint = c: int | 0 <= c <= MAX_FOUR_BYTE_CHAR

  // ----- one character -----

  function Extension(c: CodePoint): Byte {
    0x80 + c % 64
  }

  /** What `operator +=` appends; a shift by twelve or eighteen bits is written as two or three by six. */
  function Encode(c: CodePoint): (r: seq<Byte>)
    ensures 1 <= |r| <= 4 && |r| == CharSize(r[0])
  {
    if c <= MAX_ONE_BYTE_CHAR then [c]
    else if c <= MAX_TWO_BYTE_CHAR then [0xc0 + c / 64, Extension(c)]
    else if c <= MAX_THREE_BYTE_CHAR then [0xe0 + c / 64 / 64, Extension(c / 64), Extension(c)]
    else [0xf0 + c / 64 / 64 / 64, Extension(c / 64 / 64), Extension(c / 64), Extension(c)]
  }

  /** How far `u8iterator` moves on this byte. */
  function CharSize(lead: Byte): nat {
    if lead <= 0x7f then 1 else if lead <= 0xdf then 2 else if lead <= 0xef then 3 else 4
  }

  predicate IsContinuation(b: Byte) {
    0x80 <= b < 0xc0
  }

  /** The byte patterns that `verify` accepts for one character. */
  predicate IsCharacter(s: seq<Byte>) {
    && s != []
    && |s| == CharSize(s[0])
    && (|s| == 2 ==> s[0] >= 0xc2)
    && s[0] <= 0xf7
    && forall i :: 1 <= i < |s| ==> IsContinuation(s[i])
  }

  /** What dereferencing `u8iterator` gives; the iterator reads as many bytes as it moves. */
  function Decode(s: seq<Byte>): CodePoint
    requires s != [] && |s| == CharSize(s[0])
  {
    if |s| == 1 then s[0]
    else if |s| == 2 then Join(Bits(s[0], 32), s[1])
    else if |s| == 3 then Join(Join(Bits(s[0], 16), s[1]), s[2])
    else Join(Join(Join(Bits(s[0], 8), s[1]), s[2]), s[3])
  }

  function Bits(b: Byte, modulus: nat): (r: int)
    requires modulus > 0
    ensures 0 <= r < modulus
  {
    b % modulus
  }

  /** Six more bits. */
  function Join(high: int, b: Byte): (r: int)
    ensures 64 * high <= r < 64 * high + 64
  {
    high * 64 + Bits(b, 64)
  }

  lemma JoinExtension(c: CodePoint)
    ensures Join(c / 64, Extension(c)) == c
  {
  }

  lemma LeadBits(x: nat, mark: Byte, modulus: nat)
    requires x < modulus && mark + x < 0x100
    requires (mark == 0xc0 && modulus == 32) || (mark == 0xe0 && modulus == 16) || (mark == 0xf0 && modulus == 8)
    ensures Bits(mark + x, modulus) == x
  {
  }

  lemma EncodeIsCharacter(c: CodePoint)
    ensures IsCharacter(Encode(c))
  {
  }

  lemma EncodeRoundTrip(c: CodePoint)
    ensures Decode(Encode(c)) == c
  {
    if MAX_ONE_BYTE_CHAR < c <= MAX_TWO_BYTE_CHAR {
      LeadBits(c / 64, 0xc0, 32);
    } else if MAX_TWO_BYTE_CHAR < c <= MAX_THREE_BYTE_CHAR {
      LeadBits(c / 64 / 64, 0xe0, 16);
      JoinExtension(c / 64);
    } else if MAX_THREE_BYTE_CHAR < c {
      LeadBits(c / 64 / 64 / 64, 0xf0, 8);
      JoinExtension(c / 64 / 64);
      JoinExtension(c / 64);
    }
    JoinExtension(c);
  }

  // ----- the masks and shifts of the source -----

  lemma MaskedBits(a: nat)
    ensures And(a, 0x3f) == a % 64 && And(a, 0x1f) == a % 32 && And(a, 0x0f) == a % 16 && And(a, 0x07) == a % 8
  {
    assert IsPowerOfTwo(8) && IsPowerOfTwo(16) && IsPowerOfTwo(32) && IsPowerOfTwo(64) by {
      assert IsPowerOfTwo(2) && IsPowerOfTwo(4);
    }
    MaskIsRemainder(a, 64);
    MaskIsRemainder(a, 32);
    MaskIsRemainder(a, 16);
    MaskIsRemainder(a, 8);
  }

  lemma ShlConstants(a: nat)
    ensures Shl(a, 6) == 64 * a && Shl(a, 5) == 32 * a && Shl(a, 4) == 16 * a && Shl(a, 3) == 8 * a
  {
    assert Shl(a, 3) == 2 * Shl(a, 2) && Shl(a, 2) == 2 * Shl(a, 1) && Shl(a, 1) == 2 * a;
    assert Shl(a, 6) == 2 * Shl(a, 5) && Shl(a, 5) == 2 * Shl(a, 4) && Shl(a, 4) == 2 * Shl(a, 3);
  }

  lemma ShrConstants(a: nat)
    ensures Shr(a, 6) == a / 64 && Shr(a, 12) == a / 64 / 64 && Shr(a, 18) == a / 64 / 64 / 64
  {
    ShrBySix(a, 0);
    ShrBySix(a, 6);
    ShrBySix(a / 64, 0);
    ShrBySix(a, 12);
    ShrBySix(a / 64, 6);
    ShrBySix(a / 64 / 64, 0);
  }

  lemma ShrBySix(a: nat, k: nat)
    ensures Shr(a, k + 6) == Shr(a / 64, k)
  {
    assert Shr(a, k + 6) == Shr(a / 2 / 2, k + 4);
    assert Shr(a / 2 / 2, k + 4) == Shr(a / 2 / 2 / 2 / 2, k + 2);
  }

  /** The bytes that `operator +=` writes. */
  lemma EncoderMasks(c: CodePoint)
    ensures Or(And(c, 0x3f), 0x80) == Extension(c)
    ensures c <= MAX_TWO_BYTE_CHAR ==> Or(Shr(c, 6), 0xc0) == 0xc0 + c / 64
    ensures c <= MAX_THREE_BYTE_CHAR ==> Or(Shr(c, 12), 0xe0) == 0xe0 + c / 64 / 64
    ensures Or(Shr(c, 18), 0xf0) == 0xf0 + c / 64 / 64 / 64
  {
    MaskedBits(c);
    ShrConstants(c);
    ShlConstants(1);
    ShlConstants(2);
    ShlConstants(6);
    ShlConstants(14);
    ShlConstants(30);
    LowAndMark(c % 64, 2, 6);
    if c <= MAX_TWO_BYTE_CHAR {
      LowAndMark(c / 64, 6, 5);
    }
    if c <= MAX_THREE_BYTE_CHAR {
      LowAndMark(c / 64 / 64, 14, 4);
    }
    LowAndMark(c / 64 / 64 / 64, 30, 3);
  }

  lemma LowAndMark(low: nat, mark: nat, k: nat)
    requires low < Shl(1, k)
    ensures Or(low, Shl(mark, k)) == low + Shl(mark, k)
  {
    OrIsSum(mark, low, k);
    OrCommutes(low, Shl(mark, k));
  }

  /** What `u8iterator` puts together. */
  lemma DecoderMasks(high: nat, b: Byte)
    ensures Or(Shl(high, 6), And(b, 0x3f)) == Join(high, b)
    ensures And(b, 0x1f) == Bits(b, 32) && And(b, 0x0f) == Bits(b, 16) && And(b, 0x07) == Bits(b, 8)
  {
    MaskedBits(b);
    ShlConstants(high);
    ShlConstants(1);
    OrIsSum(high, b % 64, 6);
  }

  /** The parts of a character of three bytes. */
  lemma DecoderMasksThree(high: nat, b: Byte, c: Byte)
    ensures Or(Or(Shl(high, 12), Shl(And(b, 0x3f), 6)), And(c, 0x3f)) == Join(Join(high, b), c)
  {
    ShlTwice(high, 6, 6);
    ShlOverOr(Shl(high, 6), And(b, 0x3f), 6);
    DecoderMasks(high, b);
    DecoderMasks(Join(high, b), c);
  }

  /** The parts of a character of four bytes. */
  lemma DecoderMasksFour(high: nat, b: Byte, c: Byte, d: Byte)
    ensures Or(Or(Or(Shl(high, 18), Shl(And(b, 0x3f), 12)), Shl(And(c, 0x3f), 6)), And(d, 0x3f))
         == Join(Join(Join(high, b), c), d)
  {
    ShlTwice(high, 6, 12);
    ShlOverOr(Shl(high, 6), And(b, 0x3f), 12);
    DecoderMasks(high, b);
    DecoderMasksThree(Join(high, b), c, d);
  }

  /** A byte behind the first: six bits and the mark. */
  function Tail(bits: nat): nat {
    Or(And(bits, 0x3f), 0x80)
  }

  lemma TailIsExtension(c: CodePoint, k: nat)
    requires k == 0 || k == 6 || k == 12
    ensures Tail(Shr(c, k)) == Extension(if k == 0 then c else if k == 6 then c / 64 else c / 64 / 64)
  {
    ShrConstants(c);
    EncoderMasks(c);
    EncoderMasks(c / 64);
    EncoderMasks(c / 64 / 64);
  }

  /** The first byte of a character of several bytes. */
  lemma HeadBits(c: CodePoint)
    ensures 0x80 <= c < 0x800 ==> Encode(c)[0] == Or(Shr(c, 6), 0xc0)
    ensures 0x800 <= c < 0x1_0000 ==> Encode(c)[0] == Or(Shr(c, 12), 0xe0)
    ensures 0x1_0000 <= c ==> Encode(c)[0] == Or(Shr(c, 18), 0xf0)
  {
    EncoderMasks(c);
  }

  /** The bytes of a character, as the table in section 3 of RFC 3629 has them. */
  lemma EncodedBits(c: CodePoint)
    ensures c < 0x80 ==> Encode(c) == [c]
    ensures 0x80 <= c < 0x800 ==> Encode(c) == [Encode(c)[0], Tail(Shr(c, 0))]
    ensures 0x800 <= c < 0x1_0000 ==> Encode(c) == [Encode(c)[0], Tail(Shr(c, 6)), Tail(Shr(c, 0))]
    ensures 0x1_0000 <= c ==> Encode(c) == [Encode(c)[0], Tail(Shr(c, 12)), Tail(Shr(c, 6)), Tail(Shr(c, 0))]
  {
    TailIsExtension(c, 0);
    TailIsExtension(c, 6);
    TailIsExtension(c, 12);
  }

  /** The bits that the bytes of a character hold, in the order of the bytes. */
  lemma DecodedBits(p: seq<Byte>)
    requires IsCharacter(p)
    ensures p[0] < 0x80 ==> |p| == 1 && Decode(p) == p[0]
    ensures 0xc0 <= p[0] < 0xe0 ==> |p| == 2 && Decode(p) == Or(Shl(And(p[0], 0x1f), 6), And(p[1], 0x3f))
    ensures 0xe0 <= p[0] < 0xf0 ==>
              |p| == 3 && Decode(p) == Or(Or(Shl(And(p[0], 0x0f), 12), Shl(And(p[1], 0x3f), 6)), And(p[2], 0x3f))
    ensures 0xf0 <= p[0] ==>
              |p| == 4 && Decode(p) == Or(Or(Or(Shl(And(p[0], 0x07), 18), Shl(And(p[1], 0x3f), 12)),
                                             Shl(And(p[2], 0x3f), 6)), And(p[3], 0x3f))
  {
    if |p| > 1 {
      DecoderMasks(0, p[0]);
    }
    if |p| == 2 {
      DecoderMasks(Bits(p[0], 32), p[1]);
    } else if |p| == 3 {
      DecoderMasksThree(Bits(p[0], 16), p[1], p[2]);
    } else if |p| == 4 {
      DecoderMasksFour(Bits(p[0], 8), p[1], p[2], p[3]);
    }
  }

  /** What `verify` and `length` look at. */
  lemma ContinuationMask(b: Byte)
    ensures And(b, 0xc0) == 0x80 <==> IsContinuation(b)
    ensures And(b, 0x80) == 0 <==> b <= 0x7f
  {
    var q := b / 64;
    HighestBit(b);
    ShlConstants(3);
    ShlConstants(And(q, 3));
    ShrConstants(b);
    AndHigh(b, 3, 6);
    assert IsPowerOfTwo(4) by {
      assert IsPowerOfTwo(2);
    }
    MaskIsRemainder(q, 4);
  }

  lemma HighestBit(b: Byte)
    ensures And(b, 0x80) == 0 <==> b <= 0x7f
  {
    ShrConstants(b);
    assert Shl(1, 7) == 2 * Shl(1, 6);
    ShlConstants(1);
    AndHigh(b, 1, 7);
    assert Shl(And(Shr(b, 7), 1), 7) == 2 * Shl(And(Shr(b, 7), 1), 6);
    ShlConstants(And(Shr(b, 7), 1));
    assert Shr(b, 7) == Shr(b / 2, 6);
    ShrConstants(b / 2);
    assert IsPowerOfTwo(2);
    MaskIsRemainder(Shr(b, 7), 2);
  }

  // ----- strings -----

  /** The string is a character followed by a verified string. */
  predicate Verified(s: seq<Byte>) {
    s == [] || (CharSize(s[0]) <= |s| && IsCharacter(s[..CharSize(s[0])]) && Verified(s[CharSize(s[0])..]))
  }

  /** The values that an iterator gives from the beginning to the end of a verified string. */
  function CodePoints(s: seq<Byte>): seq<CodePoint>
    requires Verified(s)
  {
    if s == [] then []
    else
      var n := CharSize(s[0]);
      [Decode(s[..n])] + CodePoints(s[n..])
  }

  function EncodeAll(cs: seq<CodePoint>): seq<Byte> {
    if cs == [] then [] else Encode(cs[0]) + EncodeAll(cs[1..])
  }

  function Concat(parts: seq<seq<Byte>>): seq<Byte> {
    if parts == [] then [] else parts[0] + Concat(parts[1..])
  }

  lemma FirstOf(a: seq<Byte>, b: seq<Byte>)
    requires a != [] && |a| == CharSize(a[0])
    ensures (a + b)[0] == a[0] && (a + b)[..|a|] == a && (a + b)[|a|..] == b
  {
  }

  /** Exactly the concatenations of the four byte patterns are accepted. */
  lemma {:induction false} VerifiedIsConcat(s: seq<Byte>)
    ensures Verified(s) <==>
            exists parts :: Concat(parts) == s && forall i :: 0 <= i < |parts| ==> IsCharacter(parts[i])
  {
    if Verified(s) {
      var parts := Split(s);
      assert Concat(parts) == s;
    }
    forall parts | Concat(parts) == s && forall i :: 0 <= i < |parts| ==> IsCharacter(parts[i]) ensures Verified(s) {
      ConcatVerified(parts);
    }
  }

  function Split(s: seq<Byte>): (parts: seq<seq<Byte>>)
    requires Verified(s)
    ensures Concat(parts) == s && forall i :: 0 <= i < |parts| ==> IsCharacter(parts[i])
  {
    if s == [] then []
    else
      var n := CharSize(s[0]);
      assert s == s[..n] + s[n..];
      [s[..n]] + Split(s[n..])
  }

  lemma {:induction false} ConcatVerified(parts: seq<seq<Byte>>)
    requires forall i :: 0 <= i < |parts| ==> IsCharacter(parts[i])
    ensures Verified(Concat(parts))
  {
    if parts != [] {
      ConcatVerified(parts[1..]);
      FirstOf(parts[0], Concat(parts[1..]));
    }
  }

  /** Appending characters gives bytes that are accepted and that an iterator reads back. */
  lemma {:induction false} RoundTrip(cs: seq<CodePoint>)
    ensures Verified(EncodeAll(cs)) && CodePoints(EncodeAll(cs)) == cs
  {
    if cs != [] {
      RoundTrip(cs[1..]);
      EncodeIsCharacter(cs[0]);
      EncodeRoundTrip(cs[0]);
      FirstOf(Encode(cs[0]), EncodeAll(cs[1..]));
    }
  }

  lemma {:induction false} VerifiedAppend(a: seq<Byte>, b: seq<Byte>)
    requires Verified(a) && Verified(b)
    ensures Verified(a + b) && CodePoints(a + b) == CodePoints(a) + CodePoints(b)
  {
    if a == [] {
      assert a + b == b;
    } else {
      var n := CharSize(a[0]);
      VerifiedAppend(a[n..], b);
      CutAppend(a, b, n);
      Associate([Decode(a[..n])], CodePoints(a[n..]), CodePoints(b));
    }
  }

  // ----- what is accepted beyond the standard -----

  /** The code points of Unicode that may be encoded (`is_valid_unicode_value`). */
  predicate IsScalarValue(c: int) {
    0 <= c <= 0x10ffff && !(0xd800 <= c <= 0xdfff)
  }

  /** The syntax of one character in section 4 of RFC 3629. */
  predicate IsStandardCharacter(p: seq<Byte>) {
    && p != []
    && (forall i :: 1 <= i < |p| ==> IsContinuation(p[i]))
    && (if |p| == 1 then p[0] <= 0x7f
        else if |p| == 2 then 0xc2 <= p[0] <= 0xdf
        else if |p| == 3 then
          || (p[0] == 0xe0 && p[1] >= 0xa0) || 0xe1 <= p[0] <= 0xec
          || (p[0] == 0xed && p[1] < 0xa0) || 0xee <= p[0] <= 0xef
        else |p| == 4 && ((p[0] == 0xf0 && p[1] >= 0x90) || 0xf1 <= p[0] <= 0xf3 || (p[0] == 0xf4 && p[1] < 0x90)))
  }

  /** A pattern of the code is one of the standard exactly when it is no longer than needed and its value is allowed. */
  lemma StandardExactlyWhen(p: seq<Byte>)
    requires IsCharacter(p)
    ensures IsStandardCharacter(p) <==> Encode(Decode(p)) == p && IsScalarValue(Decode(p))
  {
    ShortestExactlyWhen(p);
  }

  lemma ShortestExactlyWhen(p: seq<Byte>)
    requires IsCharacter(p)
    ensures Encode(Decode(p)) == p <==>
              && (|p| == 3 ==> p[0] > 0xe0 || p[1] >= 0xa0)
              && (|p| == 4 ==> p[0] > 0xf0 || p[1] >= 0x90)
  {
    if |p| == 2 {
      TwoBytes(p);
    } else if |p| == 3 {
      ThreeBytes(p);
    } else if |p| == 4 {
      FourBytes(p);
    }
  }

  lemma JoinParts(high: nat, b: Byte)
    requires IsContinuation(b)
    ensures Join(high, b) / 64 == high && 0x80 + Join(high, b) % 64 == b
  {
  }

  lemma TwoBytes(p: seq<Byte>)
    requires IsCharacter(p) && |p| == 2
    ensures Encode(Decode(p)) == p
  {
    JoinParts(Bits(p[0], 32), p[1]);
    assert Bits(p[0], 32) == p[0] - 0xc0 && MAX_ONE_BYTE_CHAR < Decode(p) <= MAX_TWO_BYTE_CHAR;
    assert p == [p[0], p[1]];
  }

  lemma ThreeBytes(p: seq<Byte>)
    requires IsCharacter(p) && |p| == 3
    ensures Encode(Decode(p)) == p <==> p[0] > 0xe0 || p[1] >= 0xa0
  {
    var x := p[0] - 0xe0;
    assert Bits(p[0], 16) == x;
    JoinParts(x, p[1]);
    JoinParts(Join(x, p[1]), p[2]);
    assert Decode(p) > MAX_TWO_BYTE_CHAR <==> p[0] > 0xe0 || p[1] >= 0xa0;
  }

  lemma FourBytes(p: seq<Byte>)
    requires IsCharacter(p) && |p| == 4
    ensures Encode(Decode(p)) == p <==> p[0] > 0xf0 || p[1] >= 0x90
  {
    var x := p[0] - 0xf0;
    assert Bits(p[0], 8) == x;
    JoinParts(x, p[1]);
    JoinParts(Join(x, p[1]), p[2]);
    JoinParts(Join(Join(x, p[1]), p[2]), p[3]);
    assert Decode(p) > MAX_THREE_BYTE_CHAR <==> p[0] > 0xf0 || p[1] >= 0x90;
  }

  lemma StandardIsAccepted(p: seq<Byte>)
    requires IsStandardCharacter(p)
    ensures IsCharacter(p)
  {
  }

  /** A string of characters of the standard. */
  predicate IsStandard(s: seq<Byte>) {
    s == [] || (CharSize(s[0]) <= |s| && IsStandardCharacter(s[..CharSize(s[0])]) && IsStandard(s[CharSize(s[0])..]))
  }

  /** Of the strings that `verify` accepts, exactly the shortest encodings of allowed values are standard UTF-8. */
  lemma {:induction false} StandardStringExactlyWhen(s: seq<Byte>)
    ensures IsStandard(s) <==>
            Verified(s) && EncodeAll(CodePoints(s)) == s && AllScalarValues(CodePoints(s))
  {
    if s != [] && CharSize(s[0]) <= |s| {
      var n := CharSize(s[0]);
      var p, t := s[..n], s[n..];
      StandardStringExactlyWhen(t);
      if IsStandardCharacter(p) {
        StandardIsAccepted(p);
      }
      if IsCharacter(p) && Verified(t) {
        assert s == p + t;
        FirstIsStandard(p, t);
      }
    }
  }

  lemma FirstIsStandard(p: seq<Byte>, t: seq<Byte>)
    requires IsCharacter(p) && Verified(t)
    requires IsStandard(t) <==> EncodeAll(CodePoints(t)) == t && AllScalarValues(CodePoints(t))
    ensures IsStandardCharacter(p) && IsStandard(t) <==>
            EncodeAll([Decode(p)] + CodePoints(t)) == p + t && AllScalarValues([Decode(p)] + CodePoints(t))
  {
    StandardExactlyWhen(p);
    SameParts(p, t, CodePoints(t));
    FirstAndRest(Decode(p), CodePoints(t));
  }

  predicate AllScalarValues(cs: seq<CodePoint>) {
    forall i :: 0 <= i < |cs| ==> IsScalarValue(cs[i])
  }

  lemma FirstAndRest(c: CodePoint, cs: seq<CodePoint>)
    ensures AllScalarValues([c] + cs) <==> IsScalarValue(c) && AllScalarValues(cs)
  {
    if AllScalarValues([c] + cs) {
      assert ([c] + cs)[0] == c;
      assert forall i :: 0 <= i < |cs| ==> cs[i] == ([c] + cs)[i + 1];
    }
  }

  lemma SameParts(p: seq<Byte>, t: seq<Byte>, cs: seq<CodePoint>)
    requires IsCharacter(p)
    ensures EncodeAll([Decode(p)] + cs) == p + t <==> Encode(Decode(p)) == p && EncodeAll(cs) == t
  {
    var e := Encode(Decode(p));
    FirstOf(e, EncodeAll(cs));
    FirstOf(p, t);
  }

  /** An overlong form, a surrogate and a value above U+10FFFF that `verify` accepts. */
  lemma AcceptedBeyondStandard()
    ensures var overlong, surrogate, large := [0xe0, 0x80, 0x80], [0xed, 0xa0, 0x80], [0xf7, 0xbf, 0xbf, 0xbf];
            && Verified(overlong) && !IsStandard(overlong)
            && Verified(surrogate) && !IsStandard(surrogate)
            && Verified(large) && !IsStandard(large)
  {
    OneCharacter([0xe0, 0x80, 0x80]);
    OneCharacter([0xed, 0xa0, 0x80]);
    OneCharacter([0xf7, 0xbf, 0xbf, 0xbf]);
  }

  lemma OneCharacter(c: seq<Byte>)
    requires IsCharacter(c)
    ensures Verified(c) && CodePoints(c) == [Decode(c)]
    ensures IsStandard(c) <==> IsStandardCharacter(c)
  {
    assert c[..|c|] == c && c[|c|..] == [];
  }

  // ----- verify -----

  /** `verify` */
  method Verify(s: seq<Byte>) returns (ok: bool)
    ensures ok <==> Verified(s)
  {
    var it := 0;
    while it < |s|
      invariant 0 <= it <= |s|
      invariant Verified(s) <==> Verified(s[it..])
      decreases |s| - it
    {
      var c := s[it];
      var rest := s[it..];
      if c <= 0x7f {
        it := it + 1;
      } else if c <= 0xdf {
        if c < 0xc2 || it + 1 == |s| || !IsContinuation(s[it + 1]) {
          return false;
        }
        it := it + 2;
      } else if c <= 0xef {
        if it + 1 == |s| || !IsContinuation(s[it + 1]) {
          return false;
        }
        if it + 2 == |s| || !IsContinuation(s[it + 2]) {
          return false;
        }
        it := it + 3;
      } else if c <= 0xf7 {
        if it + 1 == |s| || !IsContinuation(s[it + 1]) {
          return false;
        }
        if it + 2 == |s| || !IsContinuation(s[it + 2]) {
          return false;
        }
        if it + 3 == |s| || !IsContinuation(s[it + 3]) {
          return false;
        }
        it := it + 4;
      } else {
        return false;
      }
      assert s[it..] == rest[CharSize(c)..];
    }
    return true;
  }

  // ----- length -----

  function Continuations(s: seq<Byte>): nat {
    if s == [] then 0 else Continuations(s[..|s| - 1]) + (if IsContinuation(s[|s| - 1]) then 1 else 0)
  }

  lemma {:induction false} ContinuationsAppend(a: seq<Byte>, b: seq<Byte>)
    ensures Continuations(a + b) == Continuations(a) + Continuations(b)
  {
    if b == [] {
      assert a + b == a;
    } else {
      ContinuationsAppend(a, b[..|b| - 1]);
      assert (a + b)[..|a + b| - 1] == a + b[..|b| - 1];
    }
  }

  lemma ContinuationsOfCharacter(s: seq<Byte>)
    requires IsCharacter(s)
    ensures Continuations(s) == |s| - 1
  {
    OnlyContinuations(s[1..]);
    assert s == [s[0]] + s[1..];
    ContinuationsAppend([s[0]], s[1..]);
    assert Continuations([s[0]]) == 0;
  }

  lemma {:induction false} OnlyContinuations(s: seq<Byte>)
    requires forall i :: 0 <= i < |s| ==> IsContinuation(s[i])
    ensures Continuations(s) == |s|
  {
    if s != [] {
      OnlyContinuations(s[..|s| - 1]);
    }
  }

  lemma {:induction false} BytesAndCharacters(s: seq<Byte>)
    requires Verified(s)
    ensures |s| == Continuations(s) + |CodePoints(s)|
  {
    if s != [] {
      var n := CharSize(s[0]);
      BytesAndCharacters(s[n..]);
      ContinuationsOfCharacter(s[..n]);
      ContinuationsAppend(s[..n], s[n..]);
      assert s == s[..n] + s[n..];
    }
  }

  /** `length`: on an accepted string, the number of steps an iterator takes. */
  method Length(s: seq<Byte>) returns (length: int)
    ensures Verified(s) ==> length == |CodePoints(s)|
    ensures length == |s| - Continuations(s)
  {
    var extensionByteCount := 0;
    for it := 0 to |s|
      invariant extensionByteCount == Continuations(s[..it])
    {
      if IsContinuation(s[it]) {
        extensionByteCount := extensionByteCount + 1;
      }
      assert s[..it + 1][..it] == s[..it];
    }
    assert s[..|s|] == s;
    if Verified(s) {
      BytesAndCharacters(s);
    }
    length := |s| - extensionByteCount;
  }

  /** Walking with an iterator over an accepted string reads only bytes of the string and ends exactly at its end. */
  method Iterate(s: seq<Byte>) returns (cs: seq<CodePoint>)
    requires Verified(s)
    ensures cs == CodePoints(s)
  {
    cs := [];
    var it := 0;
    while it != |s|
      invariant 0 <= it <= |s| && Verified(s[it..])
      invariant CodePoints(s) == cs + CodePoints(s[it..])
      decreases |s| - it
    {
      var n := CharSize(s[it]);
      NextCharacter(s, it, cs);
      cs := cs + [Decode(s[it..it + n])];
      it := it + n;
    }
  }

  lemma NextCharacter(s: seq<Byte>, it: nat, cs: seq<CodePoint>)
    requires it < |s| && Verified(s[it..])
    ensures var n := CharSize(s[it]);
            && it + n <= |s| && Verified(s[it + n..])
            && cs + CodePoints(s[it..]) == (cs + [Decode(s[it..it + n])]) + CodePoints(s[it + n..])
  {
    var n := CharSize(s[it]);
    assert s[it..][..n] == s[it..it + n] && s[it..][n..] == s[it + n..];
    Associate(cs, [Decode(s[it..it + n])], CodePoints(s[it + n..]));
  }
}
