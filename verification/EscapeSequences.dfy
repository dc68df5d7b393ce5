/** src/escape_sequences.h: the printer, the verifier and the reader of escape sequences, on characters. */
module EscapeSequences {
  import opened Options
  import opened Sequences
  import Utf8

  /** A `u8char`, which is 32 bits wide. */
  type Char32 = c: int | 0 <= c < 0x1_0000_0000

  const BACKSLASH: Char32 := 0x5c

  function CharOf(c: char): Char32 {
    c as int
  }

  // ----- hex digits -----

  predicate IsHexChar(c: Char32) {
    0x30 <= c <= 0x39 || 0x61 <= c <= 0x66 || 0x41 <= c <= 0x46
  }

  function GetHexValue(c: Char32): (r: int)
    requires IsHexChar(c)
    ensures 0 <= r < 16
  {
    if c <= 0x39 then c - 0x30 else if c >= 0x61 then c - 0x61 + 10 else c - 0x41 + 10
  }

  /** `{:x}` of one digit. */
  function HexDigit(v: int): (c: Char32)
    requires 0 <= v < 16
    ensures IsHexChar(c) && GetHexValue(c) == v
  {
    if v < 10 then 0x30 + v else 0x61 + v - 10
  }

  predicate AllHex(s: seq<Char32>) {
    forall i :: 0 <= i < |s| ==> IsHexChar(s[i])
  }

  function HexValue(s: seq<Char32>): (r: int)
    requires AllHex(s)
    ensures 0 <= r
  {
    if s == [] then 0 else HexValue(s[..|s| - 1]) * 16 + GetHexValue(s[|s| - 1])
  }

  // ----- what an escape sequence means -----

  /** The character that follows the backslash in the short form of `c`, if it has one. */
  function ShortForm(c: Char32): Option<Char32> {
    if c == 0x5c then Some(0x5c)
    else if c == 0x27 then Some(0x27)
    else if c == 0x22 then Some(0x22)
    else if c == 0x0a then Some(CharOf('n'))
    else if c == 0x09 then Some(CharOf('t'))
    else if c == 0x0d then Some(CharOf('r'))
    else if c == 0x07 then Some(CharOf('a'))
    else if c == 0x08 then Some(CharOf('b'))
    else None
  }

  /** A value, and how many characters stand for it. */
  datatype Sequence = Sequence(value: int, length: nat)

  function ShortValue(c: Char32): Option<Char32> {
    if c == 0x5c then Some(0x5c)
    else if c == 0x27 then Some(0x27)
    else if c == 0x22 then Some(0x22)
    else if c == CharOf('n') then Some(0x0a)
    else if c == CharOf('t') then Some(0x09)
    else if c == CharOf('r') then Some(0x0d)
    else if c == CharOf('a') then Some(0x07)
    else if c == CharOf('b') then Some(0x08)
    else None
  }

  /** `digits` hexadecimal digits behind the first character. */
  predicate HexAt(s: seq<Char32>, digits: nat) {
    |s| > digits && AllHex(s[1..digits + 1])
  }

  function NumberAt(s: seq<Char32>, digits: nat): Option<Sequence>
  {
    if HexAt(s, digits) && Utf8.IsScalarValue(HexValue(s[1..digits + 1])) then
      Some(Sequence(HexValue(s[1..digits + 1]), digits + 1))
    else None
  }

  /** The escape sequence at the beginning of `s`, which is what follows a backslash. */
  function SequenceAt(s: seq<Char32>): Option<Sequence> {
    if s == [] then None
    else if ShortValue(s[0]).Some? then Some(Sequence(ShortValue(s[0]).value, 1))
    else if s[0] == CharOf('x') then
      // the value must be that of one byte in UTF-8
      if HexAt(s, 2) && 0x30 <= s[1] <= 0x37 then Some(Sequence(HexValue(s[1..3]), 3)) else None
    else if s[0] == CharOf('u') then NumberAt(s, 4)
    else if s[0] == CharOf('U') then NumberAt(s, 8)
    else None
  }

  lemma TwoDigits(s: seq<Char32>)
    requires AllHex(s) && |s| == 2
    ensures HexValue(s) == GetHexValue(s[0]) * 16 + GetHexValue(s[1])
  {
    assert s[..1][..0] == [];
    assert HexValue(s[..1]) == GetHexValue(s[0]);
  }

  /** Every sequence stands for a valid code point and lies inside the string. */
  lemma SequenceIsValid(s: seq<Char32>)
    requires SequenceAt(s).Some?
    ensures Utf8.IsScalarValue(SequenceAt(s).value.value) && 0 < SequenceAt(s).value.length <= |s|
  {
    if s[0] == CharOf('x') && HexAt(s, 2) {
      TwoDigits(s[1..3]);
    }
  }

  // ----- verify -----

  /**
   * `verify_escape_sequence`: an error is reported, or `end` is where the sequence ends. It reports none exactly when
   * there is a sequence.
   */
  method VerifyEscapeSequence(s: seq<Char32>) returns (reported: bool, end: nat)
    ensures !reported <==> SequenceAt(s).Some?
    ensures !reported ==> end == SequenceAt(s).value.length
  {
    if s == [] {
      return true, 0;
    }
    var c := s[0];
    if ShortValue(c).Some? {
      return false, 1;
    } else if c == CharOf('x') {
      reported, end := VerifyHexChar(s);
    } else if c == CharOf('u') {
      reported, end := VerifyUnicode(s, 4);
    } else if c == CharOf('U') {
      reported, end := VerifyUnicode(s, 8);
    } else {
      return true, 1;
    }
  }

  method VerifyHexChar(s: seq<Char32>) returns (reported: bool, end: nat)
    requires s != []
    ensures !reported <==> HexAt(s, 2) && 0x30 <= s[1] <= 0x37
    ensures !reported ==> end == 3
  {
    end := 1;
    if end == |s| || !IsHexChar(s[end]) {
      assert |s| > 2 ==> s[1..3][0] == s[1];
      return true, end;
    }
    var firstCharVal := s[end];
    end := end + 1;
    if end == |s| || !IsHexChar(s[end]) {
      assert |s| > 2 ==> s[1..3][1] == s[2];
      return true, end;
    }
    end := end + 1;
    reported := !(0x30 <= firstCharVal <= 0x37);
  }

  /** `verify_unicode_small` and `verify_unicode_big`, with four and eight digits. */
  method VerifyUnicode(s: seq<Char32>, digits: nat) returns (reported: bool, end: nat)
    requires s != []
    ensures !reported <==> NumberAt(s, digits).Some?
    ensures !reported ==> end == digits + 1
  {
    end := 1;
    var val := 0;
    for i := 0 to digits
      invariant end == i + 1 <= |s| && AllHex(s[1..end]) && val == HexValue(s[1..end])
    {
      if end == |s| || !IsHexChar(s[end]) {
        assert |s| > digits ==> s[1..digits + 1][i] == s[end];
        return true, end;
      }
      val := val * 16 + GetHexValue(s[end]);
      OneMoreDigit(s, end);
      end := end + 1;
    }
    reported := !Utf8.IsScalarValue(val);
  }

  lemma OneMoreDigit(s: seq<Char32>, end: nat)
    requires 1 <= end < |s| && AllHex(s[1..end]) && IsHexChar(s[end])
    ensures AllHex(s[1..end + 1])
    ensures HexValue(s[1..end + 1]) == HexValue(s[1..end]) * 16 + GetHexValue(s[end])
  {
    assert s[1..end + 1] == s[1..end] + [s[end]];
    assert s[1..end + 1][..end - 1] == s[1..end];
  }

  // ----- get -----

  /**
   * `get_escape_sequence`, which does not look for errors: from a place where nothing was reported it stays inside the
   * string, its assertions hold, and it reads the sequence that was verified.
   */
  method GetEscapeSequence(s: seq<Char32>) returns (value: Char32, end: nat)
    requires SequenceAt(s).Some?
    ensures Sequence(value, end) == SequenceAt(s).value
    ensures Utf8.IsScalarValue(value)
  {
    SequenceIsValid(s);
    var c := s[0];
    if ShortValue(c).Some? {
      return ShortValue(c).value, 1;
    } else if c == CharOf('x') {
      assert s[1..3][0] == s[1] && s[1..3][1] == s[2];
      assert IsHexChar(s[1]) && IsHexChar(s[2]);
      TwoDigits(s[1..3]);
      return GetHexValue(s[1]) * 16 + GetHexValue(s[2]), 3;
    } else if c == CharOf('u') {
      value, end := GetUnicode(s, 4);
    } else {
      value, end := GetUnicode(s, 8);
    }
  }

  /** `get_unicode_small` and `get_unicode_big` */
  method GetUnicode(s: seq<Char32>, digits: nat) returns (value: Char32, end: nat)
    requires NumberAt(s, digits).Some?
    ensures Sequence(value, end) == NumberAt(s, digits).value
  {
    end := 1;
    var val := 0;
    for i := 0 to digits
      invariant end == i + 1 && AllHex(s[1..end]) && val == HexValue(s[1..end])
    {
      assert s[1..digits + 1][i] == s[end];
      assert IsHexChar(s[end]);
      val := val * 16 + GetHexValue(s[end]);
      OneMoreDigit(s, end);
      end := end + 1;
    }
    value := val;
  }

  // ----- the printer -----

  /** How one character is printed. */
  function Escaped(c: Char32): (r: seq<Char32>)
    ensures r != []
  {
    if ShortForm(c).Some? then [BACKSLASH, ShortForm(c).value]
    else if c < 0x20 || c == 0x7f then [BACKSLASH, CharOf('x'), HexDigit(c / 16), HexDigit(c % 16)]
    else [c]
  }

  function AllEscaped(s: seq<Char32>): seq<Char32> {
    if s == [] then [] else AllEscaped(s[..|s| - 1]) + Escaped(s[|s| - 1])
  }

  /** `add_escape_sequences` */
  method AddEscapeSequences(s: seq<Char32>) returns (result: seq<Char32>)
    ensures result == AllEscaped(s)
  {
    result := [];
    for i := 0 to |s|
      invariant result == AllEscaped(s[..i])
    {
      var c := s[i];
      match ShortForm(c) {
        case Some(short) =>
          result := result + [BACKSLASH, short];
        case None =>
          if c < 0x20 || c == 0x7f {
            result := result + [BACKSLASH, CharOf('x'), HexDigit(c / 16), HexDigit(c % 16)];
          } else {
            result := result + [c];
          }
      }
      assert s[..i + 1][..i] == s[..i];
    }
    assert s[..|s|] == s;
  }

  // ----- reading a whole string -----

  /** One step of `get_character` (src/parse/parse_common.h:267-280). */
  function CharacterAt(s: seq<Char32>): Option<Sequence>
    requires s != []
  {
    if s[0] == BACKSLASH then
      match SequenceAt(s[1..])
      case Some(q) => Some(Sequence(q.value, q.length + 1))
      case None => None
    else Some(Sequence(s[0], 1))
  }

  /** Reading character by character to the end; none if an escape sequence on the way would be reported. */
  function Unescaped(s: seq<Char32>): Option<seq<int>> {
    if s == [] then Some([])
    else
      match CharacterAt(s)
      case None => None
      case Some(q) =>
        if q.length <= |s| && q.length > 0 then
          match Unescaped(s[q.length..])
          case None => None
          case Some(rest) => Some([q.value] + rest)
        else None
  }

  lemma EscapedIsRead(c: Char32, rest: seq<Char32>)
    ensures CharacterAt(Escaped(c) + rest) == Some(Sequence(c, |Escaped(c)|))
    ensures (Escaped(c) + rest)[|Escaped(c)|..] == rest
  {
    if ShortForm(c).None? && (c < 0x20 || c == 0x7f) {
      HexIsRead(c, rest);
      assert (Escaped(c) + rest)[1..] == [CharOf('x'), HexDigit(c / 16), HexDigit(c % 16)] + rest;
    } else if ShortForm(c).Some? {
      assert (Escaped(c) + rest)[1..] == [ShortForm(c).value] + rest;
    }
  }

  lemma HexIsRead(c: Char32, rest: seq<Char32>)
    requires c < 0x80
    ensures SequenceAt([CharOf('x'), HexDigit(c / 16), HexDigit(c % 16)] + rest) == Some(Sequence(c, 3))
  {
    var s := [CharOf('x'), HexDigit(c / 16), HexDigit(c % 16)] + rest;
    assert s[1..3] == [HexDigit(c / 16), HexDigit(c % 16)];
    TwoDigits(s[1..3]);
  }

  lemma {:induction false} AllEscapedFirst(s: seq<Char32>)
    requires s != []
    ensures AllEscaped(s) == Escaped(s[0]) + AllEscaped(s[1..])
  {
    var n := |s| - 1;
    if n == 0 {
      assert s[..0] == [] && s[1..] == [];
    } else {
      AllEscapedFirst(s[..n]);
      assert s[..n][1..] == s[1..][..n - 1];
      Associate(Escaped(s[0]), AllEscaped(s[1..][..n - 1]), Escaped(s[n]));
    }
  }

  /** Reading what was printed gives the string back. */
  lemma {:induction false} RoundTrip(s: seq<Char32>)
    ensures Unescaped(AllEscaped(s)) == Some(s)
  {
    if s != [] {
      AllEscapedFirst(s);
      EscapedIsRead(s[0], AllEscaped(s[1..]));
      RoundTrip(s[1..]);
      assert [s[0]] + s[1..] == s;
    }
  }
}
