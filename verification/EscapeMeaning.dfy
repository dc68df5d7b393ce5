/** What the escape sequences of src/escape_sequences.h:224-236 stand for, written with characters. */
module EscapeMeaning {
  import opened EscapeSequences
  import opened Options
  import opened Sequences
  import Utf8

  function Chars(text: string): seq<Char32> {
    seq(|text|, i requires 0 <= i < |text| => CharOf(text[i]))
  }

  /** `text`, which follows a backslash, stands for one character. */
  ghost predicate Means(text: string, value: int) {
    forall rest :: SequenceAt(Chars(text) + rest) == Some(Sequence(value, |text|))
  }

  ghost predicate MeansNothing(text: string) {
    forall rest :: SequenceAt(Chars(text) + rest) == None
  }

  lemma {:induction false} OneLetter(letter: char)
    ensures Chars([letter]) == [CharOf(letter)]
    ensures forall rest: seq<Char32> :: (Chars([letter]) + rest)[0] == CharOf(letter)
  {
  }

  /** The letters mean what they mean in C++. */
  lemma {:induction false} ShortEscapes()
    ensures Means("n", '\n' as int) && Means("t", '\t' as int) && Means("r", '\r' as int)
    ensures Means("a", 7) && Means("b", 8)
    ensures Means("\\", '\\' as int) && Means("\'", '\'' as int) && Means("\"", '\"' as int)
  {
    OneLetter('n');
    OneLetter('t');
    OneLetter('r');
    OneLetter('a');
    OneLetter('b');
    OneLetter('\\');
    OneLetter('\'');
    OneLetter('\"');
  }

  // ----- hexadecimal digits -----

  predicate IsDigit(c: char, v: int) {
    0 <= v < 16 && (c == "0123456789abcdef"[v] || c == "0123456789ABCDEF"[v])
  }

  /** The digits of a number, the highest first. */
  predicate Spells(digits: string, v: int) {
    if digits == [] then v == 0
    else v >= 0 && IsDigit(digits[|digits| - 1], v % 16) && Spells(digits[..|digits| - 1], v / 16)
  }

  lemma {:induction false} DigitValue(c: char, v: int)
    requires IsDigit(c, v)
    ensures IsHexChar(CharOf(c)) && GetHexValue(CharOf(c)) == v
  {
  }

  lemma {:induction false} SpelledValue(digits: string, v: int)
    requires Spells(digits, v)
    ensures AllHex(Chars(digits)) && HexValue(Chars(digits)) == v
  {
    if digits != [] {
      var n := |digits| - 1;
      SpelledValue(digits[..n], v / 16);
      DigitValue(digits[n], v % 16);
      assert Chars(digits)[..n] == Chars(digits[..n]);
    }
  }

  lemma {:induction false} BehindLetter(letter: char, digits: string, rest: seq<Char32>)
    ensures var s := Chars([letter] + digits) + rest;
            |s| > |digits| && s[0] == CharOf(letter) && s[1..|digits| + 1] == Chars(digits)
  {
  }

  /** `x` and two digits: every value of one byte in UTF-8, and nothing above. */
  lemma {:induction false} HexEscapes(digits: string, v: int)
    requires |digits| == 2 && Spells(digits, v)
    ensures if v < 0x80 then Means("x" + digits, v) else MeansNothing("x" + digits)
  {
    SpelledValue(digits, v);
    TwoDigits(Chars(digits));
    forall rest
      ensures SequenceAt(Chars("x" + digits) + rest) == if v < 0x80 then Some(Sequence(v, 3)) else None
    {
      BehindLetter('x', digits, rest);
      HexRead(Chars("x" + digits) + rest, Chars(digits), v);
    }
  }

  lemma {:induction false} HexRead(s: seq<Char32>, digits: seq<Char32>, v: int)
    requires |s| > 2 && s[0] == CharOf('x') && s[1..3] == digits && AllHex(digits) && HexValue(digits) == v
    requires v == GetHexValue(digits[0]) * 16 + GetHexValue(digits[1])
    ensures SequenceAt(s) == if v < 0x80 then Some(Sequence(v, 3)) else None
  {
    assert s[1] == digits[0];
  }

  /** `u` and four digits, `U` and eight: every code point that is no surrogate, and nothing else. */
  lemma {:induction false} UnicodeEscapes(digits: string, v: int)
    requires Spells(digits, v)
    ensures |digits| == 4 ==> if IsCodePoint(v) then Means("u" + digits, v) else MeansNothing("u" + digits)
    ensures |digits| == 8 ==> if IsCodePoint(v) then Means("U" + digits, v) else MeansNothing("U" + digits)
  {
    SpelledValue(digits, v);
    forall rest | |digits| == 4
      ensures SequenceAt(Chars("u" + digits) + rest) == if IsCodePoint(v) then Some(Sequence(v, 5)) else None
    {
      BehindLetter('u', digits, rest);
    }
    forall rest | |digits| == 8
      ensures SequenceAt(Chars("U" + digits) + rest) == if IsCodePoint(v) then Some(Sequence(v, 9)) else None
    {
      BehindLetter('U', digits, rest);
    }
  }

  /** Any other character behind the backslash, and too few digits, stand for nothing. */
  lemma {:induction false} NothingElse(s: seq<Char32>)
    ensures s == [] ==> SequenceAt(s) == None
    ensures s != [] && s[0] !in Chars("ntrab\\\'\"xuU") ==> SequenceAt(s) == None
    ensures s != [] && s[0] == CharOf('x') && !HexBehind(s, 2) ==> SequenceAt(s) == None
    ensures s != [] && s[0] == CharOf('u') && !HexBehind(s, 4) ==> SequenceAt(s) == None
    ensures s != [] && s[0] == CharOf('U') && !HexBehind(s, 8) ==> SequenceAt(s) == None
  {
    var letters := Chars("ntrab\\\'\"xuU");
    assert letters == [110, 116, 114, 97, 98, 92, 39, 34, 120, 117, 85];
    forall digits: nat | |s| > digits && AllHex(s[1..digits + 1]) ensures HexBehind(s, digits) {
      forall i | 1 <= i <= digits ensures IsHexChar(s[i]) {
        assert s[1..digits + 1][i - 1] == s[i];
      }
    }
  }

  predicate HexBehind(s: seq<Char32>, digits: nat) {
    |s| > digits && forall i :: 1 <= i <= digits ==> IsHexChar(s[i])
  }

  predicate IsCodePoint(v: int) {
    0 <= v <= 0xd7ff || 0xe000 <= v <= 0x10ffff
  }

  // ----- the printer -----

  /** A text is printed character by character. */
  lemma {:induction false} PrintedInOrder(a: seq<Char32>, c: Char32)
    ensures AllEscaped([]) == [] && AllEscaped(a + [c]) == AllEscaped(a) + AllEscaped([c])
  {
    assert (a + [c])[..|a|] == a && [c][..0] == [];
    assert AllEscaped([c]) == [] + Escaped(c);
  }

  lemma {:induction false} PrintsOne(c: Char32)
    ensures AllEscaped([c]) == Escaped(c)
  {
    assert [c][..0] == [];
  }

  /** The characters with a letter of their own. */
  lemma {:induction false} ShortPrinted()
    ensures AllEscaped(Chars("\n")) == Chars("\\n") && AllEscaped(Chars("\t")) == Chars("\\t")
    ensures AllEscaped(Chars("\r")) == Chars("\\r")
    ensures AllEscaped([7]) == Chars("\\a") && AllEscaped([8]) == Chars("\\b")
    ensures AllEscaped(Chars("\\")) == Chars("\\\\") && AllEscaped(Chars("\'")) == Chars("\\\'")
    ensures AllEscaped(Chars("\"")) == Chars("\\\"")
  {
    PrintsOne('\n' as int);
    PrintsOne('\t' as int);
    PrintsOne('\r' as int);
    PrintsOne(7);
    PrintsOne(8);
    PrintsOne('\\' as int);
    PrintsOne('\'' as int);
    PrintsOne('\"' as int);
  }

  predicate HasLetter(c: Char32) {
    7 <= c <= 10 || c == 13 || c == '\\' as int || c == '\'' as int || c == '\"' as int
  }

  /** The other control characters are printed with two digits, and every other character as it is. */
  lemma {:induction false} OthersPrinted(c: Char32)
    requires !HasLetter(c)
    ensures c < ' ' as int || c == 0x7f ==>
              AllEscaped([c]) == Chars(['\\', 'x', "0123456789abcdef"[c / 16], "0123456789abcdef"[c % 16]])
    ensures !(c < ' ' as int || c == 0x7f) ==> AllEscaped([c]) == [c]
  {
    PrintsOne(c);
    if c < ' ' as int || c == 0x7f {
      LowerDigit(c / 16);
      LowerDigit(c % 16);
    }
  }

  lemma {:induction false} LowerDigit(v: int)
    requires 0 <= v < 16
    ensures HexDigit(v) == CharOf("0123456789abcdef"[v])
  {
  }
}
