/** Which constant values have an encoding of their own (`encode_for_symbol_name` of src/ast/constant_value.cpp). */
module ValueUniqueness {
  import opened Numerals
  import opened Options
  import opened Sequences
  import opened ValueMangling

  /** The enums of a program: signedness of the underlying type, the names of values, and which numbers have a name. */
  datatype Enums = Enums(isSigned: string -> bool, isName: (string, string) -> bool, isNamed: (string, nat) -> bool)

  /** The enum values in `v` are written as these enums say. */
  predicate Declared(v: Value, enums: Enums) {
    match v
    case EnumName(e, s) => enums.isName(e, s)
    case EnumNumber(e, isSigned, bits) => isSigned == enums.isSigned(e) && !enums.isNamed(e, bits)
    case List(_, vs) => forall i :: 0 <= i < |vs| ==> Declared(vs[i], enums)
    case _ => true
  }

  predicate Fits(v: Value, enums: Enums) {
    InRange(v) && Declared(v, enums)
  }

  predicate AllFit(vs: seq<Value>, enums: Enums) {
    forall i :: 0 <= i < |vs| ==> Fits(vs[i], enums)
  }

  /** `s` names a value of an unsigned enum in which the number that is the length of `s` has no name. */
  predicate Clashes(enums: Enums, e: string, s: string) {
    DotFree(e) && 0 < |s| < TWO_64 && !enums.isSigned(e) && enums.isName(e, s) && !enums.isNamed(e, |s|)
  }

  // ----- what may stand behind an encoding -----

  function WithItem(v: Value, x: string): string
    requires InRange(v)
  {
    "." + (Encode(v) + x)
  }

  /** The texts of `follows` begin with a dot, and stay among them with an encoding in front. */
  ghost predicate Closed(follows: string -> bool, enums: Enums) {
    && (forall x :: follows(x) ==> DotOrEnd(x))
    && (forall v, x {:trigger WithItem(v, x)} :: Fits(v, enums) && follows(x) ==> follows(WithItem(v, x)))
  }

  /** `s` and something may follow, and that something alone too. */
  ghost predicate IsOptional(follows: string -> bool, s: string, y: string) {
    follows(y) && follows("." + s + y)
  }

  /** What follows a number is never a name that clashes with it and something that may follow the name. */
  ghost predicate NoClash(follows: string -> bool, enums: Enums) {
    forall e, s, y :: Clashes(enums, e, s) ==> !IsOptional(follows, s, y)
  }

  /** Two encodings, each with something of `follows` behind it, are the same text only for the same value. */
  ghost predicate IsInjective(follows: string -> bool, enums: Enums) {
    forall v, x, w, y ::
      Followed(v, x, follows, enums) && Followed(w, y, follows, enums) && Encode(v) + x == Encode(w) + y ==>
        v == w && x == y
  }

  ghost predicate Followed(v: Value, x: string, follows: string -> bool, enums: Enums) {
    Fits(v, enums) && follows(x)
  }

  lemma {:induction false} EncodingIsInjective(v: Value, x: string, w: Value, y: string, follows: string -> bool,
                                               enums: Enums)
    requires Closed(follows, enums) && NoClash(follows, enums)
    requires Followed(v, x, follows, enums) && Followed(w, y, follows, enums) && Encode(v) + x == Encode(w) + y
    ensures v == w && x == y
    decreases v, 1
  {
    SameTag(v, x, w, y);
    TagSelectsBranch(v);
    TagSelectsBranch(w);
    match BranchFor(v)
    case ListBranch(_) =>
      ItemsStart(v.elems, x);
      ItemsStart(w.elems, y);
      SizedSame(|v.elems|, Items(v.elems), x, |w.elems|, Items(w.elems), y);
      ItemsAreUnique(v.elems, x, w.elems, y, follows, enums);
    case EnumBranch => EnumIsUnique(v, x, w, y, follows, enums);
    case FunctionBranch => SizedTextIsUnique(v.symbol, x, w.symbol, y);
    case TypeBranch => SizedTextIsUnique(v.typeSymbol, x, w.typeSymbol, y);
    case NullBranch => NoText(x, y);
    case VoidBranch => NoText(x, y);
    case _ => PlainIsUnique(v, x, w, y);
  }

  lemma PlainIsUnique(v: Value, x: string, w: Value, y: string)
    requires InRange(v) && InRange(w) && DotOrEnd(x) && DotOrEnd(y) && BranchFor(v) == BranchFor(w)
    requires v.Number? || v.Char? || v.Str? || v.Boolean? || v.NumberArray?
    requires Encode(v) + x == Encode(w) + y
    ensures v == w && x == y
  {
    PlainDecodes(v, x);
    PlainDecodes(w, y);
  }

  lemma PlainDecodes(v: Value, x: string)
    requires InRange(v) && DotOrEnd(x) && (v.Number? || v.Char? || v.Str? || v.Boolean? || v.NumberArray?)
    ensures Decode(Encode(v) + x) == Some(Decoded(v, x))
  {
    SplitTag(Tag(v), Body(v), x);
    TagSelectsBranch(v);
    PlainRoundTrip(v, x);
  }

  lemma NoText(x: string, y: string)
    requires "" + x == "" + y
    ensures x == y
  {
    assert "" + x == x && "" + y == y;
  }

  lemma {:induction false} ItemsAreUnique(vs: seq<Value>, x: string, ws: seq<Value>, y: string,
                                          follows: string -> bool, enums: Enums)
    requires Closed(follows, enums) && NoClash(follows, enums) && |vs| == |ws| && follows(x) && follows(y)
    requires AllFit(vs, enums) && AllFit(ws, enums) && Items(vs) + x == Items(ws) + y
    ensures vs == ws && x == y
    decreases vs, 0
  {
    ItemsStart(vs, x);
    ItemsStart(ws, y);
    if vs != [] {
      var r, q := Items(vs[1..]) + x, Items(ws[1..]) + y;
      ItemsFollow(vs[1..], x, follows, enums);
      ItemsFollow(ws[1..], y, follows, enums);
      Cut(".", Encode(vs[0]) + r);
      Cut(".", Encode(ws[0]) + q);
      EncodingIsInjective(vs[0], r, ws[0], q, follows, enums);
      ItemsAreUnique(vs[1..], x, ws[1..], y, follows, enums);
      HeadAndTail(vs);
      HeadAndTail(ws);
    }
  }

  lemma {:induction false} ItemsFollow(vs: seq<Value>, x: string, follows: string -> bool, enums: Enums)
    requires Closed(follows, enums) && AllFit(vs, enums) && follows(x)
    ensures follows(Items(vs) + x)
  {
    ItemsStart(vs, x);
    if vs != [] {
      ItemsFollow(vs[1..], x, follows, enums);
      assert follows(WithItem(vs[0], Items(vs[1..]) + x));
    }
  }

  lemma SizedTextIsUnique(s: string, x: string, t: string, y: string)
    requires Decimal(|s|) + ("." + s) + x == Decimal(|t|) + ("." + t) + y
    ensures s == t && x == y
  {
    SizedSame(|s|, "." + s, x, |t|, "." + t, y);
    Associate(".", s, x);
    Associate(".", t, y);
    Cut(".", s + x);
    Cut(".", t + y);
    Cut(s, x);
    Cut(t, y);
  }

  // ----- enum values -----

  /** What stands behind the dot of an enum value. */
  function EnumTail(v: Value): string
    requires v.EnumName? || v.EnumNumber?
  {
    if v.EnumName? then Decimal(|v.valueName|) + ("." + v.valueName) else EnumDigits(v.isSigned, v.bits)
  }

  lemma EnumIsUnique(v: Value, x: string, w: Value, y: string, follows: string -> bool, enums: Enums)
    requires (v.EnumName? || v.EnumNumber?) && (w.EnumName? || w.EnumNumber?)
    requires Closed(follows, enums) && NoClash(follows, enums) && Fits(v, enums) && Fits(w, enums)
    requires follows(x) && follows(y) && Body(v) + x == Body(w) + y
    ensures v == w && x == y
  {
    EnumText(v.enumName, EnumTail(v), x);
    EnumText(w.enumName, EnumTail(w), y);
    SplitRuns(v.enumName, "." + (EnumTail(v) + x), w.enumName, "." + (EnumTail(w) + y), NotDot);
    Cut(".", EnumTail(v) + x);
    Cut(".", EnumTail(w) + y);
    if v.EnumName? && w.EnumName? {
      SizedTextIsUnique(v.valueName, x, w.valueName, y);
    } else if v.EnumNumber? && w.EnumNumber? {
      DigitsAreUnique(v.isSigned, v.bits, x, w.bits, y);
    } else if v.EnumName? {
      NameIsNoNumber(v.enumName, v.valueName, x, w.isSigned, w.bits, y, follows, enums);
    } else {
      NameIsNoNumber(w.enumName, w.valueName, y, v.isSigned, v.bits, x, follows, enums);
    }
  }

  lemma DigitsAreUnique(isSigned: bool, a: nat, x: string, b: nat, y: string)
    requires DotOrEnd(x) && DotOrEnd(y) && EnumDigits(isSigned, a) + x == EnumDigits(isSigned, b) + y
    ensures a == b && x == y
  {
    if isSigned {
      Associate("0", Decimal(a), x);
      Associate("0", Decimal(b), y);
      Cut("0", Decimal(a) + x);
      Cut("0", Decimal(b) + y);
    } else {
      NoText(Decimal(a), EnumDigits(isSigned, a));
      NoText(Decimal(b), EnumDigits(isSigned, b));
    }
    SplitDecimal(a, x, b, y);
  }

  /** A name cannot be taken for a number with something behind it. */
  lemma NameIsNoNumber(e: string, s: string, x: string, isSigned: bool, bits: nat, y: string,
                       follows: string -> bool, enums: Enums)
    requires Closed(follows, enums) && NoClash(follows, enums) && follows(x) && follows(y)
    requires Fits(EnumName(e, s), enums) && Fits(EnumNumber(e, isSigned, bits), enums)
    ensures Decimal(|s|) + ("." + s) + x != EnumDigits(isSigned, bits) + y
  {
    if Decimal(|s|) + ("." + s) + x == EnumDigits(isSigned, bits) + y {
      OnlyItsLength(s, x, isSigned, bits, y);
      assert Clashes(enums, e, s) && IsOptional(follows, s, x);
    }
  }

  /** Text can be taken for a number only in an unsigned enum, and only for its own length. */
  lemma OnlyItsLength(s: string, x: string, isSigned: bool, bits: nat, y: string)
    requires s != [] && DotOrEnd(x) && DotOrEnd(y)
    requires Decimal(|s|) + ("." + s) + x == EnumDigits(isSigned, bits) + y
    ensures !isSigned && bits == |s| && y == "." + s + x
  {
    FirstDigit(|s|);
    assert (Decimal(|s|) + ("." + s) + x)[0] == Decimal(|s|)[0];
    SignedStartsWithZero(bits, y);
    NoText(Decimal(bits), EnumDigits(false, bits));
    Associate(Decimal(|s|), "." + s, x);
    SplitDecimal(|s|, "." + s + x, bits, y);
  }

  lemma SignedStartsWithZero(bits: nat, y: string)
    ensures (EnumDigits(true, bits) + y)[0] == '0'
  {
  }

  // ----- the condition is exact -----

  /** The number of an unsigned enum that is as large as a name is long, and the name. */
  lemma LengthClash(e: string, s: string, y: string)
    requires DotFree(e) && 0 < |s| < TWO_64
    ensures Encode(EnumNumber(e, false, |s|)) + ("." + s + y) == Encode(EnumName(e, s)) + y
  {
    NoText(Decimal(|s|), EnumDigits(false, |s|));
    var n := Decimal(|s|);
    EnumText(e, n, "." + s + y);
    EnumText(e, n + ("." + s), y);
    Associate(n, "." + s, y);
    Associate("e", e + ("." + n), "." + s + y);
    Associate("e", e + ("." + (n + ("." + s))), y);
  }

  /** The encoding is injective exactly when no number can be followed by a name that clashes with it. */
  lemma InjectiveExactlyWhen(follows: string -> bool, enums: Enums)
    requires Closed(follows, enums)
    ensures IsInjective(follows, enums) <==> NoClash(follows, enums)
  {
    if NoClash(follows, enums) {
      forall v, x, w, y |
        Followed(v, x, follows, enums) && Followed(w, y, follows, enums) && Encode(v) + x == Encode(w) + y
        ensures v == w && x == y
      {
        EncodingIsInjective(v, x, w, y, follows, enums);
      }
    }
    forall e, s, y | Clashes(enums, e, s) && IsOptional(follows, s, y) ensures !IsInjective(follows, enums) {
      LengthClash(e, s, y);
      assert Followed(EnumNumber(e, false, |s|), "." + s + y, follows, enums);
      assert Followed(EnumName(e, s), y, follows, enums);
    }
  }

  /** If anything may follow that begins with a dot, then it is so exactly when no name clashes at all. */
  lemma AnythingFollows(enums: Enums)
    ensures Closed(DotOrEnd, enums)
    ensures IsInjective(DotOrEnd, enums) <==> forall e, s :: !Clashes(enums, e, s)
  {
    InjectiveExactlyWhen(DotOrEnd, enums);
    forall e, s | Clashes(enums, e, s) ensures !NoClash(DotOrEnd, enums) {
      assert IsOptional(DotOrEnd, s, "");
    }
  }

  // ----- lists of a given length -----

  /** The texts of lists of values. */
  ghost function ItemsFollowing(enums: Enums): string -> bool {
    x => exists vs :: AllFit(vs, enums) && x == Items(vs)
  }

  predicate SameText(vs: seq<Value>, ws: seq<Value>, enums: Enums) {
    AllFit(vs, enums) && AllFit(ws, enums) && |vs| == |ws| && Items(vs) == Items(ws)
  }

  ghost predicate ListsAreUnique(enums: Enums) {
    forall vs, ws :: SameText(vs, ws, enums) ==> vs == ws
  }

  lemma ItemsAreClosed(enums: Enums)
    ensures Closed(ItemsFollowing(enums), enums)
  {
    var follows := ItemsFollowing(enums);
    forall x | follows(x) ensures DotOrEnd(x) {
      var vs :| AllFit(vs, enums) && x == Items(vs);
    }
    forall v, x | Fits(v, enums) && follows(x) ensures follows(WithItem(v, x)) {
      var vs :| AllFit(vs, enums) && x == Items(vs);
      Cut([v], vs);
      assert AllFit([v] + vs, enums) && Items([v] + vs) == WithItem(v, x);
    }
  }

  /** Lists of the same length have different texts exactly when no name that clashes begins the text of a list. */
  lemma ListsAreUniqueExactlyWhen(enums: Enums)
    ensures ListsAreUnique(enums) <==> NoClash(ItemsFollowing(enums), enums)
  {
    var follows := ItemsFollowing(enums);
    ItemsAreClosed(enums);
    if NoClash(follows, enums) {
      forall vs, ws | SameText(vs, ws, enums) ensures vs == ws {
        WholeLists(vs, ws, enums);
      }
    }
    forall e, s, y | Clashes(enums, e, s) && IsOptional(follows, s, y) ensures !ListsAreUnique(enums) {
      ClashInLists(e, s, y, enums);
    }
  }

  lemma ClashInLists(e: string, s: string, y: string, enums: Enums)
    requires Clashes(enums, e, s) && IsOptional(ItemsFollowing(enums), s, y)
    ensures !ListsAreUnique(enums)
  {
    var vs :| AllFit(vs, enums) && "." + s + y == Items(vs);
    var ws :| AllFit(ws, enums) && y == Items(ws);
    TwoReadings(e, s, vs, ws, enums);
  }

  lemma WholeLists(vs: seq<Value>, ws: seq<Value>, enums: Enums)
    requires NoClash(ItemsFollowing(enums), enums) && SameText(vs, ws, enums)
    ensures vs == ws
  {
    var follows := ItemsFollowing(enums);
    ItemsAreClosed(enums);
    assert AllFit([], enums) && Items([]) == "";
    assert Items(vs) + "" == Items(vs) && Items(ws) + "" == Items(ws);
    ItemsAreUnique(vs, "", ws, "", follows, enums);
  }

  lemma {:induction false} ItemsAppend(vs: seq<Value>, ws: seq<Value>)
    requires forall i :: 0 <= i < |vs| ==> InRange(vs[i])
    requires forall i :: 0 <= i < |ws| ==> InRange(ws[i])
    ensures Items(vs + ws) == Items(vs) + Items(ws)
  {
    if vs == [] {
      assert vs + ws == ws && "" + Items(ws) == Items(ws);
    } else {
      CutAppend(vs, ws, 1);
      ItemsAppend(vs[1..], ws);
      Associate(".", Encode(vs[0]) + Items(vs[1..]), Items(ws));
      Associate(Encode(vs[0]), Items(vs[1..]), Items(ws));
    }
  }

  /** The clash in front of two lists. */
  lemma ClashInFront(e: string, s: string, vs: seq<Value>, ws: seq<Value>, enums: Enums)
    requires DotFree(e) && 0 < |s| < TWO_64 && AllFit(vs, enums) && AllFit(ws, enums)
    requires Items(vs) == "." + s + Items(ws)
    ensures Items([EnumNumber(e, false, |s|)] + vs) == Items([EnumName(e, s)] + ws)
  {
    LengthClash(e, s, Items(ws));
    Cut([EnumNumber(e, false, |s|)], vs);
    Cut([EnumName(e, s)], ws);
  }

  /** A number and a list, or a name and a shorter list: each reading once, in one order and the other. */
  lemma TwoReadings(e: string, s: string, vs: seq<Value>, ws: seq<Value>, enums: Enums)
    requires Clashes(enums, e, s) && AllFit(vs, enums) && AllFit(ws, enums) && Items(vs) == "." + s + Items(ws)
    ensures var a, b := [EnumNumber(e, false, |s|)] + vs, [EnumName(e, s)] + ws;
            SameText(a + b, b + a, enums) && a + b != b + a
  {
    var a, b := [EnumNumber(e, false, |s|)] + vs, [EnumName(e, s)] + ws;
    ClashInFront(e, s, vs, ws, enums);
    ItemsAppend(a, b);
    ItemsAppend(b, a);
    assert (a + b)[0] != (b + a)[0];
  }

  /** Not even a type tells the two apart: a pair of an enum value and a string. */
  lemma TypedClash(kind: ListKind, e: string)
    requires DotFree(e)
    ensures Encode(List(kind, [EnumName(e, "s3"), Str("")]))
         == Encode(List(kind, [EnumNumber(e, false, 2), Str("s0.")]))
  {
    var enums := Enums(_ => true, (_, _) => true, (_, _) => true);
    var empty, text := [Str("")], [Str("s0.")];
    OneString("");
    OneString("s0.");
    assert AllFit(empty, enums) && AllFit(text, enums);
    assert Items(text) == "." + "s3" + Items(empty);
    ClashInFront(e, "s3", text, empty, enums);
    assert [EnumName(e, "s3")] + empty == [EnumName(e, "s3"), Str("")];
    assert [EnumNumber(e, false, 2)] + text == [EnumNumber(e, false, 2), Str("s0.")];
  }

  lemma OneString(s: string)
    requires |s| < 10
    ensures Items([Str(s)]) == ".s" + [DigitChar(|s|)] + "." + s
  {
    assert [Str(s)][1..] == [] && Decimal(|s|) == [DigitChar(|s|)];
    var text := Encode(Str(s));
    assert [Tag(Str(s))] == "s" && Body(Str(s)) == [DigitChar(|s|)] + ("." + s);
    assert text == "s" + ([DigitChar(|s|)] + ("." + s));
    assert text + "" == text;
    assert Items([Str(s)]) == "." + text;
  }

  /** There is no enum value anywhere in the value. */
  predicate WithoutEnums(v: Value) {
    match v
    case EnumName(_, _) => false
    case EnumNumber(_, _, _) => false
    case List(_, vs) => forall i :: 0 <= i < |vs| ==> WithoutEnums(vs[i])
    case _ => true
  }

  lemma {:induction false} WithoutEnumsDeclared(v: Value, enums: Enums)
    requires WithoutEnums(v)
    ensures Declared(v, enums)
  {
    if v.List? {
      forall i | 0 <= i < |v.elems| ensures Declared(v.elems[i], enums) {
        WithoutEnumsDeclared(v.elems[i], enums);
      }
    }
  }

  /** Numbers, characters, strings, functions, types and all lists of these need no condition. */
  lemma InjectiveWithoutEnums(v: Value, x: string, w: Value, y: string)
    requires InRange(v) && InRange(w) && WithoutEnums(v) && WithoutEnums(w)
    requires DotOrEnd(x) && DotOrEnd(y) && Encode(v) + x == Encode(w) + y
    ensures v == w && x == y
  {
    var enums := Enums(_ => true, (_, _) => true, (_, _) => true);
    WithoutEnumsDeclared(v, enums);
    WithoutEnumsDeclared(w, enums);
    AnythingFollows(enums);
    EncodingIsInjective(v, x, w, y, DotOrEnd, enums);
  }

  lemma SameTag(v: Value, x: string, w: Value, y: string)
    requires InRange(v) && InRange(w) && Encode(v) + x == Encode(w) + y
    ensures Tag(v) == Tag(w) && Body(v) + x == Body(w) + y
  {
    Associate([Tag(v)], Body(v), x);
    Associate([Tag(w)], Body(w), y);
    Cut([Tag(v)], Body(v) + x);
    Cut([Tag(w)], Body(w) + y);
    assert [Tag(v)][0] == [Tag(w)][0];
  }

  lemma SizedSame(m: nat, s: string, x: string, n: nat, t: string, y: string)
    requires DotOrEnd(s + x) && DotOrEnd(t + y)
    requires Decimal(m) + s + x == Decimal(n) + t + y
    ensures m == n && s + x == t + y
  {
    Associate(Decimal(m), s, x);
    Associate(Decimal(n), t, y);
    SplitDecimal(m, s + x, n, t + y);
  }
}
