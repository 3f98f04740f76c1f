/**
 A reader of JSON text by the grammar of RFC 8259, without white space between tokens.  It owes
 nothing to the way `traigent_schema/fp2.py` writes: escapes, literals and numbers are read by
 the tables of the standard, and the canonical text of a tree reads back as that tree.
 */
module JsonReader {
  import opened Outcomes
  import opened Sorting
  import opened DecimalText
  import opened EcmaNumbers
  import opened CanonicalText

  predicate StartsWith(t: Text, c: char) {
    t != [] && t[0] == c as nat
  }

  // ----- strings (section 7)

  /** The character a two-character escape stands for. */
  function Escaped(c: nat): Option<nat> {
    if c == '"' as nat || c == '\\' as nat || c == '/' as nat then Some(c)
    else if c == 'b' as nat then Some(0x08)
    else if c == 'f' as nat then Some(0x0C)
    else if c == 'n' as nat then Some(0x0A)
    else if c == 'r' as nat then Some(0x0D)
    else if c == 't' as nat then Some(0x09)
    else None
  }

  function HexValue(c: nat): Option<nat> {
    if '0' as nat <= c <= '9' as nat then Some(c - '0' as nat)
    else if 'a' as nat <= c <= 'f' as nat then Some(c - 'a' as nat + 10)
    else if 'A' as nat <= c <= 'F' as nat then Some(c - 'A' as nat + 10)
    else None
  }

  /** The code unit of a `\uXXXX` in front. */
  function CodeUnit(t: Text): (r: Option<nat>)
    ensures r.Some? ==> |t| >= 6
  {
    if |t| >= 6 && StartsWith(t, '\\') && t[1] == 'u' as nat
       && HexValue(t[2]).Some? && HexValue(t[3]).Some? && HexValue(t[4]).Some? && HexValue(t[5]).Some?
    then Some(0x1000 * HexValue(t[2]).value + 0x100 * HexValue(t[3]).value + 0x10 * HexValue(t[4]).value + HexValue(t[5]).value)
    else None
  }

  /** One character of a string, and what follows it; two escaped surrogates make one character. */
  function ReadCharacter(t: Text): (r: Option<(nat, Text)>)
    ensures r.Some? ==> |r.value.1| < |t|
  {
    if t == [] || t[0] < 0x20 || StartsWith(t, '"') then None
    else if !StartsWith(t, '\\') then Some((t[0], t[1..]))
    else if |t| >= 2 && Escaped(t[1]).Some? then Some((Escaped(t[1]).value, t[2..]))
    else
      match CodeUnit(t)
      case None => None
      case Some(unit) =>
        var low := CodeUnit(t[6..]);
        if 0xD800 <= unit <= 0xDBFF && low.Some? && 0xDC00 <= low.value <= 0xDFFF
        then Some((0x10000 + (unit - 0xD800) * 0x400 + (low.value - 0xDC00), t[12..]))
        else Some((unit, t[6..]))
  }

  /** The rest of a string after its opening quote, and what follows the closing one. */
  function ReadBody(t: Text): (r: Option<(Text, Text)>)
    ensures r.Some? ==> |r.value.1| < |t|
    decreases |t|
  {
    if StartsWith(t, '"') then Some(([], t[1..]))
    else
      match ReadCharacter(t)
      case None => None
      case Some((c, rest)) =>
        match ReadBody(rest)
        case None => None
        case Some((s, x)) => Some(([c] + s, x))
  }

  function ReadString(t: Text): (r: Option<(Text, Text)>)
    ensures r.Some? ==> |r.value.1| < |t|
  {
    if StartsWith(t, '"') then ReadBody(t[1..]) else None
  }

  /** An escape reads as the character it was written for. */
  lemma EscapeReads(c: nat, x: Text)
    ensures ReadCharacter(Escape(c) + x) == Some((c, x))
    ensures !StartsWith(Escape(c) + x, '"')
  {
    var t := Escape(c) + x;
    assert t[|Escape(c)|..] == x;
    if c < 32 {
      assert c / 16 < 2 && c == 16 * (c / 16) + c % 16;
    }
  }

  lemma {:induction false} BodyReads(s: Text, x: Text)
    ensures ReadBody(StringBody(s) + x) == Some((s, x))
    decreases |s|
  {
    hide Escape, ReadCharacter;
    if s == [] {
      assert ([QUOTE] + x)[1..] == x;
    } else {
      Associates(Escape(s[0]), StringBody(s[1..]), x);
      EscapeReads(s[0], StringBody(s[1..]) + x);
      BodyReads(s[1..], x);
      assert [s[0]] + s[1..] == s;
    }
  }

  /** A written string reads back, whatever follows it. */
  lemma StringReads(s: Text, x: Text)
    ensures ReadString(StringText(s) + x) == Some((s, x))
  {
    hide StringBody, ReadBody;
    Associates([QUOTE], StringBody(s), x);
    assert ([QUOTE] + (StringBody(s) + x))[1..] == StringBody(s) + x;
    BodyReads(s, x);
  }

  /**
   Of all ways to write a character the shortest is chosen, with lower-case digits (section
   3.2.2.2 of RFC 8785); no other text of that length stands for it.
   */
  lemma EscapeIsShortest(c: nat, e: Text)
    requires ReadCharacter(e) == Some((c, []))
    ensures |Escape(c)| <= |e|
    ensures |Escape(c)| == |e| && (|e| == 1 || forall i :: 0 <= i < |e| ==> !('A' as nat <= e[i] <= 'Z' as nat)) ==>
              e == Escape(c)
  {
    hide CodeUnit;
    if |e| == 2 {
      assert e == [e[0], e[1]];
    } else if |e| == 6 {
      UnitIsShortest(c, e);
    }
  }

  lemma UnitIsShortest(c: nat, e: Text)
    requires |e| == 6 && CodeUnit(e) == Some(c) && Escaped(e[1]).None?
    ensures |Escape(c)| == 6 && (forall i :: 0 <= i < 6 ==> !('A' as nat <= e[i] <= 'Z' as nat)) ==> e == Escape(c)
  {
    hide Escaped;
    if |Escape(c)| == 6 && (forall i :: 0 <= i < 6 ==> !('A' as nat <= e[i] <= 'Z' as nat)) {
      assert HexValue(e[4]).value == c / 16 && HexValue(e[5]).value == c % 16;
      assert e == [e[0], e[1], e[2], e[3], e[4], e[5]];
    }
  }

  // ----- numbers (section 6)

  predicate IsDigits(t: Text) {
    t != [] && forall i :: 0 <= i < |t| ==> '0' as nat <= t[i] <= '9' as nat
  }

  /** Digits in base ten, the last one counting once. */
  function Spelled(t: Text): nat
    requires t != [] ==> IsDigits(t)
  {
    if t == [] then 0 else 10 * Spelled(t[..|t| - 1]) + (t[|t| - 1] - '0' as nat)
  }

  /** A sign and digits. */
  function ReadExponent(t: Text): Option<int> {
    if StartsWith(t, '-') then if IsDigits(t[1..]) then Some(-(Spelled(t[1..]) as int)) else None
    else if StartsWith(t, '+') then if IsDigits(t[1..]) then Some(Spelled(t[1..])) else None
    else if IsDigits(t) then Some(Spelled(t)) else None
  }

  /** Digits without an idle leading zero, a fraction and an exponent, both optional. */
  function ReadMagnitude(t: Text): Option<Decimal> {
    var mantissa := Before(t, 'e' as nat);
    var whole, fraction := Before(mantissa, '.' as nat), After(mantissa, '.' as nat);
    var exponent := if 'e' as nat in t then ReadExponent(After(t, 'e' as nat)) else Some(0);
    if !IsDigits(whole) || (|whole| > 1 && StartsWith(whole, '0')) then None
    else if '.' as nat in mantissa && !IsDigits(fraction) then None
    else if exponent.None? then None
    else Some(Decimal(Spelled(whole + fraction), exponent.value - |fraction|))
  }

  /** A number by its sign and the significant digits of its magnitude. */
  ghost predicate IsNumber(x: Number, neg: bool, v: Decimal) {
    if v.m == 0 then x == Zero
    else x.Number? && x.neg == neg && Significant(x.digits) && SameValue(ValueOf(x.digits, x.n), v)
  }

  ghost function ReadNumber(t: Text): Option<Number> {
    var neg := StartsWith(t, '-');
    match ReadMagnitude(if neg then t[1..] else t)
    case None => None
    case Some(v) => if x :| IsNumber(x, neg, v) then Some(x) else None
  }

  lemma {:induction false} SpelledIsNatOf(t: Text)
    requires t != [] ==> IsDigits(t)
    ensures AllDigits(t) && Spelled(t) == NatOf(t)
  {
    if t != [] {
      SpelledIsNatOf(t[..|t| - 1]);
    }
  }

  lemma ExponentReadsBack(t: Text)
    requires IsIntText(t)
    ensures ReadExponent(t) == Some(IntOf(t))
  {
    hide Spelled, NatOf;
    if t[0] == PLUS || t[0] == MINUS {
      SpelledIsNatOf(t[1..]);
    } else {
      SpelledIsNatOf(t);
    }
  }

  /** A magnitude written by its parts is read by its parts. */
  lemma PartsRead(t: Text, v: Decimal, whole: Text, fraction: Text, e: Option<int>)
    requires Notation(t, v, whole, fraction, e)
    ensures ReadMagnitude(t) == Some(Decimal(NatOf(whole + fraction), (if e.Some? then e.value else 0) - |fraction|))
  {
    hide AtLeastPower, Spelled, NatOf, IsIntText, IntOf, ReadExponent, Mantissa, Ending, ReadMagnitude, Before, After;
    var mantissa := Mantissa(whole, fraction, fraction != []);
    MantissaParts(whole, fraction, fraction != []);
    PointIffFraction(whole, fraction);
    EndingParts(mantissa, e);
    SpelledIsNatOf(whole + fraction);
    if e.Some? {
      ExponentReadsBack(After(t, LETTER_E));
    }
    MagnitudeByParts(t, mantissa, whole, fraction, if e.Some? then e.value else 0);
  }

  lemma MagnitudeByParts(t: Text, mantissa: Text, whole: Text, fraction: Text, exponent: int)
    requires mantissa == Before(t, 'e' as nat)
    requires whole == Before(mantissa, '.' as nat) && fraction == After(mantissa, '.' as nat)
    requires IsDigits(whole) && (|whole| > 1 ==> !StartsWith(whole, '0'))
    requires fraction != [] ==> IsDigits(fraction)
    requires '.' as nat in mantissa ==> fraction != []
    requires if 'e' as nat in t then ReadExponent(After(t, 'e' as nat)) == Some(exponent) else exponent == 0
    ensures ReadMagnitude(t) == Some(Decimal(Spelled(whole + fraction), exponent - |fraction|))
  {
    hide Before, After, ReadExponent, Spelled;
  }

  lemma PointIffFraction(whole: Text, fraction: Text)
    requires AllDigits(whole)
    ensures POINT in Mantissa(whole, fraction, fraction != []) <==> fraction != []
  {
  }

  lemma MagnitudeReads(s: Text, n: int) returns (v: Decimal)
    requires Significant(s)
    ensures ReadMagnitude(Layout(s, n)) == Some(v) && SameValue(v, ValueOf(s, n)) && v.m > 0
  {
    hide Layout, ValueOf, Notation, SameValue, Denoted, IsDecimalText, Mantissa, Ending, ReadMagnitude, NatOf;
    var whole, fraction, e := LayoutNotation(s, n);
    PartsRead(Layout(s, n), ValueOf(s, n), whole, fraction, e);
    NotationIsDenoted(Layout(s, n), ValueOf(s, n), whole, fraction, e);
    LayoutDenotes(s, n);
    v := Denoted(Layout(s, n));
    PositiveLikewise(v, s, n);
  }

  lemma NotationIsDenoted(t: Text, v: Decimal, whole: Text, fraction: Text, e: Option<int>)
    requires Notation(t, v, whole, fraction, e)
    ensures AllDigits(whole + fraction) && IsDecimalText(t)
    ensures Denoted(t) == Decimal(NatOf(whole + fraction), (if e.Some? then e.value else 0) - |fraction|)
  {
    hide AtLeastPower, Mantissa, Ending, Denoted, IsDecimalText, NatOf;
    DenotedByParts(whole, fraction, fraction != [], e);
  }

  lemma PositiveLikewise(v: Decimal, s: Text, n: int)
    requires Significant(s) && SameValue(v, ValueOf(s, n))
    ensures v.m > 0
  {
    hide Pow10;
    NatOfBounds(s);
    if v.m == 0 {
      assert false;
    }
  }

  /**
   The notation of section 6.1.6.1.20 of ECMA-262: an exponent exactly below 10^-6 and from 10^21
   on, with its sign, after one digit that is not zero; no idle zero, and no point without digits.
   */
  lemma MagnitudeIsCanonical(s: Text, n: int)
    requires Significant(s)
    ensures var t := Layout(s, n);
            var mantissa, exponent := Before(t, 'e' as nat), After(t, 'e' as nat);
            var whole, fraction := Before(mantissa, '.' as nat), After(mantissa, '.' as nat);
            && ('e' as nat in t <==> AtLeastPower(ValueOf(s, n), 21) || !AtLeastPower(ValueOf(s, n), -6))
            && ('e' as nat in t ==>
                  && |whole| == 1 && whole[0] != '0' as nat
                  && |exponent| > 1 && exponent[0] in {'+' as nat, '-' as nat} && exponent[1] != '0' as nat)
            && (|whole| > 1 ==> whole[0] != '0' as nat)
            && ('.' as nat in mantissa ==> fraction != [] && fraction[|fraction| - 1] != '0' as nat)
  {
    hide Layout, NatOf, AtLeastPower, Pow10, Mantissa, ExponentText;
    var whole, fraction, e := LayoutNotation(s, n);
    MantissaParts(whole, fraction, fraction != []);
    PointIffFraction(whole, fraction);
    var mantissa := Mantissa(whole, fraction, fraction != []);
    EndingParts(mantissa, e);
    if e.Some? {
      ExponentIsSigned(mantissa, e.value);
    }
  }

  lemma ExponentIsSigned(mantissa: Text, e: int)
    requires LETTER_E !in mantissa && e != 0
    ensures var tail := After(mantissa + ExponentText(e), LETTER_E);
            |tail| > 1 && tail[0] in {'+' as nat, '-' as nat} && tail[1] != '0' as nat
  {
    hide NatToText;
    NatTextRoundTrip(if e >= 0 then e else -e);
    var tail := ExponentText(e)[1..];
    assert mantissa + ExponentText(e) == mantissa + [LETTER_E] + tail;
    PartitionOfJoin(mantissa, LETTER_E, tail);
  }

  /** A value has one normal form. */
  lemma NumberIsUnique(x: Number, y: Number, neg: bool, v: Decimal)
    requires IsNumber(x, neg, v) && IsNumber(y, neg, v)
    ensures x == y
  {
    hide SameValue;
    if v.m > 0 {
      SameValueSymmetric(ValueOf(y.digits, y.n), v);
      SameValueTransitive(ValueOf(x.digits, x.n), v, ValueOf(y.digits, y.n));
      SignificantFormIsUnique(x.digits, x.n, y.digits, y.n);
    }
  }

  /** A written number reads back. */
  lemma NumberReads(x: Number)
    requires Normal(x)
    ensures ReadNumber(NumberText(x)) == Some(x)
  {
    hide Layout, ReadMagnitude, SameValue, IsNumber;
    if x == Zero {
      ZeroReads();
    } else {
      LayoutStartsWithDigit(x.digits, x.n);
      var v := MagnitudeReads(x.digits, x.n);
      WrittenIsNumber(x, v);
      assert x.neg ==> NumberText(x)[1..] == Layout(x.digits, x.n);
      var y :| IsNumber(y, x.neg, v) && ReadNumber(NumberText(x)) == Some(y);
      NumberIsUnique(x, y, x.neg, v);
    }
  }

  lemma WrittenIsNumber(x: Number, v: Decimal)
    requires Normal(x) && x.Number? && v.m > 0 && SameValue(v, ValueOf(x.digits, x.n))
    ensures IsNumber(x, x.neg, v)
  {
    SameValueSymmetric(v, ValueOf(x.digits, x.n));
  }

  lemma ZeroReads()
    ensures ReadNumber(NumberText(Zero)) == Some(Zero)
  {
    var t: Text := [ZERO];
    assert Before(t, 'e' as nat) == t && Before(t, '.' as nat) == t;
    assert Spelled(t) == 0 by {
      assert t[..0] == [];
    }
    assert t + [] == t;
    MagnitudeByParts(t, t, t, [], 0);
    assert ReadMagnitude(t) == Some(Decimal(0, 0));
    assert IsNumber(Zero, false, Decimal(0, 0));
  }

  // ----- values

  predicate IsTokenCharacter(c: nat) {
    '0' as nat <= c <= '9' as nat || c in {'+' as nat, '-' as nat, '.' as nat, 'e' as nat}
  }

  /** The longest token of number characters in front. */
  function Token(t: Text): (r: Text)
    ensures r <= t
  {
    if t == [] || !IsTokenCharacter(t[0]) then [] else
      assert t == [t[0]] + t[1..];
      [t[0]] + Token(t[1..])
  }

  /** What follows a word, if the text starts with it. */
  function AfterWord(t: Text, word: string): Option<Text> {
    if |t| >= |word| && forall i :: 0 <= i < |word| ==> t[i] == word[i] as nat then Some(t[|word|..]) else None
  }

  /** One value and what follows it (sections 3 to 7). */
  ghost function ReadValue(t: Text): (r: Option<(Json, Text)>)
    ensures r.Some? ==> |r.value.1| < |t|
    decreases |t|, 0
  {
    if AfterWord(t, "null").Some? then Some((JNull, AfterWord(t, "null").value))
    else if AfterWord(t, "true").Some? then Some((JBool(true), AfterWord(t, "true").value))
    else if AfterWord(t, "false").Some? then Some((JBool(false), AfterWord(t, "false").value))
    else if StartsWith(t, '"') then
      match ReadString(t)
      case None => None
      case Some((s, x)) => Some((JString(s), x))
    else if StartsWith(t, '[') then
      match ReadItems(t[1..], true)
      case None => None
      case Some((items, x)) => Some((JArray(items), x))
    else if StartsWith(t, '{') then
      match ReadMembers(t[1..], true)
      case None => None
      case Some((members, x)) => Some((JObject(members), x))
    else if Token(t) == [] then None
    else
      match ReadNumber(Token(t))
      case None => None
      case Some(n) => Some((JNumber(n), t[|Token(t)|..]))
  }

  /** What comes before the next item: nothing before the first, a comma before any other. */
  function AfterComma(t: Text, first: bool): Option<Text> {
    if first then Some(t) else if StartsWith(t, ',') then Some(t[1..]) else None
  }

  /** Items separated by commas, up to the closing bracket. */
  ghost function ReadItems(t: Text, first: bool): (r: Option<(seq<Json>, Text)>)
    ensures r.Some? ==> |r.value.1| < |t|
    decreases |t|, 1
  {
    if StartsWith(t, ']') then Some(([], t[1..]))
    else
      match AfterComma(t, first)
      case None => None
      case Some(u) =>
        match ReadValue(u)
        case None => None
        case Some((j, x)) =>
          match ReadItems(x, false)
          case None => None
          case Some((items, y)) => Some(([j] + items, y))
  }

  /** A name, a colon and a value. */
  ghost function ReadMember(t: Text): (r: Option<(Member, Text)>)
    ensures r.Some? ==> |r.value.1| < |t|
    decreases |t|, 1
  {
    match ReadString(t)
    case None => None
    case Some((name, x)) =>
      if !StartsWith(x, ':') then None
      else
        match ReadValue(x[1..])
        case None => None
        case Some((j, y)) => Some((Member(name, j), y))
  }

  ghost function ReadMembers(t: Text, first: bool): (r: Option<(seq<Member>, Text)>)
    ensures r.Some? ==> |r.value.1| < |t|
    decreases |t|, 2
  {
    if StartsWith(t, '}') then Some(([], t[1..]))
    else
      match AfterComma(t, first)
      case None => None
      case Some(u) =>
        match ReadMember(u)
        case None => None
        case Some((m, x)) =>
          match ReadMembers(x, false)
          case None => None
          case Some((members, y)) => Some(([m] + members, y))
  }

  /** A whole text: one value and nothing after it. */
  ghost function ReadText(t: Text): Option<Json> {
    match ReadValue(t)
    case Some((j, x)) => if x == [] then Some(j) else None
    case None => None
  }

  // ----- written values

  lemma TokenOfNumber(t: Text, x: Text)
    requires NumberCharacters(t) && Delimited(x)
    ensures Token(t + x) == t
    decreases |t|
  {
    if t == [] {
      assert t + x == x;
    } else {
      assert (t + x)[1..] == t[1..] + x;
      TokenOfNumber(t[1..], x);
    }
  }

  lemma WordReads(j: Json, x: Text)
    requires j.JNull? || j.JBool?
    ensures ReadValue(TextOf(j) + x) == Some((j, x))
  {
    var t := TextOf(j) + x;
    assert t[|TextOf(j)|..] == x;
    assert j.JBool? ==> t[0] != 'n' as nat && (!j.b ==> t[0] != 't' as nat);
  }

  lemma NumberValueReads(n: Number, x: Text)
    requires Normal(n) && Delimited(x)
    ensures ReadValue(NumberText(n) + x) == Some((JNumber(n), x))
  {
    hide NumberText, ReadNumber, Token;
    var t := NumberText(n) + x;
    NumberTextCharacters(n);
    NumberReads(n);
    TokenOfNumber(NumberText(n), x);
    assert t[0] == NumberText(n)[0] && t[|NumberText(n)|..] == x;
  }

  lemma StringValueReads(s: Text, x: Text)
    ensures ReadValue(StringText(s) + x) == Some((JString(s), x))
  {
    hide StringBody, ReadString;
    StringReads(s, x);
    var t := StringText(s) + x;
    assert t[0] == '"' as nat;
  }

  /** A written value reads back, whatever delimiter follows it. */
  lemma {:induction false} ValueReads(j: Json, x: Text)
    requires WellFormed(j) && Delimited(x)
    ensures ReadValue(TextOf(j) + x) == Some((j, x))
    decreases j, 0
  {
    hide ReadValue;
    match j
    case JNumber(n) => NumberValueReads(n, x);
    case JString(s) => StringValueReads(s, x);
    case JArray(items) => ArrayReads(items, x);
    case JObject(members) => ObjectReads(members, x);
    case _ => WordReads(j, x);
  }

  lemma {:induction false} ArrayReads(items: seq<Json>, x: Text)
    requires WellFormed(JArray(items)) && Delimited(x)
    ensures ReadValue(TextOf(JArray(items)) + x) == Some((JArray(items), x))
    decreases items, 2
  {
    hide ReadItems, ItemsText;
    var t, u := TextOf(JArray(items)) + x, ItemsText(items, true);
    Associates([OPEN_ARRAY], u, x);
    assert t[0] == '[' as nat && t[1..] == u + x;
    ItemsRead(items, x, true);
  }

  lemma {:induction false} ItemsRead(items: seq<Json>, x: Text, first: bool)
    requires (forall i :: 0 <= i < |items| ==> WellFormed(items[i])) && Delimited(x)
    ensures ReadItems(ItemsText(items, first) + x, first) == Some((items, x))
    decreases items, 1
  {
    hide ReadValue, TextOf, ItemsText, Delimited, IsDelimiter;
    ItemsStart(items, first);
    assert (ItemsText(items, first) + x)[0] == ItemsText(items, first)[0];
    if items == [] {
      NoItemsText(first);
      assert ([CLOSE_ARRAY] + x)[1..] == x;
    } else {
      var u := ItemsText(items[1..], false) + x;
      ItemFront(items, x, first);
      SeparatorReads(TextOf(items[0]) + u, first);
      RestIsDelimited(items[1..], x);
      ValueReads(items[0], u);
      ItemsRead(items[1..], x, false);
      assert items == [items[0]] + items[1..];
    }
  }

  lemma NoItemsText(first: bool)
    ensures ItemsText([], first) == [CLOSE_ARRAY]
  {
  }

  lemma SeparatorReads(t: Text, first: bool)
    ensures AfterComma((if first then [] else [COMMA]) + t, first) == Some(t)
  {
    assert [] + t == t && ([COMMA] + t)[1..] == t;
  }

  lemma RestIsDelimited(items: seq<Json>, x: Text)
    requires forall i :: 0 <= i < |items| ==> WellFormed(items[i])
    ensures Delimited(ItemsText(items, false) + x)
  {
    hide ItemsText;
    ItemsStart(items, false);
  }

  lemma {:induction false} ObjectReads(members: seq<Member>, x: Text)
    requires WellFormed(JObject(members)) && Delimited(x)
    ensures ReadValue(TextOf(JObject(members)) + x) == Some((JObject(members), x))
    decreases members, 2
  {
    hide ReadMembers, MembersText;
    var t, u := TextOf(JObject(members)) + x, MembersText(members, true);
    Associates([OPEN_OBJECT], u, x);
    assert t[0] == '{' as nat && t[1..] == u + x;
    MembersRead(members, x, true);
  }

  lemma {:induction false} MembersRead(members: seq<Member>, x: Text, first: bool)
    requires (forall i :: 0 <= i < |members| ==> WellFormed(members[i].value)) && Delimited(x)
    ensures ReadMembers(MembersText(members, first) + x, first) == Some((members, x))
    decreases members, 1
  {
    hide ReadMember, TextOf, MembersText, Delimited, IsDelimiter, StringText;
    MembersStart(members, first);
    assert (MembersText(members, first) + x)[0] == MembersText(members, first)[0];
    if members == [] {
      NoMembersText(first);
      assert ([CLOSE_OBJECT] + x)[1..] == x;
    } else {
      var u := MembersText(members[1..], false) + x;
      MemberText(members, x, first);
      SeparatorReads(StringText(members[0].name) + ([COLON] + (TextOf(members[0].value) + u)), first);
      RestOfMembersIsDelimited(members[1..], x);
      ValueReads(members[0].value, u);
      MemberReads(members[0], u);
      MembersRead(members[1..], x, false);
      assert members == [members[0]] + members[1..];
    }
  }

  lemma MemberReads(m: Member, u: Text)
    requires WellFormed(m.value) && ReadValue(TextOf(m.value) + u) == Some((m.value, u))
    ensures ReadMember(StringText(m.name) + ([COLON] + (TextOf(m.value) + u))) == Some((m, u))
  {
    hide ReadValue, ReadString, TextOf, StringText;
    var x := [COLON] + (TextOf(m.value) + u);
    StringReads(m.name, x);
    assert x[1..] == TextOf(m.value) + u;
  }

  lemma MemberText(members: seq<Member>, x: Text, first: bool)
    requires members != [] && forall i :: 0 <= i < |members| ==> WellFormed(members[i].value)
    ensures MembersText(members, first) + x
         == (if first then [] else [COMMA])
            + (StringText(members[0].name) + ([COLON] + (TextOf(members[0].value) + (MembersText(members[1..], false) + x))))
  {
    var p, n, t, r :=
      if first then [] else [COMMA], StringText(members[0].name), TextOf(members[0].value), MembersText(members[1..], false);
    hide TextOf, StringText;
    assert MembersText(members, first) == (p + (n + [COLON])) + t + r;
    hide MembersText;
    Regroup(p, n, [COLON], t, r, x);
  }

  lemma RestOfMembersIsDelimited(members: seq<Member>, x: Text)
    requires forall i :: 0 <= i < |members| ==> WellFormed(members[i].value)
    ensures Delimited(MembersText(members, false) + x)
  {
    hide MembersText;
    MembersStart(members, false);
  }

  /** The canonical text of a tree is JSON text of that tree. */
  lemma TextReads(j: Json)
    requires WellFormed(j)
    ensures ReadText(TextOf(j)) == Some(j)
  {
    hide TextOf, ReadValue, WellFormed;
    assert TextOf(j) + [] == TextOf(j);
    ValueReads(j, []);
  }
}
