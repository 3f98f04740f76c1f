/**
 Canonical JSON text of `traigent_schema/fp2.py` (RFC 8785): UTF-16 order of member names
 (section 3.2.3), string escapes (section 3.2.2.2) and the text of a whole tree.
 */
module CanonicalText {
  import opened Sorting
  import opened DecimalText
  import opened EcmaNumbers

  // ----- UTF-16 sort keys

  predicate IsSurrogate(c: nat) {
    0xD800 <= c <= 0xDFFF
  }

  /** Text that can be encoded: Unicode scalar values only. */
  predicate Encodable(t: Text) {
    forall i :: 0 <= i < |t| ==> t[i] <= 0x10FFFF && !IsSurrogate(t[i])
  }

  /** The UTF-16 code units of one character. */
  function Units(c: nat): seq<nat> {
    if c < 0x10000 then [c]
    else [0xD800 + (c - 0x10000) / 0x400, 0xDC00 + (c - 0x10000) % 0x400]
  }

  /** Above 0xFFFF: a high and a low surrogate that carry the character's upper and lower ten bits. */
  lemma UnitsAreSurrogates(c: nat) returns (high: nat, low: nat)
    requires 0x10000 <= c <= 0x10FFFF
    ensures Units(c) == [high, low] && 0xD800 <= high <= 0xDBFF && 0xDC00 <= low <= 0xDFFF
    ensures c == 0x10000 + (high - 0xD800) * 0x400 + (low - 0xDC00)
  {
    high, low := Units(c)[0], Units(c)[1];
  }

  function Utf16(t: Text): seq<nat> {
    if t == [] then [] else Units(t[0]) + Utf16(t[1..])
  }

  /** Big-endian bytes of code units. */
  function BigEndian(units: seq<nat>): seq<nat> {
    if units == [] then [] else [units[0] / 256, units[0] % 256] + BigEndian(units[1..])
  }

  /** The bytes member names are sorted by. */
  function SortKey(t: Text): seq<nat> {
    BigEndian(Utf16(t))
  }

  /** Comparing big-endian bytes is comparing code units. */
  lemma {:induction false} BytesCompareAsUnits(a: seq<nat>, b: seq<nat>)
    ensures LexLeq(BigEndian(a), BigEndian(b)) <==> LexLeq(a, b)
  {
    if a != [] && b != [] {
      var x, y := BigEndian(a), BigEndian(b);
      assert x[1..][1..] == BigEndian(a[1..]) && y[1..][1..] == BigEndian(b[1..]);
      BytesCompareAsUnits(a[1..], b[1..]);
    }
  }

  lemma {:induction false} BigEndianInjective(a: seq<nat>, b: seq<nat>)
    requires BigEndian(a) == BigEndian(b)
    ensures a == b
  {
    if a != [] && b != [] {
      assert BigEndian(a)[2..] == BigEndian(a[1..]) && BigEndian(b)[2..] == BigEndian(b[1..]);
      assert BigEndian(a)[0] == BigEndian(b)[0] && BigEndian(a)[1] == BigEndian(b)[1];
      BigEndianInjective(a[1..], b[1..]);
      assert a == [a[0]] + a[1..] && b == [b[0]] + b[1..];
    }
  }

  /** Different encodable texts have different code units. */
  lemma {:induction false} Utf16Injective(a: Text, b: Text)
    requires Encodable(a) && Encodable(b) && Utf16(a) == Utf16(b)
    ensures a == b
  {
    if a != [] && b != [] {
      var u, v := Utf16(a), Utf16(b);
      assert u[0] == Units(a[0])[0] && v[0] == Units(b[0])[0];
      assert a[0] >= 0x10000 ==> u[1] == Units(a[0])[1];
      assert b[0] >= 0x10000 ==> v[1] == Units(b[0])[1];
      assert a[0] == b[0];
      assert u[|Units(a[0])|..] == Utf16(a[1..]) && v[|Units(b[0])|..] == Utf16(b[1..]);
      Utf16Injective(a[1..], b[1..]);
      assert a == [a[0]] + a[1..] && b == [b[0]] + b[1..];
    }
  }

  /** Member names in order of their sort keys. */
  predicate NameLeq(a: Text, b: Text) {
    LexLeq(SortKey(a), SortKey(b))
  }

  lemma NamesDoNotTie(a: Text, b: Text)
    requires Encodable(a) && Encodable(b) && NameLeq(a, b) && NameLeq(b, a)
    ensures a == b
  {
    LexAntisymmetric(SortKey(a), SortKey(b));
    BigEndianInjective(Utf16(a), Utf16(b));
    Utf16Injective(a, b);
  }

  lemma NameIsTotalPreorder()
    ensures TotalPreorder(NameLeq)
  {
    LexIsTotalOrder();
  }

  // ----- strings

  const QUOTE: nat := 34
  const BACKSLASH: nat := 92

  function HexDigit(d: nat): nat {
    if d < 10 then 48 + d else 87 + d
  }

  function Escape(c: nat): Text {
    if c == QUOTE then [BACKSLASH, QUOTE]
    else if c == BACKSLASH then [BACKSLASH, BACKSLASH]
    else if c == 10 then [BACKSLASH, 110]
    else if c == 13 then [BACKSLASH, 114]
    else if c == 9 then [BACKSLASH, 116]
    else if c == 8 then [BACKSLASH, 98]
    else if c == 12 then [BACKSLASH, 102]
    else if c < 32 then [BACKSLASH, 117, 48, 48, HexDigit(c / 16), HexDigit(c % 16)]
    else [c]
  }

  /** The characters of a string and the closing quote. */
  function StringBody(t: Text): Text {
    if t == [] then [QUOTE] else Escape(t[0]) + StringBody(t[1..])
  }

  function StringText(t: Text): Text {
    [QUOTE] + StringBody(t)
  }

  /** An escape can be read off the front of any text, and is never mistaken for the closing quote. */
  lemma EscapeReadsBack(c: nat, x: Text, d: nat, y: Text)
    requires Escape(c) + x == Escape(d) + y
    ensures c == d && x == y && (Escape(c) + x)[0] != QUOTE
  {
    var u, v := Escape(c) + x, Escape(d) + y;
    assert u[0] == Escape(c)[0] && v[0] == Escape(d)[0];
    assert u[0] == BACKSLASH ==> u[1] == Escape(c)[1] && v[1] == Escape(d)[1];
    assert u[0] == BACKSLASH && u[1] == 117 ==> u[4] == Escape(c)[4] && u[5] == Escape(c)[5]
                                                && v[4] == Escape(d)[4] && v[5] == Escape(d)[5];
    assert c == d;
    assert u[|Escape(c)|..] == x && v[|Escape(d)|..] == y;
  }

  lemma BodyStartsWithQuoteIffEmpty(t: Text)
    ensures StringBody(t) != [] && (StringBody(t)[0] == QUOTE <==> t == [])
  {
  }

  /** A string's text can be read off the front of any text. */
  lemma {:induction false} StringReadsBack(s: Text, x: Text, t: Text, y: Text)
    requires StringBody(s) + x == StringBody(t) + y
    ensures s == t && x == y
    decreases |s|
  {
    BodyStartsWithQuoteIffEmpty(s);
    BodyStartsWithQuoteIffEmpty(t);
    assert (StringBody(s) + x)[0] == StringBody(s)[0] && (StringBody(t) + y)[0] == StringBody(t)[0];
    if s != [] {
      var x', y' := StringBody(s[1..]) + x, StringBody(t[1..]) + y;
      Associates(Escape(s[0]), StringBody(s[1..]), x);
      Associates(Escape(t[0]), StringBody(t[1..]), y);
      EscapeReadsBack(s[0], x', t[0], y');
      StringReadsBack(s[1..], x, t[1..], y);
      assert s == [s[0]] + s[1..] && t == [t[0]] + t[1..];
    } else {
      assert x == ([QUOTE] + x)[1..] && y == ([QUOTE] + y)[1..];
    }
  }

  lemma StringTokenReadsBack(s: Text, x: Text, t: Text, y: Text)
    requires StringText(s) + x == StringText(t) + y
    ensures s == t && x == y
  {
    hide StringBody;
    Associates([QUOTE], StringBody(s), x);
    Associates([QUOTE], StringBody(t), y);
    DropPrefix([QUOTE], StringBody(s) + x, StringBody(t) + y);
    StringReadsBack(s, x, t, y);
  }

  // ----- trees

  datatype Json =
    | JNull
    | JBool(b: bool)
    | JNumber(x: Number)
    | JString(s: Text)
    | JArray(items: seq<Json>)
    | JObject(members: seq<Member>)

  datatype Member = Member(name: Text, value: Json)

  const COMMA: nat := 44
  const COLON: nat := 58
  const OPEN_ARRAY: nat := 91
  const CLOSE_ARRAY: nat := 93
  const OPEN_OBJECT: nat := 123
  const CLOSE_OBJECT: nat := 125

  const NULL_TEXT: Text := [110, 117, 108, 108]
  const TRUE_TEXT: Text := [116, 114, 117, 101]
  const FALSE_TEXT: Text := [102, 97, 108, 115, 101]

  /** Numbers in a tree are in normal form. */
  ghost predicate WellFormed(j: Json) {
    match j
    case JNumber(x) => Normal(x)
    case JArray(items) => forall i :: 0 <= i < |items| ==> WellFormed(items[i])
    case JObject(members) => forall i :: 0 <= i < |members| ==> WellFormed(members[i].value)
    case _ => true
  }

  /** The canonical text of a tree whose members are already in order. */
  ghost function TextOf(j: Json): Text
    requires WellFormed(j)
    decreases j, 0
  {
    match j
    case JNull => NULL_TEXT
    case JBool(b) => if b then TRUE_TEXT else FALSE_TEXT
    case JNumber(x) => NumberText(x)
    case JString(s) => StringText(s)
    case JArray(items) => [OPEN_ARRAY] + ItemsText(items, true)
    case JObject(members) => [OPEN_OBJECT] + MembersText(members, true)
  }

  /** The items of an array, each after the first preceded by a comma, and the closing bracket. */
  ghost function ItemsText(items: seq<Json>, first: bool): Text
    requires forall i :: 0 <= i < |items| ==> WellFormed(items[i])
    decreases items, 1
  {
    if items == [] then [CLOSE_ARRAY]
    else (if first then [] else [COMMA]) + TextOf(items[0]) + ItemsText(items[1..], false)
  }

  ghost function MembersText(members: seq<Member>, first: bool): Text
    requires forall i :: 0 <= i < |members| ==> WellFormed(members[i].value)
    decreases members, 1
  {
    if members == [] then [CLOSE_OBJECT]
    else (if first then [] else [COMMA]) + (StringText(members[0].name) + [COLON])
         + TextOf(members[0].value) + MembersText(members[1..], false)
  }

  // ----- the text determines the tree

  predicate IsDelimiter(c: nat) {
    c == COMMA || c == CLOSE_ARRAY || c == CLOSE_OBJECT
  }

  /** What may follow a value: nothing, a comma or a closing bracket. */
  predicate Delimited(x: Text) {
    x == [] || IsDelimiter(x[0])
  }

  predicate IsNumberCharacter(c: nat) {
    ZERO <= c <= NINE || c == POINT || c == LETTER_E || c == PLUS || c == MINUS
  }

  predicate NumberCharacters(t: Text) {
    forall i :: 0 <= i < |t| ==> IsNumberCharacter(t[i])
  }

  lemma LayoutCharacters(s: Text, n: int)
    requires Significant(s)
    ensures NumberCharacters(Layout(s, n))
  {
    hide NatToText, NatOf;
    ExponentCharacters(n - 1);
    assert NumberCharacters(s) && NumberCharacters(s[1..]);
    hide ExponentText, Zeros;
    NotationCharacters(s, n, ExponentText(n - 1));
  }

  lemma ExponentCharacters(e: int)
    ensures NumberCharacters(ExponentText(e))
  {
    hide NatToText;
  }

  lemma NotationCharacters(s: Text, n: int, exponent: Text)
    requires s != [] && AllDigits(s) && exponent == ExponentText(n - 1) && NumberCharacters(exponent)
    ensures NumberCharacters(Layout(s, n))
  {
    hide ExponentText, Zeros;
    if 0 < n < |s| && n <= 21 {
      assert NumberCharacters(s[..n]) && NumberCharacters(s[n..]);
    }
    assert NumberCharacters([s[0], POINT] + s[1..]);
  }

  lemma NumberTextCharacters(x: Number)
    requires Normal(x)
    ensures NumberCharacters(NumberText(x))
    ensures NumberText(x) != [] && (NumberText(x)[0] == MINUS || ZERO <= NumberText(x)[0] <= NINE)
  {
    if x.Number? {
      LayoutCharacters(x.digits, x.n);
      LayoutStartsWithDigit(x.digits, x.n);
    }
  }

  lemma NumberReadsBack(s: Text, x: Text, t: Text, y: Text)
    requires NumberCharacters(s) && NumberCharacters(t) && Delimited(x) && Delimited(y) && s + x == t + y
    ensures s == t && x == y
  {
    NotShorter(s, x, t, y);
    NotShorter(t, y, s, x);
    var u := s + x;
    assert s == u[..|s|] && t == u[..|t|] && x == u[|s|..] && y == u[|t|..];
  }

  lemma NotShorter(s: Text, x: Text, t: Text, y: Text)
    requires NumberCharacters(t) && Delimited(x) && s + x == t + y
    ensures |s| >= |t|
  {
    if |s| < |t| {
      CharacterAt(s, x, t, y);
      assert false;
    }
  }

  lemma CharacterAt(s: Text, x: Text, t: Text, y: Text)
    requires |s| < |t| && s + x == t + y
    ensures x != [] && x[0] == t[|s|]
  {
    assert (s + x)[|s|] == (t + y)[|s|];
  }

  lemma NumberTokenReadsBack(n: Number, x: Text, m: Number, y: Text)
    requires Normal(n) && Normal(m) && Delimited(x) && Delimited(y) && NumberText(n) + x == NumberText(m) + y
    ensures n == m && x == y
  {
    NumberTextCharacters(n);
    NumberTextCharacters(m);
    NumberReadsBack(NumberText(n), x, NumberText(m), y);
    NumberTextInjective(n, m);
  }

  /** The first character of a value's text: letter, digit or minus, quote or bracket. */
  ghost function FirstKind(j: Json): nat {
    match j
    case JNull => 110
    case JBool(b) => if b then 116 else 102
    case JNumber(_) => ZERO
    case JString(_) => QUOTE
    case JArray(_) => OPEN_ARRAY
    case JObject(_) => OPEN_OBJECT
  }

  lemma TextStartsWithKind(j: Json)
    requires WellFormed(j)
    ensures TextOf(j) != []
    ensures var c := TextOf(j)[0]; FirstKind(j) == if c == MINUS || ZERO <= c <= NINE then ZERO else c
    ensures !IsDelimiter(TextOf(j)[0])
  {
    if j.JNumber? {
      NumberTextCharacters(j.x);
    }
  }

  /** Values whose texts start alike are of the same kind. */
  lemma SameKind(a: Json, x: Text, b: Json, y: Text)
    requires WellFormed(a) && WellFormed(b) && TextOf(a) + x == TextOf(b) + y
    ensures FirstKind(a) == FirstKind(b)
  {
    TextStartsWithKind(a);
    TextStartsWithKind(b);
    assert (TextOf(a) + x)[0] == TextOf(a)[0] && (TextOf(b) + y)[0] == TextOf(b)[0];
  }

  lemma DropPrefix(p: Text, x: Text, y: Text)
    requires p + x == p + y
    ensures x == y
  {
    assert x == (p + x)[|p|..] && y == (p + y)[|p|..];
  }

  lemma Associates<T>(a: seq<T>, b: seq<T>, c: seq<T>)
    ensures (a + b) + c == a + (b + c)
  {
  }

  /** A value can be read off the front of any text that continues with a delimiter. */
  lemma {:induction false} TextReadsBack(a: Json, x: Text, b: Json, y: Text)
    requires WellFormed(a) && WellFormed(b) && Delimited(x) && Delimited(y)
    requires TextOf(a) + x == TextOf(b) + y
    ensures a == b && x == y
    decreases a, 0
  {
    SameKind(a, x, b, y);
    match a
    case JNumber(n) =>
      NumberTokenReadsBack(n, x, b.x, y);
    case JString(s) =>
      StringTokenReadsBack(s, x, b.s, y);
    case JArray(items) =>
      ArrayReadsBack(items, x, b.items, y);
    case JObject(members) =>
      ObjectReadsBack(members, x, b.members, y);
    case _ =>
      DropPrefix(TextOf(a), x, y);
  }

  lemma {:induction false} ArrayReadsBack(a: seq<Json>, x: Text, b: seq<Json>, y: Text)
    requires WellFormed(JArray(a)) && WellFormed(JArray(b))
    requires TextOf(JArray(a)) + x == TextOf(JArray(b)) + y
    ensures a == b && x == y
    decreases a, 2
  {
    var p, u, v := [OPEN_ARRAY], ItemsText(a, true), ItemsText(b, true);
    Associates(p, u, x);
    Associates(p, v, y);
    DropPrefix(p, u + x, v + y);
    ItemsReadBack(a, x, b, y, true);
  }

  lemma {:induction false} ObjectReadsBack(a: seq<Member>, x: Text, b: seq<Member>, y: Text)
    requires WellFormed(JObject(a)) && WellFormed(JObject(b))
    requires TextOf(JObject(a)) + x == TextOf(JObject(b)) + y
    ensures a == b && x == y
    decreases a, 2
  {
    var p, u, v := [OPEN_OBJECT], MembersText(a, true), MembersText(b, true);
    Associates(p, u, x);
    Associates(p, v, y);
    DropPrefix(p, u + x, v + y);
    MembersReadBack(a, x, b, y, true);
  }

  lemma ItemsStart(items: seq<Json>, first: bool)
    requires forall i :: 0 <= i < |items| ==> WellFormed(items[i])
    ensures ItemsText(items, first) != [] && (ItemsText(items, first)[0] == CLOSE_ARRAY <==> items == [])
    ensures !first ==> IsDelimiter(ItemsText(items, first)[0])
  {
    if items != [] {
      TextStartsWithKind(items[0]);
    }
  }

  lemma {:induction false} ItemsReadBack(a: seq<Json>, x: Text, b: seq<Json>, y: Text, first: bool)
    requires (forall i :: 0 <= i < |a| ==> WellFormed(a[i])) && (forall i :: 0 <= i < |b| ==> WellFormed(b[i]))
    requires ItemsText(a, first) + x == ItemsText(b, first) + y
    ensures a == b && x == y
    decreases a, 1
  {
    ItemsStart(a, first);
    ItemsStart(b, first);
    assert (ItemsText(a, first) + x)[0] == ItemsText(a, first)[0];
    assert (ItemsText(b, first) + y)[0] == ItemsText(b, first)[0];
    if a == [] {
      DropPrefix([CLOSE_ARRAY], x, y);
    } else {
      ItemsStart(a[1..], false);
      ItemsStart(b[1..], false);
      var p := if first then [] else [COMMA];
      var u, v := ItemsText(a[1..], false) + x, ItemsText(b[1..], false) + y;
      ItemFront(a, x, first);
      ItemFront(b, y, first);
      DropPrefix(p, TextOf(a[0]) + u, TextOf(b[0]) + v);
      TextReadsBack(a[0], u, b[0], v);
      ItemsReadBack(a[1..], x, b[1..], y, false);
      assert a == [a[0]] + a[1..] && b == [b[0]] + b[1..];
    }
  }

  lemma MembersStart(members: seq<Member>, first: bool)
    requires forall i :: 0 <= i < |members| ==> WellFormed(members[i].value)
    ensures MembersText(members, first) != [] && (MembersText(members, first)[0] == CLOSE_OBJECT <==> members == [])
    ensures !first ==> IsDelimiter(MembersText(members, first)[0])
  {
  }

  lemma NoMembersText(first: bool)
    ensures MembersText([], first) == [CLOSE_OBJECT]
  {
  }

  lemma {:induction false} MembersReadBack(a: seq<Member>, x: Text, b: seq<Member>, y: Text, first: bool)
    requires (forall i :: 0 <= i < |a| ==> WellFormed(a[i].value)) && (forall i :: 0 <= i < |b| ==> WellFormed(b[i].value))
    requires MembersText(a, first) + x == MembersText(b, first) + y
    ensures a == b && x == y
    decreases a, 1
  {
    hide MembersText, TextOf, StringBody, StringText;
    MembersStart(a, first);
    MembersStart(b, first);
    assert (MembersText(a, first) + x)[0] == MembersText(a, first)[0];
    assert (MembersText(b, first) + y)[0] == MembersText(b, first)[0];
    if a == [] {
      NoMembersText(first);
      DropPrefix([CLOSE_OBJECT], x, y);
    } else {
      MembersStart(a[1..], false);
      MembersStart(b[1..], false);
      var u, v := MembersText(a[1..], false) + x, MembersText(b[1..], false) + y;
      MemberFront(a, x, first);
      MemberFront(b, y, first);
      var p := (if first then [] else [COMMA]) + [QUOTE];
      var u', v' := [COLON] + (TextOf(a[0].value) + u), [COLON] + (TextOf(b[0].value) + v);
      DropPrefix(p, StringBody(a[0].name) + u', StringBody(b[0].name) + v');
      StringReadsBack(a[0].name, u', b[0].name, v');
      DropPrefix([COLON], TextOf(a[0].value) + u, TextOf(b[0].value) + v);
      TextReadsBack(a[0].value, u, b[0].value, v);
      MembersReadBack(a[1..], x, b[1..], y, false);
      assert a == [a[0]] + a[1..] && b == [b[0]] + b[1..];
    }
  }

  /** The pieces of the first member's text, regrouped. */
  lemma MemberFront(a: seq<Member>, x: Text, first: bool)
    requires a != [] && forall i :: 0 <= i < |a| ==> WellFormed(a[i].value)
    ensures MembersText(a, first) + x
         == ((if first then [] else [COMMA]) + [QUOTE])
            + (StringBody(a[0].name) + ([COLON] + (TextOf(a[0].value) + (MembersText(a[1..], false) + x))))
  {
    var p, n, t, r := if first then [] else [COMMA], StringBody(a[0].name), TextOf(a[0].value), MembersText(a[1..], false);
    Associates([QUOTE], n, [COLON]);
    Associates(p, [QUOTE], n + [COLON]);
    Regroup(p + [QUOTE], n, [COLON], t, r, x);
  }

  lemma Regroup(p: Text, n: Text, c: Text, t: Text, r: Text, x: Text)
    ensures ((p + (n + c)) + t + r) + x == p + (n + (c + (t + (r + x))))
  {
    Associates(p, n, c);
    Associates(p + n, c, t);
    Associates(p + n, c + t, r);
    Associates(p + n, c + t + r, x);
    Associates(c, t, r);
    Associates(c, t + r, x);
    Associates(t, r, x);
    Associates(p, n, c + (t + (r + x)));
  }

  lemma ItemFront(a: seq<Json>, x: Text, first: bool)
    requires a != [] && forall i :: 0 <= i < |a| ==> WellFormed(a[i])
    ensures ItemsText(a, first) + x
         == (if first then [] else [COMMA]) + (TextOf(a[0]) + (ItemsText(a[1..], false) + x))
  {
    var p, t, r := if first then [] else [COMMA], TextOf(a[0]), ItemsText(a[1..], false);
    Associates(p + t, r, x);
    Associates(p, t, r + x);
  }

  /** Two trees have the same canonical text only if they are the same tree. */
  lemma TextIsInjective(a: Json, b: Json)
    requires WellFormed(a) && WellFormed(b) && TextOf(a) == TextOf(b)
    ensures a == b
  {
    assert TextOf(a) + [] == TextOf(a) && TextOf(b) + [] == TextOf(b);
    TextReadsBack(a, [], b, []);
  }
}
