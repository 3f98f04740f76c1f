/**
 ECMAScript Number::toString as `traigent_schema/fp2.py` writes it (section 6.1.6.1.20 of
 ECMA-262, adopted by section 3.2.2.3 of RFC 8785), from the repr of a float or from an int.
 */
module EcmaNumbers {
  import opened Outcomes
  import opened Sorting
  import opened DecimalText

  // ----- from repr to significant digits

  /** Python's `lstrip("0")` and `rstrip("0")`. */
  function StripLeft(t: Text): Text {
    if t != [] && t[0] == ZERO then StripLeft(t[1..]) else t
  }

  function StripRight(t: Text): Text {
    if t != [] && t[|t| - 1] == ZERO then StripRight(t[..|t| - 1]) else t
  }

  lemma {:induction false} StripLeftDropsZeros(t: Text)
    requires AllDigits(t)
    ensures var r := StripLeft(t);
            |r| <= |t| && t == Zeros(|t| - |r|) + r && AllDigits(r) && (r != [] ==> r[0] != ZERO)
  {
    if t != [] && t[0] == ZERO {
      StripLeftDropsZeros(t[1..]);
      var r := StripLeft(t);
      assert t == [ZERO] + t[1..];
      assert Zeros(|t| - |r|) == [ZERO] + Zeros(|t| - 1 - |r|);
    }
  }

  lemma {:induction false} StripRightDropsZeros(t: Text)
    requires AllDigits(t)
    ensures var r := StripRight(t);
            |r| <= |t| && t == r + Zeros(|t| - |r|) && AllDigits(r) && (r != [] ==> r[|r| - 1] != ZERO)
  {
    if t != [] && t[|t| - 1] == ZERO {
      StripRightDropsZeros(t[..|t| - 1]);
      var r := StripRight(t);
      assert t == t[..|t| - 1] + [ZERO];
      assert Zeros(|t| - |r|) == Zeros(|t| - 1 - |r|) + [ZERO];
    }
  }

  /** The digits s and the exponent n of ECMA-262, read off a repr. */
  function ShortestDigits(t: Text): (Text, int)
    requires IsDecimalText(t)
  {
    var mantissa := Before(t, LETTER_E);
    var whole, fraction := Before(mantissa, POINT), After(mantissa, POINT);
    var digits := whole + fraction;
    var stripped := StripLeft(digits);
    var n := |whole| + ExponentOf(t) - (|digits| - |stripped|);
    var s := StripRight(stripped);
    (if s == [] then [ZERO] else s, n)
  }

  /** Stripping zeros on both sides divides by a power of ten. */
  lemma StripsToSignificant(digits: Text)
    requires AllDigits(digits) && NatOf(digits) > 0
    ensures var stripped := StripLeft(digits);
            var s := StripRight(stripped);
            && |s| <= |stripped| <= |digits| && Significant(s)
            && NatOf(digits) == NatOf(s) * Pow10(|stripped| - |s|)
  {
    hide StripLeft, StripRight, NatOf, Pow10, Significant, Zeros;
    StripsLeft(digits);
    StripsRight(StripLeft(digits));
  }

  lemma StripsLeft(digits: Text)
    requires AllDigits(digits) && NatOf(digits) > 0
    ensures var stripped := StripLeft(digits);
            && |stripped| <= |digits| && AllDigits(stripped) && NatOf(stripped) == NatOf(digits)
            && stripped != [] && stripped[0] != ZERO
  {
    hide StripLeft, Pow10, Zeros;
    var stripped := StripLeft(digits);
    StripLeftDropsZeros(digits);
    ZerosAround(stripped, |digits| - |stripped|, 0);
  }

  lemma StripsRight(t: Text)
    requires AllDigits(t) && t != [] && t[0] != ZERO
    ensures var s := StripRight(t);
            |s| <= |t| && Significant(s) && NatOf(t) == NatOf(s) * Pow10(|t| - |s|)
  {
    var s := StripRight(t);
    StripRightDropsZeros(t);
    ZerosAround(s, 0, |t| - |s|);
    assert t[0] == (s + Zeros(|t| - |s|))[0];
  }

  /** Renotation keeps the value and leaves no insignificant digit. */
  lemma ShortestDigitsKeepValue(t: Text)
    requires IsDecimalText(t) && Denoted(t).m > 0
    ensures var (s, n) := ShortestDigits(t); Significant(s) && SameValue(ValueOf(s, n), Denoted(t))
  {
    var mantissa := Before(t, LETTER_E);
    var digits := Before(mantissa, POINT) + After(mantissa, POINT);
    StripsToSignificant(digits);
    assert Pow10(0) == 1;
  }

  // ----- layout

  function NatToText(n: nat): (t: Text)
    ensures AllDigits(t) && t != []
  {
    if n < 10 then [ZERO + n] else NatToText(n / 10) + [ZERO + n % 10]
  }

  /** Writing a number and reading it back. */
  lemma {:induction false} NatTextRoundTrip(n: nat)
    ensures NatOf(NatToText(n)) == n
    ensures n > 0 ==> NatToText(n)[0] != ZERO
  {
    if n >= 10 {
      NatTextRoundTrip(n / 10);
      var head := NatToText(n / 10);
      assert (head + [ZERO + n % 10])[..|head|] == head;
    } else {
      assert NatToText(n)[..0] == [];
    }
  }

  /** The exponent `e+x` or `e-x`. */
  function ExponentText(e: int): Text {
    [LETTER_E] + (if e >= 0 then [PLUS] + NatToText(e) else [MINUS] + NatToText(-e))
  }

  /** The four notations, chosen by where the point falls. */
  function Layout(s: Text, n: int): Text
    requires s != []
  {
    var k := |s|;
    if k <= n <= 21 then s + Zeros(n - k)
    else if 0 < n <= 21 then s[..n] + [POINT] + s[n..]
    else if -6 < n <= 0 then [ZERO, POINT] + Zeros(-n) + s
    else (if k == 1 then s else [s[0], POINT] + s[1..]) + ExponentText(n - 1)
  }

  function Mantissa(whole: Text, fraction: Text, pointed: bool): Text {
    whole + if pointed then [POINT] + fraction else []
  }

  function Ending(e: Option<int>): Text {
    if e.Some? then ExponentText(e.value) else []
  }

  lemma MantissaParts(whole: Text, fraction: Text, pointed: bool)
    requires AllDigits(whole) && AllDigits(fraction) && (!pointed ==> fraction == [])
    ensures var mantissa := Mantissa(whole, fraction, pointed);
            Before(mantissa, POINT) == whole && After(mantissa, POINT) == fraction && LETTER_E !in mantissa
  {
    var mantissa := Mantissa(whole, fraction, pointed);
    assert POINT !in whole;
    if pointed {
      assert mantissa == whole + [POINT] + fraction;
      PartitionOfJoin(whole, POINT, fraction);
    } else {
      assert mantissa == whole;
    }
  }

  lemma EndingParts(mantissa: Text, e: Option<int>)
    requires LETTER_E !in mantissa
    ensures var t := mantissa + Ending(e);
            && Before(t, LETTER_E) == mantissa
            && (LETTER_E in t <==> e.Some?)
            && (e.Some? ==> IsIntText(After(t, LETTER_E)) && IntOf(After(t, LETTER_E)) == e.value)
  {
    if e.Some? {
      var tail := ExponentText(e.value)[1..];
      assert mantissa + Ending(e) == mantissa + [LETTER_E] + tail;
      PartitionOfJoin(mantissa, LETTER_E, tail);
      ExponentReads(e.value);
    } else {
      assert mantissa + Ending(e) == mantissa;
    }
  }

  /** Digits, with or without a point and an exponent, denote what their parts say. */
  lemma DenotedByParts(whole: Text, fraction: Text, pointed: bool, e: Option<int>)
    requires AllDigits(whole) && whole != [] && AllDigits(fraction) && (!pointed ==> fraction == [])
    ensures var t := Mantissa(whole, fraction, pointed) + Ending(e);
            && IsDecimalText(t)
            && Denoted(t) == Decimal(NatOf(whole + fraction), (if e.Some? then e.value else 0) - |fraction|)
  {
    MantissaParts(whole, fraction, pointed);
    EndingParts(Mantissa(whole, fraction, pointed), e);
  }

  lemma ExponentReads(e: int)
    ensures var tail := ExponentText(e)[1..]; IsIntText(tail) && IntOf(tail) == e
  {
    var digits := NatToText(if e >= 0 then e else -e);
    var tail := ExponentText(e)[1..];
    assert tail[1..] == digits;
    NatTextRoundTrip(if e >= 0 then e else -e);
  }

  /** m * 10^e is at least 10^k. */
  predicate AtLeastPower(v: Decimal, k: int) {
    if v.e >= k then v.m > 0 else v.m >= Pow10(k - v.e)
  }

  /**
   How a positive number is written: with an exponent exactly when it is below 10^-6 or not below
   10^21; one digit other than zero before the point of an exponent; no idle zero before or after
   a point; and a point only with digits behind it.
   */
  ghost predicate Notation(t: Text, v: Decimal, whole: Text, fraction: Text, e: Option<int>) {
    && t == Mantissa(whole, fraction, fraction != []) + Ending(e)
    && AllDigits(whole) && whole != [] && AllDigits(fraction)
    && (|whole| > 1 || e.Some? ==> whole[0] != ZERO)
    && (fraction != [] ==> fraction[|fraction| - 1] != ZERO)
    && (e.Some? <==> AtLeastPower(v, 21) || !AtLeastPower(v, -6))
    && (e.Some? ==> |whole| == 1 && e.value != 0)
  }

  lemma LayoutNotation(s: Text, n: int) returns (whole: Text, fraction: Text, e: Option<int>)
    requires Significant(s)
    ensures Notation(Layout(s, n), ValueOf(s, n), whole, fraction, e)
  {
    hide Layout, Mantissa, Ending, NatOf, AtLeastPower, ValueOf;
    PowerThreshold(s, n, 21);
    PowerThreshold(s, n, -6);
    if |s| <= n <= 21 {
      whole, fraction, e := s + Zeros(n - |s|), [], None;
      WholeParts(s, n);
    } else if 0 < n <= 21 {
      whole, fraction, e := s[..n], s[n..], None;
      PointedParts(s, n);
    } else if -6 < n <= 0 {
      whole, fraction, e := [ZERO], Zeros(-n) + s, None;
      SmallMantissa(s, n, Zeros(-n), Zeros(1 - n));
    } else {
      whole, fraction, e := [s[0]], s[1..], Some(n - 1);
      ScientificParts(s, n);
    }
  }

  lemma WholeParts(s: Text, n: int)
    requires Significant(s) && |s| <= n <= 21
    ensures Mantissa(s + Zeros(n - |s|), [], false) + Ending(None) == Layout(s, n)
  {
    hide NatOf, Zeros;
  }

  lemma PointedParts(s: Text, n: int)
    requires Significant(s) && 0 < n < |s| && n <= 21
    ensures Mantissa(s[..n], s[n..], true) + Ending(None) == Layout(s, n)
  {
    hide NatOf;
  }

  lemma ScientificParts(s: Text, n: int)
    requires Significant(s) && (n > 21 || n <= -6)
    ensures Mantissa([s[0]], s[1..], s[1..] != []) + Ending(Some(n - 1)) == Layout(s, n)
  {
    hide NatOf, ExponentText;
    assert [s[0]] + ([POINT] + s[1..]) == [s[0], POINT] + s[1..];
  }

  /** 0.s * 10^n is at least 10^k exactly when n is larger than k. */
  lemma PowerThreshold(s: Text, n: int, k: int)
    requires Significant(s)
    ensures AtLeastPower(ValueOf(s, n), k) <==> n > k
  {
    hide Pow10;
    NatOfBounds(s);
    var gap := k - (n - |s|);
    if gap > 0 {
      if n > k {
        Pow10Grows(gap, |s| - 1);
      } else {
        Pow10Grows(|s|, gap);
      }
    }
  }

  lemma {:induction false} Pow10Grows(a: nat, b: nat)
    requires a <= b
    ensures Pow10(a) <= Pow10(b)
  {
    if a < b {
      Pow10Grows(a, b - 1);
    }
  }

  /** Each notation denotes 0.s * 10^n. */
  lemma LayoutDenotes(s: Text, n: int)
    requires Significant(s)
    ensures IsDecimalText(Layout(s, n)) && SameValue(Denoted(Layout(s, n)), ValueOf(s, n))
  {
    if |s| <= n <= 21 {
      WholeLayout(s, n);
    } else if 0 < n <= 21 {
      PointedLayout(s, n);
    } else if -6 < n <= 0 {
      SmallLayout(s, n);
    } else {
      ScientificLayout(s, n);
    }
  }

  /** A layout is right when its parts spell the digits and its exponent places their point. */
  lemma LayoutByParts(s: Text, n: int, t: Text, whole: Text, fraction: Text, pointed: bool, e: Option<int>)
    requires AllDigits(s) && AllDigits(whole) && whole != [] && AllDigits(fraction) && (!pointed ==> fraction == [])
    requires t == Mantissa(whole, fraction, pointed) + Ending(e)
    requires Decimal(NatOf(whole + fraction), (if e.Some? then e.value else 0) - |fraction|) == ValueOf(s, n)
    ensures IsDecimalText(t) && SameValue(Denoted(t), ValueOf(s, n))
  {
    hide IsDecimalText, Denoted, NatOf, SameValue, Mantissa, Ending, ValueOf;
    DenotedByParts(whole, fraction, pointed, e);
    SameAsItself(ValueOf(s, n));
  }

  lemma WholeLayout(s: Text, n: int)
    requires Significant(s) && |s| <= n <= 21
    ensures IsDecimalText(Layout(s, n)) && SameValue(Denoted(Layout(s, n)), ValueOf(s, n))
  {
    hide IsDecimalText, Denoted, NatOf, Pow10, Zeros;
    var t := s + Zeros(n - |s|);
    DenotedByParts(t, [], false, None);
    assert Mantissa(t, [], false) + Ending(None) == t && t + [] == t;
    ZerosAround(s, 0, n - |s|);
  }

  lemma PointedLayout(s: Text, n: int)
    requires Significant(s) && 0 < n < |s| && n <= 21
    ensures IsDecimalText(Layout(s, n)) && SameValue(Denoted(Layout(s, n)), ValueOf(s, n))
  {
    hide IsDecimalText, Denoted, NatOf, SameValue;
    assert Mantissa(s[..n], s[n..], true) + Ending(None) == Layout(s, n) && s[..n] + s[n..] == s;
    LayoutByParts(s, n, Layout(s, n), s[..n], s[n..], true, None);
  }

  lemma SmallLayout(s: Text, n: int)
    requires Significant(s) && -6 < n <= 0
    ensures IsDecimalText(Layout(s, n)) && SameValue(Denoted(Layout(s, n)), ValueOf(s, n))
  {
    hide IsDecimalText, Denoted, NatOf, SameValue, Zeros;
    SmallMantissa(s, n, Zeros(-n), Zeros(1 - n));
    ZerosAround(s, 1 - n, 0);
    LayoutByParts(s, n, Layout(s, n), [ZERO], Zeros(-n) + s, true, None);
  }

  lemma SmallMantissa(s: Text, n: int, zeros: Text, more: Text)
    requires Significant(s) && -6 < n <= 0 && zeros == Zeros(-n) && more == Zeros(1 - n)
    ensures Mantissa([ZERO], zeros + s, true) + Ending(None) == Layout(s, n)
    ensures [ZERO] + (zeros + s) == more + s && AllDigits(zeros + s)
  {
    assert [ZERO] + zeros == more;
    hide Zeros, NatOf, Significant;
    assert [ZERO] + ([POINT] + (zeros + s)) == [ZERO, POINT] + zeros + s;
  }

  lemma ScientificLayout(s: Text, n: int)
    requires Significant(s) && (n > 21 || n <= -6)
    ensures IsDecimalText(Layout(s, n)) && SameValue(Denoted(Layout(s, n)), ValueOf(s, n))
  {
    hide IsDecimalText, Denoted, NatOf, SameValue, ExponentText;
    if |s| == 1 {
      assert s + [] == s;
      LayoutByParts(s, n, Layout(s, n), s, [], false, Some(n - 1));
    } else {
      var whole, fraction := [s[0]], s[1..];
      assert whole + fraction == s && whole + ([POINT] + fraction) == [s[0], POINT] + s[1..];
      LayoutByParts(s, n, Layout(s, n), whole, fraction, true, Some(n - 1));
    }
  }

  // ----- numbers as values

  /** A finite number in normal form: zero, or a sign and 0.digits * 10^n. */
  datatype Number = Zero | Number(neg: bool, digits: Text, n: int)

  ghost predicate Normal(x: Number) {
    x.Number? ==> Significant(x.digits)
  }

  function NumberText(x: Number): Text
    requires x.Number? ==> x.digits != []
  {
    match x
    case Zero => [ZERO]
    case Number(neg, digits, n) => if neg then [MINUS] + Layout(digits, n) else Layout(digits, n)
  }

  /** The finite float with this sign and repr of its magnitude. */
  function NumberOfRepr(neg: bool, repr: Text): Number
    requires IsDecimalText(repr)
  {
    if Denoted(repr).m == 0 then Zero
    else
      var (s, n) := ShortestDigits(repr);
      Number(neg, s, n)
  }

  function NumberOfInt(i: int): Number {
    if i == 0 then Zero
    else
      var digits := NatToText(if i < 0 then -i else i);
      var s := StripRight(digits);
      Number(i < 0, if s == [] then [ZERO] else s, |digits|)
  }

  /** Python's `str` of an int. */
  function IntText(i: int): Text {
    if i < 0 then [MINUS] + NatToText(-i) else NatToText(i)
  }

  lemma NumbersAreNormal(neg: bool, repr: Text, i: int)
    requires IsDecimalText(repr)
    ensures Normal(NumberOfRepr(neg, repr)) && Normal(NumberOfInt(i))
  {
    hide IsDecimalText, Denoted, ShortestDigits, NatToText, StripRight, Significant;
    if Denoted(repr).m > 0 {
      ShortestDigitsKeepValue(repr);
    }
    if i != 0 {
      IntDigits(if i < 0 then -i else i);
    }
  }

  lemma IntDigits(m: nat)
    requires m > 0
    ensures var digits := NatToText(m);
            var s := StripRight(digits);
            Significant(s) && |s| <= |digits| && digits == s + Zeros(|digits| - |s|)
  {
    var digits := NatToText(m);
    var s := StripRight(digits);
    NatTextRoundTrip(m);
    StripRightDropsZeros(digits);
    ZerosAround(s, 0, |digits| - |s|);
    if s == [] {
      assert NatOf(s) == 0;
    } else {
      assert s[0] == digits[0];
    }
  }

  lemma DigitCount(m: nat, k: nat)
    requires 0 < m < Pow10(k)
    ensures |NatToText(m)| <= k
  {
    NatTextRoundTrip(m);
    NatOfBounds(NatToText(m));
    Pow10Order(|NatToText(m)| - 1, k);
  }

  /** An integer of at most 21 digits is written alike as an int and as a float. */
  lemma IntTextIsNumberText(i: int)
    requires (if i < 0 then -i else i) < Pow10(21)
    ensures IntText(i) == NumberText(NumberOfInt(i))
  {
    hide Pow10, NatOf, NatToText, StripRight, Zeros;
    if i != 0 {
      var m := if i < 0 then -i else i;
      IntDigits(m);
      DigitCount(m, 21);
    } else {
      ZeroIsOneDigit();
    }
  }

  lemma ZeroIsOneDigit()
    ensures NatToText(0) == [ZERO]
  {
  }

  /** Different numbers are written differently. */
  lemma NumberTextInjective(x: Number, y: Number)
    requires Normal(x) && Normal(y) && NumberText(x) == NumberText(y)
    ensures x == y
  {
    if x.Number? && y.Number? {
      LayoutStartsWithDigit(x.digits, x.n);
      LayoutStartsWithDigit(y.digits, y.n);
      var tx, ty := Layout(x.digits, x.n), Layout(y.digits, y.n);
      assert x.neg == y.neg;
      if x.neg {
        assert ([MINUS] + tx)[1..] == tx && ([MINUS] + ty)[1..] == ty;
      }
      LayoutDenotes(x.digits, x.n);
      LayoutDenotes(y.digits, y.n);
      SameValueSymmetric(Denoted(tx), ValueOf(x.digits, x.n));
      SameValueTransitive(ValueOf(x.digits, x.n), Denoted(tx), ValueOf(y.digits, y.n));
      SignificantFormIsUnique(x.digits, x.n, y.digits, y.n);
    } else if x.Number? {
      NeverWrittenAsZero(x);
    } else if y.Number? {
      NeverWrittenAsZero(y);
    }
  }

  lemma SameValueSymmetric(a: Decimal, b: Decimal)
    requires SameValue(a, b)
    ensures SameValue(b, a)
  {
    assert Pow10(0) == 1;
  }

  lemma SameAsItself(a: Decimal)
    ensures SameValue(a, a)
  {
    assert Pow10(0) == 1;
  }

  lemma LayoutStartsWithDigit(s: Text, n: int)
    requires Significant(s)
    ensures Layout(s, n) != [] && ZERO <= Layout(s, n)[0] <= NINE
  {
  }

  lemma NeverWrittenAsZero(x: Number)
    requires Normal(x) && x.Number?
    ensures NumberText(x) != [ZERO]
  {
    assert Layout(x.digits, x.n)[0] == x.digits[0] || |Layout(x.digits, x.n)| >= 2;
  }

  /**
   The printed form of a positive float is canonical: two reprs print alike exactly when they
   denote the same number.
   */
  lemma SameTextIffSameValue(t: Text, t': Text)
    requires IsDecimalText(t) && IsDecimalText(t') && Denoted(t).m > 0 && Denoted(t').m > 0
    ensures NumberText(NumberOfRepr(false, t)) == NumberText(NumberOfRepr(false, t')) <==>
            SameValue(Denoted(t), Denoted(t'))
  {
    hide IsDecimalText, Denoted, SameValue, ShortestDigits, Layout, Significant;
    ShortestDigitsKeepValue(t);
    ShortestDigitsKeepValue(t');
    var (s, n) := ShortestDigits(t);
    var (s', n') := ShortestDigits(t');
    var v, v' := ValueOf(s, n), ValueOf(s', n');
    SameValueSymmetric(v, Denoted(t));
    SameValueSymmetric(v', Denoted(t'));
    if SameValue(Denoted(t), Denoted(t')) {
      SameValueTransitive(v, Denoted(t), Denoted(t'));
      SameValueTransitive(v, Denoted(t'), v');
      SignificantFormIsUnique(s, n, s', n');
    }
    if NumberText(NumberOfRepr(false, t)) == NumberText(NumberOfRepr(false, t')) {
      NumberTextInjective(Number(false, s, n), Number(false, s', n'));
      SameValueTransitive(Denoted(t), v, Denoted(t'));
    }
  }
}
