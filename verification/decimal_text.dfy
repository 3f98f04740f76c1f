/**
 Number text of `traigent_schema/fp2.py`: Python's `repr` of a positive float is taken apart
 into significant digits and an exponent and laid out again as ECMAScript does.

 A decimal text denotes a natural number times a power of ten, (m, e) for m * 10^e.
 */
module DecimalText {
  import opened Sorting

  const ZERO: nat := 48
  const NINE: nat := 57
  const POINT: nat := 46
  const LETTER_E: nat := 101
  const PLUS: nat := 43
  const MINUS: nat := 45

  predicate AllDigits(t: Text) {
    forall i :: 0 <= i < |t| ==> ZERO <= t[i] <= NINE
  }

  function Pow10(n: nat): (p: nat)
    ensures p > 0
  {
    if n == 0 then 1 else 10 * Pow10(n - 1)
  }

  lemma {:induction false} Pow10Adds(a: nat, b: nat)
    ensures Pow10(a + b) == Pow10(a) * Pow10(b)
  {
    if a > 0 {
      Pow10Adds(a - 1, b);
    }
  }

  /** The number a digit string spells. */
  function NatOf(t: Text): nat
    requires AllDigits(t)
  {
    if t == [] then 0 else 10 * NatOf(t[..|t| - 1]) + (t[|t| - 1] - ZERO)
  }

  lemma {:induction false} NatOfConcat(a: Text, b: Text)
    requires AllDigits(a) && AllDigits(b)
    ensures AllDigits(a + b) && NatOf(a + b) == NatOf(a) * Pow10(|b|) + NatOf(b)
  {
    if b == [] {
      assert a + b == a;
    } else {
      var rest, last := b[..|b| - 1], b[|b| - 1];
      NatOfConcat(a, rest);
      assert (a + b)[..|a + b| - 1] == a + rest;
      Shift(NatOf(a), Pow10(|rest|), NatOf(rest), last - ZERO);
    }
  }

  lemma Shift(x: int, p: int, r: int, d: int)
    ensures 10 * (x * p + r) + d == x * (10 * p) + (10 * r + d)
  {
  }

  function Zeros(n: nat): (t: Text)
    ensures |t| == n && AllDigits(t)
  {
    seq(n, _ => ZERO)
  }

  lemma {:induction false} NatOfZeros(n: nat)
    ensures NatOf(Zeros(n)) == 0
  {
    if n > 0 {
      NatOfZeros(n - 1);
      assert Zeros(n)[..n - 1] == Zeros(n - 1);
    }
  }

  /** Appending zeros multiplies by a power of ten; prepending them changes nothing. */
  lemma ZerosAround(t: Text, lead: nat, trail: nat)
    requires AllDigits(t)
    ensures NatOf(Zeros(lead) + t) == NatOf(t)
    ensures NatOf(t + Zeros(trail)) == NatOf(t) * Pow10(trail)
  {
    NatOfConcat(Zeros(lead), t);
    NatOfConcat(t, Zeros(trail));
    NatOfZeros(lead);
    NatOfZeros(trail);
  }

  /** Digit strings of the same length spell different numbers unless they are the same. */
  lemma {:induction false} NatOfInjective(a: Text, b: Text)
    requires AllDigits(a) && AllDigits(b) && |a| == |b| && NatOf(a) == NatOf(b)
    ensures a == b
  {
    if a != [] {
      NatOfInjective(a[..|a| - 1], b[..|b| - 1]);
      assert a == a[..|a| - 1] + [a[|a| - 1]] && b == b[..|b| - 1] + [b[|b| - 1]];
    }
  }

  lemma {:induction false} NatOfBounds(a: Text)
    requires AllDigits(a)
    ensures NatOf(a) < Pow10(|a|)
    ensures a != [] && a[0] != ZERO ==> Pow10(|a| - 1) <= NatOf(a)
  {
    if a != [] {
      NatOfBounds(a[..|a| - 1]);
    }
  }

  lemma {:induction false} Pow10Order(a: nat, b: nat)
    requires Pow10(a) < Pow10(b)
    ensures a < b
  {
    if a > 0 && b > 0 {
      Pow10Order(a - 1, b - 1);
    }
  }

  /** Without leading zeros the number determines its digits. */
  lemma NoLeadingZeroInjective(a: Text, b: Text)
    requires AllDigits(a) && AllDigits(b) && a != [] && b != [] && a[0] != ZERO && b[0] != ZERO
    requires NatOf(a) == NatOf(b)
    ensures a == b
  {
    NatOfBounds(a);
    NatOfBounds(b);
    Pow10Order(|a| - 1, |b|);
    Pow10Order(|b| - 1, |a|);
    NatOfInjective(a, b);
  }

  // ----- values

  /** m * 10^e. */
  datatype Decimal = Decimal(m: nat, e: int)

  /** Equality of the denoted numbers, both scaled to the smaller exponent. */
  predicate SameValue(a: Decimal, b: Decimal) {
    if a.e <= b.e then a.m == b.m * Pow10(b.e - a.e) else a.m * Pow10(a.e - b.e) == b.m
  }

  lemma SameValueTransitive(a: Decimal, b: Decimal, c: Decimal)
    requires SameValue(a, b) && SameValue(b, c)
    ensures SameValue(a, c)
  {
    var low := Min(a.e, Min(b.e, c.e));
    Scaled(a, b, low);
    Scaled(b, c, low);
    Scaled(a, c, low);
  }

  function Min(x: int, y: int): int {
    if x <= y then x else y
  }

  /** Any common scale will do. */
  lemma Scaled(a: Decimal, b: Decimal, low: int)
    requires low <= a.e && low <= b.e
    ensures SameValue(a, b) <==> a.m * Pow10(a.e - low) == b.m * Pow10(b.e - low)
  {
    if a.e <= b.e {
      ScaledUp(a.m, b.m, b.e - a.e, a.e - low);
    } else {
      ScaledUp(b.m, a.m, a.e - b.e, b.e - low);
    }
  }

  lemma ScaledUp(x: nat, y: nat, d: nat, k: nat)
    ensures x == y * Pow10(d) <==> x * Pow10(k) == y * Pow10(d + k)
  {
    Pow10Adds(d, k);
    var p := Pow10(k);
    assert y * (Pow10(d) * p) == (y * Pow10(d)) * p;
    CancelFactor(x, y * Pow10(d), p);
  }

  lemma CancelFactor(x: int, y: int, p: int)
    requires p > 0
    ensures x == y <==> x * p == y * p
  {
    if x < y {
      assert (y - x) * p > 0;
    } else if y < x {
      assert (x - y) * p > 0;
    }
  }

  /** Digits without a leading or a trailing zero. */
  ghost predicate Significant(s: Text) {
    AllDigits(s) && s != [] && s[0] != ZERO && s[|s| - 1] != ZERO
  }

  /** The number 0.s * 10^n. */
  function ValueOf(s: Text, n: int): Decimal
    requires AllDigits(s)
  {
    Decimal(NatOf(s), n - |s|)
  }

  /** A positive number has one such form. */
  lemma SignificantFormIsUnique(s: Text, n: int, s': Text, n': int)
    requires Significant(s) && Significant(s') && SameValue(ValueOf(s, n), ValueOf(s', n'))
    ensures s == s' && n == n'
  {
    var e, e' := n - |s|, n' - |s'|;
    if e < e' {
      NotMultipleOfTen(s, NatOf(s'), e' - e);
    } else if e' < e {
      NotMultipleOfTen(s', NatOf(s), e - e');
    }
    NoLeadingZeroInjective(s, s');
  }

  lemma NotMultipleOfTen(s: Text, m: nat, k: nat)
    requires Significant(s) && k > 0
    ensures NatOf(s) != m * Pow10(k)
  {
    var q := m * Pow10(k - 1);
    assert m * Pow10(k) == 10 * q;
  }

  // ----- taking a text apart

  /** Python's `str.partition`: before the first c, and after it when there is one. */
  function Before(t: Text, c: nat): (b: Text)
    ensures c !in b && b <= t
    ensures c !in t ==> b == t
    ensures c in t ==> |b| < |t| && t[|b|] == c
  {
    if t == [] || t[0] == c then [] else
      assert t == [t[0]] + t[1..];
      [t[0]] + Before(t[1..], c)
  }

  function After(t: Text, c: nat): Text {
    var b := Before(t, c);
    if |b| == |t| then [] else t[|b| + 1..]
  }

  lemma {:induction false} PartitionOfJoin(a: Text, c: nat, b: Text)
    requires c !in a
    ensures Before(a + [c] + b, c) == a && After(a + [c] + b, c) == b
  {
    var t := a + [c] + b;
    if a == [] {
      assert t == [c] + b;
    } else {
      assert t[1..] == a[1..] + [c] + b;
      PartitionOfJoin(a[1..], c, b);
      assert a == [a[0]] + a[1..];
    }
  }

  /** Text that Python's `int` reads: digits after an optional sign. */
  predicate IsIntText(t: Text) {
    if t != [] && (t[0] == PLUS || t[0] == MINUS) then t != [t[0]] && AllDigits(t[1..])
    else t != [] && AllDigits(t)
  }

  function IntOf(t: Text): int
    requires IsIntText(t)
  {
    if t[0] == PLUS then NatOf(t[1..])
    else if t[0] == MINUS then -(NatOf(t[1..]) as int)
    else NatOf(t)
  }

  /** The shape of a positive float's repr: digits, optionally a point and digits, optionally an exponent. */
  predicate IsDecimalText(t: Text) {
    var mantissa := Before(t, LETTER_E);
    && Before(mantissa, POINT) != [] && AllDigits(Before(mantissa, POINT)) && AllDigits(After(mantissa, POINT))
    && (LETTER_E in t ==> IsIntText(After(t, LETTER_E)))
  }

  function ExponentOf(t: Text): int
    requires IsDecimalText(t)
  {
    if LETTER_E in t then IntOf(After(t, LETTER_E)) else 0
  }

  /** The number a decimal text denotes. */
  function Denoted(t: Text): Decimal
    requires IsDecimalText(t)
  {
    var mantissa := Before(t, LETTER_E);
    var whole, fraction := Before(mantissa, POINT), After(mantissa, POINT);
    Decimal(NatOf(whole + fraction), ExponentOf(t) - |fraction|)
  }
}
