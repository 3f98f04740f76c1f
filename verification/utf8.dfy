/**
 UTF-8 as RFC 3629 defines it: text of Unicode scalar values against well-formed byte strings.
 */
module Utf8 {
  import opened Outcomes
  import opened Sorting

  type Byte = b: int | 0 <= b < 256

  type Bytes = seq<Byte>

  /** Code points with an encoding: surrogates have none. */
  predicate IsScalar(c: nat) {
    c < 0xD800 || 0xE000 <= c < 0x11_0000
  }

  predicate AllScalars(t: Text) {
    forall i :: 0 <= i < |t| ==> IsScalar(t[i])
  }

  function Continuation(c: nat): (b: Byte)
    ensures IsContinuation(b) && b - 0x80 == c % 64
  {
    0x80 + c % 64
  }

  predicate IsContinuation(b: Byte) {
    0x80 <= b < 0xC0
  }

  /** The six bits a continuation byte carries. */
  function SixBits(b: Byte): (r: nat)
    requires IsContinuation(b)
    ensures r < 64 && r == b - 0x80
  {
    b - 0x80
  }

  /** The encoding of one scalar value, in its shortest form. */
  function EncodeScalarValue(c: nat): (r: Bytes)
    requires IsScalar(c)
    ensures 1 <= |r| <= 4
  {
    if c < 0x80 then [c]
    else if c < 0x800 then [0xC0 + c / 64, Continuation(c)]
    else if c < 0x1_0000 then [0xE0 + c / 4096, Continuation(c / 64), Continuation(c)]
    else [0xF0 + c / 262144, Continuation(c / 4096), Continuation(c / 64), Continuation(c)]
  }

  /** A scalar value and the number of bytes it took. */
  datatype Decoded = Decoded(c: nat, n: nat)

  /** A value is accepted only in its shortest form, and only if it is a scalar value. */
  function Checked(c: nat, least: nat, n: nat): Option<Decoded> {
    if c >= least && IsScalar(c) then Some(Decoded(c, n)) else None
  }

  /** The scalar value at the front of a byte string, if the front is well formed. */
  function DecodeFirst(s: Bytes): (r: Option<Decoded>)
    requires s != []
    ensures r.Some? ==> IsScalar(r.value.c) && 1 <= r.value.n <= |s|
  {
    var b: int := s[0];
    if b < 0x80 then Some(Decoded(b, 1))
    else if 0xC0 <= b < 0xE0 && |s| >= 2 && IsContinuation(s[1]) then
      Checked((b - 0xC0) * 64 + SixBits(s[1]), 0x80, 2)
    else if 0xE0 <= b < 0xF0 && |s| >= 3 && IsContinuation(s[1]) && IsContinuation(s[2]) then
      Checked((b - 0xE0) * 4096 + SixBits(s[1]) * 64 + SixBits(s[2]), 0x800, 3)
    else if 0xF0 <= b < 0xF8 && |s| >= 4 && IsContinuation(s[1]) && IsContinuation(s[2]) && IsContinuation(s[3]) then
      Checked((b - 0xF0) * 262144 + SixBits(s[1]) * 4096 + SixBits(s[2]) * 64 + SixBits(s[3]), 0x1_0000, 4)
    else None
  }

  function Encode(t: Text): Option<Bytes> {
    if t == [] then Some([])
    else if !IsScalar(t[0]) then None
    else
      var rest := Encode(t[1..]);
      if rest.None? then None else Some(EncodeScalarValue(t[0]) + rest.value)
  }

  function Decode(s: Bytes): Option<Text> {
    if s == [] then Some([])
    else
      var first := DecodeFirst(s);
      if first.None? then None
      else
        var rest := Decode(s[first.value.n..]);
        if rest.None? then None else Some([first.value.c] + rest.value)
  }

  /** Digits of c in base 64. */
  lemma Base64Digits(c: nat)
    ensures c == c / 64 * 64 + c % 64
    ensures c == c / 4096 * 4096 + c / 64 % 64 * 64 + c % 64
    ensures c == c / 262144 * 262144 + c / 4096 % 64 * 4096 + c / 64 % 64 * 64 + c % 64
  {
    assert c / 4096 == c / 64 / 64 && c / 262144 == c / 4096 / 64;
  }

  /** Reading back one encoded scalar value, whatever follows. */
  lemma FirstOfEncoded(c: nat, rest: Bytes)
    requires IsScalar(c)
    ensures DecodeFirst(EncodeScalarValue(c) + rest) == Some(Decoded(c, |EncodeScalarValue(c)|))
  {
    Base64Digits(c);
  }

  lemma DigitsBack(a: nat, x: nat, y: nat, z: nat)
    requires x < 64 && y < 64 && z < 64
    ensures var c := a * 64 + z; c / 64 == a && c % 64 == z
    ensures var c := a * 4096 + y * 64 + z; c / 4096 == a && c / 64 % 64 == y && c % 64 == z
    ensures var c := a * 262144 + x * 4096 + y * 64 + z;
            c / 262144 == a && c / 4096 % 64 == x && c / 64 % 64 == y && c % 64 == z
  {
    assert a * 4096 + y * 64 + z == (a * 64 + y) * 64 + z;
    assert a * 262144 + x * 4096 + y * 64 + z == ((a * 64 + x) * 64 + y) * 64 + z;
    LastDigit(a, z);
    LastDigit(a * 64 + y, z);
    LastDigit(a, y);
    LastDigit((a * 64 + x) * 64 + y, z);
    LastDigit(a * 64 + x, y);
    LastDigit(a, x);
    NestedQuotients((a * 64 + y) * 64 + z);
    NestedQuotients(((a * 64 + x) * 64 + y) * 64 + z);
  }

  lemma LastDigit(q: nat, r: nat)
    requires r < 64
    ensures (q * 64 + r) / 64 == q && (q * 64 + r) % 64 == r
  {
  }

  lemma NestedQuotients(c: nat)
    ensures c / 4096 == c / 64 / 64 && c / 262144 == c / 64 / 64 / 64
  {
    assert c / 4096 == c / 64 / 64;
  }

  /** The front of a byte string that decodes is the encoding of what it decodes to. */
  lemma FirstIsEncoded(s: Bytes)
    requires s != [] && DecodeFirst(s).Some?
    ensures var d := DecodeFirst(s).value; EncodeScalarValue(d.c) == s[..d.n]
  {
    var d := DecodeFirst(s).value;
    if d.n == 2 {
      TwoBytes(s);
    } else if d.n == 3 {
      ThreeBytes(s);
    } else if d.n == 4 {
      FourBytes(s);
    }
  }

  lemma TwoBytes(s: Bytes)
    requires s != [] && DecodeFirst(s).Some? && DecodeFirst(s).value.n == 2
    ensures EncodeScalarValue(DecodeFirst(s).value.c) == s[..2]
  {
    var b: int := s[0];
    DigitsBack(b - 0xC0, 0, 0, SixBits(s[1]));
  }

  lemma ThreeBytes(s: Bytes)
    requires s != [] && DecodeFirst(s).Some? && DecodeFirst(s).value.n == 3
    ensures EncodeScalarValue(DecodeFirst(s).value.c) == s[..3]
  {
    var b: int := s[0];
    DigitsBack(b - 0xE0, 0, SixBits(s[1]), SixBits(s[2]));
  }

  lemma FourBytes(s: Bytes)
    requires s != [] && DecodeFirst(s).Some? && DecodeFirst(s).value.n == 4
    ensures EncodeScalarValue(DecodeFirst(s).value.c) == s[..4]
  {
    var b: int := s[0];
    DigitsBack(b - 0xF0, SixBits(s[1]), SixBits(s[2]), SixBits(s[3]));
  }

  lemma {:induction false} EncodesIffScalars(t: Text)
    ensures Encode(t).Some? <==> AllScalars(t)
  {
    if t != [] {
      EncodesIffScalars(t[1..]);
      assert AllScalars(t) <==> IsScalar(t[0]) && AllScalars(t[1..]) by {
        forall i | 0 < i < |t| ensures t[i] == t[1..][i - 1] {}
        forall i | 0 <= i < |t| - 1 ensures t[1..][i] == t[i + 1] {}
      }
    }
  }

  lemma {:induction false} DecodeUndoesEncode(t: Text)
    requires Encode(t).Some?
    ensures Decode(Encode(t).value) == Some(t)
  {
    if t != [] {
      var front, rest := EncodeScalarValue(t[0]), Encode(t[1..]).value;
      DecodeUndoesEncode(t[1..]);
      FirstOfEncoded(t[0], rest);
      hide DecodeFirst, EncodeScalarValue;
      assert (front + rest)[|front|..] == rest;
      assert Encode(t) == Some(front + rest);
      assert [t[0]] + t[1..] == t;
    }
  }

  lemma {:induction false} EncodeUndoesDecode(s: Bytes)
    requires Decode(s).Some?
    ensures Encode(Decode(s).value) == Some(s)
    decreases |s|
  {
    hide DecodeFirst, EncodeScalarValue;
    if s != [] {
      var d := DecodeFirst(s).value;
      EncodeUndoesDecode(s[d.n..]);
      FirstIsEncoded(s);
      var t := Decode(s).value;
      assert t[1..] == Decode(s[d.n..]).value;
      assert s == s[..d.n] + s[d.n..];
    }
  }

  // ----- order

  /** Bytes as text to be compared. */
  /** The value spelled by a lead byte above `lead` and continuation bytes of six bits each. */
  function Spelled(b: Bytes, lead: int): int
    requires b != []
  {
    var last: int := b[|b| - 1];
    if |b| == 1 then last - lead else Spelled(b[..|b| - 1], lead) * 0x40 + (last - 0x80)
  }

  /**
   The bytes of section 3 of RFC 3629: the lead byte tells the length, and its low bits and the six
   low bits of each continuation byte spell the value.
   */
  lemma BytesOfScalar(c: nat)
    requires IsScalar(c)
    ensures var b := EncodeScalarValue(c);
            && b != []
            && (c < 0x80 ==> |b| == 1 && b[0] <= 0x7F && c == Spelled(b, 0))
            && (0x80 <= c < 0x800 ==> |b| == 2 && 0xC2 <= b[0] <= 0xDF && c == Spelled(b, 0xC0))
            && (0x800 <= c < 0x10000 ==> |b| == 3 && 0xE0 <= b[0] <= 0xEF && c == Spelled(b, 0xE0))
            && (0x10000 <= c ==> |b| == 4 && 0xF0 <= b[0] <= 0xF4 && c == Spelled(b, 0xF0))
            && forall i :: 0 < i < |b| ==> 0x80 <= b[i] <= 0xBF
  {
    NestedQuotients(c);
    Base64Digits(c);
    var b := EncodeScalarValue(c);
    if |b| == 2 {
      SpelledTwo(b[0], b[1], 0xC0);
    } else if |b| == 3 {
      SpelledThree(b[0], b[1], b[2], 0xE0);
    } else if |b| == 4 {
      SpelledFour(b[0], b[1], b[2], b[3], 0xF0);
    }
  }

  lemma SpelledTwo(x: Byte, y: Byte, lead: int)
    ensures Spelled([x, y], lead) == ((x as int) - lead) * 0x40 + ((y as int) - 0x80)
  {
    assert [x, y][..1] == [x];
  }

  lemma SpelledThree(x: Byte, y: Byte, z: Byte, lead: int)
    ensures Spelled([x, y, z], lead) == (((x as int) - lead) * 0x40 + ((y as int) - 0x80)) * 0x40 + ((z as int) - 0x80)
  {
    assert [x, y, z][..2] == [x, y];
    SpelledTwo(x, y, lead);
  }

  lemma SpelledFour(x: Byte, y: Byte, z: Byte, w: Byte, lead: int)
    ensures Spelled([x, y, z, w], lead)
         == ((((x as int) - lead) * 0x40 + ((y as int) - 0x80)) * 0x40 + ((z as int) - 0x80)) * 0x40 + ((w as int) - 0x80)
  {
    assert [x, y, z, w][..3] == [x, y, z];
    SpelledThree(x, y, z, lead);
  }

  function AsText(s: Bytes): (t: Text)
    ensures |t| == |s| && forall i :: 0 <= i < |s| ==> t[i] == s[i]
  {
    s
  }

  lemma {:induction false} LexAfterPrefix(p: Text, x: Text, y: Text)
    ensures LexLeq(p + x, p + y) <==> LexLeq(x, y)
  {
    if p == [] {
      assert p + x == x && p + y == y;
    } else {
      assert (p + x)[1..] == p[1..] + x && (p + y)[1..] == p[1..] + y;
      LexAfterPrefix(p[1..], x, y);
    }
  }

  /** The first difference decides. */
  lemma LexAtDifference(u: Text, v: Text, k: nat, x: Text, y: Text)
    requires k < |u| && k < |v| && u[..k] == v[..k] && u[k] < v[k]
    ensures LexLeq(u + x, v + y) && !LexLeq(v + y, u + x)
  {
    var p, a, b := u[..k], u[k..] + x, v[k..] + y;
    assert u + x == p + a && v + y == p + b;
    assert a[0] == u[k] && b[0] == v[k];
    LexAfterPrefix(p, a, b);
    LexAfterPrefix(p, b, a);
  }

  /** Where the encodings of two values first differ, the smaller value has the smaller byte. */
  lemma FirstDifference(c: nat, d: nat) returns (k: nat)
    requires IsScalar(c) && IsScalar(d) && c < d
    ensures var u, v := EncodeScalarValue(c), EncodeScalarValue(d);
            k < |u| && k < |v| && u[..k] == v[..k] && u[k] < v[k]
  {
    k := DifferentDigit(c, d, |EncodeScalarValue(c)|);
    DigitOrder(c, d);
    if |EncodeScalarValue(c)| != |EncodeScalarValue(d)| {
      LeadBytes(c, d);
      k := 0;
    } else {
      SameLength(c, d, k);
    }
  }

  /** The first of n digits in base 64 in which two numbers differ. */
  function DifferentDigit(c: nat, d: nat, n: nat): (k: nat) {
    if n >= 4 && c / 262144 != d / 262144 then (n - 4) as nat
    else if n >= 3 && c / 4096 != d / 4096 then (n - 3) as nat
    else if n >= 2 && c / 64 != d / 64 then (n - 2) as nat
    else if n >= 1 then n - 1
    else 0
  }

  lemma DigitOrder(c: nat, d: nat)
    requires c < d
    ensures c / 262144 <= d / 262144 && c / 4096 <= d / 4096 && c / 64 <= d / 64
    ensures c / 262144 == d / 262144 && c / 4096 < d / 4096 ==> c / 4096 % 64 < d / 4096 % 64
    ensures c / 4096 == d / 4096 && c / 64 < d / 64 ==> c / 64 % 64 < d / 64 % 64
    ensures c / 64 == d / 64 ==> c % 64 < d % 64
  {
    NestedQuotients(c);
    NestedQuotients(d);
    QuotientOrder(c, d);
    QuotientOrder(c / 64, d / 64);
    QuotientOrder(c / 64 / 64, d / 64 / 64);
  }

  lemma QuotientOrder(c: nat, d: nat)
    requires c <= d
    ensures c / 64 <= d / 64
    ensures c / 64 == d / 64 ==> d - c == d % 64 - c % 64
  {
  }

  lemma LeadBytes(c: nat, d: nat)
    requires IsScalar(c) && IsScalar(d) && c < d && |EncodeScalarValue(c)| != |EncodeScalarValue(d)|
    ensures EncodeScalarValue(c)[0] < EncodeScalarValue(d)[0]
  {
  }

  lemma SameLength(c: nat, d: nat, k: nat)
    requires IsScalar(c) && IsScalar(d) && c < d && |EncodeScalarValue(c)| == |EncodeScalarValue(d)|
    requires k == DifferentDigit(c, d, |EncodeScalarValue(c)|)
    ensures var u, v := EncodeScalarValue(c), EncodeScalarValue(d);
            k < |u| && u[..k] == v[..k] && u[k] < v[k]
  {
    DigitOrder(c, d);
    NestedQuotients(c);
    NestedQuotients(d);
  }

  /** The bytes of two texts compare as the texts do. */
  lemma {:induction false} BytesCompareAsText(a: Text, b: Text)
    requires Encode(a).Some? && Encode(b).Some?
    ensures LexLeq(AsText(Encode(a).value), AsText(Encode(b).value)) <==> LexLeq(a, b)
  {
    if a != [] && b != [] {
      var u, v := EncodeScalarValue(a[0]), EncodeScalarValue(b[0]);
      var x, y := Encode(a[1..]).value, Encode(b[1..]).value;
      assert AsText(Encode(a).value) == AsText(u) + AsText(x) && AsText(Encode(b).value) == AsText(v) + AsText(y);
      hide EncodeScalarValue, AsText;
      if a[0] == b[0] {
        LexAfterPrefix(AsText(u), AsText(x), AsText(y));
        BytesCompareAsText(a[1..], b[1..]);
      } else if a[0] < b[0] {
        var k := FirstDifference(a[0], b[0]);
        LexAtDifference(AsText(u), AsText(v), k, AsText(x), AsText(y));
      } else {
        var k := FirstDifference(b[0], a[0]);
        LexAtDifference(AsText(v), AsText(u), k, AsText(y), AsText(x));
      }
    }
  }
}
