/**
 Python's `sorted`, as insertion sort over a total order, and the code-point order of text.

 The models rely on one fact: the sorted form of a list depends only on its elements, because
 no two different elements tie.  Sorting is stable in Python, and so is insertion sort, but
 nothing here needs that.  Sets of texts are sorted through any listing of their elements.

 Texts are compared code unit by code unit, a prefix before its extensions.
 */
module Sorting {

  /** Python text, as code points (lone surrogates included). */
  type Text = seq<nat>

  function Ascii(s: string): Text {
    seq(|s|, i requires 0 <= i < |s| => s[i] as nat)
  }

  /** Any two values compare, and comparison is transitive; ties are allowed. */
  ghost predicate TotalPreorder<T(!new)>(leq: (T, T) -> bool) {
    && (forall x, y :: leq(x, y) || leq(y, x))
    && (forall x, y, z :: leq(x, y) && leq(y, z) ==> leq(x, z))
  }

  ghost predicate TotalOrder<T(!new)>(leq: (T, T) -> bool) {
    && TotalPreorder(leq)
    && (forall x, y :: leq(x, y) && leq(y, x) ==> x == y)
  }

  /** No two different elements of s tie. */
  ghost predicate TieFree<T>(s: seq<T>, leq: (T, T) -> bool) {
    forall x, y :: x in s && y in s && leq(x, y) && leq(y, x) ==> x == y
  }

  ghost predicate Sorted<T>(s: seq<T>, leq: (T, T) -> bool) {
    forall i, j :: 0 <= i < j < |s| ==> leq(s[i], s[j])
  }

  ghost predicate Distinct<T>(s: seq<T>) {
    forall i, j :: 0 <= i < j < |s| ==> s[i] != s[j]
  }

  function Insert<T>(x: T, s: seq<T>, leq: (T, T) -> bool): (r: seq<T>)
    ensures multiset(r) == multiset(s) + multiset{x}
  {
    if s == [] || leq(x, s[0]) then [x] + s
    else
      assert s == [s[0]] + s[1..];
      [s[0]] + Insert(x, s[1..], leq)
  }

  function Sort<T>(s: seq<T>, leq: (T, T) -> bool): (r: seq<T>)
    ensures multiset(r) == multiset(s)
  {
    if s == [] then []
    else
      assert s == [s[0]] + s[1..];
      Insert(s[0], Sort(s[1..], leq), leq)
  }

  lemma {:induction false} InsertIsSorted<T(!new)>(x: T, s: seq<T>, leq: (T, T) -> bool)
    requires TotalPreorder(leq) && Sorted(s, leq)
    ensures Sorted(Insert(x, s, leq), leq)
  {
    if s != [] && !leq(x, s[0]) {
      var rest := Insert(x, s[1..], leq);
      InsertIsSorted(x, s[1..], leq);
      forall j | 0 <= j < |rest| ensures leq(s[0], rest[j]) {
        assert rest[j] in multiset(rest);
        assert rest[j] == x || rest[j] in s[1..];
      }
    }
  }

  lemma {:induction false} SortIsSorted<T(!new)>(s: seq<T>, leq: (T, T) -> bool)
    requires TotalPreorder(leq)
    ensures Sorted(Sort(s, leq), leq)
  {
    if s != [] {
      SortIsSorted(s[1..], leq);
      InsertIsSorted(s[0], Sort(s[1..], leq), leq);
    }
  }

  /** Two sorted lists with the same elements, repeats included, are the same list. */
  lemma {:induction false} SortedIsUnique<T>(a: seq<T>, b: seq<T>, leq: (T, T) -> bool)
    requires TieFree(a, leq) && Sorted(a, leq) && Sorted(b, leq)
    requires multiset(a) == multiset(b)
    ensures a == b
  {
    hide Sorted, TieFree;
    SameLength(a, b);
    if a != [] {
      SameFirst(a, b, leq);
      RestOfMultiset(a);
      RestOfMultiset(b);
      RestKeeps(a, leq);
      RestKeeps(b, leq);
      SortedIsUnique(a[1..], b[1..], leq);
      SameFromParts(a, b);
    }
  }

  lemma SameLength<T>(a: seq<T>, b: seq<T>)
    requires multiset(a) == multiset(b)
    ensures |a| == |b|
  {
    assert |a| == |multiset(a)| && |b| == |multiset(b)|;
  }

  lemma SameFromParts<T>(a: seq<T>, b: seq<T>)
    requires a != [] && b != [] && a[0] == b[0] && a[1..] == b[1..]
    ensures a == b
  {
    assert a == [a[0]] + a[1..] && b == [b[0]] + b[1..];
  }

  lemma RestKeeps<T>(a: seq<T>, leq: (T, T) -> bool)
    requires a != []
    ensures Sorted(a, leq) ==> Sorted(a[1..], leq)
    ensures TieFree(a, leq) ==> TieFree(a[1..], leq)
  {
    forall x | x in a[1..] ensures x in a {}
  }

  lemma SameFirst<T>(a: seq<T>, b: seq<T>, leq: (T, T) -> bool)
    requires TieFree(a, leq) && Sorted(a, leq) && Sorted(b, leq) && a != [] && b != []
    requires multiset(a) == multiset(b)
    ensures a[0] == b[0]
  {
    LeastIsFirst(a, b, leq);
    LeastIsFirst(b, a, leq);
  }

  lemma LeastIsFirst<T>(a: seq<T>, b: seq<T>, leq: (T, T) -> bool)
    requires Sorted(a, leq) && multiset(a) == multiset(b) && a != [] && b != []
    ensures b[0] in a && (a[0] == b[0] || leq(a[0], b[0]))
  {
    assert b[0] in multiset(a);
    var i :| 0 <= i < |a| && a[i] == b[0];
  }

  lemma RestOfMultiset<T>(a: seq<T>)
    requires a != []
    ensures multiset(a[1..]) == multiset(a) - multiset{a[0]}
  {
    assert a == [a[0]] + a[1..];
  }

  /** Sorting forgets the order it was given. */
  lemma SortIgnoresOrder<T(!new)>(a: seq<T>, b: seq<T>, leq: (T, T) -> bool)
    requires TotalPreorder(leq) && TieFree(a, leq) && multiset(a) == multiset(b)
    ensures Sort(a, leq) == Sort(b, leq)
  {
    forall x | x in Sort(a, leq) ensures x in a {
      assert x in multiset(Sort(a, leq));
    }
    SortIsSorted(a, leq);
    SortIsSorted(b, leq);
    SortedIsUnique(Sort(a, leq), Sort(b, leq), leq);
  }

  function Mapped<A, B>(s: seq<A>, f: A -> B): (r: seq<B>)
    ensures |r| == |s|
  {
    seq(|s|, i requires 0 <= i < |s| => f(s[i]))
  }

  function Without<A>(s: seq<A>, i: nat): seq<A>
    requires i < |s|
  {
    s[..i] + s[i + 1..]
  }

  /** Mapping respects permutation. */
  lemma {:induction false} MappedPermutes<A, B>(a: seq<A>, b: seq<A>, f: A -> B)
    requires multiset(a) == multiset(b)
    ensures multiset(Mapped(a, f)) == multiset(Mapped(b, f))
    decreases |a|
  {
    hide Mapped, Without;
    SameLength(a, b);
    if a == [] {
      assert a == b;
    } else {
      var i := Counterpart(a, b);
      WithoutOne(a, 0);
      WithoutOne(b, i);
      MappedPermutes(Without(a, 0), Without(b, i), f);
      MappedWithoutOne(a, 0, f);
      MappedWithoutOne(b, i, f);
    }
  }

  lemma Counterpart<A>(a: seq<A>, b: seq<A>) returns (i: nat)
    requires multiset(a) == multiset(b) && a != []
    ensures i < |b| && b[i] == a[0]
  {
    assert a[0] in multiset(b);
    i :| 0 <= i < |b| && b[i] == a[0];
  }

  lemma WithoutOne<A>(s: seq<A>, i: nat)
    requires i < |s|
    ensures |Without(s, i)| == |s| - 1
    ensures multiset(Without(s, i)) == multiset(s) - multiset{s[i]}
    ensures multiset(s) == multiset(Without(s, i)) + multiset{s[i]}
  {
    assert s == s[..i] + [s[i]] + s[i + 1..];
  }

  lemma MappedWithoutOne<A, B>(s: seq<A>, i: nat, f: A -> B)
    requires i < |s|
    ensures multiset(Mapped(s, f)) == multiset(Mapped(Without(s, i), f)) + multiset{f(s[i])}
  {
    var r := Mapped(s, f);
    assert Mapped(Without(s, i), f) == Without(r, i);
    WithoutOne(r, i);
  }

  /** A list without repeats is determined, up to order, by its set of elements. */
  lemma {:induction false} DistinctMultiset<T>(s: seq<T>)
    requires Distinct(s)
    ensures multiset(s) == multiset(set x | x in s)
  {
    if s != [] {
      DistinctMultiset(s[1..]);
      assert s == [s[0]] + s[1..];
      assert (set x | x in s) == {s[0]} + (set x | x in s[1..]);
    }
  }

  lemma DistinctSurvivesPermutation<T>(a: seq<T>, b: seq<T>)
    requires Distinct(a) && multiset(a) == multiset(b)
    ensures Distinct(b)
  {
    if !Distinct(b) {
      var i, j :| 0 <= i < j < |b| && b[i] == b[j];
      assert b == b[..j] + [b[j]] + b[j + 1..];
      assert b[i] in b[..j];
      assert multiset(b)[b[i]] >= 2;
      DistinctMultiset(a);
      assert false;
    }
  }

  /** Lexicographic order of code-unit sequences. */
  predicate LexLeq(a: Text, b: Text) {
    a == [] || (b != [] && (a[0] < b[0] || (a[0] == b[0] && LexLeq(a[1..], b[1..]))))
  }

  lemma {:induction false} LexTotal(a: Text, b: Text)
    ensures LexLeq(a, b) || LexLeq(b, a)
  {
    if a != [] && b != [] {
      LexTotal(a[1..], b[1..]);
    }
  }

  lemma {:induction false} LexAntisymmetric(a: Text, b: Text)
    requires LexLeq(a, b) && LexLeq(b, a)
    ensures a == b
  {
    if a != [] && b != [] {
      LexAntisymmetric(a[1..], b[1..]);
      assert a == [a[0]] + a[1..] && b == [b[0]] + b[1..];
    }
  }

  lemma {:induction false} LexTransitive(a: Text, b: Text, c: Text)
    requires LexLeq(a, b) && LexLeq(b, c)
    ensures LexLeq(a, c)
  {
    if a != [] && a[0] == b[0] == c[0] {
      LexTransitive(a[1..], b[1..], c[1..]);
    }
  }

  lemma LexIsTotalOrder()
    ensures TotalOrder(LexLeq)
  {
    forall x, y ensures LexLeq(x, y) || LexLeq(y, x) {
      LexTotal(x, y);
    }
    forall x, y | LexLeq(x, y) && LexLeq(y, x) ensures x == y {
      LexAntisymmetric(x, y);
    }
    forall x, y, z | LexLeq(x, y) && LexLeq(y, z) ensures LexLeq(x, z) {
      LexTransitive(x, y, z);
    }
  }

  /** The order of code points: the first difference decides, and a proper prefix stands first. */
  ghost predicate Precedes(a: Text, b: Text) {
    a < b || exists k: nat :: k < |a| && k < |b| && a[..k] == b[..k] && a[k] < b[k]
  }

  lemma {:induction false} LexLeqIffPrecedes(a: Text, b: Text)
    ensures LexLeq(a, b) <==> a == b || Precedes(a, b)
  {
    if a != [] && b != [] {
      LexLeqIffPrecedes(a[1..], b[1..]);
      assert a == [a[0]] + a[1..] && b == [b[0]] + b[1..];
      if a[0] == b[0] {
        PrecedesByRest(a, b);
      } else if a[0] < b[0] {
        assert a[..0] == b[..0];
      }
    }
  }

  lemma PrecedesByRest(a: Text, b: Text)
    requires a != [] && b != [] && a[0] == b[0]
    ensures Precedes(a, b) <==> Precedes(a[1..], b[1..])
  {
    assert a == [a[0]] + a[1..] && b == [b[0]] + b[1..];
    assert a < b <==> a[1..] < b[1..];
    if k: nat :| k < |a| && k < |b| && a[..k] == b[..k] && a[k] < b[k] {
      assert a[1..][..k - 1] == a[..k][1..] && b[1..][..k - 1] == b[..k][1..];
      assert a[1..][k - 1] < b[1..][k - 1];
    }
    if k: nat :| k < |a[1..]| && k < |b[1..]| && a[1..][..k] == b[1..][..k] && a[1..][k] < b[1..][k] {
      assert a[..k + 1] == [a[0]] + a[1..][..k] && b[..k + 1] == [b[0]] + b[1..][..k];
      assert a[k + 1] < b[k + 1];
    }
  }

  /** Order of pairs of texts: first component, then second. */
  predicate PairLeq(p: (Text, Text), q: (Text, Text)) {
    if p.0 == q.0 then LexLeq(p.1, q.1) else LexLeq(p.0, q.0)
  }

  lemma PairIsTotalOrder()
    ensures TotalOrder(PairLeq)
  {
    LexIsTotalOrder();
  }

  /** A smaller first component decides; the second decides between equal first ones. */
  lemma PairLeqIffPrecedes(p: (Text, Text), q: (Text, Text))
    ensures PairLeq(p, q) <==> p == q || Precedes(p.0, q.0) || (p.0 == q.0 && Precedes(p.1, q.1))
  {
    hide Precedes, LexLeq;
    LexLeqIffPrecedes(p.0, q.0);
    LexLeqIffPrecedes(p.1, q.1);
    PrecedesIsStrict(p.0);
  }

  lemma PrecedesIsStrict(a: Text)
    ensures !Precedes(a, a)
  {
  }

  // ----- sorting a set of texts

  /** Some listing of a finite set, without repeats. */
  ghost function Listing<T(!new)>(s: set<T>): (r: seq<T>)
    ensures Distinct(r) && forall x :: x in r <==> x in s
  {
    if s == {} then []
    else
      var x :| x in s;
      [x] + Listing(s - {x})
  }

  /** `sorted(s)` for a set of texts. */
  ghost function SortedTexts(s: set<Text>): (r: seq<Text>)
    ensures forall x :: x in r <==> x in s
  {
    var r := Sort(Listing(s), LexLeq);
    assert forall x :: x in r <==> x in multiset(r);
    r
  }

  /** Ascending, and nothing twice. */
  lemma SortedTextsAscend(s: set<Text>, i: nat, j: nat)
    requires i < j < |SortedTexts(s)|
    ensures Precedes(SortedTexts(s)[i], SortedTexts(s)[j])
  {
    hide Precedes, LexLeq;
    var r := SortedTexts(s);
    LexIsTotalOrder();
    SortIsSorted(Listing(s), LexLeq);
    DistinctSurvivesPermutation(Listing(s), r);
    LexLeqIffPrecedes(r[i], r[j]);
  }

  method SortTexts(s: set<Text>) returns (r: seq<Text>)
    ensures r == SortedTexts(s)
  {
    var all: seq<Text>, rest := [], s;
    while rest != {}
      invariant rest <= s && Distinct(all) && forall x :: x in all <==> x in s && x !in rest
      decreases rest
    {
      var x :| x in rest;
      all, rest := all + [x], rest - {x};
    }
    r := Sort(all, LexLeq);
    DistinctMultiset(all);
    DistinctMultiset(Listing(s));
    assert (set x | x in all) == (set x | x in Listing(s));
    LexIsTotalOrder();
    SortIgnoresOrder(all, Listing(s), LexLeq);
  }
}
