/** The dataset-version digest of `traigent_schema/content_identity.py`. */
module DatasetDigest {
  // Rows are sorted by the UTF-16 order of their id and, between equal ids, by the UTF-8 bytes of
  // their canonical text; the ids themselves are not hashed.

  import opened Outcomes
  import opened Sorting
  import opened CanonicalText
  import opened Utf8
  import opened JsonReader

  // ----- rows of any projection

  datatype Row = Row(id: Text, projection: Json)

  /** The bytes a text compares by; one with a lone surrogate is never hashed. */
  function ByteKey(t: Text): Text {
    if Encode(t).Some? then AsText(Encode(t).value) else []
  }

  ghost function RowKey(r: Row): (Text, Text)
    requires WellFormed(r.projection)
  {
    (SortKey(r.id), ByteKey(TextOf(r.projection)))
  }

  ghost predicate RowLeq(a: Row, b: Row) {
    if !(WellFormed(a.projection) && WellFormed(b.projection)) then !WellFormed(a.projection)
    else PairLeq(RowKey(a), RowKey(b))
  }

  /** The bytes that are hashed; None when an id or a projected text has a lone surrogate. */
  ghost function HashedBytes(rows: seq<Row>): Option<Bytes>
    requires forall r :: r in rows ==> WellFormed(r.projection)
  {
    if exists r :: r in rows && !Encodable(r.id) then None
    else
      RowsStayWellFormed(rows);
      Encode(TextOf(JArray(Projections(Sort(rows, (a, b) => RowLeq(a, b))))))
  }

  ghost function Projections(rows: seq<Row>): seq<Json> {
    seq(|rows|, i requires 0 <= i < |rows| => rows[i].projection)
  }

  lemma RowsStayWellFormed(rows: seq<Row>)
    requires forall r :: r in rows ==> WellFormed(r.projection)
    ensures WellFormed(JArray(Projections(Sort(rows, (a, b) => RowLeq(a, b)))))
  {
    var sorted := Sort(rows, (a, b) => RowLeq(a, b));
    forall i | 0 <= i < |sorted| ensures WellFormed(sorted[i].projection) {
      assert sorted[i] in multiset(rows);
    }
  }

  lemma RowsArePreordered()
    ensures TotalPreorder((a, b) => RowLeq(a, b))
  {
    hide SortKey, TextOf, ByteKey, RowKey;
    PairIsTotalOrder();
    var leq := (a, b) => RowLeq(a, b);
    forall x: Row, y: Row ensures leq(x, y) || leq(y, x) {
      if WellFormed(x.projection) && WellFormed(y.projection) {
        assert PairLeq(RowKey(x), RowKey(y)) || PairLeq(RowKey(y), RowKey(x));
      }
    }
    forall x: Row, y: Row, z: Row | leq(x, y) && leq(y, z) ensures leq(x, z) {
      if WellFormed(x.projection) && WellFormed(y.projection) && WellFormed(z.projection) {
        assert PairLeq(RowKey(x), RowKey(y)) && PairLeq(RowKey(y), RowKey(z));
      }
    }
  }

  /** Comparing the bytes of two canonical texts is comparing their code points. */
  lemma RowsCompareByText(a: Row, b: Row)
    requires WellFormed(a.projection) && WellFormed(b.projection)
    requires Encode(TextOf(a.projection)).Some? && Encode(TextOf(b.projection)).Some?
    ensures RowLeq(a, b) <==> PairLeq((SortKey(a.id), TextOf(a.projection)), (SortKey(b.id), TextOf(b.projection)))
  {
    hide SortKey, TextOf, Encode;
    BytesCompareAsText(TextOf(a.projection), TextOf(b.projection));
  }

  /** Rows of equal id and equal text are the same row, so no two rows tie. */
  lemma RowsDoNotTie(a: Row, b: Row)
    requires WellFormed(a.projection) && WellFormed(b.projection) && Encodable(a.id) && Encodable(b.id)
    requires Encode(TextOf(a.projection)).Some? && Encode(TextOf(b.projection)).Some?
    requires RowLeq(a, b) && RowLeq(b, a)
    ensures a == b
  {
    RowsCompareByText(a, b);
    RowsCompareByText(b, a);
    hide RowLeq, SortKey, TextOf, Encode, Encodable, WellFormed;
    if SortKey(a.id) != SortKey(b.id) {
      LexAntisymmetric(SortKey(a.id), SortKey(b.id));
    }
    LexTotal(SortKey(a.id), SortKey(a.id));
    NamesDoNotTie(a.id, b.id);
    LexAntisymmetric(TextOf(a.projection), TextOf(b.projection));
    TextIsInjective(a.projection, b.projection);
  }

  /** The text of an array has an encoding exactly when its items' texts do. */
  lemma {:induction false} ItemsEncode(items: seq<Json>, first: bool)
    requires forall i :: 0 <= i < |items| ==> WellFormed(items[i])
    ensures AllScalars(ItemsText(items, first)) <==> forall i :: 0 <= i < |items| ==> AllScalars(TextOf(items[i]))
    decreases |items|
  {
    hide TextOf;
    if items != [] {
      var rest := items[1..];
      ItemsEncode(rest, false);
      var sep := if first then [] else [COMMA];
      ScalarsJoin(sep, TextOf(items[0]));
      ScalarsJoin(sep + TextOf(items[0]), ItemsText(rest, false));
      assert AllScalars(sep);
      forall i | 0 < i < |items| ensures items[i] == rest[i - 1] {}
      forall i | 0 <= i < |rest| ensures rest[i] == items[i + 1] {}
    }
  }

  lemma ScalarsJoin(a: Text, b: Text)
    ensures AllScalars(a + b) <==> AllScalars(a) && AllScalars(b)
  {
    forall i | 0 <= i < |a| ensures (a + b)[i] == a[i] {}
    forall i | 0 <= i < |b| ensures (a + b)[|a| + i] == b[i] {}
  }

  lemma ArrayEncodes(items: seq<Json>)
    requires WellFormed(JArray(items))
    ensures Encode(TextOf(JArray(items))).Some? <==>
            forall i :: 0 <= i < |items| ==> WellFormed(items[i]) && Encode(TextOf(items[i])).Some?
  {
    EncodesIffScalars(TextOf(JArray(items)));
    ItemsEncode(items, true);
    ScalarsJoin([OPEN_ARRAY], ItemsText(items, true));
    hide TextOf, Encode, ItemsText;
    assert AllScalars([OPEN_ARRAY]);
    forall i | 0 <= i < |items| ensures Encode(TextOf(items[i])).Some? <==> AllScalars(TextOf(items[i])) {
      EncodesIffScalars(TextOf(items[i]));
    }
  }

  /** Rows hash at all exactly when every id and every projected text is encodable. */
  lemma HashesIffEncodable(rows: seq<Row>)
    requires forall r :: r in rows ==> WellFormed(r.projection)
    ensures HashedBytes(rows).Some? <==>
            forall r :: r in rows ==> Encodable(r.id) && Encode(TextOf(r.projection)).Some?
  {
    RowsStayWellFormed(rows);
    var leq := (a, b) => RowLeq(a, b);
    var sorted := Sort(rows, leq);
    ArrayEncodes(Projections(sorted));
    hide TextOf, Encode, RowLeq, Sort, Projections, Encodable;
    SortedRows(rows, leq);
    ProjectionsEncode(sorted);
  }

  lemma SortedRows(rows: seq<Row>, leq: (Row, Row) -> bool)
    ensures forall r :: r in rows <==> r in Sort(rows, leq)
  {
    forall r: Row ensures r in rows <==> r in Sort(rows, leq) {
      assert r in multiset(rows) <==> r in multiset(Sort(rows, leq));
    }
  }

  lemma ProjectionsEncode(rows: seq<Row>)
    requires forall r :: r in rows ==> WellFormed(r.projection)
    ensures |Projections(rows)| == |rows| && forall i :: 0 <= i < |rows| ==> WellFormed(Projections(rows)[i])
    ensures (forall i :: 0 <= i < |rows| ==> Encode(TextOf(Projections(rows)[i])).Some?) <==>
            forall r :: r in rows ==> Encode(TextOf(r.projection)).Some?
  {
    hide TextOf, Encode;
    if forall i :: 0 <= i < |rows| ==> Encode(TextOf(Projections(rows)[i])).Some? {
      forall r | r in rows ensures Encode(TextOf(r.projection)).Some? {
        var i :| 0 <= i < |rows| && rows[i] == r;
        assert Projections(rows)[i] == r.projection;
      }
    }
  }

  /** Of two hashed rows the earlier has the smaller id key, or the same key and a text that is no larger. */
  ghost predicate RowsAscend(rows: seq<Row>) {
    forall i, j :: 0 <= i < j < |rows| && WellFormed(rows[i].projection) && WellFormed(rows[j].projection) ==>
      RowAscends(rows[i], rows[j])
  }

  ghost predicate RowAscends(a: Row, b: Row)
    requires WellFormed(a.projection) && WellFormed(b.projection)
  {
    var s, t := TextOf(a.projection), TextOf(b.projection);
    Precedes(SortKey(a.id), SortKey(b.id)) || (SortKey(a.id) == SortKey(b.id) && (s == t || Precedes(s, t)))
  }

  /** What is hashed is the array of the rows' projections, by id key first and by text second. */
  lemma HashedRowsAscend(rows: seq<Row>) returns (sorted: seq<Row>)
    requires (forall r :: r in rows ==> WellFormed(r.projection)) && HashedBytes(rows).Some?
    ensures multiset(sorted) == multiset(rows) && WellFormed(JArray(Projections(sorted)))
    ensures HashedBytes(rows) == Encode(TextOf(JArray(Projections(sorted))))
    ensures RowsAscend(sorted)
  {
    hide TextOf, Encode, RowLeq, RowAscends;
    var leq := (a, b) => RowLeq(a, b);
    sorted := Sort(rows, leq);
    RowsStayWellFormed(rows);
    RowsArePreordered();
    SortIsSorted(rows, leq);
    HashesIffEncodable(rows);
    SortedRows(rows, leq);
    hide HashedBytes, Sort, WellFormed;
    forall i, j | 0 <= i < j < |sorted| && WellFormed(sorted[i].projection) && WellFormed(sorted[j].projection)
      ensures RowAscends(sorted[i], sorted[j])
    {
      assert leq(sorted[i], sorted[j]);
      RowLeqAscends(sorted[i], sorted[j]);
    }
  }

  lemma RowLeqAscends(a: Row, b: Row)
    requires WellFormed(a.projection) && WellFormed(b.projection) && RowLeq(a, b)
    requires Encode(TextOf(a.projection)).Some? && Encode(TextOf(b.projection)).Some?
    ensures RowAscends(a, b)
  {
    hide SortKey, TextOf, Encode, Precedes, PairLeq;
    RowsCompareByText(a, b);
    PairLeqIffPrecedes((SortKey(a.id), TextOf(a.projection)), (SortKey(b.id), TextOf(b.projection)));
  }

  /** The hashed bytes do not depend on the order rows are supplied in, even when ids collide. */
  lemma HashIgnoresRowOrder(a: seq<Row>, b: seq<Row>)
    requires (forall r :: r in a ==> WellFormed(r.projection)) && multiset(a) == multiset(b)
    ensures forall r :: r in b ==> WellFormed(r.projection)
    ensures HashedBytes(a) == HashedBytes(b)
  {
    forall r: Row ensures r in a <==> r in b {
      assert r in multiset(a) <==> r in multiset(b);
    }
    HashesIffEncodable(a);
    HashesIffEncodable(b);
    hide RowLeq, TextOf, Encode, Sort;
    if HashedBytes(a).Some? {
      var leq := (x, y) => RowLeq(x, y);
      forall x, y | x in a && y in a && leq(x, y) && leq(y, x) ensures x == y {
        RowsDoNotTie(x, y);
      }
      RowsArePreordered();
      SortIgnoresOrder(a, b, leq);
    }
  }

  /** Two datasets are hashed alike only if they hold the same projections in id order. */
  lemma HashDeterminesProjections(a: seq<Row>, b: seq<Row>)
    requires (forall r :: r in a ==> WellFormed(r.projection)) && (forall r :: r in b ==> WellFormed(r.projection))
    requires HashedBytes(a).Some? && HashedBytes(a) == HashedBytes(b)
    ensures Projections(Sort(a, (x, y) => RowLeq(x, y))) == Projections(Sort(b, (x, y) => RowLeq(x, y)))
  {
    RowsStayWellFormed(a);
    RowsStayWellFormed(b);
    var x, y := JArray(Projections(Sort(a, (x, y) => RowLeq(x, y)))), JArray(Projections(Sort(b, (x, y) => RowLeq(x, y))));
    hide TextOf, Encode, RowLeq, Sort, Projections;
    DecodeUndoesEncode(TextOf(x));
    DecodeUndoesEncode(TextOf(y));
    TextIsInjective(x, y);
  }

  // ----- examples

  datatype Input = OneText(s: Text) | Texts(items: seq<Text>)

  /** An example; a missing expected output counts as None. */
  datatype Example = Example(id: Text, input: Input, expected: Option<Text>)

  const EXPECTED_OUTPUT: Text := Ascii("expected_output")
  const INPUT_TEXT: Text := Ascii("input_text")

  function Strings(ts: seq<Text>): seq<Json> {
    seq(|ts|, i requires 0 <= i < |ts| => JString(ts[i]))
  }

  /** What is hashed of an example, its two members in canonical order. */
  function ProjectionOf(e: Example): Json {
    JObject([
      Member(EXPECTED_OUTPUT, if e.expected.Some? then JString(e.expected.value) else JNull),
      Member(INPUT_TEXT, if e.input.OneText? then JString(e.input.s) else JArray(Strings(e.input.items)))
    ])
  }

  function RowsOf(examples: seq<Example>): (rows: seq<Row>)
    ensures |rows| == |examples|
  {
    seq(|examples|, i requires 0 <= i < |examples| => Row(examples[i].id, ProjectionOf(examples[i])))
  }

  lemma ProjectionsAreWellFormed(examples: seq<Example>)
    ensures forall r :: r in RowsOf(examples) ==> WellFormed(r.projection)
  {
    forall e: Example ensures WellFormed(ProjectionOf(e)) {
      ProjectionIsWellFormed(e);
    }
  }

  lemma ProjectionIsWellFormed(e: Example)
    ensures WellFormed(ProjectionOf(e))
  {
  }

  /** `compute_dataset_version_content_digest`, up to the injective hash. */
  ghost function ContentDigest(examples: seq<Example>): Option<Bytes> {
    ProjectionsAreWellFormed(examples);
    HashedBytes(RowsOf(examples))
  }

  /** The projection keeps the content of an example and drops its id. */
  lemma ProjectionDeterminesContent(a: Example, b: Example)
    ensures ProjectionOf(a) == ProjectionOf(b) <==> a.input == b.input && a.expected == b.expected
  {
    var x, y := ProjectionOf(a).members, ProjectionOf(b).members;
    if ProjectionOf(a) == ProjectionOf(b) {
      assert x[0].value == y[0].value && x[1].value == y[1].value;
      if a.input.Texts? {
        var s, t := a.input.items, b.input.items;
        assert |Strings(s)| == |Strings(t)|;
        forall i | 0 <= i < |s| ensures s[i] == t[i] {
          assert Strings(s)[i] == Strings(t)[i];
        }
      }
    }
  }

  /** What is hashed of an example, read as JSON: its expected output or null, and its input text or texts. */
  lemma ProjectionShows(e: Example)
    ensures WellFormed(ProjectionOf(e)) && ReadText(TextOf(ProjectionOf(e))).Some?
    ensures var j := ReadText(TextOf(ProjectionOf(e))).value;
            && j.JObject? && |j.members| == 2
            && j.members[0].name == Ascii("expected_output") && j.members[1].name == Ascii("input_text")
            && j.members[0].value == (if e.expected.Some? then JString(e.expected.value) else JNull)
            && (e.input.OneText? ==> j.members[1].value == JString(e.input.s))
            && (e.input.Texts? ==>
                  && j.members[1].value.JArray? && |j.members[1].value.items| == |e.input.items|
                  && forall i :: 0 <= i < |e.input.items| ==> j.members[1].value.items[i] == JString(e.input.items[i]))
  {
    hide TextOf, ReadText;
    ProjectionIsWellFormed(e);
    TextReads(ProjectionOf(e));
  }

  /** Its members stand in the order of RFC 8785. */
  lemma ProjectionInOrder(e: Example)
    ensures Precedes(Utf16(ProjectionOf(e).members[0].name), Utf16(ProjectionOf(e).members[1].name))
  {
    var x, y := Utf16(EXPECTED_OUTPUT), Utf16(INPUT_TEXT);
    assert x[0] == 'e' as nat && y[0] == 'i' as nat;
    assert x[..0] == y[..0];
  }

  lemma ProjectionsPermute(a: seq<Row>, b: seq<Row>)
    requires multiset(a) == multiset(b)
    ensures multiset(Projections(a)) == multiset(Projections(b))
  {
    var f := (r: Row) => r.projection;
    MappedPermutes(a, b, f);
    assert Projections(a) == Mapped(a, f) && Projections(b) == Mapped(b, f);
  }

  /** Datasets with one digest hold the same contents, repeats included. */
  lemma DigestDeterminesContents(a: seq<Example>, b: seq<Example>)
    requires ContentDigest(a).Some? && ContentDigest(a) == ContentDigest(b)
    ensures multiset(Projections(RowsOf(a))) == multiset(Projections(RowsOf(b)))
  {
    ProjectionsAreWellFormed(a);
    ProjectionsAreWellFormed(b);
    var leq := (x, y) => RowLeq(x, y);
    hide RowLeq, HashedBytes, Sort, Projections, RowsOf;
    HashDeterminesProjections(RowsOf(a), RowsOf(b));
    ProjectionsPermute(RowsOf(a), Sort(RowsOf(a), leq));
    ProjectionsPermute(RowsOf(b), Sort(RowsOf(b), leq));
  }

  /** Any change to one example's input or expected output changes the digest, whatever becomes of its id. */
  lemma ChangedExampleChangesDigest(examples: seq<Example>, i: nat, e: Example)
    requires i < |examples| && ContentDigest(examples).Some?
    requires e.input != examples[i].input || e.expected != examples[i].expected
    ensures ContentDigest(examples[i := e]) != ContentDigest(examples)
  {
    hide ContentDigest;
    ProjectionDeterminesContent(examples[i], e);
    hide ProjectionOf;
    if ContentDigest(examples[i := e]) == ContentDigest(examples) {
      DigestDeterminesContents(examples, examples[i := e]);
      var before, after := Projections(RowsOf(examples)), Projections(RowsOf(examples[i := e]));
      assert after == before[i := ProjectionOf(e)] && before[i] == ProjectionOf(examples[i]);
      ChangedCount(before, i, ProjectionOf(e));
    }
  }

  lemma ChangedCount<T>(s: seq<T>, i: nat, x: T)
    requires i < |s| && x != s[i]
    ensures multiset(s[i := x]) != multiset(s)
  {
    assert multiset(s[i := x])[x] == multiset(s)[x] + 1;
  }

  /** The order examples are supplied in does not matter, even when ids collide. */
  lemma DigestIgnoresExampleOrder(a: seq<Example>, b: seq<Example>)
    requires multiset(a) == multiset(b)
    ensures ContentDigest(a) == ContentDigest(b)
  {
    ProjectionsAreWellFormed(a);
    ProjectionsAreWellFormed(b);
    RowsPermute(a, b);
    hide RowsOf;
    HashIgnoresRowOrder(RowsOf(a), RowsOf(b));
  }

  lemma RowsPermute(a: seq<Example>, b: seq<Example>)
    requires multiset(a) == multiset(b)
    ensures multiset(RowsOf(a)) == multiset(RowsOf(b))
  {
    hide ProjectionOf;
    var f := (e: Example) => Row(e.id, ProjectionOf(e));
    MappedPermutes(a, b, f);
    assert RowsOf(a) == Mapped(a, f) && RowsOf(b) == Mapped(b, f);
  }
}
