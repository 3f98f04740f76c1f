/** What the text written by `traigent_schema/fp2.py` says, in the eyes of a reader of RFC 8259. */
module Fp2Meaning {
  import opened Outcomes
  import opened Sorting
  import opened DecimalText
  import opened EcmaNumbers
  import opened CanonicalText
  import opened JsonReader
  import opened PythonHeap
  import opened Fp2Encoder
  import opened Fp2Properties

  /** Names in strictly ascending order of their UTF-16 code units (section 3.2.3 of RFC 8785). */
  ghost predicate NamesAscend(members: seq<Member>) {
    forall i, j :: 0 <= i < j < |members| ==> Precedes(Utf16(members[i].name), Utf16(members[j].name))
  }

  /** The tree shows the value: scalars as themselves, lists in order, dicts by name in canonical order. */
  ghost predicate Depicts(h: Heap, v: Value, j: Json)
    decreases j
  {
    match v
    case NoneValue => j == JNull
    case BoolValue(b) => j == JBool(b)
    case IntValue(i) => j.JNumber? && IsNumber(j.x, i < 0, Decimal(if i < 0 then -i else i, 0))
    case FloatValue(f) => f.Finite? && IsDecimalText(f.repr) && j.JNumber? && IsNumber(j.x, f.neg, Denoted(f.repr))
    case TextValue(s) => j == JString(s)
    case Foreign => false
    case Container(ref) =>
      ref in h &&
      match h[ref]
      case ListCell(items) =>
        && j.JArray? && |j.items| == |items|
        && forall i :: 0 <= i < |items| ==> Depicts(h, items[i], j.items[i])
      case DictCell(entries) =>
        && j.JObject? && |j.members| == |entries| && NamesAscend(j.members)
        && forall i :: 0 <= i < |j.members| ==> DepictsEntry(h, entries, j.members[i])
  }

  /** Some entry has the member's name and a value the member shows. */
  ghost predicate DepictsEntry(h: Heap, entries: seq<Entry>, m: Member)
    decreases m
  {
    exists k :: 0 <= k < |entries| && entries[k].key == TextKey(m.name) && Depicts(h, entries[k].value, m.value)
  }

  lemma ScalarDepicts(h: Heap, v: Value)
    requires ValidValue(h, v) && !v.Container? && !v.Foreign? && ScalarTree(h, v).Ok?
    ensures Depicts(h, v, ScalarTree(h, v).value)
  {
    match v
    case IntValue(i) => IntIsNumber(i);
    case FloatValue(f) => ReprIsNumber(f.neg, f.repr);
    case _ =>
  }

  /** The scalars that are refused: unsafe integers, non-finite floats and text with a lone surrogate. */
  lemma ScalarRefusedIff(h: Heap, v: Value)
    requires ValidValue(h, v) && !v.Container? && !v.Foreign?
    ensures ScalarTree(h, v) == Err(UnsafeInteger) <==>
            v.IntValue? && !(-9_007_199_254_740_991 <= v.i <= 9_007_199_254_740_991)
    ensures ScalarTree(h, v) == Err(NonFinite) <==> v.FloatValue? && !v.f.Finite?
    ensures ScalarTree(h, v) == Err(LoneSurrogate) <==>
            v.TextValue? && exists i :: 0 <= i < |v.s| && (v.s[i] > 0x10FFFF || 0xD800 <= v.s[i] <= 0xDFFF)
    ensures ScalarTree(h, v).Err? ==> ScalarTree(h, v).error in {UnsafeInteger, NonFinite, LoneSurrogate}
  {
    hide NumberOfInt, NumberOfRepr;
  }

  lemma IntIsNumber(i: int)
    ensures IsNumber(NumberOfInt(i), i < 0, Decimal(if i < 0 then -i else i, 0))
  {
    hide NatOf, NatToText, StripRight, Zeros;
    if i != 0 {
      var m := if i < 0 then -i else i;
      IntDigits(m);
      NatTextRoundTrip(m);
      var digits := NatToText(m);
      var s := StripRight(digits);
      ZerosAround(s, 0, |digits| - |s|);
    }
  }

  lemma ReprIsNumber(neg: bool, repr: Text)
    requires IsDecimalText(repr)
    ensures IsNumber(NumberOfRepr(neg, repr), neg, Denoted(repr))
  {
    hide ShortestDigits, SameValue, Denoted, IsDecimalText;
    if Denoted(repr).m > 0 {
      ShortestDigitsKeepValue(repr);
    }
  }

  /** Whatever a value unfolds to shows it. */
  lemma {:induction false} UnfoldDepicts(h: Heap, v: Value, depth: nat, open: set<Ref>)
    requires ValidHeap(h) && ValidValue(h, v) && Unfold(h, v, depth, open).Ok?
    ensures Depicts(h, v, Unfold(h, v, depth, open).value)
    decreases MAX_DEPTH + 1 - depth, 0
  {
    hide Unfold, Depicts, ScalarTree;
    RefusedAtOnce(h, v, depth, open);
    if v.Container? {
      if h[v.ref].ListCell? {
        ListDepicts(h, v.ref, depth, open);
      } else {
        DictDepicts(h, v.ref, depth, open);
      }
    } else {
      UnfoldScalar(h, v, depth, open);
      ScalarDepicts(h, v);
    }
  }

  lemma UnfoldScalar(h: Heap, v: Value, depth: nat, open: set<Ref>)
    requires ValidHeap(h) && ValidValue(h, v) && !v.Container? && !v.Foreign?
    ensures Unfold(h, v, depth, open) == ScalarTree(h, v)
  {
  }

  lemma {:induction false} ListDepicts(h: Heap, ref: Ref, depth: nat, open: set<Ref>)
    requires ValidHeap(h) && ref in h && h[ref].ListCell? && depth <= MAX_DEPTH && ref !in open
    requires Unfold(h, Container(ref), depth, open).Ok?
    ensures Depicts(h, Container(ref), Unfold(h, Container(ref), depth, open).value)
    decreases MAX_DEPTH - depth, |h[ref].items| + 2
  {
    hide Unfold, UnfoldItems;
    UnfoldList(h, ref, depth, open);
    ItemsDepict(h, h[ref].items, depth + 1, open + {ref});
  }

  lemma {:induction false} ItemsDepict(h: Heap, items: seq<Value>, depth: nat, open: set<Ref>)
    requires ValidHeap(h) && (forall i :: 0 <= i < |items| ==> ValidValue(h, items[i])) && depth <= MAX_DEPTH + 1
    requires UnfoldItems(h, items, depth, open).Ok?
    ensures var trees := UnfoldItems(h, items, depth, open).value;
            |trees| == |items| && forall i :: 0 <= i < |items| ==> Depicts(h, items[i], trees[i])
    decreases MAX_DEPTH + 1 - depth, |items| + 1
  {
    hide Unfold, Depicts;
    if items != [] {
      UnfoldDepicts(h, items[0], depth, open);
      ItemsDepict(h, items[1..], depth, open);
    }
  }

  lemma {:induction false} DictDepicts(h: Heap, ref: Ref, depth: nat, open: set<Ref>)
    requires ValidHeap(h) && ref in h && h[ref].DictCell? && depth <= MAX_DEPTH && ref !in open
    requires Unfold(h, Container(ref), depth, open).Ok?
    ensures Depicts(h, Container(ref), Unfold(h, Container(ref), depth, open).value)
    decreases MAX_DEPTH - depth, |h[ref].entries| + 2
  {
    hide Unfold, UnfoldMembers, SortedMembers, NamesAscend, HasEntry, DepictsEntry;
    if SortedMembers(h[ref].entries).Err? {
      KeysRefused(h, ref, depth, open);
      assert false;
    }
    var named := SortedMembers(h[ref].entries).value;
    SortedMembersAreMembers(h, ref, named);
    UnfoldDict(h, ref, depth, named, open);
    MembersDepict(h, named, depth + 1, open + {ref});
    var members := UnfoldMembers(h, named, depth + 1, open + {ref}).value;
    SortedNamesAscend(h, ref, named, members);
    SortedNamesAreKeys(h[ref].entries, named);
    MembersShowEntries(h, h[ref].entries, named, members);
  }

  lemma MembersShowEntries(h: Heap, entries: seq<Entry>, named: seq<Named>, members: seq<Member>)
    requires |members| == |named|
    requires forall i :: 0 <= i < |named| ==> HasEntry(entries, named[i])
    requires forall i :: 0 <= i < |named| ==> members[i].name == named[i].name && Depicts(h, named[i].value, members[i].value)
    ensures forall i :: 0 <= i < |members| ==> DepictsEntry(h, entries, members[i])
  {
    hide Depicts;
    forall i | 0 <= i < |members| ensures DepictsEntry(h, entries, members[i]) {
      assert HasEntry(entries, named[i]);
      var k :| 0 <= k < |entries| && entries[k].key == TextKey(named[i].name) && entries[k].value == named[i].value;
      assert Depicts(h, entries[k].value, members[i].value);
    }
  }

  lemma KeysRefused(h: Heap, ref: Ref, depth: nat, open: set<Ref>)
    requires ValidHeap(h) && ref in h && h[ref].DictCell? && depth <= MAX_DEPTH && ref !in open
    requires SortedMembers(h[ref].entries).Err?
    ensures Unfold(h, Container(ref), depth, open).Err?
  {
  }

  lemma {:induction false} MembersDepict(h: Heap, named: seq<Named>, depth: nat, open: set<Ref>)
    requires ValidHeap(h) && (forall i :: 0 <= i < |named| ==> ValidValue(h, named[i].value)) && depth <= MAX_DEPTH + 1
    requires UnfoldMembers(h, named, depth, open).Ok?
    ensures var members := UnfoldMembers(h, named, depth, open).value;
            && |members| == |named|
            && forall i :: 0 <= i < |named| ==> members[i].name == named[i].name && Depicts(h, named[i].value, members[i].value)
    decreases MAX_DEPTH + 1 - depth, |named| + 1
  {
    hide Unfold, Depicts;
    if named != [] {
      UnfoldDepicts(h, named[0].value, depth, open);
      MembersDepict(h, named[1..], depth, open);
    }
  }

  /** Some entry has this name and value. */
  ghost predicate HasEntry(entries: seq<Entry>, m: Named) {
    exists k :: 0 <= k < |entries| && entries[k].key == TextKey(m.name) && entries[k].value == m.value
  }

  lemma SortedNamesAreKeys(entries: seq<Entry>, named: seq<Named>)
    requires SortedMembers(entries) == Ok(named)
    ensures forall i :: 0 <= i < |named| ==> HasEntry(entries, named[i])
  {
    hide NamedLeq, Encodable, Sort;
    SortedNamesPermute(entries, named);
    var all := NamedEntries(entries);
    forall i | 0 <= i < |named| ensures HasEntry(entries, named[i]) {
      assert named[i] in multiset(all);
      var k :| 0 <= k < |all| && all[k] == named[i];
      assert entries[k].key == TextKey(named[i].name);
    }
  }

  lemma SortedNamesAscend(h: Heap, ref: Ref, named: seq<Named>, members: seq<Member>)
    requires ValidHeap(h) && ref in h && h[ref].DictCell? && SortedMembers(h[ref].entries) == Ok(named)
    requires |members| == |named| && forall i :: 0 <= i < |named| ==> members[i].name == named[i].name
    ensures NamesAscend(members)
  {
    hide Precedes, Utf16, NamedLeq, TieFree, Encodable, SortedMembers, ValidHeap;
    NamesTieFree(h, ref);
    NamesAreSorted(h[ref].entries, named);
    NamesAreDistinct(h, ref, named);
    forall i, j | 0 <= i < j < |members| ensures Precedes(Utf16(members[i].name), Utf16(members[j].name)) {
      assert NamedLeq(named[i], named[j]) && named[i] != named[j];
      SortedNamesPermute(h[ref].entries, named);
      NextNamePrecedes(NamedEntries(h[ref].entries), named, i, j);
    }
  }

  lemma NamesAreSorted(entries: seq<Entry>, named: seq<Named>)
    requires SortedMembers(entries) == Ok(named)
    ensures Sorted(named, NamedLeq)
  {
    hide NamedLeq, Encodable;
    NamedIsTotalPreorder();
    SortIsSorted(NamedEntries(entries), NamedLeq);
  }

  lemma NamesAreDistinct(h: Heap, ref: Ref, named: seq<Named>)
    requires ValidHeap(h) && ref in h && h[ref].DictCell? && SortedMembers(h[ref].entries) == Ok(named)
    ensures Distinct(named)
  {
    hide NamedLeq, Encodable;
    assert ValidCell(h, h[ref]);
    SortedNamesPermute(h[ref].entries, named);
    DistinctSurvivesPermutation(NamedEntries(h[ref].entries), named);
  }

  lemma NextNamePrecedes(all: seq<Named>, named: seq<Named>, i: nat, j: nat)
    requires TieFree(all, NamedLeq) && multiset(named) == multiset(all) && i < j < |named|
    requires NamedLeq(named[i], named[j]) && named[i] != named[j]
    ensures Precedes(Utf16(named[i].name), Utf16(named[j].name))
  {
    hide Precedes, Utf16, LexLeq;
    var u, v := Utf16(named[i].name), Utf16(named[j].name);
    assert named[i] in multiset(all) && named[j] in multiset(all);
    BytesCompareAsUnits(u, v);
    BytesCompareAsUnits(v, u);
    LexLeqIffPrecedes(u, v);
    LexTotal(u, u);
  }

  /**
   The canonical text of a value, read by the grammar of RFC 8259, is a tree that shows the
   value, its members in canonical order.
   */
  lemma TextShowsValue(h: Heap, root: Value)
    requires ValidHeap(h) && ValidValue(h, root) && Canonical(h, root).Ok?
    ensures ReadText(Canonical(h, root).value).Some? && Depicts(h, root, ReadText(Canonical(h, root).value).value)
  {
    hide Unfold, TextOf, ReadText, Depicts, ValidHeap, ValidValue, WellFormed;
    UnfoldDepicts(h, root, 1, {});
    TextReads(Unfold(h, root, 1, {}).value);
  }
}
