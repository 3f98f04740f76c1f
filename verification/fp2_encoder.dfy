/**
 The work-stack encoder of `traigent_schema/fp2.py`: canonical JSON of a heap value, or the
 first reason it has none.
 */
module Fp2Encoder {
  import opened Outcomes
  import opened Sorting
  import opened DecimalText
  import opened EcmaNumbers
  import opened CanonicalText
  import opened PythonHeap

  const MAX_DEPTH: nat := 100
  const MAX_SAFE_INTEGER: int := 0x1F_FFFF_FFFF_FFFF // 2^53 - 1

  datatype Error =
    | TooDeep
    | Circular
    | UnsupportedType
    | NonTextKey
    | LoneSurrogate
    | NonFinite
    | UnsafeInteger

  // ----- the simple recursive reading

  /** The tree of a scalar; a container or foreign value is not one. */
  ghost function ScalarTree(h: Heap, v: Value): Result<Json, Error>
    requires ValidValue(h, v) && !v.Container? && !v.Foreign?
  {
    match v
    case NoneValue => Ok(JNull)
    case BoolValue(b) => Ok(JBool(b))
    case IntValue(i) => if -MAX_SAFE_INTEGER <= i <= MAX_SAFE_INTEGER then Ok(JNumber(NumberOfInt(i))) else Err(UnsafeInteger)
    case FloatValue(f) => if f.Finite? then Ok(JNumber(NumberOfRepr(f.neg, f.repr))) else Err(NonFinite)
    case TextValue(s) => if Encodable(s) then Ok(JString(s)) else Err(LoneSurrogate)
  }

  /** A member whose key is plain text. */
  datatype Named = Named(name: Text, value: Value)

  predicate NamedLeq(a: Named, b: Named) {
    NameLeq(a.name, b.name)
  }

  function NamedEntries(entries: seq<Entry>): (named: seq<Named>)
    requires forall i :: 0 <= i < |entries| ==> entries[i].key.TextKey?
    ensures |named| == |entries|
    ensures forall i :: 0 <= i < |named| ==> named[i] == Named(entries[i].key.s, entries[i].value)
  {
    seq(|entries|, i requires 0 <= i < |entries| => Named(entries[i].key.s, entries[i].value))
  }

  /** An object's members in order of their names, once all keys are known to be encodable text. */
  function SortedMembers(entries: seq<Entry>): Result<seq<Named>, Error> {
    if exists i :: 0 <= i < |entries| && entries[i].key.ForeignKey? then Err(NonTextKey)
    else if exists i :: 0 <= i < |entries| && !Encodable(entries[i].key.s) then Err(LoneSurrogate)
    else Ok(Sort(NamedEntries(entries), NamedLeq))
  }

  /**
   The tree a value unfolds to at nesting level `depth` inside the containers `open`, or the
   first reason found on the way, children taken in canonical order.
   */
  ghost function Unfold(h: Heap, v: Value, depth: nat, open: set<Ref>): (r: Result<Json, Error>)
    requires ValidHeap(h) && ValidValue(h, v)
    ensures r.Ok? ==> WellFormed(r.value)
    decreases MAX_DEPTH + 1 - depth, 0
  {
    match v
    case Foreign => Err(UnsupportedType)
    case Container(ref) =>
      if depth > MAX_DEPTH then Err(TooDeep)
      else if ref in open then Err(Circular)
      else (match h[ref]
        case ListCell(items) =>
          assert ValidCell(h, h[ref]) && Children(h[ref]) == items;
          (match UnfoldItems(h, items, depth + 1, open + {ref})
           case Err(e) => Err(e)
           case Ok(trees) => Ok(JArray(trees)))
        case DictCell(entries) =>
          (match SortedMembers(entries)
           case Err(e) => Err(e)
           case Ok(named) =>
             SortedMembersAreMembers(h, ref, named);
             (match UnfoldMembers(h, named, depth + 1, open + {ref})
              case Err(e) => Err(e)
              case Ok(members) => Ok(JObject(members)))))
    case _ =>
      ScalarTreesAreWellFormed(h, v);
      ScalarTree(h, v)
  }

  ghost function UnfoldItems(h: Heap, items: seq<Value>, depth: nat, open: set<Ref>): (r: Result<seq<Json>, Error>)
    requires ValidHeap(h) && (forall i :: 0 <= i < |items| ==> ValidValue(h, items[i])) && depth <= MAX_DEPTH + 1
    ensures r.Ok? ==> |r.value| == |items| && forall i :: 0 <= i < |r.value| ==> WellFormed(r.value[i])
    decreases MAX_DEPTH + 1 - depth, |items| + 1
  {
    if items == [] then Ok([])
    else
      match Unfold(h, items[0], depth, open)
      case Err(e) => Err(e)
      case Ok(j) =>
        match UnfoldItems(h, items[1..], depth, open)
        case Err(e) => Err(e)
        case Ok(rest) => Ok([j] + rest)
  }

  ghost function UnfoldMembers(h: Heap, named: seq<Named>, depth: nat, open: set<Ref>): (r: Result<seq<Member>, Error>)
    requires ValidHeap(h) && (forall i :: 0 <= i < |named| ==> ValidValue(h, named[i].value)) && depth <= MAX_DEPTH + 1
    ensures r.Ok? ==> |r.value| == |named| && forall i :: 0 <= i < |r.value| ==> WellFormed(r.value[i].value)
    decreases MAX_DEPTH + 1 - depth, |named| + 1
  {
    if named == [] then Ok([])
    else
      match Unfold(h, named[0].value, depth, open)
      case Err(e) => Err(e)
      case Ok(j) =>
        match UnfoldMembers(h, named[1..], depth, open)
        case Err(e) => Err(e)
        case Ok(rest) => Ok([Member(named[0].name, j)] + rest)
  }

  lemma ScalarTreesAreWellFormed(h: Heap, v: Value)
    requires ValidValue(h, v) && !v.Container? && !v.Foreign?
    ensures ScalarTree(h, v).Ok? ==> WellFormed(ScalarTree(h, v).value)
  {
    match v
    case IntValue(i) => IntIsNormal(i);
    case FloatValue(Finite(neg, repr)) => NumbersAreNormal(neg, repr, 0);
    case _ =>
  }

  lemma IntIsNormal(i: int)
    ensures Normal(NumberOfInt(i))
  {
    if i != 0 {
      IntDigits(if i < 0 then -i else i);
    }
  }

  /** Sorting neither drops nor invents members. */
  lemma SortedMembersAreMembers(h: Heap, ref: Ref, named: seq<Named>)
    requires ValidHeap(h) && ref in h && h[ref].DictCell? && SortedMembers(h[ref].entries) == Ok(named)
    ensures |named| == |h[ref].entries|
    ensures forall i :: 0 <= i < |named| ==> ValidValue(h, named[i].value) && named[i].value in Children(h[ref])
    ensures forall v :: v in Children(h[ref]) ==> exists i :: 0 <= i < |named| && named[i].value == v
  {
    hide Sort, NamedLeq, Encodable;
    SortedNamesPermute(h[ref].entries, named);
    MembersAreChildren(h, ref, NamedEntries(h[ref].entries), named);
  }

  lemma SortedNamesPermute(entries: seq<Entry>, named: seq<Named>)
    requires SortedMembers(entries) == Ok(named)
    ensures forall i :: 0 <= i < |entries| ==> entries[i].key.TextKey?
    ensures multiset(named) == multiset(NamedEntries(entries))
  {
    hide NamedLeq, Encodable;
  }

  lemma MembersAreChildren(h: Heap, ref: Ref, all: seq<Named>, named: seq<Named>)
    requires ValidHeap(h) && ref in h && h[ref].DictCell? && multiset(named) == multiset(all)
    requires |all| == |h[ref].entries| && forall i :: 0 <= i < |all| ==> all[i].value == h[ref].entries[i].value
    ensures |named| == |all|
    ensures forall i :: 0 <= i < |named| ==> ValidValue(h, named[i].value) && named[i].value in Children(h[ref])
    ensures forall v :: v in Children(h[ref]) ==> exists i :: 0 <= i < |named| && named[i].value == v
  {
    var entries := h[ref].entries;
    assert |multiset(named)| == |named| && |multiset(all)| == |all|;
    assert ValidCell(h, h[ref]);
    forall i | 0 <= i < |named| ensures ValidValue(h, named[i].value) && named[i].value in Children(h[ref]) {
      assert named[i] in multiset(all);
      var j :| 0 <= j < |all| && all[j] == named[i];
      assert Children(h[ref])[j] == named[i].value;
    }
    forall v | v in Children(h[ref]) ensures exists i :: 0 <= i < |named| && named[i].value == v {
      var j :| 0 <= j < |entries| && Children(h[ref])[j] == v;
      assert all[j] in multiset(named);
      var i :| 0 <= i < |named| && named[i] == all[j];
    }
  }

  // ----- the work stack

  datatype Work = Emit(text: Text) | Visit(value: Value, depth: nat) | Close(ref: Ref)

  /** Text in front of a text still to come. */
  function Prepend(t: Text, r: Result<Text, Error>): Result<Text, Error> {
    if r.Ok? then Ok(t + r.value) else r
  }

  ghost predicate ValidWork(h: Heap, w: Work) {
    w.Visit? ==> ValidValue(h, w.value) && w.depth <= MAX_DEPTH + 1
  }

  ghost predicate ValidAgenda(h: Heap, agenda: seq<Work>) {
    forall i :: 0 <= i < |agenda| ==> ValidWork(h, agenda[i])
  }

  /** What is still to be written when the stack pops `agenda` in this order. */
  ghost function Remaining(h: Heap, agenda: seq<Work>, open: set<Ref>): Result<Text, Error>
    requires ValidHeap(h) && ValidAgenda(h, agenda)
  {
    if agenda == [] then Ok([])
    else
      match agenda[0]
      case Emit(t) => Prepend(t, Remaining(h, agenda[1..], open))
      case Close(r) => Remaining(h, agenda[1..], open - {r})
      case Visit(v, depth) =>
        ThenTree(Unfold(h, v, depth, open), Remaining(h, agenda[1..], open))
  }

  /** A value's text in front of what follows, or the reason the value has none. */
  ghost function ThenTree(u: Result<Json, Error>, r: Result<Text, Error>): Result<Text, Error>
    requires u.Ok? ==> WellFormed(u.value)
  {
    if u.Err? then Err(u.error) else Prepend(TextOf(u.value), r)
  }

  ghost function ThenItems(us: Result<seq<Json>, Error>, first: bool, r: Result<Text, Error>): Result<Text, Error>
    requires us.Ok? ==> forall i :: 0 <= i < |us.value| ==> WellFormed(us.value[i])
  {
    if us.Err? then Err(us.error) else Prepend(ItemsText(us.value, first), r)
  }

  ghost function ThenMembers(us: Result<seq<Member>, Error>, first: bool, r: Result<Text, Error>): Result<Text, Error>
    requires us.Ok? ==> forall i :: 0 <= i < |us.value| ==> WellFormed(us.value[i].value)
  {
    if us.Err? then Err(us.error) else Prepend(MembersText(us.value, first), r)
  }

  /** The entries an array schedules, in emission order. */
  function ItemsWork(items: seq<Value>, depth: nat, first: bool): seq<Work> {
    if items == [] then [Emit([CLOSE_ARRAY])]
    else (if first then [] else [Emit([COMMA])]) + ([Visit(items[0], depth)] + ItemsWork(items[1..], depth, false))
  }

  function MembersWork(named: seq<Named>, depth: nat, first: bool): seq<Work> {
    if named == [] then [Emit([CLOSE_OBJECT])]
    else
      (if first then [] else [Emit([COMMA])])
      + ([Emit(StringText(named[0].name) + [COLON])]
         + ([Visit(named[0].value, depth)] + MembersWork(named[1..], depth, false)))
  }

  lemma PrependTwice(a: Text, b: Text, r: Result<Text, Error>)
    ensures Prepend(a, Prepend(b, r)) == Prepend(a + b, r)
    ensures Prepend([], r) == r
  {
    if r.Ok? {
      assert a + (b + r.value) == (a + b) + r.value;
      assert [] + r.value == r.value;
    }
  }

  lemma EmitStep(h: Heap, t: Text, rest: seq<Work>, open: set<Ref>)
    requires ValidHeap(h) && ValidAgenda(h, rest)
    ensures ValidAgenda(h, [Emit(t)] + rest)
    ensures Remaining(h, [Emit(t)] + rest, open) == Prepend(t, Remaining(h, rest, open))
  {
    assert ([Emit(t)] + rest)[1..] == rest;
  }

  lemma VisitStep(h: Heap, v: Value, depth: nat, rest: seq<Work>, open: set<Ref>)
    requires ValidHeap(h) && ValidAgenda(h, rest) && ValidValue(h, v) && depth <= MAX_DEPTH + 1
    ensures ValidAgenda(h, [Visit(v, depth)] + rest)
    ensures Remaining(h, [Visit(v, depth)] + rest, open)
         == ThenTree(Unfold(h, v, depth, open), Remaining(h, rest, open))
  {
    assert ([Visit(v, depth)] + rest)[1..] == rest;
  }

  /** The separator before an item, as the first entry scheduled or as none. */
  lemma SeparatorStep(h: Heap, first: bool, rest: seq<Work>, open: set<Ref>)
    requires ValidHeap(h) && ValidAgenda(h, rest)
    ensures var sep := if first then [] else [Emit([COMMA])];
            && ValidAgenda(h, sep + rest)
            && Remaining(h, sep + rest, open) == Prepend(if first then [] else [COMMA], Remaining(h, rest, open))
  {
    if first {
      assert [] + rest == rest;
      PrependTwice([], [], Remaining(h, rest, open));
    } else {
      EmitStep(h, [COMMA], rest, open);
    }
  }

  /** Running an array's entries writes the text of its items, or stops at the first that has none. */
  lemma {:induction false} ItemsWorkWrites(
    h: Heap, items: seq<Value>, depth: nat, first: bool, rest: seq<Work>, open: set<Ref>)
    requires ValidHeap(h) && ValidAgenda(h, rest) && depth <= MAX_DEPTH + 1
    requires forall i :: 0 <= i < |items| ==> ValidValue(h, items[i])
    ensures ValidAgenda(h, ItemsWork(items, depth, first)) && ValidAgenda(h, ItemsWork(items, depth, first) + rest)
    ensures Remaining(h, ItemsWork(items, depth, first) + rest, open)
         == ThenItems(UnfoldItems(h, items, depth, open), first, Remaining(h, rest, open))
    decreases |items|
  {
    hide Remaining, Unfold, UnfoldItems, ThenItems, ThenTree, ItemsWork, Prepend;
    ItemsWorkSteps(items, depth, first);
    if items == [] {
      EmitStep(h, [CLOSE_ARRAY], rest, open);
      NoItems(h, depth, first, Remaining(h, rest, open), open);
    } else {
      var tail := ItemsWork(items[1..], depth, false) + rest;
      ItemsWorkWrites(h, items[1..], depth, false, rest, open);
      VisitStep(h, items[0], depth, tail, open);
      SeparatorStep(h, first, [Visit(items[0], depth)] + tail, open);
      var sep := if first then [] else [Emit([COMMA])];
      var visit := [Visit(items[0], depth)];
      Associates(visit, ItemsWork(items[1..], depth, false), rest);
      Associates(sep, visit + ItemsWork(items[1..], depth, false), rest);
      ItemsJoin(h, items, depth, first, Remaining(h, rest, open), open);
    }
  }

  lemma ItemsWorkSteps(items: seq<Value>, depth: nat, first: bool)
    ensures items == [] ==> ItemsWork(items, depth, first) == [Emit([CLOSE_ARRAY])]
    ensures items != [] ==>
              ItemsWork(items, depth, first)
              == (if first then [] else [Emit([COMMA])]) + ([Visit(items[0], depth)] + ItemsWork(items[1..], depth, false))
  {
  }

  lemma NoItems(h: Heap, depth: nat, first: bool, r: Result<Text, Error>, open: set<Ref>)
    requires ValidHeap(h) && depth <= MAX_DEPTH + 1
    ensures ThenItems(UnfoldItems(h, [], depth, open), first, r) == Prepend([CLOSE_ARRAY], r)
  {
  }

  /** What the items' texts make, put together as the text of the array's body. */
  lemma ItemsJoin(h: Heap, items: seq<Value>, depth: nat, first: bool, r: Result<Text, Error>, open: set<Ref>)
    requires ValidHeap(h) && depth <= MAX_DEPTH + 1 && items != []
    requires forall i :: 0 <= i < |items| ==> ValidValue(h, items[i])
    ensures ThenItems(UnfoldItems(h, items, depth, open), first, r)
         == Prepend(if first then [] else [COMMA],
                    ThenTree(Unfold(h, items[0], depth, open),
                             ThenItems(UnfoldItems(h, items[1..], depth, open), false, r)))
  {
    var u, us := Unfold(h, items[0], depth, open), UnfoldItems(h, items[1..], depth, open);
    if u.Ok? && us.Ok? {
      var p, t, m := if first then [] else [COMMA], TextOf(u.value), ItemsText(us.value, false);
      assert ([u.value] + us.value)[1..] == us.value;
      PrependTwice(t, m, r);
      PrependTwice(p, t + m, r);
      Associates(p, t, m);
    }
  }

  lemma {:induction false} MembersWorkWrites(
    h: Heap, named: seq<Named>, depth: nat, first: bool, rest: seq<Work>, open: set<Ref>)
    requires ValidHeap(h) && ValidAgenda(h, rest) && depth <= MAX_DEPTH + 1
    requires forall i :: 0 <= i < |named| ==> ValidValue(h, named[i].value)
    ensures ValidAgenda(h, MembersWork(named, depth, first)) && ValidAgenda(h, MembersWork(named, depth, first) + rest)
    ensures Remaining(h, MembersWork(named, depth, first) + rest, open)
         == ThenMembers(UnfoldMembers(h, named, depth, open), first, Remaining(h, rest, open))
    decreases |named|
  {
    hide Remaining, Unfold, UnfoldMembers, ThenMembers, ThenTree, MembersWork, Prepend, StringText;
    MembersWorkSteps(named, depth, first);
    if named == [] {
      EmitStep(h, [CLOSE_OBJECT], rest, open);
      NoMembers(h, depth, first, Remaining(h, rest, open), open);
    } else {
      var tail := MembersWork(named[1..], depth, false) + rest;
      var name := StringText(named[0].name) + [COLON];
      MembersWorkWrites(h, named[1..], depth, false, rest, open);
      VisitStep(h, named[0].value, depth, tail, open);
      EmitStep(h, name, [Visit(named[0].value, depth)] + tail, open);
      SeparatorStep(h, first, [Emit(name)] + ([Visit(named[0].value, depth)] + tail), open);
      var sep := if first then [] else [Emit([COMMA])];
      var visit, after := [Visit(named[0].value, depth)], MembersWork(named[1..], depth, false);
      Associates(visit, after, rest);
      Associates([Emit(name)], visit + after, rest);
      Associates(sep, [Emit(name)] + (visit + after), rest);
      MembersJoin(h, named, depth, first, Remaining(h, rest, open), open);
    }
  }

  lemma MembersWorkSteps(named: seq<Named>, depth: nat, first: bool)
    ensures named == [] ==> MembersWork(named, depth, first) == [Emit([CLOSE_OBJECT])]
    ensures named != [] ==>
              MembersWork(named, depth, first)
              == (if first then [] else [Emit([COMMA])])
                 + ([Emit(StringText(named[0].name) + [COLON])]
                    + ([Visit(named[0].value, depth)] + MembersWork(named[1..], depth, false)))
  {
    hide StringText;
  }

  lemma NoMembers(h: Heap, depth: nat, first: bool, r: Result<Text, Error>, open: set<Ref>)
    requires ValidHeap(h) && depth <= MAX_DEPTH + 1
    ensures ThenMembers(UnfoldMembers(h, [], depth, open), first, r) == Prepend([CLOSE_OBJECT], r)
  {
  }

  lemma MembersJoin(h: Heap, named: seq<Named>, depth: nat, first: bool, r: Result<Text, Error>, open: set<Ref>)
    requires ValidHeap(h) && depth <= MAX_DEPTH + 1 && named != []
    requires forall i :: 0 <= i < |named| ==> ValidValue(h, named[i].value)
    ensures ThenMembers(UnfoldMembers(h, named, depth, open), first, r)
         == Prepend(if first then [] else [COMMA],
                    Prepend(StringText(named[0].name) + [COLON],
                            ThenTree(Unfold(h, named[0].value, depth, open),
                                     ThenMembers(UnfoldMembers(h, named[1..], depth, open), false, r))))
  {
    var u, us := Unfold(h, named[0].value, depth, open), UnfoldMembers(h, named[1..], depth, open);
    if u.Ok? && us.Ok? {
      var p, n := if first then [] else [COMMA], StringText(named[0].name) + [COLON];
      var t, m := TextOf(u.value), MembersText(us.value, false);
      assert ([Member(named[0].name, u.value)] + us.value)[1..] == us.value;
      PrependTwice(t, m, r);
      PrependTwice(n, t + m, r);
      PrependTwice(p, n + (t + m), r);
      Associates(p, n, t + m);
      Associates(p + n, t, m);
    }
  }

  /** Entering a container writes its opener and schedules its children and its close marker. */
  ghost function Pending(h: Heap, ref: Ref, depth: nat): Result<seq<Work>, Error>
    requires ref in h
  {
    match h[ref]
    case ListCell(items) => Ok(ItemsWork(items, depth + 1, true))
    case DictCell(entries) =>
      var named := SortedMembers(entries);
      if named.Err? then Err(named.error) else Ok(MembersWork(named.value, depth + 1, true))
  }

  function Opener(c: Cell): Text {
    if c.DictCell? then [OPEN_OBJECT] else [OPEN_ARRAY]
  }

  lemma ContainerStep(h: Heap, ref: Ref, depth: nat, rest: seq<Work>, open: set<Ref>)
    requires ValidHeap(h) && ref in h && ValidAgenda(h, rest) && depth <= MAX_DEPTH && ref !in open
    ensures Pending(h, ref, depth).Err? ==> Unfold(h, Container(ref), depth, open) == Err(Pending(h, ref, depth).error)
    ensures Pending(h, ref, depth).Ok? ==>
              var agenda := Pending(h, ref, depth).value + ([Close(ref)] + rest);
              && ValidAgenda(h, agenda)
              && ThenTree(Unfold(h, Container(ref), depth, open), Remaining(h, rest, open))
              == Prepend(Opener(h[ref]), Remaining(h, agenda, open + {ref}))
  {
    var after := [Close(ref)] + rest;
    CloseStep(h, ref, rest, open);
    match h[ref]
    case ListCell(items) => ListStep(h, ref, depth, after, open);
    case DictCell(entries) =>
      if SortedMembers(entries).Ok? {
        SortedMembersAreMembers(h, ref, SortedMembers(entries).value);
        UnfoldDict(h, ref, depth, SortedMembers(entries).value, open);
        DictStep(h, SortedMembers(entries).value, depth, after, open + {ref});
      }
  }

  lemma CloseStep(h: Heap, ref: Ref, rest: seq<Work>, open: set<Ref>)
    requires ValidHeap(h) && ValidAgenda(h, rest) && ref !in open
    ensures ValidAgenda(h, [Close(ref)] + rest)
    ensures Remaining(h, [Close(ref)] + rest, open + {ref}) == Remaining(h, rest, open)
  {
    assert ([Close(ref)] + rest)[1..] == rest && open + {ref} - {ref} == open;
  }

  lemma ListStep(h: Heap, ref: Ref, depth: nat, after: seq<Work>, open: set<Ref>)
    requires ValidHeap(h) && ref in h && h[ref].ListCell? && ValidAgenda(h, after) && depth <= MAX_DEPTH && ref !in open
    ensures var agenda := ItemsWork(h[ref].items, depth + 1, true) + after;
            && ValidAgenda(h, agenda)
            && ThenTree(Unfold(h, Container(ref), depth, open), Remaining(h, after, open + {ref}))
            == Prepend([OPEN_ARRAY], Remaining(h, agenda, open + {ref}))
  {
    var items := h[ref].items;
    assert ValidCell(h, h[ref]) && Children(h[ref]) == items;
    ItemsWorkWrites(h, items, depth + 1, true, after, open + {ref});
    var us := UnfoldItems(h, items, depth + 1, open + {ref});
    if us.Ok? {
      PrependTwice([OPEN_ARRAY], ItemsText(us.value, true), Remaining(h, after, open + {ref}));
    }
  }

  /** An object's tree from its members' trees. */
  ghost function ObjectTree(us: Result<seq<Member>, Error>): Result<Json, Error> {
    if us.Err? then Err(us.error) else Ok(JObject(us.value))
  }

  lemma DictStep(h: Heap, named: seq<Named>, depth: nat, after: seq<Work>, open: set<Ref>)
    requires ValidHeap(h) && forall i :: 0 <= i < |named| ==> ValidValue(h, named[i].value)
    requires ValidAgenda(h, after) && depth <= MAX_DEPTH
    ensures var agenda := MembersWork(named, depth + 1, true) + after;
            && ValidAgenda(h, agenda)
            && ThenTree(ObjectTree(UnfoldMembers(h, named, depth + 1, open)), Remaining(h, after, open))
            == Prepend([OPEN_OBJECT], Remaining(h, agenda, open))
  {
    hide Remaining, UnfoldMembers, MembersWork;
    MembersWorkWrites(h, named, depth + 1, true, after, open);
    ObjectWrites(UnfoldMembers(h, named, depth + 1, open), Remaining(h, after, open));
  }

  lemma ObjectWrites(us: Result<seq<Member>, Error>, r: Result<Text, Error>)
    requires us.Ok? ==> forall i :: 0 <= i < |us.value| ==> WellFormed(us.value[i].value)
    ensures var u := ObjectTree(us);
            (u.Ok? ==> WellFormed(u.value)) && ThenTree(u, r) == Prepend([OPEN_OBJECT], ThenMembers(us, true, r))
  {
    if us.Ok? {
      PrependTwice([OPEN_OBJECT], MembersText(us.value, true), r);
    }
  }

  /** An array's tree from its items' trees. */
  ghost function ArrayTree(us: Result<seq<Json>, Error>): Result<Json, Error> {
    if us.Err? then Err(us.error) else Ok(JArray(us.value))
  }

  lemma UnfoldList(h: Heap, ref: Ref, depth: nat, open: set<Ref>)
    requires ValidHeap(h) && ref in h && h[ref].ListCell? && depth <= MAX_DEPTH && ref !in open
    ensures forall i :: 0 <= i < |h[ref].items| ==> ValidValue(h, h[ref].items[i])
    ensures Unfold(h, Container(ref), depth, open) == ArrayTree(UnfoldItems(h, h[ref].items, depth + 1, open + {ref}))
  {
    assert ValidCell(h, h[ref]) && Children(h[ref]) == h[ref].items;
  }

  lemma UnfoldDict(h: Heap, ref: Ref, depth: nat, named: seq<Named>, open: set<Ref>)
    requires ValidHeap(h) && ref in h && h[ref].DictCell? && SortedMembers(h[ref].entries) == Ok(named)
    requires depth <= MAX_DEPTH && ref !in open
    requires forall i :: 0 <= i < |named| ==> ValidValue(h, named[i].value)
    ensures Unfold(h, Container(ref), depth, open) == ObjectTree(UnfoldMembers(h, named, depth + 1, open + {ref}))
  {
  }

  // ----- bookkeeping of the stack

  function Reverse<T>(s: seq<T>): (r: seq<T>)
    ensures |r| == |s| && forall i :: 0 <= i < |s| ==> r[i] == s[|s| - 1 - i]
  {
    seq(|s|, i requires 0 <= i < |s| => s[|s| - 1 - i])
  }

  /** Pushing entries reversed makes them pop in their own order, before what was there. */
  lemma PushedReversed<T>(work: seq<T>, pending: seq<T>)
    ensures Reverse(work + Reverse(pending)) == pending + Reverse(work)
  {
  }

  lemma Popped<T>(work: seq<T>)
    requires work != []
    ensures Reverse(work) == [work[|work| - 1]] + Reverse(work[..|work| - 1])
  {
  }

  /** The open containers are exactly those whose close marker is still to come, once each. */
  ghost predicate OpenIsScheduled(agenda: seq<Work>, open: set<Ref>) {
    && (forall r :: r in open <==> Close(r) in agenda)
    && (forall i, j :: 0 <= i < j < |agenda| && agenda[i].Close? ==> agenda[i] != agenda[j])
  }

  lemma {:induction false} PendingClosesNothing(h: Heap, ref: Ref, depth: nat)
    requires ref in h && Pending(h, ref, depth).Ok?
    ensures forall w :: w in Pending(h, ref, depth).value ==> !w.Close?
  {
    match h[ref]
    case ListCell(items) => ItemsCloseNothing(items, depth + 1, true);
    case DictCell(entries) => MembersCloseNothing(SortedMembers(entries).value, depth + 1, true);
  }

  lemma {:induction false} ItemsCloseNothing(items: seq<Value>, depth: nat, first: bool)
    ensures forall w :: w in ItemsWork(items, depth, first) ==> !w.Close?
  {
    if items != [] {
      ItemsCloseNothing(items[1..], depth, false);
    }
  }

  lemma {:induction false} MembersCloseNothing(named: seq<Named>, depth: nat, first: bool)
    ensures forall w :: w in MembersWork(named, depth, first) ==> !w.Close?
  {
    if named != [] {
      MembersCloseNothing(named[1..], depth, false);
    }
  }

  lemma OpenedIsScheduled(pending: seq<Work>, ref: Ref, rest: seq<Work>, open: set<Ref>)
    requires OpenIsScheduled(rest, open) && ref !in open && forall w :: w in pending ==> !w.Close?
    ensures OpenIsScheduled(pending + ([Close(ref)] + rest), open + {ref})
  {
    var agenda := pending + ([Close(ref)] + rest);
    forall i, j | 0 <= i < j < |agenda| && agenda[i].Close? ensures agenda[i] != agenda[j] {
      assert i >= |pending|;
      if i == |pending| {
        assert agenda[j] == rest[j - |pending| - 1];
      } else {
        assert agenda[i] == rest[i - |pending| - 1] && agenda[j] == rest[j - |pending| - 1];
      }
    }
  }

  lemma SteppedIsScheduled(w: Work, rest: seq<Work>, open: set<Ref>)
    requires OpenIsScheduled([w] + rest, open)
    ensures OpenIsScheduled(rest, if w.Close? then open - {w.ref} else open)
  {
    var agenda := [w] + rest;
    forall i, j | 0 <= i < j < |rest| && rest[i].Close? ensures rest[i] != rest[j] {
      assert agenda[i + 1] == rest[i] && agenda[j + 1] == rest[j];
    }
    forall r ensures Close(r) in agenda <==> w == Close(r) || Close(r) in rest {}
    forall i | 0 <= i < |rest| && w.Close? ensures rest[i] != w {
      assert agenda[0] == w && agenda[i + 1] == rest[i];
    }
  }

  // ----- termination

  /** Pops the walk can still make, if every container has at most w children. */
  ghost function Weight(agenda: seq<Work>, w: nat): nat
    requires forall i :: 0 <= i < |agenda| ==> agenda[i].Visit? ==> agenda[i].depth <= MAX_DEPTH + 1
  {
    if agenda == [] then 0
    else (if agenda[0].Visit? then StepBound(w, MAX_DEPTH + 1 - agenda[0].depth) else 1) + Weight(agenda[1..], w)
  }

  lemma {:induction false} WeightAdds(a: seq<Work>, b: seq<Work>, w: nat)
    requires forall i :: 0 <= i < |a| ==> a[i].Visit? ==> a[i].depth <= MAX_DEPTH + 1
    requires forall i :: 0 <= i < |b| ==> b[i].Visit? ==> b[i].depth <= MAX_DEPTH + 1
    ensures Weight(a + b, w) == Weight(a, w) + Weight(b, w)
  {
    if a == [] {
      assert a + b == b;
    } else {
      WeightAdds(a[1..], b, w);
      assert (a + b)[1..] == a[1..] + b;
    }
  }

  /** The stack value of the entries one child is scheduled with. */
  lemma ChildWeight(sep: bool, name: Option<Text>, v: Value, depth: nat, tail: seq<Work>, w: nat)
    requires depth <= MAX_DEPTH + 1
    requires forall i :: 0 <= i < |tail| ==> tail[i].Visit? ==> tail[i].depth <= MAX_DEPTH + 1
    ensures Weight((if sep then [Emit([COMMA])] else [])
                   + ((if name.Some? then [Emit(name.value)] else []) + ([Visit(v, depth)] + tail)), w)
         <= 2 + StepBound(w, MAX_DEPTH + 1 - depth) + Weight(tail, w)
  {
    hide Weight, StepBound;
    var visit := [Visit(v, depth)] + tail;
    WeightOfFirst(Visit(v, depth), tail, w);
    var named := (if name.Some? then [Emit(name.value)] else []) + visit;
    if name.Some? {
      WeightOfFirst(Emit(name.value), visit, w);
    } else {
      assert named == visit;
    }
    if sep {
      WeightOfFirst(Emit([COMMA]), named, w);
    } else {
      assert [] + named == named;
    }
  }

  lemma WeightOfFirst(x: Work, rest: seq<Work>, w: nat)
    requires x.Visit? ==> x.depth <= MAX_DEPTH + 1
    requires forall i :: 0 <= i < |rest| ==> rest[i].Visit? ==> rest[i].depth <= MAX_DEPTH + 1
    ensures Weight([x] + rest, w) == (if x.Visit? then StepBound(w, MAX_DEPTH + 1 - x.depth) else 1) + Weight(rest, w)
  {
    assert ([x] + rest)[1..] == rest;
  }

  lemma {:induction false} ItemsWeight(items: seq<Value>, depth: nat, first: bool, w: nat, k: nat)
    requires depth <= MAX_DEPTH + 1 && k == 2 + StepBound(w, MAX_DEPTH + 1 - depth)
    ensures forall x :: x in ItemsWork(items, depth, first) && x.Visit? ==> x.depth == depth
    ensures Weight(ItemsWork(items, depth, first), w) <= 1 + |items| * k
  {
    if items != [] {
      var tail := ItemsWork(items[1..], depth, false);
      ItemsWeight(items[1..], depth, false, w, k);
      ChildWeight(!first, None, items[0], depth, tail, w);
      assert ItemsWork(items, depth, first)
          == (if !first then [Emit([COMMA])] else []) + ([] + ([Visit(items[0], depth)] + tail));
      OneMore(|items|, k);
    }
  }

  lemma {:induction false} MembersWeight(named: seq<Named>, depth: nat, first: bool, w: nat, k: nat)
    requires depth <= MAX_DEPTH + 1 && k == 2 + StepBound(w, MAX_DEPTH + 1 - depth)
    ensures forall x :: x in MembersWork(named, depth, first) && x.Visit? ==> x.depth == depth
    ensures Weight(MembersWork(named, depth, first), w) <= 1 + |named| * k
  {
    if named != [] {
      var tail, name := MembersWork(named[1..], depth, false), StringText(named[0].name) + [COLON];
      MembersWeight(named[1..], depth, false, w, k);
      ChildWeight(!first, Some(name), named[0].value, depth, tail, w);
      assert MembersWork(named, depth, first)
          == (if !first then [Emit([COMMA])] else []) + ([Emit(name)] + ([Visit(named[0].value, depth)] + tail));
      OneMore(|named|, k);
    }
  }

  lemma OneMore(n: nat, k: nat)
    requires n > 0
    ensures k + (n - 1) * k == n * k
  {
  }

  lemma NoMoreThan(n: nat, w: nat, k: nat)
    requires n <= w
    ensures n * k <= w * k
  {
  }

  lemma LevelCosts(w: nat, fuel: nat)
    requires fuel > 0
    ensures StepBound(w, fuel) == 4 + w * (2 + StepBound(w, fuel - 1))
  {
  }

  /** Entering a container costs less than its visit was worth. */
  lemma OpeningWeighsLess(h: Heap, ref: Ref, depth: nat, w: nat)
    requires ValidHeap(h) && ref in h && depth <= MAX_DEPTH && WidthAtMost(h, w) && Pending(h, ref, depth).Ok?
    ensures forall x :: x in Pending(h, ref, depth).value && x.Visit? ==> x.depth <= MAX_DEPTH + 1
    ensures Weight(Pending(h, ref, depth).value, w) + 1 < StepBound(w, MAX_DEPTH + 1 - depth)
  {
    hide Weight, ItemsWork, MembersWork, SortedMembers, StepBound;
    var k, n := 2 + StepBound(w, MAX_DEPTH - depth), |Children(h[ref])|;
    LevelCosts(w, MAX_DEPTH + 1 - depth);
    NoMoreThan(n, w, k);
    match h[ref]
    case ListCell(items) =>
      ItemsWeight(items, depth + 1, true, w, k);
    case DictCell(entries) =>
      var named := SortedMembers(entries).value;
      SortedMembersAreMembers(h, ref, named);
      MembersWeight(named, depth + 1, true, w, k);
  }

  // ----- the encoder

  /** The canonical text of a value, or why it has none. */
  ghost function Canonical(h: Heap, root: Value): Result<Text, Error>
    requires ValidHeap(h) && ValidValue(h, root)
  {
    var u := Unfold(h, root, 1, {});
    if u.Err? then Err(u.error) else Ok(TextOf(u.value))
  }

  /** ECMAScript text of a finite float, from its sign and the repr of its magnitude. */
  function EcmascriptNumberToString(neg: bool, repr: Text): Text
    requires IsDecimalText(repr)
  {
    if Denoted(repr).m == 0 then [ZERO]
    else
      var (digits, n) := ShortestDigits(repr);
      if neg then [MINUS] + Layout(digits, n) else Layout(digits, n)
  }

  /** The text of a scalar; None for containers and foreign values. */
  function EncodeScalar(v: Value): (r: Option<Result<Text, Error>>)
    requires v.FloatValue? && v.f.Finite? ==> IsDecimalText(v.f.repr)
  {
    match v
    case NoneValue => Some(Ok(NULL_TEXT))
    case BoolValue(b) => Some(Ok(if b then TRUE_TEXT else FALSE_TEXT))
    case TextValue(s) => if Encodable(s) then Some(Ok(StringText(s))) else Some(Err(LoneSurrogate))
    case IntValue(i) =>
      if (if i < 0 then -i else i) > MAX_SAFE_INTEGER then Some(Err(UnsafeInteger)) else Some(Ok(IntText(i)))
    case FloatValue(f) =>
      if f.Finite? then Some(Ok(EcmascriptNumberToString(f.neg, f.repr))) else Some(Err(NonFinite))
    case _ => None
  }

  lemma SafeIntegersAreShort()
    ensures MAX_SAFE_INTEGER < Pow10(21)
  {
    assert Pow10(4) == 10000;
    Pow10Adds(4, 4);
    Pow10Adds(8, 8);
    Pow10Adds(16, 5);
  }

  lemma FloatTextIsNumberText(neg: bool, repr: Text)
    requires IsDecimalText(repr)
    ensures NumberOfRepr(neg, repr).Number? ==> NumberOfRepr(neg, repr).digits != []
    ensures EcmascriptNumberToString(neg, repr) == NumberText(NumberOfRepr(neg, repr))
  {
    hide IsDecimalText, Denoted, ShortestDigits, Layout;
    NumbersAreNormal(neg, repr, 0);
  }

  /** A scalar's text is the text of its tree: ints and floats of one value are written alike. */
  lemma EncodeScalarWritesTree(h: Heap, v: Value)
    requires ValidHeap(h) && ValidValue(h, v) && EncodeScalar(v).Some?
    ensures forall depth: nat, open :: Unfold(h, v, depth, open) == ScalarTree(h, v)
    ensures ScalarTree(h, v).Err? ==> EncodeScalar(v).value == Err(ScalarTree(h, v).error)
    ensures ScalarTree(h, v).Ok? ==>
              WellFormed(ScalarTree(h, v).value) && EncodeScalar(v).value == Ok(TextOf(ScalarTree(h, v).value))
  {
    hide IntText, NumberText, NumberOfRepr, NumberOfInt, StringText, Encodable, IsDecimalText,
         EcmascriptNumberToString;
    ScalarTreesAreWellFormed(h, v);
    if v.FloatValue? && v.f.Finite? {
      FloatTextIsNumberText(v.f.neg, v.f.repr);
    }
    if v.IntValue? && -MAX_SAFE_INTEGER <= v.i <= MAX_SAFE_INTEGER {
      SafeIntegersAreShort();
      IntTextIsNumberText(v.i);
    }
  }

  /** `_dict_children`: keys are checked, sorted and written; values are scheduled. */
  method DictChildren(entries: seq<Entry>, depth: nat) returns (r: Result<seq<Work>, Error>)
    ensures SortedMembers(entries).Err? ==> r == Err(SortedMembers(entries).error)
    ensures SortedMembers(entries).Ok? ==> r == Ok(MembersWork(SortedMembers(entries).value, depth + 1, true))
  {
    for i := 0 to |entries|
      invariant forall j :: 0 <= j < i ==> entries[j].key.TextKey?
    {
      if entries[i].key.ForeignKey? {
        return Err(NonTextKey);
      }
    }
    for i := 0 to |entries|
      invariant forall j :: 0 <= j < i ==> Encodable(entries[j].key.s)
    {
      if !Encodable(entries[i].key.s) {
        return Err(LoneSurrogate);
      }
    }
    var pending := ScheduleMembers(Sort(NamedEntries(entries), NamedLeq), depth);
    r := Ok(pending);
  }

  method ScheduleMembers(items: seq<Named>, depth: nat) returns (pending: seq<Work>)
    ensures pending == MembersWork(items, depth + 1, true)
  {
    pending := [];
    for i := 0 to |items|
      invariant pending + MembersWork(items[i..], depth + 1, i == 0) == MembersWork(items, depth + 1, true)
    {
      ghost var before, rest := pending, MembersWork(items[i + 1..], depth + 1, false);
      ghost var sep: seq<Work> := if i == 0 then [] else [Emit([COMMA])];
      var name := Emit(StringText(items[i].name) + [COLON]);
      var visit := Visit(items[i].value, depth + 1);
      assert items[i..][1..] == items[i + 1..] && items[i..][0] == items[i];
      if i > 0 {
        pending := pending + [Emit([COMMA])];
      }
      assert pending == before + sep;
      pending := pending + [name];
      pending := pending + [visit];
      Chained(before, sep, [name], [visit], rest);
    }
    pending := pending + [Emit([CLOSE_OBJECT])];
  }

  lemma Chained<T>(a: seq<T>, b: seq<T>, c: seq<T>, d: seq<T>, e: seq<T>)
    ensures (((a + b) + c) + d) + e == a + (b + (c + (d + e)))
  {
    Associates(a + b + c, d, e);
    Associates(a + b, c, d + e);
    Associates(a, b, c + (d + e));
  }

  /** `_list_children`. */
  method ListChildren(items: seq<Value>, depth: nat) returns (pending: seq<Work>)
    ensures pending == ItemsWork(items, depth + 1, true)
  {
    pending := [];
    for i := 0 to |items|
      invariant pending + ItemsWork(items[i..], depth + 1, i == 0) == ItemsWork(items, depth + 1, true)
    {
      ghost var before, rest := pending, ItemsWork(items[i + 1..], depth + 1, false);
      ghost var sep: seq<Work> := if i == 0 then [] else [Emit([COMMA])];
      var visit := Visit(items[i], depth + 1);
      assert items[i..][1..] == items[i + 1..] && items[i..][0] == items[i];
      if i > 0 {
        pending := pending + [Emit([COMMA])];
      }
      assert pending == before + sep;
      pending := pending + [visit];
      Associates(before + sep, [visit], rest);
      Associates(before, sep, [visit] + rest);
    }
    pending := pending + [Emit([CLOSE_ARRAY])];
  }

  /** `_open_container`: bounds are checked, then the children are pushed reversed, closer last. */
  method OpenContainer(h: Heap, ref: Ref, depth: nat, open: set<Ref>, work: seq<Work>)
    returns (r: Result<(Text, set<Ref>, seq<Work>), Error>)
    requires ValidHeap(h) && ref in h
    ensures depth > MAX_DEPTH ==> r == Err(TooDeep)
    ensures depth <= MAX_DEPTH && ref in open ==> r == Err(Circular)
    ensures depth <= MAX_DEPTH && ref !in open && Pending(h, ref, depth).Err? ==> r == Err(Pending(h, ref, depth).error)
    ensures depth <= MAX_DEPTH && ref !in open && Pending(h, ref, depth).Ok? ==>
              && r.Ok?
              && r.value.0 == Opener(h[ref]) && r.value.1 == open + {ref}
              && Reverse(r.value.2) == Pending(h, ref, depth).value + ([Close(ref)] + Reverse(work))
  {
    if depth > MAX_DEPTH {
      return Err(TooDeep);
    }
    if ref in open {
      return Err(Circular);
    }
    var pending: seq<Work>;
    match h[ref] {
      case ListCell(items) =>
        pending := ListChildren(items, depth);
      case DictCell(entries) =>
        var children := DictChildren(entries, depth);
        if children.Err? {
          return Err(children.error);
        }
        pending := children.value;
    }
    PushedReversed(work, pending + [Close(ref)]);
    Associates(pending, [Close(ref)], Reverse(work));
    r := Ok((Opener(h[ref]), open + {ref}, work + Reverse(pending + [Close(ref)])));
  }

  /**
   What holds before every pop: the output so far followed by what the stack will still write
   is the canonical text, and the open set is what the stack will still close.
   */
  ghost predicate Encoding(h: Heap, root: Value, out: Text, agenda: seq<Work>, open: set<Ref>) {
    && ValidHeap(h) && ValidValue(h, root)
    && ValidAgenda(h, agenda) && OpenIsScheduled(agenda, open)
    && Prepend(out, Remaining(h, agenda, open)) == Canonical(h, root)
  }

  lemma StartsAtRoot(h: Heap, root: Value)
    requires ValidHeap(h) && ValidValue(h, root)
    ensures Encoding(h, root, [], [Visit(root, 1)], {})
  {
    VisitStep(h, root, 1, [], {});
    assert [Visit(root, 1)] + [] == [Visit(root, 1)];
    var u := Unfold(h, root, 1, {});
    if u.Ok? {
      assert TextOf(u.value) + [] == TextOf(u.value);
    }
    PrependTwice([], [], Remaining(h, [Visit(root, 1)], {}));
  }

  lemma EmitKeeps(h: Heap, root: Value, out: Text, t: Text, rest: seq<Work>, open: set<Ref>)
    requires Encoding(h, root, out, [Emit(t)] + rest, open)
    ensures Encoding(h, root, out + t, rest, open)
  {
    RestIsValid(h, Emit(t), rest);
    SteppedIsScheduled(Emit(t), rest, open);
    EmitStep(h, t, rest, open);
    PrependTwice(out, t, Remaining(h, rest, open));
  }

  lemma CloseKeeps(h: Heap, root: Value, out: Text, ref: Ref, rest: seq<Work>, open: set<Ref>)
    requires Encoding(h, root, out, [Close(ref)] + rest, open)
    ensures Encoding(h, root, out, rest, open - {ref})
  {
    RestIsValid(h, Close(ref), rest);
    SteppedIsScheduled(Close(ref), rest, open);
    assert ([Close(ref)] + rest)[1..] == rest;
  }

  lemma RestIsValid(h: Heap, w: Work, rest: seq<Work>)
    requires ValidAgenda(h, [w] + rest)
    ensures ValidWork(h, w) && ValidAgenda(h, rest)
  {
    assert ([w] + rest)[0] == w;
    forall i | 0 <= i < |rest| ensures ValidWork(h, rest[i]) {
      assert rest[i] == ([w] + rest)[i + 1];
    }
  }

  lemma OneReversed<T>(work: seq<T>)
    requires |work| == 1
    ensures Reverse(work) == work
  {
  }

  lemma NothingRemains(h: Heap, root: Value, out: Text, work: seq<Work>, open: set<Ref>)
    requires work == [] && Encoding(h, root, out, Reverse(work), open)
    ensures Canonical(h, root) == Ok(out)
  {
    hide Canonical;
    assert Reverse(work) == [] && out + [] == out;
  }

  lemma RefusedAtOnce(h: Heap, v: Value, depth: nat, open: set<Ref>)
    requires ValidHeap(h) && ValidValue(h, v)
    ensures v.Foreign? ==> Unfold(h, v, depth, open) == Err(UnsupportedType)
    ensures v.Container? && depth > MAX_DEPTH ==> Unfold(h, v, depth, open) == Err(TooDeep)
    ensures v.Container? && depth <= MAX_DEPTH && v.ref in open ==> Unfold(h, v, depth, open) == Err(Circular)
  {
  }

  /** A visited value without a tree ends the walk with its reason. */
  lemma VisitFails(h: Heap, root: Value, out: Text, v: Value, depth: nat, rest: seq<Work>, open: set<Ref>)
    requires Encoding(h, root, out, [Visit(v, depth)] + rest, open)
    ensures ValidValue(h, v) && depth <= MAX_DEPTH + 1
    ensures Unfold(h, v, depth, open).Err? ==> Canonical(h, root) == Err(Unfold(h, v, depth, open).error)
  {
    RestIsValid(h, Visit(v, depth), rest);
    VisitStep(h, v, depth, rest, open);
  }

  lemma ScalarKeeps(h: Heap, root: Value, out: Text, v: Value, depth: nat, rest: seq<Work>, open: set<Ref>)
    requires Encoding(h, root, out, [Visit(v, depth)] + rest, open)
    requires ValidValue(h, v) && Unfold(h, v, depth, open).Ok?
    ensures Encoding(h, root, out + TextOf(Unfold(h, v, depth, open).value), rest, open)
  {
    RestIsValid(h, Visit(v, depth), rest);
    SteppedIsScheduled(Visit(v, depth), rest, open);
    VisitStep(h, v, depth, rest, open);
    PrependTwice(out, TextOf(Unfold(h, v, depth, open).value), Remaining(h, rest, open));
  }

  lemma ContainerKeeps(h: Heap, root: Value, out: Text, ref: Ref, depth: nat, rest: seq<Work>, open: set<Ref>)
    requires Encoding(h, root, out, [Visit(Container(ref), depth)] + rest, open)
    requires ref in h && depth <= MAX_DEPTH && ref !in open
    ensures Pending(h, ref, depth).Err? ==> Canonical(h, root) == Err(Pending(h, ref, depth).error)
    ensures Pending(h, ref, depth).Ok? ==>
              Encoding(h, root, out + Opener(h[ref]),
                       Pending(h, ref, depth).value + ([Close(ref)] + rest), open + {ref})
  {
    VisitFails(h, root, out, Container(ref), depth, rest, open);
    RestIsValid(h, Visit(Container(ref), depth), rest);
    SteppedIsScheduled(Visit(Container(ref), depth), rest, open);
    VisitStep(h, Container(ref), depth, rest, open);
    ContainerStep(h, ref, depth, rest, open);
    if Pending(h, ref, depth).Ok? {
      var pending := Pending(h, ref, depth).value;
      PendingClosesNothing(h, ref, depth);
      OpenedIsScheduled(pending, ref, rest, open);
      PrependTwice(out, Opener(h[ref]), Remaining(h, pending + ([Close(ref)] + rest), open + {ref}));
    }
  }

  lemma ContainerWeighsLess(h: Heap, ref: Ref, depth: nat, rest: seq<Work>, w: nat)
    requires ValidHeap(h) && ref in h && depth <= MAX_DEPTH && WidthAtMost(h, w) && Pending(h, ref, depth).Ok?
    requires ValidAgenda(h, rest) && ValidAgenda(h, Pending(h, ref, depth).value + ([Close(ref)] + rest))
    ensures Weight(Pending(h, ref, depth).value + ([Close(ref)] + rest), w)
          < Weight([Visit(Container(ref), depth)] + rest, w)
  {
    OpeningWeighsLess(h, ref, depth, w);
    WeightAdds(Pending(h, ref, depth).value, [Close(ref)] + rest, w);
    WeightOfFirst(Close(ref), rest, w);
    WeightOfFirst(Visit(Container(ref), depth), rest, w);
  }

  /**
   The explicit-stack encoder computes the canonical text, and stops with the same reason as
   the recursive reading.  It terminates on every heap, cyclic ones included, and throughout
   `open` holds exactly the containers whose close marker is still on the stack.
   */
  method Encode(h: Heap, root: Value) returns (r: Result<Text, Error>)
    requires ValidHeap(h) && ValidValue(h, root)
    ensures r == Canonical(h, root)
  {
    hide Weight, Reverse, Unfold, Remaining, ScalarTree, Canonical, Prepend, OpenIsScheduled, TextOf, Pending;
    var out: Text := [];
    var open: set<Ref> := {};
    var work: seq<Work> := [Visit(root, 1)];
    ghost var w := WidthExists(h);
    StartsAtRoot(h, root);
    OneReversed(work);
    while work != []
      invariant Encoding(h, root, out, Reverse(work), open)
      decreases Weight(Reverse(work), w)
    {
      var top := work[|work| - 1];
      Popped(work);
      work := work[..|work| - 1];
      ghost var rest := Reverse(work);
      RestIsValid(h, top, rest);
      WeightOfFirst(top, rest, w);
      match top {
        case Emit(t) =>
          EmitKeeps(h, root, out, t, rest, open);
          out := out + t;
        case Close(ref) =>
          CloseKeeps(h, root, out, ref, rest, open);
          open := open - {ref};
        case Visit(v, depth) =>
          VisitFails(h, root, out, v, depth, rest, open);
          RefusedAtOnce(h, v, depth, open);
          var scalar := EncodeScalar(v);
          if scalar.Some? {
            EncodeScalarWritesTree(h, v);
            if scalar.value.Err? {
              return Err(scalar.value.error);
            }
            ScalarKeeps(h, root, out, v, depth, rest, open);
            out := out + scalar.value.value;
          } else if v.Container? {
            var entered := OpenContainer(h, v.ref, depth, open, work);
            if depth <= MAX_DEPTH && v.ref !in open {
              ContainerKeeps(h, root, out, v.ref, depth, rest, open);
            }
            if entered.Err? {
              return Err(entered.error);
            }
            ContainerWeighsLess(h, v.ref, depth, rest, w);
            out := out + entered.value.0;
            open := entered.value.1;
            work := entered.value.2;
          } else {
            return Err(UnsupportedType);
          }
      }
    }
    NothingRemains(h, root, out, work, open);
    r := Ok(out);
  }
}
