/**
 What canonicalisation in `traigent_schema/fp2.py` promises, proved of the recursive reading
 that the encoder refines: when it fails, when two values share a text, and what it forgets.
 */
module Fp2Properties {
  import opened Outcomes
  import opened Sorting
  import opened CanonicalText
  import opened PythonHeap
  import opened Fp2Encoder

  // ----- failure is a bad path

  /** A value that would encode if it stood alone, or a container. */
  ghost predicate FineValue(h: Heap, v: Value) {
    ValidValue(h, v) && !v.Foreign? && (!v.Container? ==> ScalarTree(h, v).Ok?)
  }

  /** Every scalar and every key in the heap encodes on its own. */
  ghost predicate FineHeap(h: Heap) {
    && ValidHeap(h)
    && forall r :: r in h ==>
         && (forall i :: 0 <= i < |Children(h[r])| ==> FineValue(h, Children(h[r])[i]))
         && (h[r].DictCell? ==> SortedMembers(h[r].entries).Ok?)
  }

  /** A path from v that goes too deep, repeats a container or re-enters an open one. */
  ghost predicate BadPath(h: Heap, v: Value, depth: nat, open: set<Ref>, p: seq<Ref>) {
    && IsPath(h, v, p)
    && (depth + |p| > MAX_DEPTH + 1 || !Distinct(p) || exists i :: 0 <= i < |p| && p[i] in open)
  }

  lemma {:induction false} ItemsFailWithOne(h: Heap, items: seq<Value>, depth: nat, open: set<Ref>)
    requires ValidHeap(h) && (forall i :: 0 <= i < |items| ==> ValidValue(h, items[i])) && depth <= MAX_DEPTH + 1
    ensures UnfoldItems(h, items, depth, open).Err? <==>
            exists i :: 0 <= i < |items| && Unfold(h, items[i], depth, open).Err?
    ensures UnfoldItems(h, items, depth, open).Err? ==>
            exists i :: 0 <= i < |items| && Unfold(h, items[i], depth, open).Err?
                        && Unfold(h, items[i], depth, open).error == UnfoldItems(h, items, depth, open).error
    decreases |items|
  {
    hide Unfold;
    if items != [] {
      var rest := items[1..];
      ItemsFailWithOne(h, rest, depth, open);
      forall i | 0 <= i < |items| ensures i == 0 || items[i] == rest[i - 1] {}
      forall i | 0 <= i < |rest| ensures rest[i] == items[i + 1] {}
    }
  }

  lemma {:induction false} MembersFailWithOne(h: Heap, named: seq<Named>, depth: nat, open: set<Ref>)
    requires ValidHeap(h) && (forall i :: 0 <= i < |named| ==> ValidValue(h, named[i].value)) && depth <= MAX_DEPTH + 1
    ensures UnfoldMembers(h, named, depth, open).Err? <==>
            exists i :: 0 <= i < |named| && Unfold(h, named[i].value, depth, open).Err?
    ensures UnfoldMembers(h, named, depth, open).Err? ==>
            exists i :: 0 <= i < |named| && Unfold(h, named[i].value, depth, open).Err?
                        && Unfold(h, named[i].value, depth, open).error == UnfoldMembers(h, named, depth, open).error
    decreases |named|
  {
    hide Unfold;
    if named != [] {
      var rest := named[1..];
      MembersFailWithOne(h, rest, depth, open);
      forall i | 0 <= i < |named| ensures i == 0 || named[i] == rest[i - 1] {}
      forall i | 0 <= i < |rest| ensures rest[i] == named[i + 1] {}
    }
  }

  /** An entered container with sound keys that fails has a child that does, for the same reason. */
  lemma FailingChild(h: Heap, ref: Ref, depth: nat, open: set<Ref>) returns (child: Value)
    requires ValidHeap(h) && ref in h && depth <= MAX_DEPTH && ref !in open
    requires h[ref].DictCell? ==> SortedMembers(h[ref].entries).Ok?
    requires Unfold(h, Container(ref), depth, open).Err?
    ensures child in Children(h[ref]) && ValidValue(h, child) && Unfold(h, child, depth + 1, open + {ref}).Err?
    ensures Unfold(h, child, depth + 1, open + {ref}).error == Unfold(h, Container(ref), depth, open).error
  {
    hide Unfold, UnfoldItems, UnfoldMembers, SortedMembers;
    if h[ref].ListCell? {
      child := FailingItem(h, ref, depth, open);
    } else {
      child := FailingMember(h, ref, depth, open, SortedMembers(h[ref].entries).value);
    }
  }

  lemma FailingItem(h: Heap, ref: Ref, depth: nat, open: set<Ref>) returns (child: Value)
    requires ValidHeap(h) && ref in h && h[ref].ListCell? && depth <= MAX_DEPTH && ref !in open
    requires Unfold(h, Container(ref), depth, open).Err?
    ensures child in Children(h[ref]) && ValidValue(h, child) && Unfold(h, child, depth + 1, open + {ref}).Err?
    ensures Unfold(h, child, depth + 1, open + {ref}).error == Unfold(h, Container(ref), depth, open).error
  {
    hide Unfold, UnfoldItems;
    var items, inside := h[ref].items, open + {ref};
    UnfoldList(h, ref, depth, open);
    ItemsFailWithOne(h, items, depth + 1, inside);
    var i :| 0 <= i < |items| && Unfold(h, items[i], depth + 1, inside).Err?
             && Unfold(h, items[i], depth + 1, inside).error == UnfoldItems(h, items, depth + 1, inside).error;
    child := items[i];
  }

  lemma FailingMember(h: Heap, ref: Ref, depth: nat, open: set<Ref>, named: seq<Named>) returns (child: Value)
    requires ValidHeap(h) && ref in h && h[ref].DictCell? && depth <= MAX_DEPTH && ref !in open
    requires SortedMembers(h[ref].entries) == Ok(named) && Unfold(h, Container(ref), depth, open).Err?
    ensures child in Children(h[ref]) && ValidValue(h, child) && Unfold(h, child, depth + 1, open + {ref}).Err?
    ensures Unfold(h, child, depth + 1, open + {ref}).error == Unfold(h, Container(ref), depth, open).error
  {
    hide Unfold, UnfoldMembers, SortedMembers, Children;
    var inside := open + {ref};
    SortedMembersAreMembers(h, ref, named);
    UnfoldDict(h, ref, depth, named, open);
    MembersFailWithOne(h, named, depth + 1, inside);
    var i :| 0 <= i < |named| && Unfold(h, named[i].value, depth + 1, inside).Err?
             && Unfold(h, named[i].value, depth + 1, inside).error == UnfoldMembers(h, named, depth + 1, inside).error;
    child := named[i].value;
  }

  /** And a child that fails makes it fail. */
  lemma ChildFailureFails(h: Heap, ref: Ref, depth: nat, open: set<Ref>, child: Value)
    requires ValidHeap(h) && ref in h && depth <= MAX_DEPTH && ref !in open
    requires h[ref].DictCell? ==> SortedMembers(h[ref].entries).Ok?
    requires child in Children(h[ref]) && ValidValue(h, child) && Unfold(h, child, depth + 1, open + {ref}).Err?
    ensures Unfold(h, Container(ref), depth, open).Err?
  {
    hide Unfold, UnfoldItems, UnfoldMembers, SortedMembers;
    if h[ref].ListCell? {
      ItemFailureFails(h, ref, depth, open, child);
    } else {
      MemberFailureFails(h, ref, depth, open, SortedMembers(h[ref].entries).value, child);
    }
  }

  lemma ItemFailureFails(h: Heap, ref: Ref, depth: nat, open: set<Ref>, child: Value)
    requires ValidHeap(h) && ref in h && h[ref].ListCell? && depth <= MAX_DEPTH && ref !in open
    requires child in Children(h[ref]) && ValidValue(h, child) && Unfold(h, child, depth + 1, open + {ref}).Err?
    ensures Unfold(h, Container(ref), depth, open).Err?
  {
    hide Unfold, UnfoldItems;
    var items, inside := h[ref].items, open + {ref};
    UnfoldList(h, ref, depth, open);
    ItemsFailWithOne(h, items, depth + 1, inside);
    var i :| 0 <= i < |items| && items[i] == child;
    assert Unfold(h, items[i], depth + 1, inside).Err?;
  }

  lemma MemberFailureFails(h: Heap, ref: Ref, depth: nat, open: set<Ref>, named: seq<Named>, child: Value)
    requires ValidHeap(h) && ref in h && h[ref].DictCell? && depth <= MAX_DEPTH && ref !in open
    requires SortedMembers(h[ref].entries) == Ok(named)
    requires child in Children(h[ref]) && ValidValue(h, child) && Unfold(h, child, depth + 1, open + {ref}).Err?
    ensures Unfold(h, Container(ref), depth, open).Err?
  {
    hide Unfold, UnfoldMembers, SortedMembers, Children;
    var inside := open + {ref};
    SortedMembersAreMembers(h, ref, named);
    UnfoldDict(h, ref, depth, named, open);
    MembersFailWithOne(h, named, depth + 1, inside);
    var i :| 0 <= i < |named| && named[i].value == child;
    assert Unfold(h, named[i].value, depth + 1, inside).Err?;
  }

  /** A failure shows a bad path. */
  lemma {:induction false} FailureHasBadPath(h: Heap, v: Value, depth: nat, open: set<Ref>) returns (p: seq<Ref>)
    requires FineHeap(h) && FineValue(h, v) && 1 <= depth <= MAX_DEPTH + 1 && Unfold(h, v, depth, open).Err?
    ensures BadPath(h, v, depth, open, p)
    ensures Unfold(h, v, depth, open).error in {TooDeep, Circular}
    decreases MAX_DEPTH + 1 - depth
  {
    hide Unfold, FineHeap, SortedMembers;
    FineScalarsDoNotFail(h, v, depth, open);
    p := [v.ref];
    if depth <= MAX_DEPTH && v.ref !in open {
      FineInside(h, v.ref);
      var child := FailingChild(h, v.ref, depth, open);
      var q := FailureHasBadPath(h, child, depth + 1, open + {v.ref});
      p := [v.ref] + q;
      BadPathGrows(h, v.ref, child, depth, open, q);
    }
  }

  lemma FineInside(h: Heap, ref: Ref)
    requires FineHeap(h) && ref in h
    ensures ValidHeap(h) && (h[ref].DictCell? ==> SortedMembers(h[ref].entries).Ok?)
    ensures forall child :: child in Children(h[ref]) ==> FineValue(h, child)
  {
    hide SortedMembers, FineValue;
  }

  lemma FineScalarsDoNotFail(h: Heap, v: Value, depth: nat, open: set<Ref>)
    requires FineHeap(h) && FineValue(h, v) && Unfold(h, v, depth, open).Err?
    ensures v.Container? && v.ref in h
    ensures depth > MAX_DEPTH ==> Unfold(h, v, depth, open).error == TooDeep
    ensures depth <= MAX_DEPTH && v.ref in open ==> Unfold(h, v, depth, open).error == Circular
  {
  }

  lemma BadPathGrows(h: Heap, ref: Ref, child: Value, depth: nat, open: set<Ref>, q: seq<Ref>)
    requires ref in h && child in Children(h[ref]) && BadPath(h, child, depth + 1, open + {ref}, q)
    ensures BadPath(h, Container(ref), depth, open, [ref] + q)
  {
    var p := [ref] + q;
    PathStep(h, ref, child, q);
    if !Distinct(q) {
      var i, j :| 0 <= i < j < |q| && q[i] == q[j];
      assert p[i + 1] == p[j + 1];
    } else if depth + 1 + |q| <= MAX_DEPTH + 1 {
      var i :| 0 <= i < |q| && q[i] in open + {ref};
      assert p[i + 1] == q[i] && p[0] == ref;
    }
  }

  /** A bad path makes the value fail. */
  lemma {:induction false} BadPathFails(h: Heap, v: Value, depth: nat, open: set<Ref>, p: seq<Ref>)
    requires FineHeap(h) && FineValue(h, v) && 1 <= depth <= MAX_DEPTH + 1 && BadPath(h, v, depth, open, p)
    ensures Unfold(h, v, depth, open).Err?
    decreases MAX_DEPTH + 1 - depth
  {
    hide Unfold, FineHeap, BadPath, FineValue, SortedMembers;
    BadPathStarts(h, v, depth, open, p);
    if depth <= MAX_DEPTH && v.ref !in open {
      FineInside(h, v.ref);
      BadPathShrinks(h, v, depth, open, p);
      BadPathFails(h, Container(p[1]), depth + 1, open + {v.ref}, p[1..]);
      ChildFailureFails(h, v.ref, depth, open, Container(p[1]));
    }
  }

  lemma BadPathStarts(h: Heap, v: Value, depth: nat, open: set<Ref>, p: seq<Ref>)
    requires FineHeap(h) && FineValue(h, v) && BadPath(h, v, depth, open, p)
    ensures ValidHeap(h) && v.Container? && v.ref in h
    ensures depth > MAX_DEPTH || v.ref in open ==> Unfold(h, v, depth, open).Err?
  {
  }

  lemma BadPathShrinks(h: Heap, v: Value, depth: nat, open: set<Ref>, p: seq<Ref>)
    requires BadPath(h, v, depth, open, p) && depth <= MAX_DEPTH && v.ref !in open
    ensures |p| > 1 && BadPath(h, Container(p[1]), depth + 1, open + {v.ref}, p[1..])
    ensures v == Container(p[0]) && p[0] in h && Container(p[1]) in Children(h[p[0]])
  {
    var q := p[1..];
    if depth + |p| <= MAX_DEPTH + 1 {
      if !Distinct(p) {
        var i, j :| 0 <= i < j < |p| && p[i] == p[j];
        assert q[j - 1] == p[j] && (i > 0 ==> q[i - 1] == p[i]);
        assert i == 0 ==> q[j - 1] in open + {v.ref};
      } else {
        var i :| 0 <= i < |p| && p[i] in open;
        assert i > 0 && q[i - 1] == p[i] && q[i - 1] in open + {v.ref};
      }
    }
    PathTail(h, v, p);
  }

  /** A path from the root that passes more than 100 containers, or one of them twice. */
  ghost predicate TooLongOrCyclic(h: Heap, root: Value, p: seq<Ref>) {
    IsPath(h, root, p) && (|p| > 100 || !Distinct(p))
  }

  /**
   Over scalars and keys that each encode, canonicalisation fails exactly when some path from
   the root is too long or cyclic; sharing alone never fails.
   */
  lemma FailsIffPathTooLongOrCyclic(h: Heap, root: Value)
    requires FineHeap(h) && FineValue(h, root)
    ensures Canonical(h, root).Err? <==> exists p :: TooLongOrCyclic(h, root, p)
    ensures Canonical(h, root).Err? ==> Canonical(h, root).error in {TooDeep, Circular}
  {
    hide Unfold;
    if Canonical(h, root).Err? {
      var p := FailureHasBadPath(h, root, 1, {});
      assert TooLongOrCyclic(h, root, p);
    }
    forall p | TooLongOrCyclic(h, root, p) ensures Canonical(h, root).Err? {
      assert BadPath(h, root, 1, {}, p);
      BadPathFails(h, root, 1, {}, p);
    }
  }

  // ----- equal text is equal tree

  /** Two values, in any two heaps, have the same text exactly when they unfold to the same tree. */
  lemma SameTextIffSameTree(h: Heap, v: Value, h': Heap, v': Value)
    requires ValidHeap(h) && ValidValue(h, v) && ValidHeap(h') && ValidValue(h', v')
    requires Canonical(h, v).Ok? && Canonical(h', v').Ok?
    ensures Canonical(h, v) == Canonical(h', v') <==> Unfold(h, v, 1, {}) == Unfold(h', v', 1, {})
  {
    hide Unfold, TextOf, ValidHeap, ValidValue, WellFormed;
    if Canonical(h, v) == Canonical(h', v') {
      TextIsInjective(Unfold(h, v, 1, {}).value, Unfold(h', v', 1, {}).value);
    }
  }

  // ----- what the text forgets

  /** The same heap, the members of its objects listed in any order. */
  ghost predicate SameUpToMemberOrder(h: Heap, h': Heap) {
    && h.Keys == h'.Keys
    && forall r :: r in h ==>
         match h[r]
         case ListCell(_) => h'[r] == h[r]
         case DictCell(entries) => h'[r].DictCell? && multiset(h'[r].entries) == multiset(entries)
  }

  lemma SortedMembersIgnoreOrder(h: Heap, h': Heap, r: Ref)
    requires ValidHeap(h) && ValidHeap(h') && SameUpToMemberOrder(h, h') && r in h && h[r].DictCell?
    ensures SortedMembers(h[r].entries) == SortedMembers(h'[r].entries)
  {
    hide SortedMembers, NamedLeq, TieFree, TotalPreorder, Sort;
    var a, b := h[r].entries, h'[r].entries;
    SameEntries(a, b);
    KeyChecksAgree(a, b);
    KeyChecksAgree(b, a);
    SortedMembersCases(a);
    SortedMembersCases(b);
    if SortedMembers(a).Ok? {
      NamedEntriesPermute(a, b);
      NamedIsTotalPreorder();
      NamesTieFree(h, r);
      SortIgnoresOrder(NamedEntries(a), NamedEntries(b), NamedLeq);
    }
  }

  lemma SameEntries(a: seq<Entry>, b: seq<Entry>)
    requires multiset(a) == multiset(b)
    ensures forall e: Entry :: e in a <==> e in b
  {
    forall e: Entry ensures e in a <==> e in b {
      assert e in multiset(a) <==> e in multiset(b);
    }
  }

  /** The three outcomes of the key checks. */
  lemma SortedMembersCases(entries: seq<Entry>)
    ensures (exists i :: 0 <= i < |entries| && entries[i].key.ForeignKey?) ==> SortedMembers(entries) == Err(NonTextKey)
    ensures (forall i :: 0 <= i < |entries| ==> entries[i].key.TextKey? && Encodable(entries[i].key.s)) ==>
              SortedMembers(entries) == Ok(Sort(NamedEntries(entries), NamedLeq))
    ensures SortedMembers(entries).Ok? ==>
              forall i :: 0 <= i < |entries| ==> entries[i].key.TextKey? && Encodable(entries[i].key.s)
    ensures SortedMembers(entries) == Err(NonTextKey) ==> exists i :: 0 <= i < |entries| && entries[i].key.ForeignKey?
    ensures SortedMembers(entries).Err? ==> SortedMembers(entries).error in {NonTextKey, LoneSurrogate}
  {
    hide Encodable, Sort;
  }

  lemma NamesTieFree(h: Heap, r: Ref)
    requires ValidHeap(h) && r in h && h[r].DictCell? && SortedMembers(h[r].entries).Ok?
    ensures TieFree(NamedEntries(h[r].entries), NamedLeq)
  {
    assert ValidCell(h, h[r]);
    var a := h[r].entries;
    var na := NamedEntries(a);
    forall x, y | x in na && y in na && NamedLeq(x, y) && NamedLeq(y, x) ensures x == y {
      var i :| 0 <= i < |na| && na[i] == x;
      var j :| 0 <= j < |na| && na[j] == y;
      NamesDoNotTie(x.name, y.name);
      assert a[i].key == a[j].key;
    }
  }

  lemma KeyChecksAgree(a: seq<Entry>, b: seq<Entry>)
    requires forall e: Entry :: e in a ==> e in b
    ensures (exists i :: 0 <= i < |a| && a[i].key.ForeignKey?) ==> exists i :: 0 <= i < |b| && b[i].key.ForeignKey?
    ensures (forall i :: 0 <= i < |b| ==> b[i].key.TextKey? && Encodable(b[i].key.s)) ==>
            forall i :: 0 <= i < |a| ==> a[i].key.TextKey? && Encodable(a[i].key.s)
  {
    forall i | 0 <= i < |a| ensures exists j :: 0 <= j < |b| && b[j] == a[i] {
      assert a[i] in b;
    }
  }

  lemma NamedIsTotalPreorder()
    ensures TotalPreorder(NamedLeq)
  {
    NameIsTotalPreorder();
    forall x: Named, y: Named, z: Named | NamedLeq(x, y) && NamedLeq(y, z) ensures NamedLeq(x, z) {
      assert NameLeq(x.name, y.name) && NameLeq(y.name, z.name);
    }
    forall x: Named, y: Named ensures NamedLeq(x, y) || NamedLeq(y, x) {
      assert NameLeq(x.name, y.name) || NameLeq(y.name, x.name);
    }
  }

  lemma NamedEntriesPermute(a: seq<Entry>, b: seq<Entry>)
    requires forall i :: 0 <= i < |a| ==> a[i].key.TextKey?
    requires forall i :: 0 <= i < |b| ==> b[i].key.TextKey?
    requires multiset(a) == multiset(b)
    ensures multiset(NamedEntries(a)) == multiset(NamedEntries(b))
  {
    var f := (e: Entry) => Named(if e.key.TextKey? then e.key.s else [], e.value);
    MappedPermutes(a, b, f);
    assert NamedEntries(a) == Mapped(a, f) && NamedEntries(b) == Mapped(b, f);
  }

  lemma {:induction false} ItemsIgnoreMemberOrder(h: Heap, h': Heap, items: seq<Value>, depth: nat, open: set<Ref>)
    requires ValidHeap(h) && ValidHeap(h') && SameUpToMemberOrder(h, h') && depth <= MAX_DEPTH + 1
    requires forall i :: 0 <= i < |items| ==> ValidValue(h, items[i]) && ValidValue(h', items[i])
    ensures UnfoldItems(h, items, depth, open) == UnfoldItems(h', items, depth, open)
    decreases MAX_DEPTH + 1 - depth, |items| + 1
  {
    if items != [] {
      UnfoldIgnoresMemberOrder(h, h', items[0], depth, open);
      ItemsIgnoreMemberOrder(h, h', items[1..], depth, open);
    }
  }

  lemma {:induction false} MembersIgnoreMemberOrder(h: Heap, h': Heap, named: seq<Named>, depth: nat, open: set<Ref>)
    requires ValidHeap(h) && ValidHeap(h') && SameUpToMemberOrder(h, h') && depth <= MAX_DEPTH + 1
    requires forall i :: 0 <= i < |named| ==> ValidValue(h, named[i].value) && ValidValue(h', named[i].value)
    ensures UnfoldMembers(h, named, depth, open) == UnfoldMembers(h', named, depth, open)
    decreases MAX_DEPTH + 1 - depth, |named| + 1
  {
    if named != [] {
      UnfoldIgnoresMemberOrder(h, h', named[0].value, depth, open);
      MembersIgnoreMemberOrder(h, h', named[1..], depth, open);
    }
  }

  /** Listing any object's members in another order changes neither the tree nor the reason there is none. */
  lemma {:induction false} UnfoldIgnoresMemberOrder(h: Heap, h': Heap, v: Value, depth: nat, open: set<Ref>)
    requires ValidHeap(h) && ValidHeap(h') && SameUpToMemberOrder(h, h') && ValidValue(h, v) && ValidValue(h', v)
    ensures Unfold(h, v, depth, open) == Unfold(h', v, depth, open)
    decreases MAX_DEPTH + 1 - depth, 0
  {
    if v.Container? && depth <= MAX_DEPTH && v.ref !in open {
      if h[v.ref].ListCell? {
        ListIgnoresMemberOrder(h, h', v.ref, depth, open);
      } else {
        DictIgnoresMemberOrder(h, h', v.ref, depth, open);
      }
    }
  }

  lemma {:induction false} ListIgnoresMemberOrder(h: Heap, h': Heap, r: Ref, depth: nat, open: set<Ref>)
    requires ValidHeap(h) && ValidHeap(h') && SameUpToMemberOrder(h, h') && r in h && h[r].ListCell?
    requires depth <= MAX_DEPTH && r !in open
    ensures Unfold(h, Container(r), depth, open) == Unfold(h', Container(r), depth, open)
    decreases MAX_DEPTH - depth, |h[r].items| + 2
  {
    hide Unfold, UnfoldItems;
    UnfoldList(h, r, depth, open);
    UnfoldList(h', r, depth, open);
    ItemsIgnoreMemberOrder(h, h', h[r].items, depth + 1, open + {r});
  }

  lemma {:induction false} DictIgnoresMemberOrder(h: Heap, h': Heap, r: Ref, depth: nat, open: set<Ref>)
    requires ValidHeap(h) && ValidHeap(h') && SameUpToMemberOrder(h, h') && r in h && h[r].DictCell?
    requires depth <= MAX_DEPTH && r !in open
    ensures Unfold(h, Container(r), depth, open) == Unfold(h', Container(r), depth, open)
    decreases MAX_DEPTH - depth, |h[r].entries| + 2
  {
    SortedMembersIgnoreOrder(h, h', r);
    if SortedMembers(h[r].entries).Err? {
      UnsoundKeysFail(h, r, depth, open);
      UnsoundKeysFail(h', r, depth, open);
    } else {
      SoundDictIgnoresMemberOrder(h, h', r, depth, open, SortedMembers(h[r].entries).value);
    }
  }

  lemma {:induction false} SoundDictIgnoresMemberOrder(
    h: Heap, h': Heap, r: Ref, depth: nat, open: set<Ref>, named: seq<Named>)
    requires ValidHeap(h) && ValidHeap(h') && SameUpToMemberOrder(h, h') && r in h && h[r].DictCell?
    requires depth <= MAX_DEPTH && r !in open
    requires SortedMembers(h[r].entries) == SortedMembers(h'[r].entries) == Ok(named)
    ensures Unfold(h, Container(r), depth, open) == Unfold(h', Container(r), depth, open)
    decreases MAX_DEPTH - depth, |h[r].entries| + 2, 0
  {
    hide Unfold, UnfoldMembers, SortedMembers;
    SortedMembersAreMembers(h, r, named);
    SortedMembersAreMembers(h', r, named);
    UnfoldDict(h, r, depth, named, open);
    UnfoldDict(h', r, depth, named, open);
    MembersIgnoreMemberOrder(h, h', named, depth + 1, open + {r});
  }

  lemma UnsoundKeysFail(h: Heap, r: Ref, depth: nat, open: set<Ref>)
    requires ValidHeap(h) && r in h && h[r].DictCell? && depth <= MAX_DEPTH && r !in open
    requires SortedMembers(h[r].entries).Err?
    ensures Unfold(h, Container(r), depth, open) == Err(SortedMembers(h[r].entries).error)
  {
  }

  /** The same value with its members in any order has the same canonical text. */
  lemma TextIgnoresMemberOrder(h: Heap, h': Heap, root: Value)
    requires ValidHeap(h) && ValidHeap(h') && SameUpToMemberOrder(h, h') && ValidValue(h, root)
    ensures ValidValue(h', root) && Canonical(h, root) == Canonical(h', root)
  {
    UnfoldIgnoresMemberOrder(h, h', root, 1, {});
  }
}
