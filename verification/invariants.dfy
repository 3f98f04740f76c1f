/**
 Validate-then-compare of `traigent_schema/invariants.py`: a bounded walk admits exact JSON
 values, and a second walk decides whether two admitted values are structurally equal.
 */
module Invariants {
  import opened Outcomes
  import opened Sorting
  import opened DecimalText
  import opened EcmaNumbers
  import opened PythonHeap
  import opened Fp2Encoder
  import opened Fp2Properties
  import opened StackWalk

  const MAX_NODES: int := 100_000

  datatype Refusal = NonCanonical | BoundExceeded

  /**
   The unfolding of a value: sharing is gone, objects are maps, and a float is the number it
   denotes, so that equality of trees is exact structural equality.
   */
  datatype Tree =
    | TNull
    | TBool(b: bool)
    | TInt(i: int)
    | TFloat(x: Number)
    | TText(s: Text)
    | TList(items: seq<Tree>)
    | TDict(members: map<Text, Tree>)

  /** The tree of a value at this nesting level inside `open`; None when it has none. */
  ghost function Unroll(h: Heap, v: Value, depth: nat, open: set<Ref>): Option<Tree>
    requires ValidHeap(h) && ValidValue(h, v)
    decreases MAX_DEPTH + 1 - depth, 0
  {
    match v
    case NoneValue => Some(TNull)
    case BoolValue(b) => Some(TBool(b))
    case IntValue(i) => Some(TInt(i))
    case FloatValue(f) => if f.Finite? then Some(TFloat(NumberOfRepr(f.neg, f.repr))) else None
    case TextValue(s) => Some(TText(s))
    case Foreign => None
    case Container(ref) =>
      if depth > MAX_DEPTH || ref in open || HasForeignKey(h[ref]) then None
      else
        assert ValidCell(h, h[ref]);
        var trees := UnrollAll(h, Children(h[ref]), depth + 1, open + {ref});
        if trees.None? then None
        else if h[ref].ListCell? then Some(TList(trees.value))
        else Some(TDict(Members(h[ref].entries, trees.value)))
  }

  ghost function UnrollAll(h: Heap, vs: seq<Value>, depth: nat, open: set<Ref>): (r: Option<seq<Tree>>)
    requires ValidHeap(h) && (forall i :: 0 <= i < |vs| ==> ValidValue(h, vs[i])) && depth <= MAX_DEPTH + 1
    ensures r.Some? <==> forall i :: 0 <= i < |vs| ==> Unroll(h, vs[i], depth, open).Some?
    ensures r.Some? ==> |r.value| == |vs|
                        && forall i :: 0 <= i < |vs| ==> Unroll(h, vs[i], depth, open) == Some(r.value[i])
    decreases MAX_DEPTH + 1 - depth, |vs| + 1
  {
    if vs == [] then Some([])
    else
      var first, rest := Unroll(h, vs[0], depth, open), UnrollAll(h, vs[1..], depth, open);
      if first.None? || rest.None? then None else Some([first.value] + rest.value)
  }

  /** The names of an object's members. */
  function Names(entries: seq<Entry>): set<Text> {
    set i | 0 <= i < |entries| && entries[i].key.TextKey? :: entries[i].key.s
  }

  /** An object as a map from member names to trees. */
  ghost function Members(entries: seq<Entry>, trees: seq<Tree>): (m: map<Text, Tree>)
    requires |entries| == |trees| && forall i :: 0 <= i < |entries| ==> entries[i].key.TextKey?
    ensures m.Keys == Names(entries)
  {
    if entries == [] then map[]
    else
      var n := |entries| - 1;
      assert Names(entries) == Names(entries[..n]) + {entries[n].key.s};
      Members(entries[..n], trees[..n])[entries[n].key.s := trees[n]]
  }

  lemma {:induction false} MembersLookup(entries: seq<Entry>, trees: seq<Tree>, i: nat)
    requires |entries| == |trees| && (forall j :: 0 <= j < |entries| ==> entries[j].key.TextKey?)
    requires forall j, k :: 0 <= j < k < |entries| ==> entries[j].key != entries[k].key
    requires i < |entries|
    ensures Members(entries, trees)[entries[i].key.s] == trees[i]
  {
    var n := |entries| - 1;
    if i < n {
      MembersLookup(entries[..n], trees[..n], i);
    }
  }

  /** Nodes of the unfolding, cut off below the depth limit. */
  ghost function NodeCount(h: Heap, v: Value, depth: nat): (n: nat)
    requires ValidHeap(h) && ValidValue(h, v)
    ensures n >= 1
    decreases MAX_DEPTH + 1 - depth, 0
  {
    if v.Container? && depth <= MAX_DEPTH then
      assert ValidCell(h, h[v.ref]);
      1 + SumNodes(h, Children(h[v.ref]), depth + 1)
    else 1
  }

  ghost function SumNodes(h: Heap, vs: seq<Value>, depth: nat): (n: nat)
    requires ValidHeap(h) && (forall i :: 0 <= i < |vs| ==> ValidValue(h, vs[i])) && depth <= MAX_DEPTH + 1
    ensures n >= |vs|
    decreases MAX_DEPTH + 1 - depth, |vs| + 1
  {
    if vs == [] then 0 else NodeCount(h, vs[0], depth) + SumNodes(h, vs[1..], depth)
  }

  /** A canonical value: its unfolding is finite, at most 100 containers deep and at most 100,000 nodes. */
  ghost predicate Acceptable(h: Heap, v: Value)
    requires ValidHeap(h) && ValidValue(h, v)
  {
    Unroll(h, v, 1, {}).Some? && NodeCount(h, v, 1) <= MAX_NODES
  }

  // ----- the bounded walk

  /** True for a scalar, false for a container, refused otherwise. */
  function IsCanonicalScalar(v: Value): Result<bool, Refusal> {
    match v
    case FloatValue(f) => if f.Finite? then Ok(true) else Err(NonCanonical)
    case Foreign => Err(NonCanonical)
    case Container(_) => Ok(false)
    case _ => Ok(true)
  }

  /** `_reserve_container`: depth, cycle and node budget; the budget left. */
  function ReserveContainer(c: Cell, ref: Ref, depth: nat, open: set<Ref>, remaining: int): Result<int, Refusal> {
    if depth > MAX_DEPTH then Err(BoundExceeded)
    else if ref in open then Err(BoundExceeded)
    else if |Children(c)| > remaining then Err(BoundExceeded)
    else Ok(remaining - |Children(c)|)
  }

  /** `_push_canonical_children`, after the close marker. */
  method PushCanonicalChildren(h: Heap, ref: Ref, depth: nat, work: seq<Work>) returns (r: Result<seq<Work>, Refusal>)
    requires ValidHeap(h) && ref in h
    ensures HasForeignKey(h[ref]) ==> r == Err(NonCanonical)
    ensures !HasForeignKey(h[ref]) ==> r.Ok? && Reverse(r.value) == Entered(h, ref, depth, Reverse(work))
  {
    var stack := work + [Close(ref)];
    var children := Children(h[ref]);
    for i := 0 to |children|
      invariant stack == work + [Close(ref)] + Visits(children[..i], depth + 1)
      invariant h[ref].DictCell? ==> forall j :: 0 <= j < i ==> h[ref].entries[j].key.TextKey?
    {
      if h[ref].DictCell? && h[ref].entries[i].key.ForeignKey? {
        return Err(NonCanonical);
      }
      stack := stack + [Visit(children[i], depth + 1)];
      assert Visits(children[..i + 1], depth + 1) == Visits(children[..i], depth + 1) + [Visit(children[i], depth + 1)];
    }
    assert children[..|children|] == children;
    StackReversed(work, ref, children, depth + 1);
    r := Ok(stack);
  }

  /**
   The walk read recursively: the node budget left after a value whose own node is already
   charged, or the first refusal.  A container charges all its children before any is read, and
   they are read last first.
   */
  ghost function Admit(h: Heap, v: Value, depth: nat, open: set<Ref>, budget: int): Result<int, Refusal>
    requires ValidHeap(h) && ValidValue(h, v)
    decreases MAX_DEPTH + 1 - depth, 0
  {
    match v
    case Container(ref) =>
      if depth > MAX_DEPTH || ref in open || |Children(h[ref])| > budget then Err(BoundExceeded)
      else if HasForeignKey(h[ref]) then Err(NonCanonical)
      else
        assert ValidCell(h, h[ref]);
        AdmitAll(h, Reverse(Children(h[ref])), depth + 1, open + {ref}, budget - |Children(h[ref])|)
    case _ => if IsCanonicalScalar(v).Err? then Err(IsCanonicalScalar(v).error) else Ok(budget)
  }

  ghost function AdmitAll(h: Heap, vs: seq<Value>, depth: nat, open: set<Ref>, budget: int): Result<int, Refusal>
    requires ValidHeap(h) && (forall i :: 0 <= i < |vs| ==> ValidValue(h, vs[i])) && depth <= MAX_DEPTH + 1
    decreases MAX_DEPTH + 1 - depth, |vs| + 1
  {
    if vs == [] then Ok(budget)
    else
      var first := Admit(h, vs[0], depth, open, budget);
      if first.Err? then first else AdmitAll(h, vs[1..], depth, open, first.value)
  }

  /** What is left of the budget after everything on the agenda, or the first refusal. */
  ghost function Pending(h: Heap, agenda: seq<Work>, open: set<Ref>, budget: int): Result<int, Refusal>
    requires ValidHeap(h) && ValidAgenda(h, agenda)
    decreases |agenda|, 0
  {
    if agenda == [] then Ok(budget)
    else
      match agenda[0]
      case Emit(_) => Pending(h, agenda[1..], open, budget)
      case Close(r) => Pending(h, agenda[1..], open - {r}, budget)
      case Visit(v, depth) => ThenPending(h, Admit(h, v, depth, open, budget), agenda[1..], open)
  }

  ghost function ThenPending(h: Heap, first: Result<int, Refusal>, rest: seq<Work>, open: set<Ref>): Result<int, Refusal>
    requires ValidHeap(h) && ValidAgenda(h, rest)
    decreases |rest|, 1
  {
    if first.Err? then first else Pending(h, rest, open, first.value)
  }

  lemma VisitPending(h: Heap, v: Value, depth: nat, rest: seq<Work>, open: set<Ref>, budget: int)
    requires ValidHeap(h) && ValidAgenda(h, rest) && ValidValue(h, v) && depth <= MAX_DEPTH + 1
    ensures ValidAgenda(h, [Visit(v, depth)] + rest)
    ensures Pending(h, [Visit(v, depth)] + rest, open, budget) == ThenPending(h, Admit(h, v, depth, open, budget), rest, open)
  {
    hide Admit, ThenPending;
    assert ([Visit(v, depth)] + rest)[1..] == rest;
  }

  lemma ClosePending(h: Heap, ref: Ref, rest: seq<Work>, open: set<Ref>, budget: int)
    requires ValidHeap(h) && ValidAgenda(h, rest) && ref !in open
    ensures ValidAgenda(h, [Close(ref)] + rest)
    ensures Pending(h, [Close(ref)] + rest, open + {ref}, budget) == Pending(h, rest, open, budget)
  {
    hide Admit;
    assert ([Close(ref)] + rest)[1..] == rest && open + {ref} - {ref} == open;
  }

  /** Visiting children one after the other admits them all or stops at the first refused. */
  lemma {:induction false} VisitsAdmitAll(
      h: Heap, vs: seq<Value>, depth: nat, rest: seq<Work>, open: set<Ref>, budget: int)
    requires ValidHeap(h) && ValidAgenda(h, rest) && (forall i :: 0 <= i < |vs| ==> ValidValue(h, vs[i])) && depth <= MAX_DEPTH + 1
    ensures ValidAgenda(h, Visits(vs, depth) + rest)
    ensures Pending(h, Visits(vs, depth) + rest, open, budget)
         == ThenPending(h, AdmitAll(h, vs, depth, open, budget), rest, open)
    decreases |vs|
  {
    hide Admit, Pending;
    if vs == [] {
      assert Visits(vs, depth) + rest == rest;
    } else {
      var first := Admit(h, vs[0], depth, open, budget);
      VisitsSplit(vs, depth, rest);
      VisitsAdmitAll(h, vs[1..], depth, rest, open, if first.Ok? then first.value else budget);
      VisitPending(h, vs[0], depth, Visits(vs[1..], depth) + rest, open, budget);
    }
  }

  lemma VisitsSplit(vs: seq<Value>, depth: nat, rest: seq<Work>)
    requires vs != []
    ensures Visits(vs, depth) + rest == [Visit(vs[0], depth)] + (Visits(vs[1..], depth) + rest)
  {
  }

  /** Entering a container leaves the same outcome pending. */
  lemma EnteringKeepsPending(h: Heap, ref: Ref, depth: nat, rest: seq<Work>, open: set<Ref>, budget: int)
    requires ValidHeap(h) && ref in h && depth <= MAX_DEPTH && ref !in open && !HasForeignKey(h[ref])
    requires ValidAgenda(h, rest) && |Children(h[ref])| <= budget
    ensures ValidAgenda(h, [Visit(Container(ref), depth)] + rest) && ValidAgenda(h, Entered(h, ref, depth, rest))
    ensures Pending(h, [Visit(Container(ref), depth)] + rest, open, budget)
         == Pending(h, Entered(h, ref, depth, rest), open + {ref}, budget - |Children(h[ref])|)
  {
    hide Admit, AdmitAll, Pending, Reverse;
    var vs, left := Reverse(Children(h[ref])), budget - |Children(h[ref])|;
    ContainerAdmits(h, ref, depth, open, budget);
    VisitPending(h, Container(ref), depth, rest, open, budget);
    var all := AdmitAll(h, vs, depth + 1, open + {ref}, left);
    ClosePending(h, ref, rest, open, if all.Ok? then all.value else left);
    VisitsAdmitAll(h, vs, depth + 1, [Close(ref)] + rest, open + {ref}, left);
  }

  lemma ContainerAdmits(h: Heap, ref: Ref, depth: nat, open: set<Ref>, budget: int)
    requires ValidHeap(h) && ref in h && depth <= MAX_DEPTH && ref !in open && !HasForeignKey(h[ref])
    requires |Children(h[ref])| <= budget
    ensures forall i :: 0 <= i < |Children(h[ref])| ==> ValidValue(h, Reverse(Children(h[ref]))[i])
    ensures Admit(h, Container(ref), depth, open, budget)
         == AdmitAll(h, Reverse(Children(h[ref])), depth + 1, open + {ref}, budget - |Children(h[ref])|)
  {
    hide AdmitAll;
    assert ValidCell(h, h[ref]);
  }

  lemma AdmitCases(h: Heap, v: Value, depth: nat, open: set<Ref>, budget: int)
    requires ValidHeap(h) && ValidValue(h, v)
    ensures IsCanonicalScalar(v).Err? ==> Admit(h, v, depth, open, budget) == Err(IsCanonicalScalar(v).error)
    ensures IsCanonicalScalar(v) == Ok(true) ==> Admit(h, v, depth, open, budget) == Ok(budget)
    ensures v.Container? ==> IsCanonicalScalar(v) == Ok(false)
    ensures v.Container? && ReserveContainer(h[v.ref], v.ref, depth, open, budget).Err? ==>
              Admit(h, v, depth, open, budget) == Err(ReserveContainer(h[v.ref], v.ref, depth, open, budget).error)
    ensures v.Container? && ReserveContainer(h[v.ref], v.ref, depth, open, budget).Ok? && HasForeignKey(h[v.ref]) ==>
              Admit(h, v, depth, open, budget) == Err(NonCanonical)
  {
    hide AdmitAll;
  }

  lemma OnlyRootPending(h: Heap, root: Value, budget: int)
    requires ValidHeap(h) && ValidValue(h, root)
    ensures ValidAgenda(h, [Visit(root, 1)])
    ensures Pending(h, [Visit(root, 1)], {}, budget) == Admit(h, root, 1, {}, budget)
  {
    hide Admit;
    VisitPending(h, root, 1, [], {}, budget);
    assert [Visit(root, 1)] + [] == [Visit(root, 1)];
  }

  /** The refusal of a reading, if it is one. */
  ghost function RefusalOf(r: Result<int, Refusal>): Option<Refusal> {
    if r.Err? then Some(r.error) else None
  }

  /**
   The walk terminates on every heap.  It accepts exactly the canonical values, and refuses the
   others for the first reason the recursive reading meets.
   */
  method PrevalidateCanonical(h: Heap, root: Value) returns (r: Option<Refusal>)
    requires ValidHeap(h) && ValidValue(h, root)
    ensures r == RefusalOf(Admit(h, root, 1, {}, MAX_NODES - 1))
    ensures r.None? <==> Acceptable(h, root)
  {
    hide Admit, AdmitAll, Pending, Unroll, NodeCount, Reverse, Weight, HasForeignKey, Acceptable;
    var open: set<Ref> := {};
    var remaining := MAX_NODES - 1; // one node is the root's own
    var work: seq<Work> := [Visit(root, 1)];
    ghost var w := WidthExists(h);
    OnlyRootPending(h, root, remaining);
    AdmittedIffAcceptable(h, root);
    OneReversed(work);
    while work != []
      invariant ValidAgenda(h, Reverse(work))
      invariant Pending(h, Reverse(work), open, remaining) == Admit(h, root, 1, {}, MAX_NODES - 1)
      decreases Weight(Reverse(work), w)
    {
      var top := work[|work| - 1];
      Popped(work);
      work := work[..|work| - 1];
      ghost var rest := Reverse(work);
      RestIsValid(h, top, rest);
      WeightOfFirst(top, rest, w);
      StepPending(h, top, rest, open, remaining);
      match top {
        case Emit(_) =>
        case Close(ref) =>
          open := open - {ref};
        case Visit(v, depth) =>
          AdmitCases(h, v, depth, open, remaining);
          var scalar := IsCanonicalScalar(v);
          if scalar.Err? {
            return Some(scalar.error);
          }
          if !scalar.value {
            var reserved := ReserveContainer(h[v.ref], v.ref, depth, open, remaining);
            if reserved.Err? {
              return Some(reserved.error);
            }
            var pushed := PushCanonicalChildren(h, v.ref, depth, work);
            if pushed.Err? {
              return Some(pushed.error);
            }
            EnteringKeepsPending(h, v.ref, depth, rest, open, remaining);
            EnteringWeighsLess(h, v.ref, depth, rest, w);
            open := open + {v.ref};
            remaining := reserved.value;
            work := pushed.value;
          }
      }
    }
    NothingPending(h, work, open, remaining);
    r := None;
  }

  lemma NothingPending(h: Heap, work: seq<Work>, open: set<Ref>, budget: int)
    requires ValidHeap(h) && work == [] && ValidAgenda(h, Reverse(work))
    ensures Pending(h, Reverse(work), open, budget) == Ok(budget)
  {
  }

  lemma StepPending(h: Heap, top: Work, rest: seq<Work>, open: set<Ref>, budget: int)
    requires ValidHeap(h) && ValidAgenda(h, [top] + rest)
    ensures ValidAgenda(h, rest)
    ensures top.Emit? ==> Pending(h, [top] + rest, open, budget) == Pending(h, rest, open, budget)
    ensures top.Close? ==> Pending(h, [top] + rest, open, budget) == Pending(h, rest, open - {top.ref}, budget)
    ensures top.Visit? ==>
              && ValidValue(h, top.value) && top.depth <= MAX_DEPTH + 1
              && Pending(h, [top] + rest, open, budget)
              == ThenPending(h, Admit(h, top.value, top.depth, open, budget), rest, open)
  {
    hide Admit, ThenPending;
    RestIsValid(h, top, rest);
    assert ([top] + rest)[1..] == rest;
  }

  // ----- what admission means

  ghost predicate AllHaveTrees(h: Heap, vs: seq<Value>, depth: nat, open: set<Ref>)
    requires ValidHeap(h) && forall i :: 0 <= i < |vs| ==> ValidValue(h, vs[i])
  {
    forall i :: 0 <= i < |vs| ==> Unroll(h, vs[i], depth, open).Some?
  }

  lemma OrderDoesNotMatter(h: Heap, vs: seq<Value>, depth: nat, open: set<Ref>)
    requires ValidHeap(h) && forall i :: 0 <= i < |vs| ==> ValidValue(h, vs[i])
    ensures forall i :: 0 <= i < |vs| ==> ValidValue(h, Reverse(vs)[i])
    ensures AllHaveTrees(h, Reverse(vs), depth, open) <==> AllHaveTrees(h, vs, depth, open)
  {
    hide Unroll;
    forall i | 0 <= i < |vs| ensures Reverse(vs)[i] == vs[|vs| - 1 - i] {}
    if AllHaveTrees(h, Reverse(vs), depth, open) {
      forall i | 0 <= i < |vs| ensures Unroll(h, vs[i], depth, open).Some? {
        assert Unroll(h, Reverse(vs)[|vs| - 1 - i], depth, open).Some?;
      }
    }
  }

  lemma {:induction false} SumNodesSnoc(h: Heap, vs: seq<Value>, v: Value, depth: nat)
    requires ValidHeap(h) && (forall i :: 0 <= i < |vs| ==> ValidValue(h, vs[i])) && ValidValue(h, v) && depth <= MAX_DEPTH + 1
    ensures SumNodes(h, vs + [v], depth) == SumNodes(h, vs, depth) + NodeCount(h, v, depth)
    decreases |vs|
  {
    hide NodeCount;
    if vs == [] {
      assert SumNodes(h, [v][1..], depth) == 0 && vs + [v] == [v];
    } else {
      SumNodesSnoc(h, vs[1..], v, depth);
      assert (vs + [v])[1..] == vs[1..] + [v];
    }
  }

  /** Counting the children last first counts them all. */
  lemma {:induction false} SumNodesReversed(h: Heap, vs: seq<Value>, depth: nat)
    requires ValidHeap(h) && (forall i :: 0 <= i < |vs| ==> ValidValue(h, vs[i])) && depth <= MAX_DEPTH + 1
    ensures SumNodes(h, Reverse(vs), depth) == SumNodes(h, vs, depth)
    decreases |vs|
  {
    hide NodeCount;
    if vs != [] {
      SumNodesReversed(h, vs[1..], depth);
      assert Reverse(vs) == Reverse(vs[1..]) + [vs[0]];
      SumNodesSnoc(h, Reverse(vs[1..]), vs[0], depth);
    } else {
      assert Reverse(vs) == vs;
    }
  }

  /**
   The reading spends the nodes below a value, one each, and admits exactly the values that have
   a tree the budget covers.
   */
  lemma {:induction false} AdmitSpends(h: Heap, v: Value, depth: nat, open: set<Ref>, budget: int)
    requires ValidHeap(h) && ValidValue(h, v) && budget >= 0
    ensures Admit(h, v, depth, open, budget).Ok? <==>
            Unroll(h, v, depth, open).Some? && NodeCount(h, v, depth) - 1 <= budget
    ensures Admit(h, v, depth, open, budget).Ok? ==>
            Admit(h, v, depth, open, budget).value == budget - (NodeCount(h, v, depth) - 1)
    decreases MAX_DEPTH + 1 - depth, 0
  {
    hide Admit, AdmitAll, Unroll, UnrollAll, NodeCount, SumNodes, Reverse;
    AdmitCases(h, v, depth, open, budget);
    if v.Container? && depth <= MAX_DEPTH && v.ref !in open && !HasForeignKey(h[v.ref]) {
      var vs := Children(h[v.ref]);
      ContainerCounts(h, v.ref, depth);
      ContainerUnrollsWithChildren(h, v.ref, depth, open);
      if |vs| <= budget {
        ContainerAdmits(h, v.ref, depth, open, budget);
        AdmitAllSpends(h, Reverse(vs), depth + 1, open + {v.ref}, budget - |vs|);
        SumNodesReversed(h, vs, depth + 1);
        OrderDoesNotMatter(h, vs, depth + 1, open + {v.ref});
      }
    } else {
      UnrollCases(h, v, depth, open);
    }
  }

  lemma {:induction false} AdmitAllSpends(h: Heap, vs: seq<Value>, depth: nat, open: set<Ref>, budget: int)
    requires ValidHeap(h) && (forall i :: 0 <= i < |vs| ==> ValidValue(h, vs[i])) && depth <= MAX_DEPTH + 1 && budget >= 0
    ensures AdmitAll(h, vs, depth, open, budget).Ok? <==>
            AllHaveTrees(h, vs, depth, open) && SumNodes(h, vs, depth) - |vs| <= budget
    ensures AdmitAll(h, vs, depth, open, budget).Ok? ==>
            AdmitAll(h, vs, depth, open, budget).value == budget - (SumNodes(h, vs, depth) - |vs|)
    decreases MAX_DEPTH + 1 - depth, |vs| + 1
  {
    hide Admit, Unroll, NodeCount, AllHaveTrees;
    FirstHasTree(h, vs, depth, open);
    if vs != [] {
      AdmitSpends(h, vs[0], depth, open, budget);
      var first := Admit(h, vs[0], depth, open, budget);
      if first.Ok? {
        AdmitAllSpends(h, vs[1..], depth, open, first.value);
      }
    }
  }

  lemma FirstHasTree(h: Heap, vs: seq<Value>, depth: nat, open: set<Ref>)
    requires ValidHeap(h) && forall i :: 0 <= i < |vs| ==> ValidValue(h, vs[i])
    ensures vs == [] ==> AllHaveTrees(h, vs, depth, open)
    ensures vs != [] ==> (AllHaveTrees(h, vs, depth, open) <==>
                            Unroll(h, vs[0], depth, open).Some? && AllHaveTrees(h, vs[1..], depth, open))
  {
    hide Unroll;
    if vs != [] {
      forall i | 0 <= i < |vs| ensures i == 0 || vs[i] == vs[1..][i - 1] {}
    }
  }

  lemma ContainerCounts(h: Heap, ref: Ref, depth: nat)
    requires ValidHeap(h) && ref in h && depth <= MAX_DEPTH
    ensures forall i :: 0 <= i < |Children(h[ref])| ==> ValidValue(h, Children(h[ref])[i])
    ensures NodeCount(h, Container(ref), depth) == 1 + SumNodes(h, Children(h[ref]), depth + 1)
  {
    hide SumNodes;
    assert ValidCell(h, h[ref]);
  }

  lemma ContainerUnrollsWithChildren(h: Heap, ref: Ref, depth: nat, open: set<Ref>)
    requires ValidHeap(h) && ref in h && depth <= MAX_DEPTH && ref !in open && !HasForeignKey(h[ref])
    ensures forall i :: 0 <= i < |Children(h[ref])| ==> ValidValue(h, Children(h[ref])[i])
    ensures Unroll(h, Container(ref), depth, open).Some? <==> AllHaveTrees(h, Children(h[ref]), depth + 1, open + {ref})
  {
    assert ValidCell(h, h[ref]);
  }

  lemma UnrollCases(h: Heap, v: Value, depth: nat, open: set<Ref>)
    requires ValidHeap(h) && ValidValue(h, v)
    ensures IsCanonicalScalar(v).Err? ==> Unroll(h, v, depth, open).None?
    ensures IsCanonicalScalar(v) == Ok(true) ==> Unroll(h, v, depth, open).Some? && NodeCount(h, v, depth) == 1
    ensures v.Container? && (depth > MAX_DEPTH || v.ref in open || HasForeignKey(h[v.ref])) ==>
              Unroll(h, v, depth, open).None?
  {
  }

  lemma AdmittedIffAcceptable(h: Heap, root: Value)
    requires ValidHeap(h) && ValidValue(h, root)
    ensures Admit(h, root, 1, {}, MAX_NODES - 1).Ok? <==> Acceptable(h, root)
  {
    hide Admit, Unroll, NodeCount;
    AdmitSpends(h, root, 1, {}, MAX_NODES - 1);
  }

  /** An exact JSON scalar, or a container. */
  predicate ExactValue(v: Value) {
    !v.Foreign? && (v.FloatValue? ==> v.f.Finite?)
  }

  /** A container whose keys are exact strings and whose children are exact. */
  predicate ExactCell(c: Cell) {
    !HasForeignKey(c) && forall i :: 0 <= i < |Children(c)| ==> ExactValue(Children(c)[i])
  }

  /** A path that goes too deep, repeats a container, re-enters an open one or ends at an inexact one. */
  ghost predicate BrokenPath(h: Heap, v: Value, depth: nat, open: set<Ref>, p: seq<Ref>) {
    IsPath(h, v, p) && (BadPath(h, v, depth, open, p) || !ExactCell(h[p[|p| - 1]]))
  }

  /** A value without a tree shows a broken path. */
  lemma {:induction false} NoTreeHasBrokenPath(h: Heap, v: Value, depth: nat, open: set<Ref>) returns (p: seq<Ref>)
    requires ValidHeap(h) && ValidValue(h, v) && ExactValue(v) && 1 <= depth <= MAX_DEPTH + 1
    requires Unroll(h, v, depth, open).None?
    ensures BrokenPath(h, v, depth, open, p)
    decreases MAX_DEPTH + 1 - depth
  {
    hide Unroll, ExactCell, HasForeignKey;
    ExactScalarsHaveTrees(h, v, depth, open);
    p := [v.ref];
    if depth <= MAX_DEPTH && v.ref !in open && ExactCell(h[v.ref]) {
      var i := SomeChildHasNoTree(h, v.ref, depth, open);
      var child := Children(h[v.ref])[i];
      var q := NoTreeHasBrokenPath(h, child, depth + 1, open + {v.ref});
      p := [v.ref] + q;
      BrokenPathGrows(h, v.ref, child, depth, open, q);
    }
  }

  lemma ExactScalarsHaveTrees(h: Heap, v: Value, depth: nat, open: set<Ref>)
    requires ValidHeap(h) && ValidValue(h, v) && ExactValue(v) && Unroll(h, v, depth, open).None?
    ensures v.Container?
  {
  }

  lemma SomeChildHasNoTree(h: Heap, ref: Ref, depth: nat, open: set<Ref>) returns (i: nat)
    requires ValidHeap(h) && ref in h && depth <= MAX_DEPTH && ref !in open && ExactCell(h[ref])
    requires Unroll(h, Container(ref), depth, open).None?
    ensures i < |Children(h[ref])| && ValidValue(h, Children(h[ref])[i]) && ExactValue(Children(h[ref])[i])
    ensures Unroll(h, Children(h[ref])[i], depth + 1, open + {ref}).None?
  {
    hide Unroll;
    ContainerUnrollsWithChildren(h, ref, depth, open);
    i :| 0 <= i < |Children(h[ref])| && Unroll(h, Children(h[ref])[i], depth + 1, open + {ref}).None?;
  }

  lemma BrokenPathGrows(h: Heap, ref: Ref, child: Value, depth: nat, open: set<Ref>, q: seq<Ref>)
    requires ref in h && child in Children(h[ref]) && BrokenPath(h, child, depth + 1, open + {ref}, q)
    ensures BrokenPath(h, Container(ref), depth, open, [ref] + q)
  {
    hide ExactCell;
    PathStep(h, ref, child, q);
    assert ([ref] + q)[|q|] == q[|q| - 1];
    if BadPath(h, child, depth + 1, open + {ref}, q) {
      BadPathGrows(h, ref, child, depth, open, q);
    }
  }

  /** A broken path leaves no tree. */
  lemma {:induction false} BrokenPathHasNoTree(h: Heap, v: Value, depth: nat, open: set<Ref>, p: seq<Ref>)
    requires ValidHeap(h) && ValidValue(h, v) && 1 <= depth <= MAX_DEPTH + 1 && BrokenPath(h, v, depth, open, p)
    ensures Unroll(h, v, depth, open).None?
    decreases MAX_DEPTH + 1 - depth
  {
    hide Unroll, ExactCell, HasForeignKey, BrokenPath, BadPath;
    PathStartsAt(h, v, depth, open, p);
    UnrollCases(h, v, depth, open);
    if depth <= MAX_DEPTH && v.ref !in open {
      if !ExactCell(h[v.ref]) {
        InexactCellHasNoTree(h, v.ref, depth, open);
      } else {
        var i := BrokenPathShrinks(h, v.ref, depth, open, p);
        var child := Children(h[v.ref])[i];
        BrokenPathHasNoTree(h, child, depth + 1, open + {v.ref}, p[1..]);
        ChildWithoutTree(h, v.ref, depth, open, i);
      }
    }
  }

  lemma PathStartsAt(h: Heap, v: Value, depth: nat, open: set<Ref>, p: seq<Ref>)
    requires BrokenPath(h, v, depth, open, p)
    ensures v.Container? && v.ref in h
  {
  }

  lemma InexactCellHasNoTree(h: Heap, ref: Ref, depth: nat, open: set<Ref>)
    requires ValidHeap(h) && ref in h && depth <= MAX_DEPTH && ref !in open && !ExactCell(h[ref])
    ensures Unroll(h, Container(ref), depth, open).None?
  {
    hide Unroll;
    UnrollCases(h, Container(ref), depth, open);
    if !HasForeignKey(h[ref]) {
      var i :| 0 <= i < |Children(h[ref])| && !ExactValue(Children(h[ref])[i]);
      assert ValidCell(h, h[ref]);
      UnrollCases(h, Children(h[ref])[i], depth + 1, open + {ref});
      ChildWithoutTree(h, ref, depth, open, i);
    }
  }

  lemma ChildWithoutTree(h: Heap, ref: Ref, depth: nat, open: set<Ref>, i: nat)
    requires ValidHeap(h) && ref in h && depth <= MAX_DEPTH && ref !in open && i < |Children(h[ref])|
    requires ValidValue(h, Children(h[ref])[i]) && Unroll(h, Children(h[ref])[i], depth + 1, open + {ref}).None?
    ensures Unroll(h, Container(ref), depth, open).None?
  {
    hide Unroll;
    UnrollCases(h, Container(ref), depth, open);
    if !HasForeignKey(h[ref]) {
      ContainerUnrollsWithChildren(h, ref, depth, open);
    }
  }

  lemma BrokenPathShrinks(h: Heap, ref: Ref, depth: nat, open: set<Ref>, p: seq<Ref>) returns (i: nat)
    requires ValidHeap(h) && BrokenPath(h, Container(ref), depth, open, p)
    requires ref in h && depth <= MAX_DEPTH && ref !in open && ExactCell(h[ref])
    ensures i < |Children(h[ref])| && ValidValue(h, Children(h[ref])[i]) && |p| > 1
    ensures BrokenPath(h, Children(h[ref])[i], depth + 1, open + {ref}, p[1..])
  {
    hide ExactCell;
    if BadPath(h, Container(ref), depth, open, p) {
      BadPathShrinks(h, Container(ref), depth, open, p);
    }
    PathTail(h, Container(ref), p);
    i :| 0 <= i < |Children(h[ref])| && Children(h[ref])[i] == Container(p[1]);
    assert p[1..][|p| - 2] == p[|p| - 1];
  }

  /**
   The canonical values, apart from any walk: no path from the root passes more than 100
   containers or one of them twice, everything a path reaches is exact, and the unfolding has at
   most 100,000 nodes.
   */
  lemma AcceptableIffPaths(h: Heap, root: Value)
    requires ValidHeap(h) && ValidValue(h, root)
    ensures Acceptable(h, root) <==>
            && ExactValue(root)
            && (forall p: seq<Ref> :: IsPath(h, root, p) ==> |p| <= MAX_DEPTH && Distinct(p) && ExactCell(h[p[|p| - 1]]))
            && NodeCount(h, root, 1) <= MAX_NODES
  {
    hide Unroll, NodeCount, ExactCell;
    UnrollCases(h, root, 1, {});
    if Unroll(h, root, 1, {}).Some? {
      forall p: seq<Ref> | IsPath(h, root, p) ensures |p| <= MAX_DEPTH && Distinct(p) && ExactCell(h[p[|p| - 1]]) {
        if !(|p| <= MAX_DEPTH && Distinct(p) && ExactCell(h[p[|p| - 1]])) {
          BrokenPathHasNoTree(h, root, 1, {}, p);
        }
      }
    } else if ExactValue(root) {
      var p := NoTreeHasBrokenPath(h, root, 1, {});
    }
  }

  /** The first child the reading refuses, and the budget it was refused under. */
  lemma {:induction false} FirstRefused(h: Heap, vs: seq<Value>, depth: nat, open: set<Ref>, budget: int) returns (i: nat, left: int)
    requires ValidHeap(h) && (forall i :: 0 <= i < |vs| ==> ValidValue(h, vs[i])) && depth <= MAX_DEPTH + 1 && budget >= 0
    requires AdmitAll(h, vs, depth, open, budget).Err?
    ensures i < |vs| && left >= 0 && Admit(h, vs[i], depth, open, left) == AdmitAll(h, vs, depth, open, budget)
    ensures NodeCount(h, vs[i], depth) - 1 > left ==> SumNodes(h, vs, depth) - |vs| > budget
    decreases |vs|
  {
    hide Admit, Unroll, NodeCount;
    AdmitSpends(h, vs[0], depth, open, budget);
    var first := Admit(h, vs[0], depth, open, budget);
    if first.Err? {
      i, left := 0, budget;
    } else {
      var j, b := FirstRefused(h, vs[1..], depth, open, first.value);
      i, left := j + 1, b;
    }
  }

  /** A path that goes too deep, repeats a container or re-enters an open one; or one to an inexact container. */
  ghost predicate ShowsRefusal(h: Heap, v: Value, depth: nat, open: set<Ref>, budget: int, e: Refusal, p: seq<Ref>)
    requires ValidHeap(h) && ValidValue(h, v)
  {
    match e
    case NonCanonical => !ExactValue(v) || (IsPath(h, v, p) && !ExactCell(h[p[|p| - 1]]))
    case BoundExceeded => NodeCount(h, v, depth) - 1 > budget || BadPath(h, v, depth, open, p)
  }

  lemma {:induction false} RefusalShows(h: Heap, v: Value, depth: nat, open: set<Ref>, budget: int) returns (p: seq<Ref>)
    requires ValidHeap(h) && ValidValue(h, v) && 1 <= depth <= MAX_DEPTH + 1 && budget >= 0
    requires Admit(h, v, depth, open, budget).Err?
    ensures ShowsRefusal(h, v, depth, open, budget, Admit(h, v, depth, open, budget).error, p)
    decreases MAX_DEPTH + 1 - depth
  {
    hide Admit, AdmitAll, NodeCount, SumNodes, ShowsRefusal, ExactCell, HasForeignKey, Reverse;
    AdmitCases(h, v, depth, open, budget);
    if v.Container? && depth <= MAX_DEPTH && v.ref !in open && |Children(h[v.ref])| <= budget && !HasForeignKey(h[v.ref]) {
      var vs := Children(h[v.ref]);
      ContainerCounts(h, v.ref, depth);
      ContainerAdmits(h, v.ref, depth, open, budget);
      var i, left := FirstRefused(h, Reverse(vs), depth + 1, open + {v.ref}, budget - |vs|);
      SumNodesReversed(h, vs, depth + 1);
      var child := Reverse(vs)[i];
      assert child == vs[|vs| - 1 - i];
      var q := RefusalShows(h, child, depth + 1, open + {v.ref}, left);
      p := ShownAbove(h, v.ref, child, depth, open, budget, left, Admit(h, v, depth, open, budget).error, q);
    } else {
      p := ShownAtOnce(h, v, depth, open, budget);
    }
  }

  lemma ShownAtOnce(h: Heap, v: Value, depth: nat, open: set<Ref>, budget: int) returns (p: seq<Ref>)
    requires ValidHeap(h) && ValidValue(h, v) && 1 <= depth <= MAX_DEPTH + 1 && Admit(h, v, depth, open, budget).Err?
    requires v.Container? && depth <= MAX_DEPTH && v.ref !in open && |Children(h[v.ref])| <= budget ==> HasForeignKey(h[v.ref])
    ensures ShowsRefusal(h, v, depth, open, budget, Admit(h, v, depth, open, budget).error, p)
  {
    p := if v.Container? then [v.ref] else [];
    if v.Container? {
      assert p[0] == v.ref;
      if depth <= MAX_DEPTH {
        ContainerCounts(h, v.ref, depth);
      }
    }
  }

  lemma ShownAbove(h: Heap, ref: Ref, child: Value, depth: nat, open: set<Ref>, budget: int, left: int, e: Refusal, q: seq<Ref>)
    returns (p: seq<Ref>)
    requires ValidHeap(h) && ref in h && ValidValue(h, child) && child in Children(h[ref]) && 1 <= depth <= MAX_DEPTH
    requires NodeCount(h, child, depth + 1) - 1 > left ==> NodeCount(h, Container(ref), depth) - 1 > budget
    requires ShowsRefusal(h, child, depth + 1, open + {ref}, left, e, q)
    ensures ShowsRefusal(h, Container(ref), depth, open, budget, e, p)
  {
    hide NodeCount;
    p := [ref] + q;
    if e.NonCanonical? {
      if !ExactValue(child) {
        p := [ref];
      } else {
        PathStep(h, ref, child, q);
        assert p[|p| - 1] == q[|q| - 1];
      }
    } else if BadPath(h, child, depth + 1, open + {ref}, q) {
      BadPathGrows(h, ref, child, depth, open, q);
    }
  }

  /**
   Every refusal names what is wrong: something inexact, or a bound.  A bound is exceeded by nodes,
   or by a path that passes more than 100 containers or one of them twice.
   */
  lemma RefusalsHaveReasons(h: Heap, root: Value)
    requires ValidHeap(h) && ValidValue(h, root)
    ensures var refusal := RefusalOf(Admit(h, root, 1, {}, MAX_NODES - 1));
            && (refusal == Some(NonCanonical) ==>
                  !ExactValue(root) || exists p: seq<Ref> :: IsPath(h, root, p) && !ExactCell(h[p[|p| - 1]]))
            && (refusal == Some(BoundExceeded) ==>
                  NodeCount(h, root, 1) > 100_000 || exists p: seq<Ref> :: IsPath(h, root, p) && (|p| > 100 || !Distinct(p)))
  {
    hide Admit, NodeCount, ExactCell;
    var r := Admit(h, root, 1, {}, MAX_NODES - 1);
    if r.Err? {
      var p := RefusalShows(h, root, 1, {}, MAX_NODES - 1);
    }
  }

  // ----- comparison of admitted values

  /** A tree found deep inside open containers is found with fewer of them too. */
  lemma {:induction false} UnrollLoosens(h: Heap, v: Value, depth: nat, open: set<Ref>, depth': nat, open': set<Ref>)
    requires ValidHeap(h) && ValidValue(h, v) && depth' <= depth && open' <= open
    requires Unroll(h, v, depth, open).Some?
    ensures Unroll(h, v, depth', open') == Unroll(h, v, depth, open)
    decreases MAX_DEPTH + 1 - depth
  {
    hide Unroll, UnrollAll;
    if v.Container? {
      ContainerUnrolls(h, v.ref, depth, open);
      var vs, inside, inside' := Children(h[v.ref]), open + {v.ref}, open' + {v.ref};
      forall i | 0 <= i < |vs| ensures Unroll(h, vs[i], depth' + 1, inside') == Unroll(h, vs[i], depth + 1, inside) {
        UnrollLoosens(h, vs[i], depth + 1, inside, depth' + 1, inside');
      }
      SameChildrenSameTree(h, v.ref, depth, open, depth', open');
    } else {
      ScalarsUnrollAlike(h, v, depth, open, depth', open');
    }
  }

  lemma ScalarsUnrollAlike(h: Heap, v: Value, depth: nat, open: set<Ref>, depth': nat, open': set<Ref>)
    requires ValidHeap(h) && ValidValue(h, v) && !v.Container?
    ensures Unroll(h, v, depth', open') == Unroll(h, v, depth, open)
  {
  }

  lemma ContainerUnrolls(h: Heap, ref: Ref, depth: nat, open: set<Ref>)
    requires ValidHeap(h) && ref in h && Unroll(h, Container(ref), depth, open).Some?
    ensures depth <= MAX_DEPTH && ref !in open && !HasForeignKey(h[ref])
    ensures forall i :: 0 <= i < |Children(h[ref])| ==>
              ValidValue(h, Children(h[ref])[i]) && Unroll(h, Children(h[ref])[i], depth + 1, open + {ref}).Some?
  {
    assert ValidCell(h, h[ref]);
  }

  lemma SameChildrenSameTree(h: Heap, ref: Ref, depth: nat, open: set<Ref>, depth': nat, open': set<Ref>)
    requires ValidHeap(h) && ref in h && !HasForeignKey(h[ref])
    requires depth <= MAX_DEPTH && ref !in open && depth' <= MAX_DEPTH && ref !in open'
    requires forall i :: 0 <= i < |Children(h[ref])| ==>
               && ValidValue(h, Children(h[ref])[i])
               && Unroll(h, Children(h[ref])[i], depth + 1, open + {ref}).Some?
               && Unroll(h, Children(h[ref])[i], depth' + 1, open' + {ref}) == Unroll(h, Children(h[ref])[i], depth + 1, open + {ref})
    ensures Unroll(h, Container(ref), depth', open') == Unroll(h, Container(ref), depth, open)
  {
    var vs := Children(h[ref]);
    var a, b := UnrollAll(h, vs, depth + 1, open + {ref}), UnrollAll(h, vs, depth' + 1, open' + {ref});
    assert a.value == b.value;
  }

  /** The tree of an admitted value. */
  ghost function TreeOf(h: Heap, v: Value): Tree
    requires ValidHeap(h) && ValidValue(h, v) && Unroll(h, v, 1, {}).Some?
  {
    Unroll(h, v, 1, {}).value
  }

  /** The children of a container whose tree was found at this level have trees of their own one level down. */
  lemma ChildrenHaveTrees(h: Heap, ref: Ref, depth: nat, i: nat)
    requires ValidHeap(h) && ref in h && depth >= 1 && Unroll(h, Container(ref), depth, {}).Some? && i < |Children(h[ref])|
    ensures ValidValue(h, Children(h[ref])[i]) && depth <= MAX_DEPTH
    ensures Unroll(h, Children(h[ref])[i], depth + 1, {}).Some? && Unroll(h, Children(h[ref])[i], 1, {}).Some?
  {
    hide Unroll;
    ContainerUnrolls(h, ref, depth, {});
    var v := Children(h[ref])[i];
    UnrollLoosens(h, v, depth + 1, {} + {ref}, depth + 1, {});
    UnrollLoosens(h, v, depth + 1, {}, 1, {});
  }

  /** A container's tree, in terms of its children's. */
  lemma TreeOfContainer(h: Heap, ref: Ref)
    requires ValidHeap(h) && ref in h && Unroll(h, Container(ref), 1, {}).Some?
    ensures forall i :: 0 <= i < |Children(h[ref])| ==>
              ValidValue(h, Children(h[ref])[i]) && Unroll(h, Children(h[ref])[i], 1, {}).Some?
    ensures h[ref].ListCell? ==>
              && TreeOf(h, Container(ref)).TList?
              && |TreeOf(h, Container(ref)).items| == |h[ref].items|
              && forall i :: 0 <= i < |h[ref].items| ==>
                   TreeOf(h, Container(ref)).items[i] == TreeOf(h, Children(h[ref])[i])
    ensures h[ref].DictCell? ==>
              && !HasForeignKey(h[ref])
              && TreeOf(h, Container(ref)).TDict?
              && TreeOf(h, Container(ref)).members.Keys == Names(h[ref].entries)
              && forall i :: 0 <= i < |h[ref].entries| ==>
                   h[ref].entries[i].key.s in TreeOf(h, Container(ref)).members
                   && TreeOf(h, Container(ref)).members[h[ref].entries[i].key.s] == TreeOf(h, Children(h[ref])[i])
  {
    var vs := Children(h[ref]);
    assert ValidCell(h, h[ref]);
    var trees := UnrollAll(h, vs, 2, {} + {ref}).value;
    assert Unroll(h, Container(ref), 1, {}) ==
      Some(if h[ref].ListCell? then TList(trees) else TDict(Members(h[ref].entries, trees)));
    forall i | 0 <= i < |vs|
      ensures ValidValue(h, vs[i]) && Unroll(h, vs[i], 1, {}) == Some(trees[i])
    {
      hide Unroll, UnrollAll;
      UnrollLoosens(h, vs[i], 2, {} + {ref}, 1, {});
    }
    hide Unroll, UnrollAll;
    if h[ref].DictCell? {
      forall i | 0 <= i < |h[ref].entries| ensures Members(h[ref].entries, trees)[h[ref].entries[i].key.s] == trees[i] {
        MembersLookup(h[ref].entries, trees, i);
      }
    }
  }

  /** Python's `type`, as far as admitted values have one. */
  function KindOf(h: Heap, v: Value): nat
    requires v.Container? ==> v.ref in h
  {
    match v
    case NoneValue => 0
    case BoolValue(_) => 1
    case IntValue(_) => 2
    case FloatValue(_) => 3
    case TextValue(_) => 4
    case Foreign => 5
    case Container(ref) => if h[ref].ListCell? then 6 else 7
  }

  /** Python's `==` on two scalars of one exact type; two floats by the numbers they denote. */
  function SameScalar(v: Value, v': Value): bool
    requires v.FloatValue? && v.f.Finite? ==> IsDecimalText(v.f.repr)
    requires v'.FloatValue? && v'.f.Finite? ==> IsDecimalText(v'.f.repr)
  {
    if v.FloatValue? && v'.FloatValue? && v.f.Finite? && v'.f.Finite?
    then NumberOfRepr(v.f.neg, v.f.repr) == NumberOfRepr(v'.f.neg, v'.f.repr)
    else v == v'
  }

  lemma ScalarsCompareAsTrees(h: Heap, v: Value, v': Value)
    requires ValidHeap(h) && ValidValue(h, v) && ValidValue(h, v') && !v.Container? && !v'.Container?
    requires Unroll(h, v, 1, {}).Some? && Unroll(h, v', 1, {}).Some? && KindOf(h, v) == KindOf(h, v')
    ensures SameScalar(v, v') <==> TreeOf(h, v) == TreeOf(h, v')
  {
  }

  /** Float equality is equality of the denoted numbers, signed zeros included. */
  lemma FloatsCompareByValue(a: Text, b: Text)
    requires IsDecimalText(a) && IsDecimalText(b)
    ensures SameScalar(FloatValue(Finite(false, a)), FloatValue(Finite(false, b))) <==> SameValue(Denoted(a), Denoted(b))
    ensures Denoted(a).m == 0 ==> SameScalar(FloatValue(Finite(true, a)), FloatValue(Finite(false, a)))
  {
    hide IsDecimalText, Denoted, SameValue, NumberText, ShortestDigits;
    NumbersAreNormal(false, a, 0);
    NumbersAreNormal(false, b, 0);
    if Denoted(a).m > 0 && Denoted(b).m > 0 {
      SameTextIffSameValue(a, b);
      if NumberText(NumberOfRepr(false, a)) == NumberText(NumberOfRepr(false, b)) {
        NumberTextInjective(NumberOfRepr(false, a), NumberOfRepr(false, b));
      }
    } else {
      ZeroOnlyEqualsZero(Denoted(a), Denoted(b));
    }
  }

  lemma ZeroOnlyEqualsZero(a: Decimal, b: Decimal)
    requires a.m == 0 || b.m == 0
    ensures SameValue(a, b) <==> a.m == 0 && b.m == 0
  {
    var d := if a.e <= b.e then Pow10(b.e - a.e) else Pow10(a.e - b.e);
    CancelFactor(a.m, 0, d);
    CancelFactor(b.m, 0, d);
  }

  // ----- what equality of trees means

  /** Two finite floats denote one number: both zero, or of one sign and one magnitude. */
  ghost predicate SameFloat(f: Float, g: Float) {
    && f.Finite? && g.Finite? && IsDecimalText(f.repr) && IsDecimalText(g.repr)
    && SameValue(Denoted(f.repr), Denoted(g.repr))
    && (Denoted(f.repr).m > 0 ==> f.neg == g.neg)
  }

  /**
   The same JSON value: of one exact type, texts and numbers equal, lists item by item, and dicts
   of the same keys value by value, wherever they keep them.
   */
  ghost predicate Alike(h: Heap, v: Value, w: Value, depth: nat)
    decreases MAX_DEPTH + 1 - depth
  {
    match v
    case FloatValue(f) => w.FloatValue? && SameFloat(f, w.f)
    case Container(r) =>
      && depth <= MAX_DEPTH && r in h && w.Container? && w.ref in h
      && (match h[r]
          case ListCell(items) =>
            && h[w.ref].ListCell? && |items| == |h[w.ref].items|
            && forall i :: 0 <= i < |items| ==> Alike(h, items[i], h[w.ref].items[i], depth + 1)
          case DictCell(entries) =>
            && h[w.ref].DictCell? && SameKeys(entries, h[w.ref].entries)
            && forall i, j :: 0 <= i < |entries| && 0 <= j < |h[w.ref].entries| && entries[i].key == h[w.ref].entries[j].key ==>
                 Alike(h, entries[i].value, h[w.ref].entries[j].value, depth + 1))
    case Foreign => false
    case _ => v == w
  }

  ghost predicate HasKey(entries: seq<Entry>, k: Key) {
    exists i :: 0 <= i < |entries| && entries[i].key == k
  }

  ghost predicate SameKeys(a: seq<Entry>, b: seq<Entry>) {
    forall k :: HasKey(a, k) <==> HasKey(b, k)
  }

  lemma FloatsAreSame(f: Float, g: Float)
    requires f.Finite? && g.Finite? && IsDecimalText(f.repr) && IsDecimalText(g.repr)
    ensures NumberOfRepr(f.neg, f.repr) == NumberOfRepr(g.neg, g.repr) <==> SameFloat(f, g)
  {
    hide IsDecimalText, Denoted, SameValue, ShortestDigits;
    FloatsCompareByValue(f.repr, g.repr);
    ZeroIsSameAsZeroOnly(Denoted(f.repr), Denoted(g.repr));
  }

  lemma ZeroIsSameAsZeroOnly(a: Decimal, b: Decimal)
    ensures SameValue(a, b) ==> (a.m == 0 <==> b.m == 0)
  {
    if a.m == 0 || b.m == 0 {
      ZeroOnlyEqualsZero(a, b);
    }
  }

  lemma NamesAreKeys(a: seq<Entry>, b: seq<Entry>)
    requires forall i :: 0 <= i < |a| ==> a[i].key.TextKey?
    requires forall i :: 0 <= i < |b| ==> b[i].key.TextKey?
    ensures Names(a) == Names(b) <==> SameKeys(a, b)
  {
    forall s: Text ensures s in Names(a) <==> HasKey(a, TextKey(s)) {}
    forall s: Text ensures s in Names(b) <==> HasKey(b, TextKey(s)) {}
    if Names(a) == Names(b) {
      forall k ensures HasKey(a, k) <==> HasKey(b, k) {
        assert k.TextKey? ==> (k.s in Names(a) <==> k.s in Names(b));
      }
    }
    if SameKeys(a, b) {
      forall s: Text ensures s in Names(a) <==> s in Names(b) {
        assert HasKey(a, TextKey(s)) <==> HasKey(b, TextKey(s));
      }
    }
  }

  /** Equal trees are equal JSON values, and only they. */
  lemma {:induction false} SameTreeIffAlike(h: Heap, v: Value, w: Value, depth: nat)
    requires ValidPair(h, v, w, depth)
    ensures TreeOf(h, v) == TreeOf(h, w) <==> Alike(h, v, w, depth)
    decreases MAX_DEPTH + 1 - depth, 1
  {
    hide Unroll, TreeOf, SameFloat, Alike;
    if v.Container? && w.Container? && h[v.ref].ListCell? && h[w.ref].ListCell? {
      ListsAlike(h, v.ref, w.ref, depth);
    } else if v.Container? && w.Container? && h[v.ref].DictCell? && h[w.ref].DictCell? {
      DictsAlike(h, v.ref, w.ref, depth);
    } else {
      ScalarsAlike(h, v, w, depth);
    }
  }

  lemma ScalarsAlike(h: Heap, v: Value, w: Value, depth: nat)
    requires ValidPair(h, v, w, depth)
    requires v.Container? && w.Container? ==> h[v.ref].ListCell? != h[w.ref].ListCell?
    ensures TreeOf(h, v) == TreeOf(h, w) <==> Alike(h, v, w, depth)
  {
    hide SameFloat, NumberOfRepr;
    if v.FloatValue? && w.FloatValue? {
      FloatsAreSame(v.f, w.f);
    }
  }

  lemma {:induction false} ListsAlike(h: Heap, l: Ref, r: Ref, depth: nat)
    requires l in h && r in h && h[l].ListCell? && h[r].ListCell? && ValidPair(h, Container(l), Container(r), depth)
    ensures TreeOf(h, Container(l)) == TreeOf(h, Container(r)) <==> Alike(h, Container(l), Container(r), depth)
    decreases MAX_DEPTH + 1 - depth, 0
  {
    hide Unroll, TreeOf, SameFloat, ValidPair, HasForeignKey;
    assert ValidPair(h, Container(l), Container(r), depth);
    PairOfContainers(h, l, r, depth);
    TreeOfContainer(h, l);
    TreeOfContainer(h, r);
    var a, b := TreeOf(h, Container(l)).items, TreeOf(h, Container(r)).items;
    var x, y := h[l].items, h[r].items;
    if |x| == |y| {
      forall i | 0 <= i < |x| ensures a[i] == b[i] <==> Alike(h, x[i], y[i], depth + 1) {
        ChildPairIsValid(h, l, r, depth, i, i);
        SameTreeIffAlike(h, x[i], y[i], depth + 1);
      }
      assert a == b <==> forall i :: 0 <= i < |x| ==> a[i] == b[i];
    }
  }

  lemma PairOfContainers(h: Heap, l: Ref, r: Ref, depth: nat)
    requires l in h && r in h && ValidPair(h, Container(l), Container(r), depth)
    ensures ValidHeap(h) && 1 <= depth <= MAX_DEPTH && ValidCell(h, h[l]) && ValidCell(h, h[r])
    ensures Unroll(h, Container(l), 1, {}).Some? && Unroll(h, Container(r), 1, {}).Some?
    ensures !HasForeignKey(h[l]) && !HasForeignKey(h[r])
  {
    hide Unroll, HasForeignKey;
    ContainerUnrolls(h, l, depth, {});
    ContainerUnrolls(h, r, 1, {});
  }

  lemma {:induction false} DictsAlike(h: Heap, l: Ref, r: Ref, depth: nat)
    requires l in h && r in h && h[l].DictCell? && h[r].DictCell? && ValidPair(h, Container(l), Container(r), depth)
    ensures TreeOf(h, Container(l)) == TreeOf(h, Container(r)) <==> Alike(h, Container(l), Container(r), depth)
    decreases MAX_DEPTH + 1 - depth, 0
  {
    hide Unroll, TreeOf, SameFloat, ValidPair, Names, SameKeys;
    assert ValidPair(h, Container(l), Container(r), depth);
    PairOfContainers(h, l, r, depth);
    TreeOfContainer(h, l);
    TreeOfContainer(h, r);
    var a, b := TreeOf(h, Container(l)).members, TreeOf(h, Container(r)).members;
    var e, e' := h[l].entries, h[r].entries;
    NamesAreKeys(e, e');
    if SameKeys(e, e') {
      MapsEqualByEntries(e, a, b);
      forall i, j | 0 <= i < |e| && 0 <= j < |e'| && e[i].key == e'[j].key
        ensures a[e[i].key.s] == b[e[i].key.s] <==> Alike(h, e[i].value, e'[j].value, depth + 1)
      {
        ChildPairIsValid(h, l, r, depth, i, j);
        assert Children(h[l])[i] == e[i].value && Children(h[r])[j] == e'[j].value;
        SameTreeIffAlike(h, e[i].value, e'[j].value, depth + 1);
      }
      forall i | 0 <= i < |e| ensures exists j :: 0 <= j < |e'| && e'[j].key == e[i].key {
        KeyIsShared(e, e', i);
      }
    }
  }

  lemma KeyIsShared(e: seq<Entry>, e': seq<Entry>, i: nat)
    requires SameKeys(e, e') && i < |e|
    ensures exists j :: 0 <= j < |e'| && e'[j].key == e[i].key
  {
    assert HasKey(e, e[i].key);
  }

  // ----- pairs still to be compared

  /** Both sides of a pair have a tree, the left one at the recorded level too. */
  ghost predicate ValidPair(h: Heap, left: Value, right: Value, level: nat) {
    && ValidHeap(h) && ValidValue(h, left) && ValidValue(h, right)
    && 1 <= level <= MAX_DEPTH + 1
    && Unroll(h, left, level, {}).Some?
    && Unroll(h, left, 1, {}).Some? && Unroll(h, right, 1, {}).Some?
  }

  ghost predicate SamePair(h: Heap, left: Value, right: Value, level: nat)
    requires ValidPair(h, left, right, level)
  {
    TreeOf(h, left) == TreeOf(h, right)
  }

  lemma DifferentKindsDiffer(h: Heap, v: Value, v': Value, level: nat)
    requires ValidPair(h, v, v', level)
    ensures ValidHeap(h) && ValidValue(h, v) && ValidValue(h, v')
    ensures SamePair(h, v, v', level) ==> KindOf(h, v) == KindOf(h, v')
  {
  }

  ghost predicate ValidPairs(h: Heap, work: seq<(Value, Value)>, levels: seq<nat>) {
    |levels| == |work| && forall i :: 0 <= i < |work| ==> ValidPair(h, work[i].0, work[i].1, levels[i])
  }

  ghost predicate AllSame(h: Heap, work: seq<(Value, Value)>, levels: seq<nat>)
    requires ValidPairs(h, work, levels)
  {
    forall i :: 0 <= i < |work| ==> SamePair(h, work[i].0, work[i].1, levels[i])
  }

  /** n copies of a level. */
  ghost function Repeated(level: nat, n: nat): seq<nat> {
    seq(n, _ => level)
  }

  ghost function LevelWeight(levels: seq<nat>, w: nat): nat
  {
    if levels == [] then 0
    else LevelWeight(levels[..|levels| - 1], w) + StepBound(w, LevelsBelow(levels[|levels| - 1]))
  }

  /** How many levels a pair at this level can still go down. */
  function LevelsBelow(level: nat): nat {
    if level <= MAX_DEPTH + 1 then MAX_DEPTH + 1 - level else 0
  }

  lemma {:induction false} LevelsPushed(levels: seq<nat>, n: nat, depth: nat, w: nat)
    ensures LevelWeight(levels + Repeated(depth, n), w) == LevelWeight(levels, w) + n * StepBound(w, LevelsBelow(depth))
    decreases n
  {
    var all := levels + Repeated(depth, n);
    if n == 0 {
      assert all == levels;
    } else {
      LevelsPushed(levels, n - 1, depth, w);
      assert all[..|all| - 1] == levels + Repeated(depth, n - 1);
      OneMore(n, StepBound(w, LevelsBelow(depth)));
    }
  }

  /** The value of an object's member; the name is known to be there. */
  function Lookup(entries: seq<Entry>, name: Text): (v: Value)
    requires exists i :: 0 <= i < |entries| && entries[i].key == TextKey(name)
    ensures exists i :: 0 <= i < |entries| && entries[i] == Entry(TextKey(name), v)
  {
    if entries[0].key == TextKey(name) then
      assert entries[0] == Entry(TextKey(name), entries[0].value);
      entries[0].value
    else
      assert exists i :: 0 <= i < |entries[1..]| && entries[1..][i].key == TextKey(name) by {
        var i :| 0 <= i < |entries| && entries[i].key == TextKey(name);
        assert entries[1..][i - 1] == entries[i];
      }
      var v := Lookup(entries[1..], name);
      assert exists i :: 0 <= i < |entries| && entries[i] == Entry(TextKey(name), v) by {
        var i :| 0 <= i < |entries[1..]| && entries[1..][i] == Entry(TextKey(name), v);
        assert entries[i + 1] == entries[1..][i];
      }
      v
  }

  lemma NameHasEntry(entries: seq<Entry>, name: Text) returns (i: nat)
    requires name in Names(entries)
    ensures i < |entries| && entries[i].key == TextKey(name)
  {
    i :| 0 <= i < |entries| && entries[i].key == TextKey(name);
  }

  /**
   `_expand_validated_pair`: two nodes of one type either differ at once, or agree exactly when
   the pairs of their children, which are queued, all do.
   */
  method ExpandValidatedPair(h: Heap, left: Value, right: Value, ghost level: nat)
    returns (pairs: Option<seq<(Value, Value)>>)
    requires ValidPair(h, left, right, level) && KindOf(h, left) == KindOf(h, right)
    ensures pairs.None? ==> !SamePair(h, left, right, level)
    ensures pairs.Some? ==>
              && (pairs.value != [] ==> level <= MAX_DEPTH && left.Container? && |pairs.value| == |Children(h[left.ref])|)
              && ValidPairs(h, pairs.value, Repeated(level + 1, |pairs.value|))
              && (AllSame(h, pairs.value, Repeated(level + 1, |pairs.value|)) <==> SamePair(h, left, right, level))
  {
    hide Unroll;
    if !left.Container? {
      ScalarsCompareAsTrees(h, left, right);
      pairs := if SameScalar(left, right) then Some([]) else None;
    } else if h[left.ref].ListCell? {
      var items, items' := h[left.ref].items, h[right.ref].items;
      TreeOfContainer(h, left.ref);
      TreeOfContainer(h, right.ref);
      if |items| != |items'| {
        return None;
      }
      var zipped := seq(|items|, i requires 0 <= i < |items| => (items[i], items'[i]));
      ListsAgree(h, left.ref, right.ref, zipped, level);
      pairs := Some(zipped);
    } else {
      var entries, entries' := h[left.ref].entries, h[right.ref].entries;
      TreeOfContainer(h, left.ref);
      TreeOfContainer(h, right.ref);
      if Names(entries) != Names(entries') {
        return None;
      }
      forall i | 0 <= i < |entries|
        ensures entries[i].key.TextKey?
        ensures exists j :: 0 <= j < |entries'| && entries'[j].key == TextKey(entries[i].key.s)
      {
        assert entries[i].key.s in Names(entries);
        var j := NameHasEntry(entries', entries[i].key.s);
      }
      var zipped := seq(|entries|, i requires 0 <= i < |entries| =>
        (entries[i].value, Lookup(entries', entries[i].key.s)));
      DictsAgree(h, left.ref, right.ref, zipped, level);
      pairs := Some(zipped);
    }
  }

  /** The children of a pair of containers, paired, are valid one level down. */
  lemma ChildPairIsValid(h: Heap, left: Ref, right: Ref, level: nat, i: nat, j: nat)
    requires left in h && right in h && ValidPair(h, Container(left), Container(right), level)
    requires i < |Children(h[left])| && j < |Children(h[right])|
    ensures level <= MAX_DEPTH && ValidPair(h, Children(h[left])[i], Children(h[right])[j], level + 1)
  {
    hide Unroll;
    ChildrenHaveTrees(h, left, level, i);
    ChildrenHaveTrees(h, right, 1, j);
  }

  lemma ListsAgree(h: Heap, left: Ref, right: Ref, zipped: seq<(Value, Value)>, level: nat)
    requires left in h && right in h && h[left].ListCell? && h[right].ListCell?
    requires ValidPair(h, Container(left), Container(right), level)
    requires |zipped| == |h[left].items| == |h[right].items|
    requires forall i :: 0 <= i < |zipped| ==> zipped[i] == (h[left].items[i], h[right].items[i])
    ensures zipped != [] ==> level <= MAX_DEPTH
    ensures ValidPairs(h, zipped, Repeated(level + 1, |zipped|))
    ensures AllSame(h, zipped, Repeated(level + 1, |zipped|)) <==> SamePair(h, Container(left), Container(right), level)
  {
    hide Unroll, TreeOf;
    var levels: seq<nat> := Repeated(level + 1, |zipped|);
    TreeOfContainer(h, left);
    TreeOfContainer(h, right);
    if zipped != [] {
      ChildPairIsValid(h, left, right, level, 0, 0);
    }
    forall i | 0 <= i < |zipped| ensures ValidPair(h, zipped[i].0, zipped[i].1, level + 1) {
      ChildPairIsValid(h, left, right, level, i, i);
    }
    var a, b := TreeOf(h, Container(left)).items, TreeOf(h, Container(right)).items;
    forall i | 0 <= i < |zipped| ensures SamePair(h, zipped[i].0, zipped[i].1, levels[i]) <==> a[i] == b[i] {}
    if AllSame(h, zipped, levels) {
      assert a == b;
    }
  }

  /** Where the right object keeps the member a queued pair was matched with. */
  lemma MatchIndex(e: Entry, entries': seq<Entry>, pair: (Value, Value)) returns (j: nat)
    requires IsMatch(e, entries', pair)
    ensures pair.0 == e.value && j < |entries'| && entries'[j] == Entry(e.key, pair.1)
  {
    j :| 0 <= j < |entries'| && entries'[j] == Entry(e.key, pair.1);
  }

  lemma DictsAgree(h: Heap, left: Ref, right: Ref, zipped: seq<(Value, Value)>, level: nat)
    requires left in h && right in h && h[left].DictCell? && h[right].DictCell?
    requires ValidPair(h, Container(left), Container(right), level)
    requires Names(h[left].entries) == Names(h[right].entries) && |zipped| == |h[left].entries|
    requires forall i :: 0 <= i < |zipped| ==> IsMatch(h[left].entries[i], h[right].entries, zipped[i])
    ensures zipped != [] ==> level <= MAX_DEPTH
    ensures ValidPairs(h, zipped, Repeated(level + 1, |zipped|))
    ensures AllSame(h, zipped, Repeated(level + 1, |zipped|)) <==> SamePair(h, Container(left), Container(right), level)
  {
    hide Unroll, TreeOf, IsMatch, Names;
    var levels: seq<nat> := Repeated(level + 1, |zipped|);
    var e, e' := h[left].entries, h[right].entries;
    TreeOfContainer(h, left);
    TreeOfContainer(h, right);
    var a, b := TreeOf(h, Container(left)).members, TreeOf(h, Container(right)).members;
    forall i | 0 <= i < |zipped|
      ensures level <= MAX_DEPTH && ValidPair(h, zipped[i].0, zipped[i].1, level + 1)
      ensures e[i].key.s in a && e[i].key.s in b
      ensures SamePair(h, zipped[i].0, zipped[i].1, levels[i]) <==> a[e[i].key.s] == b[e[i].key.s]
    {
      var j := MatchIndex(e[i], e', zipped[i]);
      ChildPairIsValid(h, left, right, level, i, j);
      assert Children(h[right])[j] == zipped[i].1 && Children(h[left])[i] == zipped[i].0;
    }
    if zipped != [] {
      var j := MatchIndex(e[0], e', zipped[0]);
      ChildPairIsValid(h, left, right, level, 0, j);
    }
    MapsEqualByEntries(e, a, b);
  }

  lemma MapsEqualByEntries(entries: seq<Entry>, a: map<Text, Tree>, b: map<Text, Tree>)
    requires a.Keys == Names(entries) && b.Keys == Names(entries)
    requires forall i :: 0 <= i < |entries| ==> entries[i].key.TextKey?
    ensures forall i :: 0 <= i < |entries| ==> entries[i].key.s in a && entries[i].key.s in b
    ensures a == b <==> forall i :: 0 <= i < |entries| ==> a[entries[i].key.s] == b[entries[i].key.s]
  {
    forall i | 0 <= i < |entries| ensures entries[i].key.s in Names(entries) {}
    if forall i :: 0 <= i < |entries| ==> a[entries[i].key.s] == b[entries[i].key.s] {
      forall name | name in a ensures a[name] == b[name] {
        var i := NameHasEntry(entries, name);
      }
    }
  }

  /** The pair queued for one member: its value and the value under the same key on the right. */
  ghost predicate IsMatch(e: Entry, entries': seq<Entry>, pair: (Value, Value)) {
    && pair.0 == e.value
    && exists j :: 0 <= j < |entries'| && entries'[j] == Entry(e.key, pair.1)
  }

  /**
   The comparison of two admitted values terminates and decides equality of their trees: exact
   types, sharing and key order forgotten.
   */
  method CompareValidated(h: Heap, left: Value, right: Value) returns (same: bool)
    requires ValidHeap(h) && ValidValue(h, left) && ValidValue(h, right)
    requires Unroll(h, left, 1, {}).Some? && Unroll(h, right, 1, {}).Some?
    ensures same <==> TreeOf(h, left) == TreeOf(h, right)
  {
    hide Unroll, ValidPair, SamePair, ValidPairs, AllSame, Comparing, TreeOf, LevelWeight, WidthAtMost, ValidHeap, ValidValue;
    OnePair(h, left, right);
    var work: seq<(Value, Value)> := [(left, right)];
    ghost var levels: seq<nat> := [1];
    ghost var w := WidthExists(h);
    while work != []
      invariant Comparing(h, left, right, work, levels)
      decreases LevelWeight(levels, w)
    {
      work, levels, same := CompareTop(h, left, right, work, levels, w);
      if !same {
        return;
      }
    }
    LevelForEachPair(h, left, right, work, levels);
    NothingLeft(h, left, right);
    same := true;
  }

  /** One round of the loop: the last pair differs, or gives way to the pairs of its children. */
  method CompareTop(h: Heap, ghost left: Value, ghost right: Value, work: seq<(Value, Value)>, ghost levels: seq<nat>, ghost w: nat)
    returns (work': seq<(Value, Value)>, ghost levels': seq<nat>, same: bool)
    requires work != [] && Comparing(h, left, right, work, levels) && WidthAtMost(h, w)
    ensures ValidPair(h, left, right, 1) && (!same ==> !SamePair(h, left, right, 1))
    ensures same ==> Comparing(h, left, right, work', levels') && LevelWeight(levels', w) < LevelWeight(levels, w)
  {
    hide Unroll, ValidPair, SamePair, ValidPairs, AllSame, Comparing, TreeOf, KindOf, LevelWeight, Repeated, WidthAtMost,
         ValidHeap, Children;
    LevelForEachPair(h, left, right, work, levels);
    var n := |work| - 1;
    var rest := work[..n];
    var (l, r) := work[n];
    ghost var below, level := levels[..n], levels[n];
    SplitLast(work);
    SplitLast(levels);
    TopOfWork(h, left, right, rest, l, r, below, level);
    work', levels', same := [], [], false;
    if KindOf(h, l) == KindOf(h, r) {
      var pairs := ExpandValidatedPair(h, l, r, level);
      if pairs.Some? {
        ghost var pushed: seq<nat> := Repeated(level + 1, |pairs.value|);
        TopExpanded(h, left, right, rest, l, r, below, level, pairs.value, pushed);
        ExpansionWeighsLess(h, l, |pairs.value|, level, below, w);
        work', levels', same := rest + pairs.value, below + pushed, true;
      }
    }
  }

  lemma SplitLast<T>(s: seq<T>)
    requires s != []
    ensures s == s[..|s| - 1] + [s[|s| - 1]]
  {
  }

  /** The pairs still queued decide the answer. */
  ghost predicate Comparing(h: Heap, left: Value, right: Value, work: seq<(Value, Value)>, levels: seq<nat>) {
    && ValidPair(h, left, right, 1)
    && ValidPairs(h, work, levels)
    && (AllSame(h, work, levels) <==> SamePair(h, left, right, 1))
  }

  lemma LevelForEachPair(h: Heap, left: Value, right: Value, work: seq<(Value, Value)>, levels: seq<nat>)
    requires Comparing(h, left, right, work, levels)
    ensures |levels| == |work| && ValidPair(h, left, right, 1)
  {
    hide Unroll, ValidPair;
  }

  lemma TopOfWork(
      h: Heap, left: Value, right: Value, rest: seq<(Value, Value)>, l: Value, r: Value, below: seq<nat>, level: nat)
    requires Comparing(h, left, right, rest + [(l, r)], below + [level]) && |rest| == |below|
    ensures ValidPair(h, left, right, 1) && ValidPair(h, l, r, level) && ValidHeap(h) && ValidValue(h, l) && ValidValue(h, r)
    ensures level <= MAX_DEPTH + 1
    ensures SamePair(h, left, right, 1) ==> SamePair(h, l, r, level) && KindOf(h, l) == KindOf(h, r)
  {
    hide Unroll, SamePair;
    var work, levels := rest + [(l, r)], below + [level];
    assert work[|rest|] == (l, r) && levels[|rest|] == level;
    DifferentKindsDiffer(h, l, r, level);
  }

  lemma TopExpanded(
      h: Heap, left: Value, right: Value, rest: seq<(Value, Value)>, l: Value, r: Value, below: seq<nat>, level: nat,
      pairs: seq<(Value, Value)>, pushed: seq<nat>)
    requires Comparing(h, left, right, rest + [(l, r)], below + [level]) && |rest| == |below|
    requires ValidPair(h, l, r, level) && ValidPairs(h, pairs, pushed)
    requires AllSame(h, pairs, pushed) <==> SamePair(h, l, r, level)
    ensures Comparing(h, left, right, rest + pairs, below + pushed)
  {
    hide Unroll, ValidPair, SamePair, ValidPairs, AllSame;
    SplitLastPair(h, rest, l, r, below, level);
    JoinPairs(h, rest, below, pairs, pushed);
  }

  lemma NothingLeft(h: Heap, left: Value, right: Value)
    requires Comparing(h, left, right, [], [])
    ensures ValidPair(h, left, right, 1) && SamePair(h, left, right, 1)
  {
    hide Unroll, SamePair;
  }

  lemma OnePair(h: Heap, left: Value, right: Value)
    requires ValidHeap(h) && ValidValue(h, left) && ValidValue(h, right)
    requires Unroll(h, left, 1, {}).Some? && Unroll(h, right, 1, {}).Some?
    ensures Comparing(h, left, right, [(left, right)], [1])
    ensures ValidPair(h, left, right, 1) && (SamePair(h, left, right, 1) <==> TreeOf(h, left) == TreeOf(h, right))
  {
    hide Unroll;
    var work := [(left, right)];
    assert work[0].0 == left && work[0].1 == right;
    if AllSame(h, work, [1]) {
      assert SamePair(h, work[0].0, work[0].1, 1);
    }
  }

  lemma SplitLastPair(h: Heap, rest: seq<(Value, Value)>, l: Value, r: Value, below: seq<nat>, level: nat)
    requires ValidPairs(h, rest + [(l, r)], below + [level]) && |rest| == |below|
    ensures ValidPairs(h, rest, below) && ValidPair(h, l, r, level)
    ensures AllSame(h, rest + [(l, r)], below + [level]) <==> AllSame(h, rest, below) && SamePair(h, l, r, level)
  {
    hide ValidPair, SamePair;
    var n, work, levels := |rest|, rest + [(l, r)], below + [level];
    assert work[n] == (l, r) && levels[n] == level;
    forall i | 0 <= i < n ensures rest[i] == work[i] && below[i] == levels[i] {}
    if AllSame(h, rest, below) && SamePair(h, l, r, level) {
      forall i | 0 <= i < |work| ensures SamePair(h, work[i].0, work[i].1, levels[i]) {
        assert i < n ==> SamePair(h, rest[i].0, rest[i].1, below[i]);
      }
    }
  }

  lemma JoinPairs(h: Heap, a: seq<(Value, Value)>, la: seq<nat>, b: seq<(Value, Value)>, lb: seq<nat>)
    requires ValidPairs(h, a, la) && ValidPairs(h, b, lb)
    ensures ValidPairs(h, a + b, la + lb)
    ensures AllSame(h, a + b, la + lb) <==> AllSame(h, a, la) && AllSame(h, b, lb)
  {
    hide ValidPair, SamePair;
    var c := a + b;
    forall i | 0 <= i < |a| ensures c[i] == a[i] && (la + lb)[i] == la[i] {}
    forall i | 0 <= i < |b| ensures c[|a| + i] == b[i] && (la + lb)[|a| + i] == lb[i] {}
    forall i | |a| <= i < |c| ensures c[i] == b[i - |a|] {}
  }

  lemma ExpansionWeighsLess(h: Heap, l: Value, n: nat, level: nat, below: seq<nat>, w: nat)
    requires ValidHeap(h) && ValidValue(h, l) && WidthAtMost(h, w) && level <= MAX_DEPTH + 1
    requires n > 0 ==> level <= MAX_DEPTH && l.Container? && n == |Children(h[l.ref])|
    ensures LevelWeight(below + Repeated(level + 1, n), w) < LevelWeight(below + [level], w)
  {
    assert (below + [level])[..|below|] == below;
    if n > 0 {
      LevelsPushed(below, n, level + 1, w);
      ChildrenFit(n, w, StepBound(w, MAX_DEPTH - level));
    } else {
      assert below + Repeated(level + 1, 0) == below;
    }
  }

  /**
   `_exact_structural_equal`: either side that is not canonical refuses the comparison, before
   any shortcut; otherwise the answer is equality of the two trees, so of the two JSON values.
   */
  method ExactStructuralEqual(h: Heap, left: Value, right: Value) returns (r: Result<bool, Refusal>)
    requires ValidHeap(h) && ValidValue(h, left) && ValidValue(h, right)
    ensures r.Ok? <==> Acceptable(h, left) && Acceptable(h, right)
    ensures r.Ok? ==> (r.value <==> TreeOf(h, left) == TreeOf(h, right)) && (r.value <==> Alike(h, left, right, 1))
    ensures r.Err? ==>
              Some(r.error) == RefusalOf(Admit(h, if Acceptable(h, left) then right else left, 1, {}, MAX_NODES - 1))
  {
    hide Unroll, NodeCount, Admit, TreeOf, Alike;
    var refused := PrevalidateCanonical(h, left);
    if refused.Some? {
      return Err(refused.value);
    }
    refused := PrevalidateCanonical(h, right);
    if refused.Some? {
      return Err(refused.value);
    }
    var same := CompareValidated(h, left, right);
    SameTreeIffAlike(h, left, right, 1);
    r := Ok(same);
  }
}
