/**
 The prevalidation walk of `traigent_schema/best_config_profile.py`.  It pushes children in
 order and so visits them last first, opposite to the encoder it guards.
 */
module BestConfigProfile {
  import opened Outcomes
  import opened Sorting
  import opened DecimalText
  import opened PythonHeap
  import opened Fp2Encoder
  import opened Fp2Properties
  import opened StackWalk

  datatype ProfileError =
    | UnsafeIntegralValue
    | UnsupportedProfileType
    | ExceedsMaxDepth
    | CircularReference
    | NonStringKey

  /** A finite float that is a whole number beyond the safe integers. */
  predicate IsUnsafeIntegralFloat(f: Float)
    requires f.Finite? ==> IsDecimalText(f.repr)
  {
    f.Finite? &&
    var d := Denoted(f.repr);
    if d.e >= 0 then d.m * Pow10(d.e) > MAX_SAFE_INTEGER
    else d.m % Pow10(-d.e) == 0 && d.m / Pow10(-d.e) > MAX_SAFE_INTEGER
  }

  /** None for a container, else whether the scalar is admitted. */
  function ScalarAdmission(v: Value): Option<Option<ProfileError>>
    requires v.FloatValue? && v.f.Finite? ==> IsDecimalText(v.f.repr)
  {
    match v
    case Container(_) => None
    case Foreign => Some(Some(UnsupportedProfileType))
    case IntValue(i) => if (if i < 0 then -i else i) > MAX_SAFE_INTEGER then Some(Some(UnsafeIntegralValue)) else Some(None)
    case FloatValue(f) => if IsUnsafeIntegralFloat(f) then Some(Some(UnsafeIntegralValue)) else Some(None)
    case _ => Some(None)
  }

  /** The first reason a value is refused at this nesting level, its children read last first. */
  ghost function Admission(h: Heap, v: Value, depth: nat, open: set<Ref>): Option<ProfileError>
    requires ValidHeap(h) && ValidValue(h, v)
    decreases MAX_DEPTH + 1 - depth, 0
  {
    match v
    case Container(ref) =>
      if depth > MAX_DEPTH then Some(ExceedsMaxDepth)
      else if ref in open then Some(CircularReference)
      else if HasForeignKey(h[ref]) then Some(NonStringKey)
      else
        assert ValidCell(h, h[ref]);
        AdmitAll(h, Reverse(Children(h[ref])), depth + 1, open + {ref})
    case _ => ScalarAdmission(v).value
  }

  ghost function AdmitAll(h: Heap, vs: seq<Value>, depth: nat, open: set<Ref>): Option<ProfileError>
    requires ValidHeap(h) && (forall i :: 0 <= i < |vs| ==> ValidValue(h, vs[i])) && depth <= MAX_DEPTH + 1
    decreases MAX_DEPTH + 1 - depth, |vs| + 1
  {
    if vs == [] then None
    else if Admission(h, vs[0], depth, open).Some? then Admission(h, vs[0], depth, open)
    else AdmitAll(h, vs[1..], depth, open)
  }

  // ----- the walk

  /** The first reason met while the stack pops `agenda`. */
  ghost function Pending(h: Heap, agenda: seq<Work>, open: set<Ref>): Option<ProfileError>
    requires ValidHeap(h) && ValidAgenda(h, agenda)
  {
    if agenda == [] then None
    else
      match agenda[0]
      case Emit(_) => Pending(h, agenda[1..], open)
      case Close(r) => Pending(h, agenda[1..], open - {r})
      case Visit(v, depth) =>
        if Admission(h, v, depth, open).Some? then Admission(h, v, depth, open) else Pending(h, agenda[1..], open)
  }

  /** Visiting children one after the other admits them all or stops at the first refused. */
  lemma {:induction false} VisitsAdmitAll(h: Heap, vs: seq<Value>, depth: nat, rest: seq<Work>, open: set<Ref>)
    requires ValidHeap(h) && ValidAgenda(h, rest) && (forall i :: 0 <= i < |vs| ==> ValidValue(h, vs[i])) && depth <= MAX_DEPTH + 1
    ensures ValidAgenda(h, Visits(vs, depth) + rest)
    ensures Pending(h, Visits(vs, depth) + rest, open) ==
            if AdmitAll(h, vs, depth, open).Some? then AdmitAll(h, vs, depth, open) else Pending(h, rest, open)
    decreases |vs|
  {
    hide Admission;
    var agenda := Visits(vs, depth) + rest;
    if vs == [] {
      assert agenda == rest;
    } else {
      VisitsAdmitAll(h, vs[1..], depth, rest, open);
      assert agenda[1..] == Visits(vs[1..], depth) + rest && agenda[0] == Visit(vs[0], depth);
    }
  }

  lemma EnteringKeepsPending(h: Heap, ref: Ref, depth: nat, rest: seq<Work>, open: set<Ref>)
    requires ValidHeap(h) && ref in h && depth <= MAX_DEPTH && ref !in open && !HasForeignKey(h[ref])
    requires ValidAgenda(h, rest)
    ensures ValidAgenda(h, [Visit(Container(ref), depth)] + rest) && ValidAgenda(h, Entered(h, ref, depth, rest))
    ensures Pending(h, [Visit(Container(ref), depth)] + rest, open) == Pending(h, Entered(h, ref, depth, rest), open + {ref})
  {
    hide AdmitAll;
    assert ValidCell(h, h[ref]);
    var after := [Close(ref)] + rest;
    assert after[1..] == rest && open + {ref} - {ref} == open;
    assert ([Visit(Container(ref), depth)] + rest)[1..] == rest;
    VisitsAdmitAll(h, Reverse(Children(h[ref])), depth + 1, after, open + {ref});
  }

  /** `_open_profile_container`: the close marker first, then the children in order. */
  method OpenProfileContainer(h: Heap, ref: Ref, depth: nat, open: set<Ref>, work: seq<Work>)
    returns (r: Result<(set<Ref>, seq<Work>), ProfileError>)
    requires ValidHeap(h) && ref in h
    ensures depth > MAX_DEPTH ==> r == Err(ExceedsMaxDepth)
    ensures depth <= MAX_DEPTH && ref in open ==> r == Err(CircularReference)
    ensures depth <= MAX_DEPTH && ref !in open && HasForeignKey(h[ref]) ==> r == Err(NonStringKey)
    ensures depth <= MAX_DEPTH && ref !in open && !HasForeignKey(h[ref]) ==>
              r.Ok? && r.value.0 == open + {ref} && Reverse(r.value.1) == Entered(h, ref, depth, Reverse(work))
  {
    if depth > MAX_DEPTH {
      return Err(ExceedsMaxDepth);
    }
    if ref in open {
      return Err(CircularReference);
    }
    var stack := work + [Close(ref)];
    var children := Children(h[ref]);
    for i := 0 to |children|
      invariant stack == work + [Close(ref)] + Visits(children[..i], depth + 1)
      invariant h[ref].DictCell? ==> forall j :: 0 <= j < i ==> h[ref].entries[j].key.TextKey?
    {
      if h[ref].DictCell? && h[ref].entries[i].key.ForeignKey? {
        return Err(NonStringKey);
      }
      stack := stack + [Visit(children[i], depth + 1)];
      assert Visits(children[..i + 1], depth + 1) == Visits(children[..i], depth + 1) + [Visit(children[i], depth + 1)];
    }
    assert children[..|children|] == children;
    StackReversed(work, ref, children, depth + 1);
    r := Ok((open + {ref}, stack));
  }

  /** The walk refuses a value for the same first reason as the recursive reading, on any heap. */
  method Prevalidate(h: Heap, root: Value) returns (r: Option<ProfileError>)
    requires ValidHeap(h) && ValidValue(h, root)
    ensures r == Admission(h, root, 1, {})
  {
    hide Admission, AdmitAll, Pending, Reverse, Weight, HasForeignKey;
    var open: set<Ref> := {};
    var work: seq<Work> := [Visit(root, 1)];
    ghost var w := WidthExists(h);
    OneReversed(work);
    OnlyRootPending(h, root);
    while work != []
      invariant ValidAgenda(h, Reverse(work))
      invariant Pending(h, Reverse(work), open) == Admission(h, root, 1, {})
      decreases Weight(Reverse(work), w)
    {
      var top := work[|work| - 1];
      Popped(work);
      work := work[..|work| - 1];
      ghost var rest := Reverse(work);
      RestIsValid(h, top, rest);
      WeightOfFirst(top, rest, w);
      StepPending(h, top, rest, open);
      match top {
        case Emit(_) =>
        case Close(ref) =>
          open := open - {ref};
        case Visit(v, depth) =>
          AdmissionCases(h, v, depth, open);
          var scalar := ScalarAdmission(v);
          if scalar.Some? {
            if scalar.value.Some? {
              return scalar.value;
            }
          } else {
            var entered := OpenProfileContainer(h, v.ref, depth, open, work);
            if entered.Err? {
              return Some(entered.error);
            }
            EnteringKeepsPending(h, v.ref, depth, rest, open);
            EnteringWeighsLess(h, v.ref, depth, rest, w);
            open := entered.value.0;
            work := entered.value.1;
          }
      }
    }
    NothingPending(h, work, open);
    r := None;
  }

  lemma OnlyRootPending(h: Heap, root: Value)
    requires ValidHeap(h) && ValidValue(h, root)
    ensures ValidAgenda(h, [Visit(root, 1)])
    ensures Pending(h, [Visit(root, 1)], {}) == Admission(h, root, 1, {})
  {
    hide Admission;
    assert [Visit(root, 1)][1..] == [];
    NothingPending(h, [], {});
  }

  lemma NothingPending(h: Heap, work: seq<Work>, open: set<Ref>)
    requires ValidHeap(h) && work == [] && ValidAgenda(h, Reverse(work))
    ensures Pending(h, Reverse(work), open) == None
  {
  }

  lemma StepPending(h: Heap, top: Work, rest: seq<Work>, open: set<Ref>)
    requires ValidHeap(h) && ValidAgenda(h, [top] + rest)
    ensures ValidAgenda(h, rest)
    ensures top.Emit? ==> Pending(h, [top] + rest, open) == Pending(h, rest, open)
    ensures top.Close? ==> Pending(h, [top] + rest, open) == Pending(h, rest, open - {top.ref})
    ensures top.Visit? ==>
              && ValidValue(h, top.value) && top.depth <= MAX_DEPTH + 1
              && Pending(h, [top] + rest, open)
              == if Admission(h, top.value, top.depth, open).Some? then Admission(h, top.value, top.depth, open)
                 else Pending(h, rest, open)
  {
    hide Admission;
    RestIsValid(h, top, rest);
    assert ([top] + rest)[1..] == rest;
  }

  lemma AdmissionCases(h: Heap, v: Value, depth: nat, open: set<Ref>)
    requires ValidHeap(h) && ValidValue(h, v)
    ensures !v.Container? ==> Admission(h, v, depth, open) == ScalarAdmission(v).value
    ensures v.Container? ==>
              && (depth > MAX_DEPTH ==> Admission(h, v, depth, open) == Some(ExceedsMaxDepth))
              && (depth <= MAX_DEPTH && v.ref in open ==> Admission(h, v, depth, open) == Some(CircularReference))
              && (depth <= MAX_DEPTH && v.ref !in open && HasForeignKey(h[v.ref]) ==>
                    Admission(h, v, depth, open) == Some(NonStringKey))
  {
  }

  // ----- what is refused, and why

  /** A whole number beyond the safe integers, written as an int or as a float. */
  ghost predicate IsUnsafe(v: Value) {
    || (v.IntValue? && !(-9_007_199_254_740_991 <= v.i <= 9_007_199_254_740_991))
    || (v.FloatValue? && v.f.Finite? && IsDecimalText(v.f.repr)
        && exists n: nat :: n > 9_007_199_254_740_991 && SameValue(Denoted(v.f.repr), Decimal(n, 0)))
  }

  lemma UnsafeIffWhole(f: Float)
    requires f.Finite? && IsDecimalText(f.repr)
    ensures IsUnsafeIntegralFloat(f) <==>
            exists n: nat :: n > 9_007_199_254_740_991 && SameValue(Denoted(f.repr), Decimal(n, 0))
  {
    hide IsDecimalText, Denoted, SameValue;
    var d := Denoted(f.repr);
    WholeValue(d);
    if d.e >= 0 {
      assert SameValue(d, Decimal(d.m * Pow10(d.e), 0));
    } else if d.m % Pow10(-d.e) == 0 {
      assert SameValue(d, Decimal(d.m / Pow10(-d.e), 0));
    }
  }

  /** A decimal is whole exactly when the power of ten below its point divides it. */
  lemma WholeValue(d: Decimal)
    ensures d.e >= 0 ==> forall n: nat :: SameValue(d, Decimal(n, 0)) <==> n == d.m * Pow10(d.e)
    ensures d.e < 0 ==>
              forall n: nat :: SameValue(d, Decimal(n, 0)) <==> d.m % Pow10(-d.e) == 0 && n == d.m / Pow10(-d.e)
  {
    assert Pow10(0) == 1;
    hide Pow10;
    if d.e < 0 {
      forall n: nat ensures SameValue(d, Decimal(n, 0)) <==> d.m % Pow10(-d.e) == 0 && n == d.m / Pow10(-d.e) {
        Divides(d.m, n, Pow10(-d.e));
      }
    }
  }

  lemma Divides(m: nat, n: nat, p: nat)
    requires p > 0
    ensures m == n * p <==> m % p == 0 && n == m / p
  {
    var q, r := m / p, m % p;
    assert m == q * p + r && 0 <= r < p;
    if m == n * p {
      assert (n - q) * p == r;
      MultipleOf(n - q, p);
    }
  }

  lemma MultipleOf(k: int, p: nat)
    ensures k >= 1 ==> k * p >= p
    ensures k <= -1 ==> k * p + p <= 0
  {
    if k >= 1 {
      assert (k - 1) * p >= 0;
    } else if k <= -1 {
      assert (-k - 1) * p >= 0;
    }
  }

  /** What makes one value refused by itself. */
  ghost predicate RefusedAlone(v: Value, e: ProfileError) {
    (v.Foreign? && e == UnsupportedProfileType) || (IsUnsafe(v) && e == UnsafeIntegralValue)
  }

  lemma ScalarRefusals(h: Heap, v: Value, depth: nat, open: set<Ref>, e: ProfileError)
    requires ValidHeap(h) && ValidValue(h, v) && !v.Container?
    ensures Admission(h, v, depth, open) == Some(e) <==> RefusedAlone(v, e)
  {
    hide IsUnsafeIntegralFloat, IsDecimalText, SameValue, Denoted;
    if v.FloatValue? && v.f.Finite? {
      UnsafeIffWhole(v.f);
    } else if v.FloatValue? {
      NonFiniteIsSafe(v.f);
    }
  }

  lemma NonFiniteIsSafe(f: Float)
    requires !f.Finite?
    ensures !IsUnsafeIntegralFloat(f)
  {
  }

  /** A child of the container is refused by itself. */
  ghost predicate ChildRefused(c: Cell, e: ProfileError) {
    exists i :: 0 <= i < |Children(c)| && RefusedAlone(Children(c)[i], e)
  }

  /** A path to what is wrong: a bad child, a key that is no string, or the path itself. */
  ghost predicate LeadsTo(h: Heap, v: Value, depth: nat, open: set<Ref>, e: ProfileError, p: seq<Ref>) {
    IsPath(h, v, p) &&
    match e
    case NonStringKey => HasForeignKey(h[p[|p| - 1]])
    case ExceedsMaxDepth => depth + |p| > MAX_DEPTH + 1
    case CircularReference => !Distinct(p) || exists i :: 0 <= i < |p| && p[i] in open
    case _ => ChildRefused(h[p[|p| - 1]], e)
  }

  lemma {:induction false} FirstRefused(h: Heap, vs: seq<Value>, depth: nat, open: set<Ref>) returns (i: nat)
    requires ValidHeap(h) && (forall i :: 0 <= i < |vs| ==> ValidValue(h, vs[i])) && depth <= MAX_DEPTH + 1
    requires AdmitAll(h, vs, depth, open).Some?
    ensures i < |vs| && Admission(h, vs[i], depth, open) == AdmitAll(h, vs, depth, open)
    decreases |vs|
  {
    hide Admission;
    if Admission(h, vs[0], depth, open).Some? {
      i := 0;
    } else {
      var j := FirstRefused(h, vs[1..], depth, open);
      i := j + 1;
    }
  }

  lemma {:induction false} RefusalLeads(h: Heap, v: Value, depth: nat, open: set<Ref>) returns (p: seq<Ref>)
    requires ValidHeap(h) && ValidValue(h, v) && 1 <= depth <= MAX_DEPTH + 1 && Admission(h, v, depth, open).Some?
    ensures var e := Admission(h, v, depth, open).value; RefusedAlone(v, e) || LeadsTo(h, v, depth, open, e, p)
    decreases MAX_DEPTH + 1 - depth
  {
    hide Admission, AdmitAll, HasForeignKey, RefusedAlone, LeadsTo, Reverse;
    p := [];
    if !v.Container? {
      ScalarRefusals(h, v, depth, open, Admission(h, v, depth, open).value);
    } else if depth > MAX_DEPTH || v.ref in open || HasForeignKey(h[v.ref]) {
      p := [v.ref];
      LeadsAtOnce(h, v.ref, depth, open);
    } else {
      var vs := Children(h[v.ref]);
      EnteredAdmission(h, v.ref, depth, open);
      var i := FirstRefused(h, Reverse(vs), depth + 1, open + {v.ref});
      var child := Reverse(vs)[i];
      assert child == vs[|vs| - 1 - i];
      var q := RefusalLeads(h, child, depth + 1, open + {v.ref});
      p := LeadsAbove(h, v.ref, child, depth, open, Admission(h, v, depth, open).value, q);
    }
  }

  lemma EnteredAdmission(h: Heap, ref: Ref, depth: nat, open: set<Ref>)
    requires ValidHeap(h) && ref in h && depth <= MAX_DEPTH && ref !in open && !HasForeignKey(h[ref])
    ensures forall i :: 0 <= i < |Children(h[ref])| ==>
              ValidValue(h, Children(h[ref])[i]) && ValidValue(h, Reverse(Children(h[ref]))[i])
    ensures Admission(h, Container(ref), depth, open) == AdmitAll(h, Reverse(Children(h[ref])), depth + 1, open + {ref})
  {
    hide AdmitAll;
    assert ValidCell(h, h[ref]);
  }

  lemma LeadsAtOnce(h: Heap, ref: Ref, depth: nat, open: set<Ref>)
    requires ValidHeap(h) && ref in h && 1 <= depth <= MAX_DEPTH + 1
    requires depth > MAX_DEPTH || ref in open || HasForeignKey(h[ref])
    ensures Admission(h, Container(ref), depth, open).Some?
    ensures LeadsTo(h, Container(ref), depth, open, Admission(h, Container(ref), depth, open).value, [ref])
  {
    assert [ref][0] == ref;
  }

  lemma LeadsAbove(h: Heap, ref: Ref, child: Value, depth: nat, open: set<Ref>, e: ProfileError, q: seq<Ref>) returns (p: seq<Ref>)
    requires ref in h && child in Children(h[ref])
    requires RefusedAlone(child, e) || LeadsTo(h, child, depth + 1, open + {ref}, e, q)
    ensures LeadsTo(h, Container(ref), depth, open, e, p)
  {
    hide RefusedAlone, HasForeignKey;
    if RefusedAlone(child, e) {
      p := [ref];
      ChildIsRefused(h[ref], child, e);
    } else {
      p := [ref] + q;
      PathStep(h, ref, child, q);
      assert p[|p| - 1] == q[|q| - 1];
      if e.CircularReference? {
        CircleAbove(ref, open, q);
      }
    }
  }

  lemma ChildIsRefused(c: Cell, child: Value, e: ProfileError)
    requires child in Children(c) && RefusedAlone(child, e)
    ensures ChildRefused(c, e) && e in {UnsupportedProfileType, UnsafeIntegralValue}
  {
    hide IsUnsafe;
    var i :| 0 <= i < |Children(c)| && Children(c)[i] == child;
  }

  lemma CircleAbove(ref: Ref, open: set<Ref>, q: seq<Ref>)
    requires !Distinct(q) || exists i :: 0 <= i < |q| && q[i] in open + {ref}
    ensures var p := [ref] + q; !Distinct(p) || exists i :: 0 <= i < |p| && p[i] in open
  {
    var p := [ref] + q;
    if !Distinct(q) {
      var i, j :| 0 <= i < j < |q| && q[i] == q[j];
      assert p[i + 1] == p[j + 1];
    } else {
      var i :| 0 <= i < |q| && q[i] in open + {ref};
      assert p[i + 1] == q[i] && p[0] == ref;
    }
  }

  /** Along every path from an admitted value all is well. */
  lemma {:induction false} AdmittedPathIsSound(h: Heap, v: Value, depth: nat, open: set<Ref>, e: ProfileError, p: seq<Ref>)
    requires ValidHeap(h) && ValidValue(h, v) && 1 <= depth <= MAX_DEPTH + 1 && Admission(h, v, depth, open).None?
    ensures !RefusedAlone(v, e) && !LeadsTo(h, v, depth, open, e, p)
    decreases MAX_DEPTH + 1 - depth
  {
    hide Admission, AdmitAll, HasForeignKey, RefusedAlone, LeadsTo, ChildRefused, Reverse, IsPath;
    if !v.Container? {
      ScalarRefusals(h, v, depth, open, e);
      NoPathFromScalar(h, v, depth, open, e, p);
    } else if IsPath(h, v, p) {
      AdmittedContainer(h, v.ref, depth, open);
      ContainersAreNotAlone(v, e);
      PathStartsAt(h, v, p);
      forall i | 0 <= i < |Children(h[v.ref])|
        ensures Admission(h, Children(h[v.ref])[i], depth + 1, open + {v.ref}).None?
        ensures !RefusedAlone(Children(h[v.ref])[i], e)
      {
        var vs := Children(h[v.ref]);
        AdmitAllAdmitsEach(h, Reverse(vs), depth + 1, open + {v.ref}, |vs| - 1 - i);
        AdmittedChild(h, vs, i, depth + 1, open + {v.ref}, e);
      }
      if |p| > 1 {
        PathTail(h, v, p);
        var i :| 0 <= i < |Children(h[v.ref])| && Children(h[v.ref])[i] == Container(p[1]);
        AdmittedPathIsSound(h, Container(p[1]), depth + 1, open + {v.ref}, e, p[1..]);
        SoundAbove(h, v, depth, open, e, p);
      } else {
        SoundAlone(h, v, depth, open, e, p);
      }
    } else {
      ContainersAreNotAlone(v, e);
      NoPathNoLead(h, v, depth, open, e, p);
    }
  }

  lemma AdmittedChild(h: Heap, vs: seq<Value>, i: nat, depth: nat, open: set<Ref>, e: ProfileError)
    requires ValidHeap(h) && i < |vs| && ValidValue(h, vs[i]) && Reverse(vs)[|vs| - 1 - i] == vs[i]
    requires Admission(h, vs[i], depth, open).None?
    ensures !RefusedAlone(vs[i], e)
  {
    hide Admission;
    if vs[i].Container? {
      ContainersAreNotAlone(vs[i], e);
    } else {
      ScalarRefusals(h, vs[i], depth, open, e);
    }
  }

  lemma ContainersAreNotAlone(v: Value, e: ProfileError)
    requires v.Container?
    ensures !RefusedAlone(v, e)
  {
  }

  lemma NoPathFromScalar(h: Heap, v: Value, depth: nat, open: set<Ref>, e: ProfileError, p: seq<Ref>)
    requires !v.Container?
    ensures !LeadsTo(h, v, depth, open, e, p)
  {
  }

  lemma NoPathNoLead(h: Heap, v: Value, depth: nat, open: set<Ref>, e: ProfileError, p: seq<Ref>)
    requires !IsPath(h, v, p)
    ensures !LeadsTo(h, v, depth, open, e, p)
  {
  }

  lemma PathStartsAt(h: Heap, v: Value, p: seq<Ref>)
    requires IsPath(h, v, p)
    ensures p != [] && v == Container(p[0]) && p[0] in h
  {
  }

  lemma SoundAlone(h: Heap, v: Value, depth: nat, open: set<Ref>, e: ProfileError, p: seq<Ref>)
    requires IsPath(h, v, p) && |p| == 1 && v.Container? && v.ref in h
    requires depth <= MAX_DEPTH && v.ref !in open && !HasForeignKey(h[v.ref])
    requires forall i :: 0 <= i < |Children(h[v.ref])| ==> !RefusedAlone(Children(h[v.ref])[i], e)
    ensures !LeadsTo(h, v, depth, open, e, p)
  {
    hide HasForeignKey, RefusedAlone;
  }

  lemma SoundAbove(h: Heap, v: Value, depth: nat, open: set<Ref>, e: ProfileError, p: seq<Ref>)
    requires IsPath(h, v, p) && |p| > 1 && IsPath(h, Container(p[1]), p[1..]) && v.ref !in open
    requires !LeadsTo(h, Container(p[1]), depth + 1, open + {v.ref}, e, p[1..])
    ensures !LeadsTo(h, v, depth, open, e, p)
  {
    hide HasForeignKey, RefusedAlone;
    var q := p[1..];
    assert p[|p| - 1] == q[|q| - 1];
    if e.CircularReference? {
      forall i | 0 < i < |p| ensures p[i] !in open && p[i] != v.ref {
        assert q[i - 1] == p[i];
      }
      forall i, j | 0 <= i < j < |p| ensures p[i] != p[j] {
        if i > 0 {
          assert q[i - 1] == p[i] && q[j - 1] == p[j];
        }
      }
    }
  }

  /**
   Prevalidation refuses a value exactly for an unsafe whole number, a foreign type, a key that is
   no string, or a path from the root that passes more than 100 containers or one of them twice;
   and the reason given is one that is there.
   */
  lemma RefusedIff(h: Heap, root: Value)
    requires ValidHeap(h) && ValidValue(h, root)
    ensures Admission(h, root, 1, {}).Some? ==> Present(h, root, Admission(h, root, 1, {}).value)
    ensures (exists e :: Present(h, root, e)) ==> Admission(h, root, 1, {}).Some?
  {
    hide Admission, RefusedAlone, HasForeignKey, ChildRefused;
    if Admission(h, root, 1, {}).Some? {
      var p := RefusalLeads(h, root, 1, {});
    } else {
      forall e ensures !Present(h, root, e) {
        AdmittedPathIsSound(h, root, 1, {}, e, []);
        forall p | IsPath(h, root, p) ensures !ShownAt(h, e, p) {
          AdmittedPathIsSound(h, root, 1, {}, e, p);
          ShownLeads(h, root, e, p);
        }
      }
    }
  }

  lemma ShownLeads(h: Heap, root: Value, e: ProfileError, p: seq<Ref>)
    requires IsPath(h, root, p)
    ensures ShownAt(h, e, p) ==> LeadsTo(h, root, 1, {}, e, p)
  {
    hide HasForeignKey, ChildRefused;
  }

  /** The reason is there to be found from the root. */
  ghost predicate Present(h: Heap, root: Value, e: ProfileError) {
    RefusedAlone(root, e) || exists p :: IsPath(h, root, p) && ShownAt(h, e, p)
  }

  ghost predicate ShownAt(h: Heap, e: ProfileError, p: seq<Ref>)
    requires p != [] && p[|p| - 1] in h
  {
    match e
    case NonStringKey => HasForeignKey(h[p[|p| - 1]])
    case ExceedsMaxDepth => |p| > 100
    case CircularReference => !Distinct(p)
    case _ => ChildRefused(h[p[|p| - 1]], e)
  }

  // ----- what admission guarantees the encoder

  lemma {:induction false} AdmitAllAdmitsEach(h: Heap, vs: seq<Value>, depth: nat, open: set<Ref>, i: nat)
    requires ValidHeap(h) && (forall j :: 0 <= j < |vs| ==> ValidValue(h, vs[j])) && depth <= MAX_DEPTH + 1
    requires AdmitAll(h, vs, depth, open).None? && i < |vs|
    ensures Admission(h, vs[i], depth, open).None?
  {
    hide Admission;
    if i > 0 {
      AdmitAllAdmitsEach(h, vs[1..], depth, open, i - 1);
    }
  }

  /**
   An admitted value can only be refused by the encoder for a non-finite number or for text that
   is not encodable: never for depth, a cycle, a key or value type, or an unsafe integer.
   */
  lemma {:induction false} AdmittedOnlyFailsOnContent(h: Heap, v: Value, depth: nat, open: set<Ref>)
    requires ValidHeap(h) && ValidValue(h, v) && depth <= MAX_DEPTH + 1
    requires Admission(h, v, depth, open).None? && Unfold(h, v, depth, open).Err?
    ensures Unfold(h, v, depth, open).error in {NonFinite, LoneSurrogate}
    decreases MAX_DEPTH + 1 - depth
  {
    hide Unfold, Admission, AdmitAll, SortedMembers;
    if v.Container? {
      AdmittedContainer(h, v.ref, depth, open);
      var c := h[v.ref];
      if c.DictCell? && SortedMembers(c.entries).Err? {
        UnsoundKeysFail(h, v.ref, depth, open);
        TextKeysFailOnContent(c.entries);
      } else {
        var child := FailingChild(h, v.ref, depth, open);
        var i :| 0 <= i < |Children(c)| && Children(c)[i] == child;
        AdmitAllAdmitsEach(h, Reverse(Children(c)), depth + 1, open + {v.ref}, |Children(c)| - 1 - i);
        AdmittedOnlyFailsOnContent(h, child, depth + 1, open + {v.ref});
      }
    } else {
      AdmittedScalar(h, v, depth, open);
    }
  }

  lemma AdmittedContainer(h: Heap, ref: Ref, depth: nat, open: set<Ref>)
    requires ValidHeap(h) && ref in h && Admission(h, Container(ref), depth, open).None?
    ensures depth <= MAX_DEPTH && ref !in open && !HasForeignKey(h[ref])
    ensures forall i :: 0 <= i < |Children(h[ref])| ==> ValidValue(h, Children(h[ref])[i])
    ensures AdmitAll(h, Reverse(Children(h[ref])), depth + 1, open + {ref}).None?
  {
    assert ValidCell(h, h[ref]);
  }

  lemma TextKeysFailOnContent(entries: seq<Entry>)
    requires SortedMembers(entries).Err? && !HasForeignKey(DictCell(entries))
    ensures SortedMembers(entries).error == LoneSurrogate
  {
  }

  lemma AdmittedScalar(h: Heap, v: Value, depth: nat, open: set<Ref>)
    requires ValidHeap(h) && ValidValue(h, v) && !v.Container?
    requires Admission(h, v, depth, open).None? && Unfold(h, v, depth, open).Err?
    ensures Unfold(h, v, depth, open).error in {NonFinite, LoneSurrogate}
  {
  }

  /** After prevalidation, canonicalisation succeeds or meets a non-finite number or a lone surrogate. */
  lemma PrevalidatedCanonicalises(h: Heap, root: Value)
    requires ValidHeap(h) && ValidValue(h, root) && Admission(h, root, 1, {}).None?
    ensures Canonical(h, root).Ok? || Canonical(h, root).error in {NonFinite, LoneSurrogate}
  {
    if Canonical(h, root).Err? {
      AdmittedOnlyFailsOnContent(h, root, 1, {});
    }
  }
}
