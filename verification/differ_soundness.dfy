/**
 Soundness of the differ: when it reports neither a breaking change nor a stopped comparison, a
 request schema still accepts all it accepted, and a response schema accepts nothing new.
 */
module DifferSoundness {
  import opened Outcomes
  import opened Sorting
  import opened JsonSchema
  import opened SchemaDiffer

  // ----- when one node accepts whatever another accepts

  /** b's own keywords demand no more than a's. */
  ghost predicate LooserThan(b: Schema, a: Schema)
    requires a.ObjectSchema? && b.ObjectSchema?
  {
    && (b.types.None? || (a.types.Some? && a.types.value <= b.types.value))
    && (b.enum.None? || (a.enum.Some? && a.enum.value <= b.enum.value))
    && (b.pattern.None? || a.pattern == b.pattern)
    && (forall q :: q in b.max ==> q in a.max && a.max[q] <= b.max[q])
    && (forall q :: q in b.min ==> q in a.min && a.min[q] >= b.min[q])
    && b.required <= a.required
    && LooserMembers(b, a)
    && LooserItems(b.items, a.items)
    && forall name :: LooserBranches(CombinatorOf(b, name), CombinatorOf(a, name), name)
  }

  ghost predicate LooserMembers(b: Schema, a: Schema)
    requires a.ObjectSchema? && b.ObjectSchema?
  {
    && b.patternProperties.Keys <= a.patternProperties.Keys
    && (b.properties.Keys <= a.properties.Keys || (a.additional.Closed? && a.patternProperties == map[]))
    && ((a.properties.Keys <= b.properties.Keys && a.patternProperties.Keys <= b.patternProperties.Keys) || b.additional.Open?)
    && ClosednessRank(b.additional) <= ClosednessRank(a.additional)
  }

  ghost predicate LooserItems(b: Items, a: Items) {
    b.NoItems? || (b.One? && a.One?) || (!b.One? && a == b)
  }

  ghost predicate LooserBranches(b: Combinator, a: Combinator, name: CombinatorName) {
    b.Branches? ==>
      (a.Branches? && |a.branches| == |b.branches|) || (name.AllOf? && b.branches == [])
  }

  /** The parts of an instance that the subschema at a slot is asked about. */
  ghost predicate IsPartOf(slot: Slot, v: Instance, w: Instance) {
    match slot
    case Extras => v.Object? && w in v.members.Values
    case Property(_) => v.Object? && w in v.members.Values
    case PatternProperty(_) => v.Object? && w in v.members.Values
    case Element => v.Array? && w in v.elements
    case Position(_) => v.Array? && w in v.elements
    case Branch(_, _) => w == v
    case Rest => w == v
    case Whole(_) => false
  }

  /** If a's subschema at the slot accepts w, so does b's. */
  ghost predicate Passes(
      a: Schema, ca: (Schema, Instance) -> bool, b: Schema, cb: (Schema, Instance) -> bool, slot: Slot, w: Instance)
    requires Has(a, slot) && Has(b, slot)
  {
    ca(At(a, slot), w) ==> cb(At(b, slot), w)
  }

  /** Every subschema at a place both have accepts on b's side the parts of v it accepts on a's. */
  ghost predicate ChildrenLooser(
      b: Schema, a: Schema, cb: (Schema, Instance) -> bool, ca: (Schema, Instance) -> bool, v: Instance)
  {
    forall slot, w :: Has(a, slot) && Has(b, slot) && IsPartOf(slot, v, w) ==> Passes(a, ca, b, cb, slot, w)
  }

  /** `oneOf` is not monotone: its branches must accept the same. */
  ghost predicate OneOfAgrees(
      b: Schema, a: Schema, cb: (Schema, Instance) -> bool, ca: (Schema, Instance) -> bool, v: Instance)
  {
    forall slot: Slot :: slot.Branch? && slot.combinator.OneOf? && Has(a, slot) && Has(b, slot) ==>
      Passes(b, cb, a, ca, slot, v)
  }

  /** x on one side accepts only what y on the other accepts. */
  ghost predicate Implies(x: Schema, cx: (Schema, Instance) -> bool, y: Schema, cy: (Schema, Instance) -> bool) {
    forall w :: cx(x, w) ==> cy(y, w)
  }

  lemma ImpliedPasses(b: Schema, a: Schema, cb: (Schema, Instance) -> bool, ca: (Schema, Instance) -> bool, v: Instance)
    requires forall slot :: Has(a, slot) && Has(b, slot) ==> Implies(At(a, slot), ca, At(b, slot), cb)
    ensures ChildrenLooser(b, a, cb, ca, v)
  {
  }

  lemma OneOfImpliedAgrees(b: Schema, a: Schema, cb: (Schema, Instance) -> bool, ca: (Schema, Instance) -> bool, v: Instance)
    requires forall slot: Slot :: slot.Branch? && slot.combinator.OneOf? && Has(a, slot) && Has(b, slot) ==>
               Implies(At(b, slot), cb, At(a, slot), ca)
    ensures OneOfAgrees(b, a, cb, ca, v)
  {
  }

  lemma ValueLoosens(sem: Semantics, a: Schema, b: Schema, v: Instance)
    requires a.ObjectSchema? && b.ObjectSchema? && LooserThan(b, a) && AcceptsValue(sem, a, v)
    ensures AcceptsValue(sem, b, v)
  {
    hide LooserMembers, LooserItems, LooserBranches;
    if b.types.Some? {
      var t :| t in a.types.value && sem.hasType(t, v);
    }
    if b.enum.Some? {
      var e :| e in a.enum.value && sem.equalsLiteral(e, v);
    }
  }

  lemma MemberLoosens(
      sem: Semantics, a: Schema, b: Schema, ca: (Schema, Instance) -> bool, cb: (Schema, Instance) -> bool, v: Instance, name: Text)
    requires a.ObjectSchema? && b.ObjectSchema? && LooserMembers(b, a) && ChildrenLooser(b, a, cb, ca, v)
    requires v.Object? && name in v.members && AcceptsMember(sem, a, ca, name, v.members[name])
    ensures AcceptsMember(sem, b, cb, name, v.members[name])
  {
    var w := v.members[name];
    assert w in v.members.Values;
    if name in b.properties {
      NoExtrasWhenClosed(sem, a, ca, name, w);
      assert Passes(a, ca, b, cb, Property(name), w);
    }
    forall p | p in b.patternProperties && sem.matches(p, name) ensures cb(b.patternProperties[p], w) {
      assert Passes(a, ca, b, cb, PatternProperty(p), w);
    }
    if IsExtra(sem, b, name) && !b.additional.Open? {
      assert IsExtra(sem, a, name);
      assert b.additional.Values? && Passes(a, ca, b, cb, Extras, w);
    }
  }

  lemma NoExtrasWhenClosed(sem: Semantics, a: Schema, ca: (Schema, Instance) -> bool, name: Text, w: Instance)
    requires a.ObjectSchema? && AcceptsMember(sem, a, ca, name, w)
    ensures a.additional.Closed? && a.patternProperties == map[] ==> name in a.properties
  {
  }

  lemma ElementsLoosen(
      sem: Semantics, a: Schema, b: Schema, ca: (Schema, Instance) -> bool, cb: (Schema, Instance) -> bool, v: Instance)
    requires a.ObjectSchema? && b.ObjectSchema? && LooserItems(b.items, a.items) && ChildrenLooser(b, a, cb, ca, v)
    requires v.Array? && AcceptsElements(sem, a, ca, v)
    ensures AcceptsElements(sem, b, cb, v)
  {
    match b.items
    case One(c) =>
      forall i | 0 <= i < |v.elements| ensures cb(c, v.elements[i]) {
        assert Passes(a, ca, b, cb, Element, v.elements[i]);
      }
    case Tuple(cs) =>
      forall i | 0 <= i < |v.elements| && i < |cs| ensures cb(cs[i], v.elements[i]) {
        assert Passes(a, ca, b, cb, Position(i), v.elements[i]);
      }
    case _ =>
  }

  lemma BranchesLoosen(
      a: Schema, b: Schema, ca: (Schema, Instance) -> bool, cb: (Schema, Instance) -> bool, name: CombinatorName, v: Instance)
    requires a.ObjectSchema? && b.ObjectSchema? && LooserBranches(CombinatorOf(b, name), CombinatorOf(a, name), name)
    requires ChildrenLooser(b, a, cb, ca, v) && OneOfAgrees(b, a, cb, ca, v)
    requires AcceptsBranches(name, CombinatorOf(a, name), ca, v)
    ensures AcceptsBranches(name, CombinatorOf(b, name), cb, v)
  {
    hide AcceptsBranches;
    var x, y := CombinatorOf(a, name), CombinatorOf(b, name);
    if y.Branches? && x.Branches? && |x.branches| == |y.branches| {
      forall i | 0 <= i < |y.branches|
        ensures ca(x.branches[i], v) ==> cb(y.branches[i], v)
        ensures name.OneOf? && cb(y.branches[i], v) ==> ca(x.branches[i], v)
      {
        BranchPasses(a, b, ca, cb, name, i, v);
      }
      BranchwiseAccepts(name, x.branches, y.branches, ca, cb, v);
    } else {
      NothingToBranch(name, y, cb, v);
    }
  }

  lemma BranchPasses(
      a: Schema, b: Schema, ca: (Schema, Instance) -> bool, cb: (Schema, Instance) -> bool, name: CombinatorName, i: nat, v: Instance)
    requires Has(a, Branch(name, i)) && Has(b, Branch(name, i))
    requires ChildrenLooser(b, a, cb, ca, v) && OneOfAgrees(b, a, cb, ca, v)
    ensures var x, y := CombinatorOf(a, name).branches[i], CombinatorOf(b, name).branches[i];
            (ca(x, v) ==> cb(y, v)) && (name.OneOf? && cb(y, v) ==> ca(x, v))
  {
    var slot := Branch(name, i);
    assert Passes(a, ca, b, cb, slot, v);
    assert name.OneOf? ==> Passes(b, cb, a, ca, slot, v);
  }

  lemma NothingToBranch(name: CombinatorName, y: Combinator, cb: (Schema, Instance) -> bool, v: Instance)
    requires !y.Branches? || (name.AllOf? && y.branches == [])
    ensures AcceptsBranches(name, y, cb, v)
  {
  }

  lemma BranchwiseAccepts(
      name: CombinatorName, xs: seq<Schema>, ys: seq<Schema>, ca: (Schema, Instance) -> bool, cb: (Schema, Instance) -> bool, v: Instance)
    requires |xs| == |ys|
    requires forall i :: 0 <= i < |ys| ==> (ca(xs[i], v) ==> cb(ys[i], v)) && (name.OneOf? && cb(ys[i], v) ==> ca(xs[i], v))
    requires AcceptsBranches(name, Branches(xs), ca, v)
    ensures AcceptsBranches(name, Branches(ys), cb, v)
  {
    match name
    case OneOf =>
      var i :| 0 <= i < |xs| && ca(xs[i], v);
      assert cb(ys[i], v);
    case AnyOf =>
      var i :| 0 <= i < |xs| && ca(xs[i], v);
      assert cb(ys[i], v);
    case AllOf =>
  }

  /** One step of validation is monotone along looser nodes and looser subschemas. */
  lemma StepLoosens(
      sem: Semantics, a: Schema, b: Schema, ca: (Schema, Instance) -> bool, cb: (Schema, Instance) -> bool, v: Instance)
    requires a.ObjectSchema? && b.ObjectSchema? && LooserThan(b, a)
    requires ChildrenLooser(b, a, cb, ca, v) && OneOfAgrees(b, a, cb, ca, v)
    requires Accepts(sem, a, ca, v)
    ensures Accepts(sem, b, cb, v)
  {
    ValueLoosens(sem, a, b, v);
    assert Passes(a, ca, b, cb, Rest, v);
    hide AcceptsValue, AcceptsMember, AcceptsElements, AcceptsBranches, ChildrenLooser, OneOfAgrees, LooserMembers, LooserItems;
    if v.Object? {
      forall name | name in v.members ensures AcceptsMember(sem, b, cb, name, v.members[name]) {
        MemberLoosens(sem, a, b, ca, cb, v, name);
      }
    }
    if v.Array? {
      ElementsLoosen(sem, a, b, ca, cb, v);
    }
    forall name ensures AcceptsBranches(name, CombinatorOf(b, name), cb, v) {
      BranchesLoosen(a, b, ca, cb, name, v);
    }
  }

  // ----- what silence says

  /** Nothing breaking for this role and no stopped comparison. */
  ghost predicate Quiet(role: Role, cs: seq<Change>) {
    forall c :: c in cs ==> SeverityFor(role, c.effect) == Info && !IsStop(c.rule)
  }

  lemma {:induction false} QuietPart(role: Role, scope: Scope, o: Schema, n: Schema, k: nat, parts: nat, pointer: Pointer, depth: nat)
    requires o.ObjectSchema? && n.ObjectSchema? && depth <= MAX_COMPARE_DEPTH && k < parts
    requires Quiet(role, FirstParts(scope, o, n, parts, pointer, depth))
    ensures Quiet(role, Part(scope, o, n, k, pointer, depth))
    decreases parts
  {
    hide Part, SeverityFor, IsStop;
    if k < parts - 1 {
      QuietPart(role, scope, o, n, k, parts - 1, pointer, depth);
    }
  }

  lemma {:induction false} QuietSlot(role: Role, scope: Scope, o: Schema, n: Schema, slots: seq<Slot>, slot: Slot, pointer: Pointer, depth: nat)
    requires o.ObjectSchema? && n.ObjectSchema? && depth <= MAX_COMPARE_DEPTH && slot in slots
    requires Quiet(role, SlotChanges(scope, o, n, slots, pointer, depth))
    ensures Quiet(role, OneSlotChanges(scope, o, n, slot, pointer, depth))
    decreases |slots|
  {
    hide OneSlotChanges, SeverityFor, IsStop;
    if slot != slots[|slots| - 1] {
      QuietSlot(role, scope, o, n, slots[..|slots| - 1], slot, pointer, depth);
    }
  }

  /** The keywords of a quiet node, one by one. */
  ghost predicate QuietNode(role: Role, scope: Scope, o: Schema, n: Schema, pointer: Pointer, depth: nat)
    requires o.ObjectSchema? && n.ObjectSchema? && depth <= MAX_COMPARE_DEPTH
  {
    Quiet(role, FirstParts(scope, o, n, PARTS, pointer, depth))
  }

  lemma QuietShared(role: Role, scope: Scope, o: Schema, n: Schema, pointer: Pointer, depth: nat)
    requires o.ObjectSchema? && n.ObjectSchema? && depth <= MAX_COMPARE_DEPTH
    requires QuietNode(role, scope, o, n, pointer, depth)
    ensures Quiet(role, SlotChanges(scope, o, n, SharedSlot(o, n, Extras), pointer, depth))
    ensures Quiet(role, SlotChanges(scope, o, n, SharedSlot(o, n, Element), pointer, depth))
  {
    hide SlotChanges, FirstParts;
    QuietPart(role, scope, o, n, 2, PARTS, pointer, depth);
    QuietPart(role, scope, o, n, 9, PARTS, pointer, depth);
    assert Quiet(role, ExtrasPart(scope, o, n, pointer, depth)) && Quiet(role, ItemsPart(scope, o, n, pointer, depth));
  }

  lemma QuietOneSided(role: Role, scope: Scope, o: Schema, n: Schema, pointer: Pointer, depth: nat)
    requires o.ObjectSchema? && n.ObjectSchema? && depth <= MAX_COMPARE_DEPTH
    requires QuietNode(role, scope, o, n, pointer, depth)
    ensures Quiet(role, SlotChanges(scope, o, n, PropertySlots(o, n), pointer, depth))
    ensures Quiet(role, SlotChanges(scope, o, n, PatternSlots(o, n), pointer, depth))
  {
    hide SlotChanges, FirstParts, Quiet, PropertySlots, PatternSlots;
    assert Quiet(role, FirstParts(scope, o, n, PARTS, pointer, depth));
    QuietPart(role, scope, o, n, 7, PARTS, pointer, depth);
    QuietPart(role, scope, o, n, 8, PARTS, pointer, depth);
  }

  /** Every slot the comparator looks into is quiet. */
  lemma QuietSlots(role: Role, scope: Scope, o: Schema, n: Schema, slot: Slot, pointer: Pointer, depth: nat)
    requires o.ObjectSchema? && n.ObjectSchema? && depth <= MAX_COMPARE_DEPTH
    requires QuietNode(role, scope, o, n, pointer, depth)
    requires match slot
             case Property(_) => Has(o, slot) || Has(n, slot)
             case PatternProperty(_) => Has(o, slot) || Has(n, slot)
             case Position(_) => false
             case Rest => false
             case _ => Has(o, slot) && Has(n, slot)
    ensures Quiet(role, OneSlotChanges(scope, o, n, slot, pointer, depth))
  {
    hide SlotChanges, OneSlotChanges, FirstParts, Part, Quiet, QuietNode, PropertySlots, PatternSlots;
    match slot
    case Extras =>
      QuietShared(role, scope, o, n, pointer, depth);
      QuietSlot(role, scope, o, n, SharedSlot(o, n, Extras), slot, pointer, depth);
    case Property(name) =>
      QuietOneSided(role, scope, o, n, pointer, depth);
      PropertyListed(o, n, name);
      QuietSlot(role, scope, o, n, PropertySlots(o, n), slot, pointer, depth);
    case PatternProperty(name) =>
      QuietOneSided(role, scope, o, n, pointer, depth);
      PatternListed(o, n, name);
      QuietSlot(role, scope, o, n, PatternSlots(o, n), slot, pointer, depth);
    case Element =>
      QuietShared(role, scope, o, n, pointer, depth);
      QuietSlot(role, scope, o, n, SharedSlot(o, n, Element), slot, pointer, depth);
    case Branch(c, i) =>
      QuietCombinator(role, scope, o, n, c, pointer, depth);
      var slots := SharedBranches(CombinatorOf(o, c), CombinatorOf(n, c), c);
      assert slots[i] == slot;
      QuietSlot(role, scope, o, n, slots, slot, pointer, depth);
    case Whole(_) =>
  }

  lemma PropertyListed(o: Schema, n: Schema, name: Text)
    requires o.ObjectSchema? && n.ObjectSchema? && (name in o.properties || name in n.properties)
    ensures Property(name) in PropertySlots(o, n)
  {
    var names := SortedTexts(o.properties.Keys + n.properties.Keys);
    assert name in names;
    var i :| 0 <= i < |names| && names[i] == name;
    assert PropertySlots(o, n)[i] == Property(name);
  }

  lemma PatternListed(o: Schema, n: Schema, name: Text)
    requires o.ObjectSchema? && n.ObjectSchema? && (name in o.patternProperties || name in n.patternProperties)
    ensures PatternProperty(name) in PatternSlots(o, n)
  {
    var names := SortedTexts(o.patternProperties.Keys + n.patternProperties.Keys);
    assert name in names;
    var i :| 0 <= i < |names| && names[i] == name;
    assert PatternSlots(o, n)[i] == PatternProperty(name);
  }

  lemma BranchCountsDiffer(role: Role, x: Combinator, y: Combinator, c: CombinatorName, pointer: Pointer)
    ensures x.Branches? && y.Branches? && |x.branches| != |y.branches| ==> !Quiet(role, CombinatorChanges(x, y, c, pointer))
  {
    if x.Branches? && y.Branches? && |x.branches| != |y.branches| {
      assert Change(pointer + [Whole(c)], BranchCountChanged, AlwaysBreaking, Keyword) in CombinatorChanges(x, y, c, pointer);
    }
  }

  lemma QuietCombinator(role: Role, scope: Scope, o: Schema, n: Schema, c: CombinatorName, pointer: Pointer, depth: nat)
    requires o.ObjectSchema? && n.ObjectSchema? && depth <= MAX_COMPARE_DEPTH
    requires QuietNode(role, scope, o, n, pointer, depth)
    ensures var x, y := CombinatorOf(o, c), CombinatorOf(n, c);
            && Quiet(role, CombinatorChanges(x, y, c, pointer))
            && Quiet(role, SlotChanges(scope, o, n, SharedBranches(x, y, c), pointer, depth))
            && (x.Branches? && y.Branches? ==> |x.branches| == |y.branches|)
  {
    hide SlotChanges, FirstParts;
    QuietPart(role, scope, o, n, match c case OneOf => 10 case AnyOf => 11 case AllOf => 12, PARTS, pointer, depth);
    assert Quiet(role, CombinatorPart(scope, o, n, c, pointer, depth));
    var x, y := CombinatorOf(o, c), CombinatorOf(n, c);
    assert Quiet(role, CombinatorChanges(x, y, c, pointer));
    BranchCountsDiffer(role, x, y, c, pointer);
  }

  // ----- quiet keywords loosen in the direction the role watches

  /** The two directions a role may care about: losing instances, or gaining them. */
  predicate Watches(role: Role, effect: Effect) {
    (effect.Narrowed? && !role.Response?) || (effect.Widened? && !role.Request?)
  }

  /** The side whose instances must stay accepted, and the side that must accept them. */
  function Giver<T>(effect: Effect, o: T, n: T): T {
    if effect.Narrowed? then o else n
  }

  function Taker<T>(effect: Effect, o: T, n: T): T {
    if effect.Narrowed? then n else o
  }

  predicate SubsetOrFree(a: Option<set<Text>>, b: Option<set<Text>>) {
    b.None? || (a.Some? && a.value <= b.value)
  }

  lemma QuietSetChange(role: Role, e: Effect, pointer: Pointer, rule: Rule, whole: bool, names: set<Text>)
    requires Watches(role, e) && Quiet(role, SetChange(pointer, rule, e, whole, names))
    ensures !whole && forall x :: x !in names
  {
    if whole || names != {} {
      QuietOne(role, e, SetChange(pointer, rule, e, whole, names));
    }
  }

  lemma NoDifference(a: Option<set<Text>>, b: Option<set<Text>>)
    requires forall x :: x !in Difference(a, b)
    ensures a.Some? && b.Some? ==> a.value <= b.value
  {
    if a.Some? && b.Some? {
      forall x | x in a.value ensures x in b.value {
        assert x !in Difference(a, b);
      }
    }
  }

  lemma QuietTypes(role: Role, e: Effect, o: Option<set<Text>>, n: Option<set<Text>>, pointer: Pointer)
    requires Watches(role, e) && Quiet(role, TypeChanges(o, n, pointer))
    ensures SubsetOrFree(Giver(e, o, n), Taker(e, o, n))
  {
    if o != n {
      var a, b := Giver(e, o, n), Taker(e, o, n);
      assert Quiet(role, SetChange(pointer, TypeRule, e, a.None? && b.Some?, Difference(a, b)));
      QuietSetChange(role, e, pointer, TypeRule, a.None? && b.Some?, Difference(a, b));
      NoDifference(a, b);
    }
  }

  lemma QuietEnum(role: Role, e: Effect, o: Option<set<Text>>, n: Option<set<Text>>, pointer: Pointer)
    requires Watches(role, e) && Quiet(role, EnumChanges(o, n, pointer))
    ensures Giver(e, o, n).Some? ==> Taker(e, o, n).Some?
    ensures Giver(e, o, n).Some? ==> SubsetOrFree(Giver(e, o, n), Taker(e, o, n))
  {
    if o != n {
      var a, b := Giver(e, o, n), Taker(e, o, n);
      assert Quiet(role, SetChange(pointer, EnumRule, e, a.Some? && b.None?, Difference(a, b)));
      QuietSetChange(role, e, pointer, EnumRule, a.Some? && b.None?, Difference(a, b));
      NoDifference(a, b);
    }
  }

  lemma QuietOne(role: Role, e: Effect, cs: seq<Change>)
    requires Watches(role, e) && cs != [] && cs[0].effect == e
    ensures !Quiet(role, cs)
  {
    assert cs[0] in cs;
  }

  lemma QuietPattern(role: Role, e: Effect, o: Option<Text>, n: Option<Text>, pointer: Pointer)
    requires Watches(role, e) && Quiet(role, PatternChanges(o, n, pointer))
    requires e.Widened? && o.Some? && n.Some? ==> o == n
    ensures Taker(e, o, n).None? || o == n
  {
    var cs := PatternChanges(o, n, pointer);
    if cs != [] && cs[0].effect == e {
      QuietOne(role, e, cs);
    }
  }

  lemma QuietRank(role: Role, e: Effect, o: Additional, n: Additional, pointer: Pointer)
    requires Watches(role, e) && Quiet(role, RankChanges(o, n, pointer))
    ensures ClosednessRank(Taker(e, o, n)) <= ClosednessRank(Giver(e, o, n))
  {
    var cs := RankChanges(o, n, pointer);
    if cs != [] && cs[0].effect == e {
      QuietOne(role, e, cs);
    }
  }

  lemma {:induction false} QuietMax(
      role: Role, e: Effect, o: map<Quantity, real>, n: map<Quantity, real>, qs: seq<Quantity>, q: Quantity, pointer: Pointer)
    requires Watches(role, e) && Quiet(role, MaxChanges(o, n, qs, pointer)) && q in qs && q in Taker(e, o, n)
    ensures q in Giver(e, o, n) && Giver(e, o, n)[q] <= Taker(e, o, n)[q]
  {
    var last := qs[|qs| - 1];
    if q == last {
      var cs := MaxChange(o, n, q, pointer);
      assert Quiet(role, cs);
      if cs != [] && cs[0].effect == e {
        QuietOne(role, e, cs);
      }
    } else {
      QuietMax(role, e, o, n, qs[..|qs| - 1], q, pointer);
    }
  }

  lemma {:induction false} QuietMin(
      role: Role, e: Effect, o: map<Quantity, real>, n: map<Quantity, real>, qs: seq<Quantity>, q: Quantity, pointer: Pointer)
    requires Watches(role, e) && Quiet(role, MinChanges(o, n, qs, pointer)) && q in qs && q in Taker(e, o, n)
    ensures q in Giver(e, o, n) && Giver(e, o, n)[q] >= Taker(e, o, n)[q]
  {
    var last := qs[|qs| - 1];
    if q == last {
      var cs := MinChange(o, n, q, pointer);
      assert Quiet(role, cs);
      if cs != [] && cs[0].effect == e {
        QuietOne(role, e, cs);
      }
    } else {
      QuietMin(role, e, o, n, qs[..|qs| - 1], q, pointer);
    }
  }

  lemma EveryQuantityListed(q: Quantity)
    ensures q in QUANTITIES
  {
    assert QUANTITIES[0] == Length && QUANTITIES[1] == Magnitude && QUANTITIES[2] == ItemCount && QUANTITIES[3] == MemberCount;
  }

  lemma QuietRequired(role: Role, e: Effect, o: set<Text>, n: set<Text>, pointer: Pointer)
    requires Watches(role, e) && Quiet(role, RequiredChanges(o, n, pointer))
    ensures Taker(e, o, n) <= Giver(e, o, n)
  {
    var names := SortedTexts(Taker(e, o, n) - Giver(e, o, n));
    assert Quiet(role, NameChanges(names, RequiredRule, e, pointer));
    if !(Taker(e, o, n) <= Giver(e, o, n)) {
      var name :| name in Taker(e, o, n) && name !in Giver(e, o, n);
      ListedNameShows(role, e, names, name, pointer);
    }
  }

  lemma ListedNameShows(role: Role, e: Effect, names: seq<Text>, name: Text, pointer: Pointer)
    requires Watches(role, e) && name in names
    ensures !Quiet(role, NameChanges(names, RequiredRule, e, pointer))
  {
    var i :| 0 <= i < |names| && names[i] == name;
    var cs := NameChanges(names, RequiredRule, e, pointer);
    assert cs[i] in cs;
  }

  lemma QuietItems(role: Role, e: Effect, o: Items, n: Items, pointer: Pointer)
    requires Watches(role, e) && Quiet(role, ItemsChanges(o, n, pointer))
    ensures LooserItems(Taker(e, o, n), Giver(e, o, n))
  {
    var cs := ItemsChanges(o, n, pointer);
    if cs != [] {
      assert cs[0] in cs;
    }
  }

  lemma QuietBranches(role: Role, e: Effect, o: Combinator, n: Combinator, name: CombinatorName, pointer: Pointer)
    requires Watches(role, e) && Quiet(role, CombinatorChanges(o, n, name, pointer))
    ensures LooserBranches(Taker(e, o, n), Giver(e, o, n), name)
  {
    var cs := CombinatorChanges(o, n, name, pointer);
    if cs != [] {
      assert cs[0] in cs;
    }
  }

  /**
   What a caller must check beside the findings, for the watched direction: the code calls these
   changes harmless, or harmful only in the other direction.
   */
  ghost predicate Fits(e: Effect, o: Schema, n: Schema)
    requires o.ObjectSchema? && n.ObjectSchema?
  {
    var a, b := Giver(e, o, n), Taker(e, o, n);
    && (a.enum.None? ==> b.enum.None?)
    && (e.Widened? && o.pattern.Some? && n.pattern.Some? ==> o.pattern == n.pattern)
    && b.patternProperties.Keys <= a.patternProperties.Keys
    && (b.properties.Keys <= a.properties.Keys || (a.additional.Closed? && a.patternProperties == map[]))
  }

  lemma OneSidedSlotOpens(role: Role, e: Effect, scope: Scope, o: Schema, n: Schema, slot: Slot, pointer: Pointer, depth: nat)
    requires o.ObjectSchema? && n.ObjectSchema? && depth <= MAX_COMPARE_DEPTH && Watches(role, e)
    requires slot.Property? || slot.PatternProperty?
    requires Has(Giver(e, o, n), slot) && !Has(Taker(e, o, n), slot)
    requires Quiet(role, OneSlotChanges(scope, o, n, slot, pointer, depth))
    ensures Taker(e, o, n).additional.Open?
  {
    var cs := OneSlotChanges(scope, o, n, slot, pointer, depth);
    assert cs[0] in cs;
  }

  lemma QuietMembers(role: Role, e: Effect, scope: Scope, o: Schema, n: Schema, pointer: Pointer, depth: nat)
    requires o.ObjectSchema? && n.ObjectSchema? && depth <= MAX_COMPARE_DEPTH && Watches(role, e)
    requires QuietNode(role, scope, o, n, pointer, depth) && Fits(e, o, n)
    requires ClosednessRank(Taker(e, o, n).additional) <= ClosednessRank(Giver(e, o, n).additional)
    ensures LooserMembers(Taker(e, o, n), Giver(e, o, n))
  {
    hide QuietNode, OneSlotChanges;
    var a, b := Giver(e, o, n), Taker(e, o, n);
    if !(a.properties.Keys <= b.properties.Keys) {
      var name :| name in a.properties && name !in b.properties;
      QuietSlots(role, scope, o, n, Property(name), pointer, depth);
      OneSidedSlotOpens(role, e, scope, o, n, Property(name), pointer, depth);
    }
    if !(a.patternProperties.Keys <= b.patternProperties.Keys) {
      var p :| p in a.patternProperties && p !in b.patternProperties;
      QuietSlots(role, scope, o, n, PatternProperty(p), pointer, depth);
      OneSidedSlotOpens(role, e, scope, o, n, PatternProperty(p), pointer, depth);
    }
  }

  lemma QuietKeywords(role: Role, scope: Scope, o: Schema, n: Schema, pointer: Pointer, depth: nat)
    requires o.ObjectSchema? && n.ObjectSchema? && depth <= MAX_COMPARE_DEPTH
    requires QuietNode(role, scope, o, n, pointer, depth)
    ensures Quiet(role, TypeChanges(o.types, n.types, pointer))
    ensures Quiet(role, EnumChanges(o.enum, n.enum, pointer))
    ensures Quiet(role, RankChanges(o.additional, n.additional, pointer))
    ensures Quiet(role, PatternChanges(o.pattern, n.pattern, pointer))
    ensures Quiet(role, MaxChanges(o.max, n.max, QUANTITIES, pointer))
    ensures Quiet(role, MinChanges(o.min, n.min, QUANTITIES, pointer))
    ensures Quiet(role, RequiredChanges(o.required, n.required, pointer))
    ensures Quiet(role, ItemsChanges(o.items, n.items, pointer))
  {
    hide TypeChanges, EnumChanges, RankChanges, PatternChanges, MaxChanges, MinChanges, RequiredChanges, ItemsChanges,
      SlotChanges, FirstParts, CombinatorPart;
    forall k: nat | k < PARTS ensures Quiet(role, Part(scope, o, n, k, pointer, depth)) {
      QuietPart(role, scope, o, n, k, PARTS, pointer, depth);
    }
    assert Quiet(role, Part(scope, o, n, 0, pointer, depth)) && Quiet(role, Part(scope, o, n, 1, pointer, depth));
    assert Quiet(role, Part(scope, o, n, 2, pointer, depth)) && Quiet(role, Part(scope, o, n, 3, pointer, depth));
    assert Quiet(role, Part(scope, o, n, 4, pointer, depth)) && Quiet(role, Part(scope, o, n, 5, pointer, depth));
    assert Quiet(role, Part(scope, o, n, 6, pointer, depth)) && Quiet(role, Part(scope, o, n, 9, pointer, depth));
    assert Quiet(role, ExtrasPart(scope, o, n, pointer, depth)) && Quiet(role, ItemsPart(scope, o, n, pointer, depth));
  }

  lemma QuietNodeLoosens(role: Role, e: Effect, scope: Scope, o: Schema, n: Schema, pointer: Pointer, depth: nat)
    requires o.ObjectSchema? && n.ObjectSchema? && depth <= MAX_COMPARE_DEPTH && Watches(role, e)
    requires QuietNode(role, scope, o, n, pointer, depth) && Fits(e, o, n)
    ensures LooserThan(Taker(e, o, n), Giver(e, o, n))
  {
    hide QuietNode, Quiet;
    QuietKeywords(role, scope, o, n, pointer, depth);
    QuietTypes(role, e, o.types, n.types, pointer);
    QuietEnum(role, e, o.enum, n.enum, pointer);
    QuietRank(role, e, o.additional, n.additional, pointer);
    QuietPattern(role, e, o.pattern, n.pattern, pointer);
    QuietRequired(role, e, o.required, n.required, pointer);
    QuietItems(role, e, o.items, n.items, pointer);
    QuietMembers(role, e, scope, o, n, pointer, depth);
    hide TypeChanges, EnumChanges, RankChanges, PatternChanges, RequiredChanges, ItemsChanges, MaxChanges, MinChanges,
      CombinatorChanges, LooserMembers, LooserItems, LooserBranches;
    var a, b := Giver(e, o, n), Taker(e, o, n);
    forall q | q in b.max ensures q in a.max && a.max[q] <= b.max[q] {
      EveryQuantityListed(q);
      QuietMax(role, e, o.max, n.max, QUANTITIES, q, pointer);
    }
    forall q | q in b.min ensures q in a.min && a.min[q] >= b.min[q] {
      EveryQuantityListed(q);
      QuietMin(role, e, o.min, n.min, QUANTITIES, q, pointer);
    }
    forall name ensures LooserBranches(CombinatorOf(b, name), CombinatorOf(a, name), name) {
      QuietCombinator(role, scope, o, n, name, pointer, depth);
      QuietBranches(role, e, CombinatorOf(o, name), CombinatorOf(n, name), name, pointer);
    }
  }

  // ----- soundness

  /** Positional items and the keywords that are never read have no findings of their own. */
  predicate IsCompared(slot: Slot) {
    !slot.Position? && !slot.Rest?
  }

  /** `oneOf` branches that mean the same in every tree. */
  ghost predicate SettledBranches(o: Combinator, n: Combinator) {
    o.Branches? && n.Branches? ==> o == n && forall i :: 0 <= i < |o.branches| ==> RefFree(o.branches[i])
  }

  /** The pairs of fragments soundness speaks about, node by node. */
  ghost predicate NodeFits(role: Role, o: Schema, n: Schema)
    requires o.ObjectSchema? && n.ObjectSchema?
  {
    && (role.Request? ==> Fits(Narrowed, o, n) && SettledBranches(o.oneOf, n.oneOf))
    && (role.Response? ==> Fits(Widened, o, n) && SettledBranches(o.oneOf, n.oneOf))
    && (role.Conservative? ==> o.properties.Keys == n.properties.Keys && o.patternProperties.Keys == n.patternProperties.Keys)
    && (o.items.Tuple? && n.items.Tuple? ==> forall i :: 0 <= i < |o.items.schemas| ==> RefFree(o.items.schemas[i]))
    && o.rest == n.rest && RefFree(o.rest)
  }

  /** The fragment resolves to unread keywords that hold refs of their own. */
  predicate IsOpaque(reg: Registry, raw: Schema, base: Text, visited: set<Key>) {
    var d := DerefFrom(reg, raw, base, visited, 0);
    d.Dereferenced? && d.node.UnreadSchema? && d.node.hasRefs
  }

  /** Every pair of schema objects the comparison reaches fits. */
  ghost predicate InFragment(role: Role, scope: Scope, oldRaw: Schema, newRaw: Schema, depth: nat)
    requires depth <= MAX_COMPARE_DEPTH + 1
    decreases MAX_COMPARE_DEPTH + 1 - depth
  {
    var r := ResolvePair(scope, oldRaw, newRaw, [], depth);
    && !IsOpaque(scope.oldReg, oldRaw, scope.oldBase, scope.oldVisited)
    && (r.Pair? ==>
          && NodeFits(role, r.older, r.newer)
          && forall slot :: Has(r.older, slot) && Has(r.newer, slot) && IsCompared(slot) ==>
               InFragment(role, r.scope, At(r.older, slot), At(r.newer, slot), depth + 1))
  }

  /** The verdict a silent comparison gives about two fragments, each under its own tree's meaning. */
  ghost predicate Compatible(role: Role, scope: Scope, oldRaw: Schema, newRaw: Schema, oldValid: Validity, newValid: Validity) {
    && (!role.Response? ==> forall v :: oldValid(scope.oldBase, oldRaw, v) ==> newValid(scope.newBase, newRaw, v))
    && (!role.Request? ==> forall v :: newValid(scope.newBase, newRaw, v) ==> oldValid(scope.oldBase, oldRaw, v))
  }

  /** Without refs, a fragment means the same in every tree. */
  lemma {:induction false} RefFreeMeansSame(
      sem: Semantics, s: Schema, reg: Registry, valid: Validity, base: Text, reg': Registry, valid': Validity, base': Text, v: Instance)
    requires RefFree(s) && Models(reg, sem, valid) && Models(reg', sem, valid')
    requires valid(base, s, v)
    ensures valid'(base', s, v)
    decreases s
  {
    assert Equation(reg, sem, valid, base, s, v) && Equation(reg', sem, valid', base', s, v);
    if s.ObjectSchema? {
      var ca: (Schema, Instance) -> bool, cb: (Schema, Instance) -> bool :=
        (c, w) => valid(base, c, w), (c, w) => valid'(base', c, w);
      forall slot | Has(s, slot)
        ensures Implies(At(s, slot), ca, At(s, slot), cb) && Implies(At(s, slot), cb, At(s, slot), ca)
      {
        assert RefFree(At(s, slot));
        forall w | ca(At(s, slot), w) ensures cb(At(s, slot), w) {
          RefFreeMeansSame(sem, At(s, slot), reg, valid, base, reg', valid', base', w);
        }
        forall w | cb(At(s, slot), w) ensures ca(At(s, slot), w) {
          RefFreeMeansSame(sem, At(s, slot), reg', valid', base', reg, valid, base, w);
        }
      }
      hide Models, Accepts, Implies, RefFree;
      ImpliedPasses(s, s, cb, ca, v);
      OneOfImpliedAgrees(s, s, cb, ca, v);
      StepLoosens(sem, s, s, ca, cb, v);
    }
  }

  /** In every tree, what a fragment without refs accepts. */
  lemma SameInBothTrees(scope: Scope, o: Schema, sem: Semantics, ov: Validity, nv: Validity)
    requires RefFree(o) && Models(scope.oldReg, sem, ov) && Models(scope.newReg, sem, nv)
    ensures forall v :: ov(scope.oldBase, o, v) <==> nv(scope.newBase, o, v)
  {
    hide RefFree, Models;
    forall v ensures ov(scope.oldBase, o, v) <==> nv(scope.newBase, o, v) {
      if ov(scope.oldBase, o, v) {
        RefFreeMeansSame(sem, o, scope.oldReg, ov, scope.oldBase, scope.newReg, nv, scope.newBase, v);
      }
      if nv(scope.newBase, o, v) {
        RefFreeMeansSame(sem, o, scope.newReg, nv, scope.newBase, scope.oldReg, ov, scope.oldBase, v);
      }
    }
  }

  /** A quiet pair of nodes passes instances along the watched direction. */
  lemma NodePasses(
      role: Role, e: Effect, scope: Scope, o: Schema, n: Schema, pointer: Pointer, depth: nat, sem: Semantics,
      co: (Schema, Instance) -> bool, cn: (Schema, Instance) -> bool, v: Instance)
    requires o.ObjectSchema? && n.ObjectSchema? && depth <= MAX_COMPARE_DEPTH && Watches(role, e)
    requires QuietNode(role, scope, o, n, pointer, depth) && NodeFits(role, o, n)
    requires ChildrenLooser(Taker(e, o, n), Giver(e, o, n), Taker(e, co, cn), Giver(e, co, cn), v)
    requires OneOfAgrees(Taker(e, o, n), Giver(e, o, n), Taker(e, co, cn), Giver(e, co, cn), v)
    requires Accepts(sem, Giver(e, o, n), Giver(e, co, cn), v)
    ensures Accepts(sem, Taker(e, o, n), Taker(e, co, cn), v)
  {
    QuietKeywords(role, scope, o, n, pointer, depth);
    if role.Conservative? {
      QuietEnum(role, Narrowed, o.enum, n.enum, pointer);
      QuietEnum(role, Widened, o.enum, n.enum, pointer);
      QuietPattern(role, Narrowed, o.pattern, n.pattern, pointer);
    }
    hide QuietNode, Accepts, ChildrenLooser, OneOfAgrees, Quiet;
    assert Fits(e, o, n);
    QuietNodeLoosens(role, e, scope, o, n, pointer, depth);
    StepLoosens(sem, Giver(e, o, n), Taker(e, o, n), Giver(e, co, cn), Taker(e, co, cn), v);
  }

  /** What resolution leaves to compare has the meaning of the fragment it came from. */
  lemma ResolutionKeepsMeaning(scope: Scope, oldRaw: Schema, newRaw: Schema, pointer: Pointer, depth: nat,
                               sem: Semantics, oldValid: Validity, newValid: Validity)
    requires ResolvePair(scope, oldRaw, newRaw, pointer, depth).Pair?
    requires Models(scope.oldReg, sem, oldValid) && Models(scope.newReg, sem, newValid)
    ensures var r := ResolvePair(scope, oldRaw, newRaw, pointer, depth);
            && r.scope.oldReg == scope.oldReg && r.scope.newReg == scope.newReg
            && (forall v :: oldValid(scope.oldBase, oldRaw, v) <==>
                            Accepts(sem, r.older, (c, w) => oldValid(r.scope.oldBase, c, w), v))
            && (forall v :: newValid(scope.newBase, newRaw, v) <==>
                            Accepts(sem, r.newer, (c, w) => newValid(r.scope.newBase, c, w), v))
  {
    var r := ResolvePair(scope, oldRaw, newRaw, pointer, depth);
    forall v ensures oldValid(scope.oldBase, oldRaw, v) <==>
                     Accepts(sem, r.older, (c, w) => oldValid(r.scope.oldBase, c, w), v)
    {
      DerefKeepsMeaning(scope.oldReg, sem, oldValid, oldRaw, scope.oldBase, scope.oldVisited, 0, v);
      assert Equation(scope.oldReg, sem, oldValid, r.scope.oldBase, r.older, v);
    }
    forall v ensures newValid(scope.newBase, newRaw, v) <==>
                     Accepts(sem, r.newer, (c, w) => newValid(r.scope.newBase, c, w), v)
    {
      DerefKeepsMeaning(scope.newReg, sem, newValid, newRaw, scope.newBase, scope.newVisited, 0, v);
      assert Equation(scope.newReg, sem, newValid, r.scope.newBase, r.newer, v);
    }
  }

  lemma QuietMeansNoSuch(role: Role, cs: seq<Change>)
    requires Quiet(role, cs)
    ensures forall i :: 0 <= i < |cs| ==> SeverityFor(role, cs[i].effect) == Info && !IsStop(cs[i].rule)
  {
  }

  /** A comparison that ends without a word ended at two equal leaves. */
  lemma EndedQuietly(role: Role, scope: Scope, oldRaw: Schema, newRaw: Schema, pointer: Pointer, depth: nat,
                     sem: Semantics, oldValid: Validity, newValid: Validity)
    requires ResolvePair(scope, oldRaw, newRaw, pointer, depth).Ended?
    requires Quiet(role, ResolvePair(scope, oldRaw, newRaw, pointer, depth).changes)
    requires Models(scope.oldReg, sem, oldValid) && Models(scope.newReg, sem, newValid)
    requires !IsOpaque(scope.oldReg, oldRaw, scope.oldBase, scope.oldVisited)
    ensures Compatible(role, scope, oldRaw, newRaw, oldValid, newValid)
  {
    var cs := ResolvePair(scope, oldRaw, newRaw, pointer, depth).changes;
    QuietMeansNoSuch(role, cs);
    DerefEnds(scope.oldReg, oldRaw, scope.oldBase, scope.oldVisited, 0);
    DerefEnds(scope.newReg, newRaw, scope.newBase, scope.newVisited, 0);
    var o := DerefFrom(scope.oldReg, oldRaw, scope.oldBase, scope.oldVisited, 0);
    var n := DerefFrom(scope.newReg, newRaw, scope.newBase, scope.newVisited, 0);
    forall v ensures oldValid(scope.oldBase, oldRaw, v) <==> newValid(scope.newBase, newRaw, v) {
      DerefKeepsMeaning(scope.oldReg, sem, oldValid, oldRaw, scope.oldBase, scope.oldVisited, 0, v);
      DerefKeepsMeaning(scope.newReg, sem, newValid, newRaw, scope.newBase, scope.newVisited, 0, v);
      assert Equation(scope.oldReg, sem, oldValid, o.base, o.node, v);
      assert Equation(scope.newReg, sem, newValid, n.base, n.node, v);
    }
  }

  /**
   Differ soundness.  Whatever the schemas mean: if the changes hold nothing breaking for the role
   and no stopped comparison, then a request schema still accepts every instance it accepted, a
   response schema accepts no new one, and under the conservative role both accept the same
   instances.  A comparison that runs into its own refs again is a stopped one.
   */
  lemma {:induction false} DifferSound(
      role: Role, scope: Scope, oldRaw: Schema, newRaw: Schema, pointer: Pointer, depth: nat,
      sem: Semantics, oldValid: Validity, newValid: Validity)
    requires depth <= MAX_COMPARE_DEPTH + 1
    requires Quiet(role, Changes(scope, oldRaw, newRaw, pointer, depth)) && InFragment(role, scope, oldRaw, newRaw, depth)
    requires Models(scope.oldReg, sem, oldValid) && Models(scope.newReg, sem, newValid)
    ensures Compatible(role, scope, oldRaw, newRaw, oldValid, newValid)
    decreases MAX_COMPARE_DEPTH + 1 - depth
  {
    hide Models, Accepts, Quiet, QuietNode, InFragment, NodeFits, Changes, ResolvePair, Compatible, Implies, IsOpaque;
    var r := ResolvePair(scope, oldRaw, newRaw, pointer, depth);
    if r.Ended? {
      EndedChanges(role, scope, oldRaw, newRaw, pointer, depth);
      EndedQuietly(role, scope, oldRaw, newRaw, pointer, depth, sem, oldValid, newValid);
    } else {
      var o, n, inner := r.older, r.newer, r.scope;
      PairOfNodes(role, scope, oldRaw, newRaw, pointer, depth);
      ResolutionKeepsMeaning(scope, oldRaw, newRaw, pointer, depth, sem, oldValid, newValid);
      var co: (Schema, Instance) -> bool, cn: (Schema, Instance) -> bool :=
        (c, w) => oldValid(inner.oldBase, c, w), (c, w) => newValid(inner.newBase, c, w);
      forall slot | Has(o, slot) && Has(n, slot)
        ensures Compatible(role, inner, At(o, slot), At(n, slot), oldValid, newValid)
      {
        if !IsCompared(slot) {
          UncomparedMeansSame(role, inner, o, n, slot, pointer, depth, sem, oldValid, newValid);
          SameIsCompatible(role, inner, At(o, slot), At(n, slot), oldValid, newValid);
        } else {
          ChildIsQuiet(role, inner, o, n, slot, pointer, depth);
          DifferSound(role, inner, At(o, slot), At(n, slot), pointer + [slot], depth + 1, sem, oldValid, newValid);
        }
      }
      SlotsImply(role, inner, o, n, oldValid, newValid, co, cn);
      BranchesSettle(role, inner, o, n, sem, oldValid, newValid, co, cn);
      NodesCompatible(role, inner, o, n, pointer, depth, sem, co, cn);
      CompatibleByNodes(role, scope, oldRaw, newRaw, sem, o, n, co, cn, oldValid, newValid);
    }
  }

  lemma PairOfNodes(role: Role, scope: Scope, oldRaw: Schema, newRaw: Schema, pointer: Pointer, depth: nat)
    requires depth <= MAX_COMPARE_DEPTH + 1 && ResolvePair(scope, oldRaw, newRaw, pointer, depth).Pair?
    requires Quiet(role, Changes(scope, oldRaw, newRaw, pointer, depth)) && InFragment(role, scope, oldRaw, newRaw, depth)
    ensures var r := ResolvePair(scope, oldRaw, newRaw, pointer, depth);
            && QuietNode(role, r.scope, r.older, r.newer, pointer, depth)
            && NodeFits(role, r.older, r.newer)
            && forall slot :: Has(r.older, slot) && Has(r.newer, slot) && IsCompared(slot) ==>
                 InFragment(role, r.scope, At(r.older, slot), At(r.newer, slot), depth + 1)
  {
    hide Quiet, NodeFits, FirstParts;
  }

  lemma ChildIsQuiet(role: Role, scope: Scope, o: Schema, n: Schema, slot: Slot, pointer: Pointer, depth: nat)
    requires o.ObjectSchema? && n.ObjectSchema? && depth <= MAX_COMPARE_DEPTH
    requires QuietNode(role, scope, o, n, pointer, depth)
    requires Has(o, slot) && Has(n, slot) && IsCompared(slot)
    ensures Quiet(role, Changes(scope, At(o, slot), At(n, slot), pointer + [slot], depth + 1))
  {
    QuietSlots(role, scope, o, n, slot, pointer, depth);
    hide Quiet, Changes, QuietNode;
  }

  /** Positions are compared by text and the rest not at all, so their meaning must not depend on the tree. */
  lemma UncomparedMeansSame(role: Role, scope: Scope, o: Schema, n: Schema, slot: Slot, pointer: Pointer, depth: nat,
                          sem: Semantics, oldValid: Validity, newValid: Validity)
    requires o.ObjectSchema? && n.ObjectSchema? && depth <= MAX_COMPARE_DEPTH
    requires QuietNode(role, scope, o, n, pointer, depth) && NodeFits(role, o, n)
    requires Has(o, slot) && Has(n, slot) && !IsCompared(slot)
    requires Models(scope.oldReg, sem, oldValid) && Models(scope.newReg, sem, newValid)
    ensures forall w :: oldValid(scope.oldBase, At(o, slot), w) <==> newValid(scope.newBase, At(n, slot), w)
  {
    QuietKeywords(role, scope, o, n, pointer, depth);
    QuietItems(role, if role.Response? then Widened else Narrowed, o.items, n.items, pointer);
    assert RefFree(At(o, slot)) && At(o, slot) == At(n, slot);
    hide RefFree, Models, QuietNode, Quiet;
    SameInBothTrees(scope, At(o, slot), sem, oldValid, newValid);
  }

  /** What a `oneOf` needs: both sides of each branch accept the same. */
  ghost predicate BranchesAgree(o: Schema, n: Schema, co: (Schema, Instance) -> bool, cn: (Schema, Instance) -> bool) {
    forall slot: Slot :: slot.Branch? && slot.combinator.OneOf? && Has(o, slot) && Has(n, slot) ==>
      Implies(At(o, slot), co, At(n, slot), cn) && Implies(At(n, slot), cn, At(o, slot), co)
  }

  /** Under the role that watches both directions the branches agree anyway, under the others they are settled. */
  lemma BranchesSettle(role: Role, scope: Scope, o: Schema, n: Schema, sem: Semantics, oldValid: Validity, newValid: Validity,
                       co: (Schema, Instance) -> bool, cn: (Schema, Instance) -> bool)
    requires o.ObjectSchema? && n.ObjectSchema? && NodeFits(role, o, n)
    requires Models(scope.oldReg, sem, oldValid) && Models(scope.newReg, sem, newValid)
    requires forall c, w :: co(c, w) <==> oldValid(scope.oldBase, c, w)
    requires forall c, w :: cn(c, w) <==> newValid(scope.newBase, c, w)
    requires forall slot :: Has(o, slot) && Has(n, slot) && !role.Response? ==> Implies(At(o, slot), co, At(n, slot), cn)
    requires forall slot :: Has(o, slot) && Has(n, slot) && !role.Request? ==> Implies(At(n, slot), cn, At(o, slot), co)
    ensures BranchesAgree(o, n, co, cn)
  {
    hide Models, RefFree, Fits, Implies;
    if !role.Conservative? {
      forall slot: Slot | slot.Branch? && slot.combinator.OneOf? && Has(o, slot) && Has(n, slot)
        ensures Implies(At(o, slot), co, At(n, slot), cn) && Implies(At(n, slot), cn, At(o, slot), co)
      {
        SettledMeansSame(scope, At(o, slot), sem, oldValid, newValid, co, cn);
      }
    }
  }

  lemma SettledMeansSame(scope: Scope, c: Schema, sem: Semantics, oldValid: Validity, newValid: Validity,
                         co: (Schema, Instance) -> bool, cn: (Schema, Instance) -> bool)
    requires RefFree(c) && Models(scope.oldReg, sem, oldValid) && Models(scope.newReg, sem, newValid)
    requires forall c, w :: co(c, w) <==> oldValid(scope.oldBase, c, w)
    requires forall c, w :: cn(c, w) <==> newValid(scope.newBase, c, w)
    ensures Implies(c, co, c, cn) && Implies(c, cn, c, co)
  {
    SameInBothTrees(scope, c, sem, oldValid, newValid);
    hide Models, RefFree;
  }

  lemma NodesCompatible(role: Role, scope: Scope, o: Schema, n: Schema, pointer: Pointer, depth: nat, sem: Semantics,
                        co: (Schema, Instance) -> bool, cn: (Schema, Instance) -> bool)
    requires o.ObjectSchema? && n.ObjectSchema? && depth <= MAX_COMPARE_DEPTH
    requires QuietNode(role, scope, o, n, pointer, depth) && NodeFits(role, o, n) && BranchesAgree(o, n, co, cn)
    requires forall slot :: Has(o, slot) && Has(n, slot) && !role.Response? ==> Implies(At(o, slot), co, At(n, slot), cn)
    requires forall slot :: Has(o, slot) && Has(n, slot) && !role.Request? ==> Implies(At(n, slot), cn, At(o, slot), co)
    ensures !role.Response? ==> forall v :: Accepts(sem, o, co, v) ==> Accepts(sem, n, cn, v)
    ensures !role.Request? ==> forall v :: Accepts(sem, n, cn, v) ==> Accepts(sem, o, co, v)
  {
    hide QuietNode, Accepts, Implies, NodeFits, ChildrenLooser, OneOfAgrees, Has;
    if !role.Response? {
      forall v | Accepts(sem, o, co, v) ensures Accepts(sem, n, cn, v) {
        ImpliedPasses(n, o, cn, co, v);
        OneOfImpliedAgrees(n, o, cn, co, v);
        NodePasses(role, Narrowed, scope, o, n, pointer, depth, sem, co, cn, v);
      }
    }
    if !role.Request? {
      forall v | Accepts(sem, n, cn, v) ensures Accepts(sem, o, co, v) {
        ImpliedPasses(o, n, co, cn, v);
        OneOfImpliedAgrees(o, n, co, cn, v);
        NodePasses(role, Widened, scope, o, n, pointer, depth, sem, co, cn, v);
      }
    }
  }

  lemma EndedChanges(role: Role, scope: Scope, oldRaw: Schema, newRaw: Schema, pointer: Pointer, depth: nat)
    requires depth <= MAX_COMPARE_DEPTH + 1 && ResolvePair(scope, oldRaw, newRaw, pointer, depth).Ended?
    ensures Changes(scope, oldRaw, newRaw, pointer, depth) == ResolvePair(scope, oldRaw, newRaw, pointer, depth).changes
    ensures InFragment(role, scope, oldRaw, newRaw, depth) ==> !IsOpaque(scope.oldReg, oldRaw, scope.oldBase, scope.oldVisited)
  {
    hide IsOpaque;
  }

  lemma SameIsCompatible(role: Role, scope: Scope, a: Schema, b: Schema, oldValid: Validity, newValid: Validity)
    requires forall w :: oldValid(scope.oldBase, a, w) <==> newValid(scope.newBase, b, w)
    ensures Compatible(role, scope, a, b, oldValid, newValid)
  {
  }

  lemma SlotsImply(role: Role, scope: Scope, o: Schema, n: Schema, oldValid: Validity, newValid: Validity,
                   co: (Schema, Instance) -> bool, cn: (Schema, Instance) -> bool)
    requires o.ObjectSchema? && n.ObjectSchema?
    requires forall slot :: Has(o, slot) && Has(n, slot) ==>
               Compatible(role, scope, At(o, slot), At(n, slot), oldValid, newValid)
    requires forall c, w :: co(c, w) <==> oldValid(scope.oldBase, c, w)
    requires forall c, w :: cn(c, w) <==> newValid(scope.newBase, c, w)
    ensures forall slot :: Has(o, slot) && Has(n, slot) && !role.Response? ==> Implies(At(o, slot), co, At(n, slot), cn)
    ensures forall slot :: Has(o, slot) && Has(n, slot) && !role.Request? ==> Implies(At(n, slot), cn, At(o, slot), co)
  {
    hide Has, At;
  }

  /** Nodes that agree give the fragments they were resolved from the same verdict. */
  lemma CompatibleByNodes(role: Role, scope: Scope, oldRaw: Schema, newRaw: Schema, sem: Semantics, o: Schema, n: Schema,
                          co: (Schema, Instance) -> bool, cn: (Schema, Instance) -> bool, oldValid: Validity, newValid: Validity)
    requires o.ObjectSchema? && n.ObjectSchema?
    requires forall v :: oldValid(scope.oldBase, oldRaw, v) <==> Accepts(sem, o, co, v)
    requires forall v :: newValid(scope.newBase, newRaw, v) <==> Accepts(sem, n, cn, v)
    requires !role.Response? ==> forall v :: Accepts(sem, o, co, v) ==> Accepts(sem, n, cn, v)
    requires !role.Request? ==> forall v :: Accepts(sem, n, cn, v) ==> Accepts(sem, o, co, v)
    ensures Compatible(role, scope, oldRaw, newRaw, oldValid, newValid)
  {
    hide Accepts;
  }

  /** The same, of the findings the comparator appends. */
  lemma SilentReportIsSound(
      role: Role, scope: Scope, oldRaw: Schema, newRaw: Schema, findings: seq<Finding>,
      sem: Semantics, oldValid: Validity, newValid: Validity)
    requires findings == Graded(role, Changes(scope, oldRaw, newRaw, [], 0)) && InFragment(role, scope, oldRaw, newRaw, 0)
    requires forall f :: f in findings ==> f.severity == Info && !IsStop(f.rule)
    requires Models(scope.oldReg, sem, oldValid) && Models(scope.newReg, sem, newValid)
    ensures Compatible(role, scope, oldRaw, newRaw, oldValid, newValid)
  {
    hide Changes, Models, InFragment, Compatible;
    var cs := Changes(scope, oldRaw, newRaw, [], 0);
    forall c | c in cs ensures SeverityFor(role, c.effect) == Info && !IsStop(c.rule) {
      var i :| 0 <= i < |cs| && cs[i] == c;
      assert findings[i] == Grade(role, c) && findings[i] in findings;
    }
    DifferSound(role, scope, oldRaw, newRaw, [], 0, sem, oldValid, newValid);
  }
}
