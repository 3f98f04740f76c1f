/** The structural comparator of `scripts/breaking_schema_check.py`. */
module SchemaDiffer {
  // What changed between two schemas does not depend on the role; `Changes` says that, and the
  // comparator is shown to append exactly those changes, graded for its role, to the shared list
  // of findings.

  import opened Outcomes
  import opened Sorting
  import opened JsonSchema

  const MAX_COMPARE_DEPTH: nat := 60

  datatype Role = Request | Response | Conservative

  datatype Severity = Breaking | Info

  datatype Rule =
    | DepthLimit
    | UnresolvedRef
    | LeafChanged
    | CyclicRef
    | TypeRule
    | EnumRule
    | AdditionalPropertiesRule
    | PatternRule
    | MaxRule(q: Quantity)
    | MinRule(q: Quantity)
    | RequiredRule
    | Removed
    | Added
    | ItemsRule
    | ItemsStructureChanged
    | ShapeChanged
    | BranchCountChanged
    | CombinatorAdded
    | CombinatorRemoved

  /** The rules that say comparison ended here. */
  predicate IsStop(rule: Rule) {
    rule.DepthLimit? || rule.LeafChanged? || rule.CyclicRef? || rule.ItemsStructureChanged?
  }

  /** Narrowed: the new side accepts less.  Widened: it accepts more.  The rest is graded alike for every role. */
  datatype Effect = Narrowed | Widened | AlwaysBreaking | Informational

  /** What a finding is about, beyond its keyword. */
  datatype Subject = Keyword | Names(names: set<Text>) | WholeConstraint

  type Pointer = seq<Slot>

  datatype Change = Change(pointer: Pointer, rule: Rule, effect: Effect, subject: Subject)

  datatype Finding = Finding(pointer: Pointer, rule: Rule, severity: Severity, role: Role, subject: Subject)

  /** The role matrix. */
  function SeverityFor(role: Role, effect: Effect): Severity {
    match effect
    case AlwaysBreaking => Breaking
    case Informational => Info
    case Narrowed => if role.Response? then Info else Breaking
    case Widened => if role.Request? then Info else Breaking
  }

  function Grade(role: Role, c: Change): Finding {
    Finding(c.pointer, c.rule, SeverityFor(role, c.effect), role, c.subject)
  }

  function Graded(role: Role, cs: seq<Change>): seq<Finding> {
    seq(|cs|, i requires 0 <= i < |cs| => Grade(role, cs[i]))
  }

  /** Everything a comparison carries down: bases and visited refs after resolution. */
  datatype Scope = Scope(
    oldBase: Text, newBase: Text,
    oldReg: Registry, newReg: Registry,
    oldVisited: set<Key>, newVisited: set<Key>)

  // ----- what changed

  datatype Resolution = Ended(changes: seq<Change>) | Pair(older: Schema, newer: Schema, scope: Scope)

  function ResolvePair(scope: Scope, oldRaw: Schema, newRaw: Schema, pointer: Pointer, depth: nat): (r: Resolution)
    ensures r.Pair? ==> r.older.ObjectSchema? && r.newer.ObjectSchema? && depth <= MAX_COMPARE_DEPTH
  {
    var older := DerefFrom(scope.oldReg, oldRaw, scope.oldBase, scope.oldVisited, 0);
    var newer := DerefFrom(scope.newReg, newRaw, scope.newBase, scope.newVisited, 0);
    if depth > MAX_COMPARE_DEPTH then Ended([Change(pointer, DepthLimit, Informational, Keyword)])
    else if older.Unresolved? || newer.Unresolved? then Ended([Change(pointer, UnresolvedRef, AlwaysBreaking, Keyword)])
    else if IsText(older.node) || IsText(newer.node) then
      Ended(if older.node != newer.node then [Change(pointer, LeafChanged, Informational, Keyword)] else [])
    else if older.cyclic || newer.cyclic then Ended([Change(pointer, CyclicRef, Informational, Keyword)])
    else if !older.node.ObjectSchema? || !newer.node.ObjectSchema? then Ended([])
    else Pair(older.node, newer.node,
              scope.(oldBase := older.base, newBase := newer.base, oldVisited := older.visited, newVisited := newer.visited))
  }

  function Difference(a: Option<set<Text>>, b: Option<set<Text>>): set<Text> {
    (if a.Some? then a.value else {}) - (if b.Some? then b.value else {})
  }

  function SetChange(pointer: Pointer, rule: Rule, effect: Effect, whole: bool, names: set<Text>): seq<Change> {
    if whole then [Change(pointer, rule, effect, WholeConstraint)]
    else if names != {} then [Change(pointer, rule, effect, Names(names))]
    else []
  }

  /** Introducing `type` narrows, dropping it widens. */
  function TypeChanges(older: Option<set<Text>>, newer: Option<set<Text>>, pointer: Pointer): seq<Change> {
    if older == newer then []
    else
      SetChange(pointer, TypeRule, Narrowed, older.None? && newer.Some?, Difference(older, newer))
      + SetChange(pointer, TypeRule, Widened, newer.None? && older.Some?, Difference(newer, older))
  }

  /** For `enum` it is the other way round: dropping it counts as removing members. */
  function EnumChanges(older: Option<set<Text>>, newer: Option<set<Text>>, pointer: Pointer): seq<Change> {
    if older == newer then []
    else
      SetChange(pointer, EnumRule, Narrowed, older.Some? && newer.None?, Difference(older, newer))
      + SetChange(pointer, EnumRule, Widened, newer.Some? && older.None?, Difference(newer, older))
  }

  /** 0 open, 1 constrained map, 2 closed. */
  function ClosednessRank(a: Additional): nat {
    match a
    case Closed => 2
    case Values(_) => 1
    case Open => 0
  }

  function RankChanges(older: Additional, newer: Additional, pointer: Pointer): seq<Change> {
    var o, n := ClosednessRank(older), ClosednessRank(newer);
    if o == n then []
    else [Change(pointer, AdditionalPropertiesRule, if n > o then Narrowed else Widened, Keyword)]
  }

  /** A rewritten pattern counts as narrowed. */
  function PatternChanges(older: Option<Text>, newer: Option<Text>, pointer: Pointer): seq<Change> {
    if older == newer then []
    else [Change(pointer, PatternRule, if newer.Some? then Narrowed else Widened, Keyword)]
  }

  const QUANTITIES: seq<Quantity> := [Length, Magnitude, ItemCount, MemberCount]

  predicate Below(a: Option<real>, b: Option<real>) {
    a.Some? && (b.None? || a.value < b.value)
  }

  function Bound(m: map<Quantity, real>, q: Quantity): Option<real> {
    if q in m then Some(m[q]) else None
  }

  /** An absent upper bound is infinite. */
  function MaxChange(older: map<Quantity, real>, newer: map<Quantity, real>, q: Quantity, pointer: Pointer): seq<Change> {
    if Below(Bound(newer, q), Bound(older, q)) then [Change(pointer, MaxRule(q), Narrowed, Keyword)]
    else if Below(Bound(older, q), Bound(newer, q)) then [Change(pointer, MaxRule(q), Widened, Keyword)]
    else []
  }

  predicate Above(a: Option<real>, b: Option<real>) {
    a.Some? && (b.None? || a.value > b.value)
  }

  /** An absent lower bound is minus infinity. */
  function MinChange(older: map<Quantity, real>, newer: map<Quantity, real>, q: Quantity, pointer: Pointer): seq<Change> {
    if Above(Bound(newer, q), Bound(older, q)) then [Change(pointer, MinRule(q), Narrowed, Keyword)]
    else if Above(Bound(older, q), Bound(newer, q)) then [Change(pointer, MinRule(q), Widened, Keyword)]
    else []
  }

  function MaxChanges(older: map<Quantity, real>, newer: map<Quantity, real>, qs: seq<Quantity>, pointer: Pointer): seq<Change> {
    if qs == [] then [] else MaxChanges(older, newer, qs[..|qs| - 1], pointer) + MaxChange(older, newer, qs[|qs| - 1], pointer)
  }

  function MinChanges(older: map<Quantity, real>, newer: map<Quantity, real>, qs: seq<Quantity>, pointer: Pointer): seq<Change> {
    if qs == [] then [] else MinChanges(older, newer, qs[..|qs| - 1], pointer) + MinChange(older, newer, qs[|qs| - 1], pointer)
  }

  function NameChanges(names: seq<Text>, rule: Rule, effect: Effect, pointer: Pointer): seq<Change> {
    seq(|names|, i requires 0 <= i < |names| => Change(pointer, rule, effect, Names({names[i]})))
  }

  ghost function RequiredChanges(older: set<Text>, newer: set<Text>, pointer: Pointer): seq<Change> {
    NameChanges(SortedTexts(newer - older), RequiredRule, Narrowed, pointer)
    + NameChanges(SortedTexts(older - newer), RequiredRule, Widened, pointer)
  }

  function ItemsChanges(older: Items, newer: Items, pointer: Pointer): seq<Change> {
    if older.One? && newer.One? then []
    else if older.NoItems? && newer.One? then [Change(pointer + [Element], ItemsRule, Narrowed, Keyword)]
    else if older.One? && newer.NoItems? then [Change(pointer + [Element], ItemsRule, Widened, Keyword)]
    else if older != newer then [Change(pointer + [Element], ItemsStructureChanged, Informational, Keyword)]
    else []
  }

  function CombinatorChanges(older: Combinator, newer: Combinator, name: CombinatorName, pointer: Pointer): seq<Change> {
    var at := pointer + [Whole(name)];
    if older.NoCombinator? && newer.NoCombinator? then []
    else if older.NoCombinator? && newer.Branches? then
      [Change(at, CombinatorAdded, if name.AllOf? && newer.branches == [] then Informational else Narrowed, Keyword)]
    else if older.Branches? && newer.NoCombinator? then
      [Change(at, CombinatorRemoved, if name.AllOf? && older.branches == [] then Informational else Widened, Keyword)]
    else if !older.Branches? || !newer.Branches? then [Change(at, ShapeChanged, AlwaysBreaking, Keyword)]
    else if |older.branches| != |newer.branches| then [Change(at, BranchCountChanged, AlwaysBreaking, Keyword)]
    else []
  }

  /** A property or pattern present on one side only; the rank is the other side's. */
  function RemovedChange(slot: Slot, newRank: nat, pointer: Pointer): Change {
    Change(pointer + [slot], Removed,
           if newRank >= 1 then Narrowed else if slot.PatternProperty? then Widened else Informational, Keyword)
  }

  function AddedChange(slot: Slot, oldRank: nat, pointer: Pointer): Change {
    Change(pointer + [slot], Added, if oldRank >= 1 then Widened else Informational, Keyword)
  }

  /** Subschemas compared one after another; a slot only one side has is a change itself. */
  ghost function SlotChanges(scope: Scope, older: Schema, newer: Schema, slots: seq<Slot>, pointer: Pointer, depth: nat): seq<Change>
    requires older.ObjectSchema? && newer.ObjectSchema? && depth <= MAX_COMPARE_DEPTH
    decreases MAX_COMPARE_DEPTH + 1 - depth, 0, |slots|
  {
    if slots == [] then []
    else
      var slot := slots[|slots| - 1];
      SlotChanges(scope, older, newer, slots[..|slots| - 1], pointer, depth)
      + OneSlotChanges(scope, older, newer, slot, pointer, depth)
  }

  ghost function OneSlotChanges(scope: Scope, older: Schema, newer: Schema, slot: Slot, pointer: Pointer, depth: nat): seq<Change>
    requires older.ObjectSchema? && newer.ObjectSchema? && depth <= MAX_COMPARE_DEPTH
    decreases MAX_COMPARE_DEPTH + 1 - depth, 0, 0
  {
    if Has(older, slot) && Has(newer, slot) then
      Changes(scope, At(older, slot), At(newer, slot), pointer + [slot], depth + 1)
    else if Has(older, slot) then [RemovedChange(slot, ClosednessRank(newer.additional), pointer)]
    else if Has(newer, slot) then [AddedChange(slot, ClosednessRank(older.additional), pointer)]
    else []
  }

  function AsProperties(names: seq<Text>): seq<Slot> {
    seq(|names|, i requires 0 <= i < |names| => Property(names[i]))
  }

  function AsPatterns(names: seq<Text>): seq<Slot> {
    seq(|names|, i requires 0 <= i < |names| => PatternProperty(names[i]))
  }

  function BranchSlots(name: CombinatorName, n: nat): seq<Slot> {
    seq(n, i requires 0 <= i < n => Branch(name, i))
  }

  /** Every name of either side, sorted. */
  ghost function PropertySlots(older: Schema, newer: Schema): seq<Slot>
    requires older.ObjectSchema? && newer.ObjectSchema?
  {
    AsProperties(SortedTexts(older.properties.Keys + newer.properties.Keys))
  }

  ghost function PatternSlots(older: Schema, newer: Schema): seq<Slot>
    requires older.ObjectSchema? && newer.ObjectSchema?
  {
    AsPatterns(SortedTexts(older.patternProperties.Keys + newer.patternProperties.Keys))
  }

  /** Slots compared only when both sides have them. */
  function SharedSlot(older: Schema, newer: Schema, slot: Slot): seq<Slot> {
    if Has(older, slot) && Has(newer, slot) then [slot] else []
  }

  function SharedBranches(older: Combinator, newer: Combinator, name: CombinatorName): seq<Slot> {
    if older.Branches? && newer.Branches? && |older.branches| == |newer.branches|
    then BranchSlots(name, |older.branches|) else []
  }

  /** One combinator: its own change, or its branches by position. */
  ghost function CombinatorPart(scope: Scope, older: Schema, newer: Schema, name: CombinatorName, pointer: Pointer, depth: nat): seq<Change>
    requires older.ObjectSchema? && newer.ObjectSchema? && depth <= MAX_COMPARE_DEPTH
    decreases MAX_COMPARE_DEPTH + 1 - depth, 1, 0
  {
    var o, n := CombinatorOf(older, name), CombinatorOf(newer, name);
    CombinatorChanges(o, n, name, pointer)
    + SlotChanges(scope, older, newer, SharedBranches(o, n, name), pointer, depth)
  }

  /** `additionalProperties`: how closed, then the two value schemas. */
  ghost function ExtrasPart(scope: Scope, older: Schema, newer: Schema, pointer: Pointer, depth: nat): seq<Change>
    requires older.ObjectSchema? && newer.ObjectSchema? && depth <= MAX_COMPARE_DEPTH
    decreases MAX_COMPARE_DEPTH + 1 - depth, 1, 0
  {
    RankChanges(older.additional, newer.additional, pointer)
    + SlotChanges(scope, older, newer, SharedSlot(older, newer, Extras), pointer, depth)
  }

  ghost function ItemsPart(scope: Scope, older: Schema, newer: Schema, pointer: Pointer, depth: nat): seq<Change>
    requires older.ObjectSchema? && newer.ObjectSchema? && depth <= MAX_COMPARE_DEPTH
    decreases MAX_COMPARE_DEPTH + 1 - depth, 1, 0
  {
    ItemsChanges(older.items, newer.items, pointer)
    + SlotChanges(scope, older, newer, SharedSlot(older, newer, Element), pointer, depth)
  }

  /** The parts of a node's changes, in the order they are reported. */
  ghost function Part(scope: Scope, older: Schema, newer: Schema, k: nat, pointer: Pointer, depth: nat): seq<Change>
    requires older.ObjectSchema? && newer.ObjectSchema? && depth <= MAX_COMPARE_DEPTH
    decreases MAX_COMPARE_DEPTH + 1 - depth, 2, 0
  {
    if k == 0 then TypeChanges(older.types, newer.types, pointer)
    else if k == 1 then EnumChanges(older.enum, newer.enum, pointer)
    else if k == 2 then ExtrasPart(scope, older, newer, pointer, depth)
    else if k == 3 then PatternChanges(older.pattern, newer.pattern, pointer)
    else if k == 4 then MaxChanges(older.max, newer.max, QUANTITIES, pointer)
    else if k == 5 then MinChanges(older.min, newer.min, QUANTITIES, pointer)
    else if k == 6 then RequiredChanges(older.required, newer.required, pointer)
    else if k == 7 then SlotChanges(scope, older, newer, PropertySlots(older, newer), pointer, depth)
    else if k == 8 then SlotChanges(scope, older, newer, PatternSlots(older, newer), pointer, depth)
    else if k == 9 then ItemsPart(scope, older, newer, pointer, depth)
    else if k == 10 then CombinatorPart(scope, older, newer, OneOf, pointer, depth)
    else if k == 11 then CombinatorPart(scope, older, newer, AnyOf, pointer, depth)
    else if k == 12 then CombinatorPart(scope, older, newer, AllOf, pointer, depth)
    else []
  }

  const PARTS: nat := 13

  ghost function FirstParts(scope: Scope, older: Schema, newer: Schema, k: nat, pointer: Pointer, depth: nat): seq<Change>
    requires older.ObjectSchema? && newer.ObjectSchema? && depth <= MAX_COMPARE_DEPTH
    decreases MAX_COMPARE_DEPTH + 1 - depth, 3, k
  {
    if k == 0 then []
    else FirstParts(scope, older, newer, k - 1, pointer, depth) + Part(scope, older, newer, k - 1, pointer, depth)
  }

  /** All changes between two schema fragments, whatever the role. */
  ghost function Changes(scope: Scope, oldRaw: Schema, newRaw: Schema, pointer: Pointer, depth: nat): seq<Change>
    requires depth <= MAX_COMPARE_DEPTH + 1
    decreases MAX_COMPARE_DEPTH + 1 - depth, 4, 0
  {
    match ResolvePair(scope, oldRaw, newRaw, pointer, depth)
    case Ended(changes) => changes
    case Pair(older, newer, inner) => FirstParts(inner, older, newer, PARTS, pointer, depth)
  }

  /** A list of findings after the graded changes were appended to it. */
  function Appended(fs: seq<Finding>, role: Role, cs: seq<Change>): seq<Finding> {
    fs + Graded(role, cs)
  }

  // ----- the comparator

  lemma {:induction false} DerefEnds(reg: Registry, node: Schema, base: Text, visited: set<Key>, hops: nat)
    requires hops <= MAX_HOPS && DerefFrom(reg, node, base, visited, hops).Dereferenced?
    ensures !DerefFrom(reg, node, base, visited, hops).cyclic ==> !DerefFrom(reg, node, base, visited, hops).node.RefSchema?
    decreases MAX_HOPS - hops
  {
    if node.RefSchema? && hops < MAX_HOPS {
      var key := reg.split(base, node.target);
      if key !in visited {
        DerefEnds(reg, reg.contents[key], key.doc, visited + {key}, hops + 1);
      }
    }
  }

  /** Appending one more part to a list that already has the parts before it. */
  lemma NextPart(start: seq<Finding>, role: Role, scope: Scope, o: Schema, n: Schema, k: nat, pointer: Pointer, depth: nat)
    requires o.ObjectSchema? && n.ObjectSchema? && depth <= MAX_COMPARE_DEPTH
    ensures Appended(Appended(start, role, FirstParts(scope, o, n, k, pointer, depth)), role, Part(scope, o, n, k, pointer, depth))
         == Appended(start, role, FirstParts(scope, o, n, k + 1, pointer, depth))
  {
    hide Part;
    GradedAdds(role, FirstParts(scope, o, n, k, pointer, depth), Part(scope, o, n, k, pointer, depth));
  }

  lemma NoPartsYet(start: seq<Finding>, role: Role, scope: Scope, o: Schema, n: Schema, pointer: Pointer, depth: nat)
    requires o.ObjectSchema? && n.ObjectSchema? && depth <= MAX_COMPARE_DEPTH
    ensures start == Appended(start, role, FirstParts(scope, o, n, 0, pointer, depth))
  {
  }

  lemma AppendedTwice(fs: seq<Finding>, role: Role, a: seq<Change>, b: seq<Change>)
    ensures Appended(Appended(fs, role, a), role, b) == Appended(fs, role, a + b)
  {
    GradedAdds(role, a, b);
  }

  /** Nothing found, nothing appended. */
  lemma NothingAppended(fs: seq<Finding>, role: Role)
    ensures Appended(fs, role, []) == fs
  {
  }

  lemma OneAppended(fs: seq<Finding>, role: Role, at: Pointer, rule: Rule, effect: Effect)
    ensures Appended(fs, role, [Change(at, rule, effect, Keyword)])
         == fs + [Finding(at, rule, SeverityFor(role, effect), role, Keyword)]
  {
  }

  lemma CombinatorPartCases(scope: Scope, o: Schema, n: Schema, name: CombinatorName, pointer: Pointer, depth: nat)
    requires o.ObjectSchema? && n.ObjectSchema? && depth <= MAX_COMPARE_DEPTH
    ensures var a, b := CombinatorOf(o, name), CombinatorOf(n, name);
            if a.Branches? && b.Branches? && |a.branches| == |b.branches|
            then CombinatorPart(scope, o, n, name, pointer, depth)
              == SlotChanges(scope, o, n, BranchSlots(name, |a.branches|), pointer, depth)
            else CombinatorPart(scope, o, n, name, pointer, depth) == CombinatorChanges(a, b, name, pointer)
  {
    hide SlotChanges;
    NoSlotsNoChanges(scope, o, n, pointer, depth);
  }

  lemma NoSlotsNoChanges(scope: Scope, o: Schema, n: Schema, pointer: Pointer, depth: nat)
    requires o.ObjectSchema? && n.ObjectSchema? && depth <= MAX_COMPARE_DEPTH
    ensures SlotChanges(scope, o, n, [], pointer, depth) == []
  {
  }

  lemma SharedSlotChanges(scope: Scope, o: Schema, n: Schema, slot: Slot, pointer: Pointer, depth: nat)
    requires o.ObjectSchema? && n.ObjectSchema? && depth <= MAX_COMPARE_DEPTH
    ensures SlotChanges(scope, o, n, SharedSlot(o, n, slot), pointer, depth)
         == if Has(o, slot) && Has(n, slot) then Changes(scope, At(o, slot), At(n, slot), pointer + [slot], depth + 1) else []
  {
    hide Changes;
    assert [slot][..0] == [];
    assert SlotChanges(scope, o, n, [slot][..0], pointer, depth) == [];
  }

  lemma GradedAdds(role: Role, a: seq<Change>, b: seq<Change>)
    ensures Graded(role, a + b) == Graded(role, a) + Graded(role, b)
  {
  }

  /** The list of findings every comparator appends to. */
  class Report {
    var findings: seq<Finding>

    constructor ()
      ensures findings == []
    {
      findings := [];
    }

    method Emit(role: Role, pointer: Pointer, rule: Rule, severity: Severity, subject: Subject)
      modifies this
      ensures findings == old(findings) + [Finding(pointer, rule, severity, role, subject)]
    {
      findings := findings + [Finding(pointer, rule, severity, role, subject)];
    }

    /** `_keyword_finding`: one keyword's change through the role's rule. */
    method EmitKeyword(role: Role, pointer: Pointer, rule: Rule, narrowed: bool, subject: Subject)
      modifies this
      ensures findings == Appended(old(findings), role, [Change(pointer, rule, if narrowed then Narrowed else Widened, subject)])
    {
      var severity := Breaking;
      if role.Request? {
        severity := if narrowed then Breaking else Info;
      } else if role.Response? {
        severity := if !narrowed then Breaking else Info;
      }
      Emit(role, pointer, rule, severity, subject);
    }

    method CompareSets(role: Role, pointer: Pointer, rule: Rule, narrowed: bool, whole: bool, names: set<Text>)
      modifies this
      ensures findings == Appended(old(findings), role, SetChange(pointer, rule, if narrowed then Narrowed else Widened, whole, names))
    {
      if whole {
        EmitKeyword(role, pointer, rule, narrowed, WholeConstraint);
      } else if names != {} {
        EmitKeyword(role, pointer, rule, narrowed, Names(names));
      }
    }

    /** `_compare_type`. */
    method CompareType(role: Role, pointer: Pointer, older: Option<set<Text>>, newer: Option<set<Text>>)
      modifies this
      ensures findings == Appended(old(findings), role, TypeChanges(older, newer, pointer))
    {
      if older == newer {
        return;
      }
      CompareSets(role, pointer, TypeRule, true, older.None? && newer.Some?, Difference(older, newer));
      CompareSets(role, pointer, TypeRule, false, newer.None? && older.Some?, Difference(newer, older));
    }

    /** `_compare_enum`. */
    method CompareEnum(role: Role, pointer: Pointer, older: Option<set<Text>>, newer: Option<set<Text>>)
      modifies this
      ensures findings == Appended(old(findings), role, EnumChanges(older, newer, pointer))
    {
      if older == newer {
        return;
      }
      CompareSets(role, pointer, EnumRule, true, older.Some? && newer.None?, Difference(older, newer));
      CompareSets(role, pointer, EnumRule, false, newer.Some? && older.None?, Difference(newer, older));
    }

    /** `_compare_additional_properties`, except the descent into two value schemas. */
    method CompareRank(role: Role, pointer: Pointer, older: Additional, newer: Additional)
      modifies this
      ensures findings == Appended(old(findings), role, RankChanges(older, newer, pointer))
    {
      var oldRank, newRank := ClosednessRank(older), ClosednessRank(newer);
      if oldRank != newRank {
        EmitKeyword(role, pointer, AdditionalPropertiesRule, newRank > oldRank, Keyword);
      }
    }

    /** `_compare_pattern`. */
    method ComparePattern(role: Role, pointer: Pointer, older: Option<Text>, newer: Option<Text>)
      modifies this
      ensures findings == Appended(old(findings), role, PatternChanges(older, newer, pointer))
    {
      if older == newer {
        return;
      }
      var narrowed := true;
      if older.Some? && newer.None? {
        narrowed := false;
      }
      EmitKeyword(role, pointer, PatternRule, narrowed, Keyword);
    }

    /** One pass of the loop of `_compare_max_bounds`. */
    method CompareMaxBound(role: Role, pointer: Pointer, older: map<Quantity, real>, newer: map<Quantity, real>, q: Quantity)
      modifies this
      ensures findings == Appended(old(findings), role, MaxChange(older, newer, q, pointer))
    {
      var o, n := Bound(older, q), Bound(newer, q);
      if o != n {
        if Below(n, o) {
          EmitKeyword(role, pointer, MaxRule(q), true, Keyword);
        } else if Below(o, n) {
          EmitKeyword(role, pointer, MaxRule(q), false, Keyword);
        }
      }
    }

    /** `_compare_max_bounds`. */
    method CompareMaxBounds(role: Role, pointer: Pointer, older: map<Quantity, real>, newer: map<Quantity, real>)
      modifies this
      ensures findings == Appended(old(findings), role, MaxChanges(older, newer, QUANTITIES, pointer))
    {
      NothingAppended(findings, role);
      hide Appended, MaxChange;
      for k := 0 to |QUANTITIES|
        invariant findings == Appended(old(findings), role, MaxChanges(older, newer, QUANTITIES[..k], pointer))
      {
        assert QUANTITIES[..k + 1][..k] == QUANTITIES[..k];
        CompareMaxBound(role, pointer, older, newer, QUANTITIES[k]);
        AppendedTwice(old(findings), role, MaxChanges(older, newer, QUANTITIES[..k], pointer),
                      MaxChange(older, newer, QUANTITIES[k], pointer));
      }
      assert QUANTITIES[..|QUANTITIES|] == QUANTITIES;
    }

    /** One pass of the loop of `_compare_min_bounds`. */
    method CompareMinBound(role: Role, pointer: Pointer, older: map<Quantity, real>, newer: map<Quantity, real>, q: Quantity)
      modifies this
      ensures findings == Appended(old(findings), role, MinChange(older, newer, q, pointer))
    {
      var o, n := Bound(older, q), Bound(newer, q);
      if o != n {
        if Above(n, o) {
          EmitKeyword(role, pointer, MinRule(q), true, Keyword);
        } else if Above(o, n) {
          EmitKeyword(role, pointer, MinRule(q), false, Keyword);
        }
      }
    }

    /** `_compare_min_bounds`. */
    method CompareMinBounds(role: Role, pointer: Pointer, older: map<Quantity, real>, newer: map<Quantity, real>)
      modifies this
      ensures findings == Appended(old(findings), role, MinChanges(older, newer, QUANTITIES, pointer))
    {
      NothingAppended(findings, role);
      hide Appended, MinChange;
      for k := 0 to |QUANTITIES|
        invariant findings == Appended(old(findings), role, MinChanges(older, newer, QUANTITIES[..k], pointer))
      {
        assert QUANTITIES[..k + 1][..k] == QUANTITIES[..k];
        CompareMinBound(role, pointer, older, newer, QUANTITIES[k]);
        AppendedTwice(old(findings), role, MinChanges(older, newer, QUANTITIES[..k], pointer),
                      MinChange(older, newer, QUANTITIES[k], pointer));
      }
      assert QUANTITIES[..|QUANTITIES|] == QUANTITIES;
    }

    method EmitNames(role: Role, pointer: Pointer, rule: Rule, narrowed: bool, names: seq<Text>)
      modifies this
      ensures findings == Appended(old(findings), role, NameChanges(names, rule, if narrowed then Narrowed else Widened, pointer))
    {
      var effect := if narrowed then Narrowed else Widened;
      for i := 0 to |names|
        invariant findings == Appended(old(findings), role, NameChanges(names[..i], rule, effect, pointer))
      {
        EmitKeyword(role, pointer, rule, narrowed, Names({names[i]}));
        assert NameChanges(names[..i + 1], rule, effect, pointer)
            == NameChanges(names[..i], rule, effect, pointer) + [Change(pointer, rule, effect, Names({names[i]}))];
        GradedAdds(role, NameChanges(names[..i], rule, effect, pointer), [Change(pointer, rule, effect, Names({names[i]}))]);
      }
      assert names[..|names|] == names;
    }

    /** `_compare_required`. */
    method CompareRequired(role: Role, pointer: Pointer, older: set<Text>, newer: set<Text>)
      modifies this
      ensures findings == Appended(old(findings), role, RequiredChanges(older, newer, pointer))
    {
      hide SortedTexts, NameChanges, Graded;
      var added := SortTexts(newer - older);
      EmitNames(role, pointer, RequiredRule, true, added);
      var dropped := SortTexts(older - newer);
      EmitNames(role, pointer, RequiredRule, false, dropped);
      GradedAdds(role, NameChanges(added, RequiredRule, Narrowed, pointer), NameChanges(dropped, RequiredRule, Widened, pointer));
    }

    /** `_compare_items`, except the descent into two element schemas. */
    method CompareItemShapes(role: Role, pointer: Pointer, older: Items, newer: Items)
      modifies this
      ensures findings == Appended(old(findings), role, ItemsChanges(older, newer, pointer))
    {
      var at := pointer + [Element];
      if older.One? && newer.One? {
      } else if older.NoItems? && newer.One? {
        EmitKeyword(role, at, ItemsRule, true, Keyword);
      } else if older.One? && newer.NoItems? {
        EmitKeyword(role, at, ItemsRule, false, Keyword);
      } else if older != newer && (!older.NoItems? || !newer.NoItems?) {
        Emit(role, at, ItemsStructureChanged, Info, Keyword);
      }
    }

    /** `_resolve_node_pair`: depth limit, both chains of refs, then the pairs that end here. */
    method ResolveNodePair(role: Role, scope: Scope, oldRaw: Schema, newRaw: Schema, pointer: Pointer, depth: nat)
      returns (r: Option<(Schema, Schema, Scope)>)
      modifies this
      ensures var e := ResolvePair(scope, oldRaw, newRaw, pointer, depth);
              && (e.Ended? ==> r == None && findings == Appended(old(findings), role, e.changes))
              && (e.Pair? ==> r == Some((e.older, e.newer, e.scope)) && findings == old(findings))
    {
      r := None;
      if depth > MAX_COMPARE_DEPTH {
        Emit(role, pointer, DepthLimit, Info, Keyword);
        return;
      }
      var o := Deref(scope.oldReg, oldRaw, scope.oldBase, scope.oldVisited);
      if o.Unresolved? {
        Emit(role, pointer, UnresolvedRef, Breaking, Keyword);
        return;
      }
      var n := Deref(scope.newReg, newRaw, scope.newBase, scope.newVisited);
      if n.Unresolved? {
        Emit(role, pointer, UnresolvedRef, Breaking, Keyword);
        return;
      }
      if IsText(o.node) || IsText(n.node) {
        if o.node != n.node {
          Emit(role, pointer, LeafChanged, Info, Keyword);
        }
        return;
      }
      if o.cyclic || n.cyclic {
        Emit(role, pointer, CyclicRef, Info, Keyword);
        return;
      }
      DerefEnds(scope.oldReg, oldRaw, scope.oldBase, scope.oldVisited, 0);
      DerefEnds(scope.newReg, newRaw, scope.newBase, scope.newVisited, 0);
      r := Some((o.node, n.node,
                 scope.(oldBase := o.base, newBase := n.base, oldVisited := o.visited, newVisited := n.visited)));
    }

    /** `_property_removed`, `_property_added` and their patternProperties mirrors. */
    method CompareOneSided(role: Role, older: Schema, newer: Schema, slot: Slot, pointer: Pointer)
      requires older.ObjectSchema? && newer.ObjectSchema? && Has(older, slot) != Has(newer, slot)
      modifies this
      ensures findings == Appended(old(findings), role,
                [if Has(older, slot) then RemovedChange(slot, ClosednessRank(newer.additional), pointer)
                 else AddedChange(slot, ClosednessRank(older.additional), pointer)])
    {
      var at := pointer + [slot];
      var oldRank, newRank := ClosednessRank(older.additional), ClosednessRank(newer.additional);
      if Has(older, slot) {
        if slot.PatternProperty? {
          EmitKeyword(role, at, Removed, newRank >= 1, Keyword);
        } else if newRank >= 1 {
          EmitKeyword(role, at, Removed, true, Keyword);
        } else {
          Emit(role, at, Removed, Info, Keyword);
        }
      } else if oldRank >= 1 {
        EmitKeyword(role, at, Added, false, Keyword);
      } else {
        Emit(role, at, Added, Info, Keyword);
      }
    }

    /** One loop over slots: the bodies of `_compare_properties`, `_compare_pattern_properties` and the branches. */
    method CompareSlots(role: Role, scope: Scope, older: Schema, newer: Schema, slots: seq<Slot>, pointer: Pointer, depth: nat)
      requires older.ObjectSchema? && newer.ObjectSchema? && depth <= MAX_COMPARE_DEPTH
      modifies this
      ensures findings == Appended(old(findings), role, SlotChanges(scope, older, newer, slots, pointer, depth))
      decreases MAX_COMPARE_DEPTH + 1 - depth, 0
    {
      NothingAppended(findings, role);
      hide Changes, Appended;
      for i := 0 to |slots|
        invariant findings == Appended(old(findings), role, SlotChanges(scope, older, newer, slots[..i], pointer, depth))
      {
        var slot := slots[i];
        assert slots[..i + 1][..i] == slots[..i];
        if Has(older, slot) && Has(newer, slot) {
          CompareNode(role, scope, At(older, slot), At(newer, slot), pointer + [slot], depth + 1);
        } else if Has(older, slot) || Has(newer, slot) {
          CompareOneSided(role, older, newer, slot, pointer);
        } else {
          NothingAppended(findings, role);
        }
        AppendedTwice(old(findings), role, SlotChanges(scope, older, newer, slots[..i], pointer, depth),
                      OneSlotChanges(scope, older, newer, slot, pointer, depth));
      }
      assert slots[..|slots|] == slots;
    }

    /** `_compare_combinator` and `_compare_combinator_branches`. */
    method CompareCombinator(role: Role, scope: Scope, older: Schema, newer: Schema, name: CombinatorName, pointer: Pointer, depth: nat)
      requires older.ObjectSchema? && newer.ObjectSchema? && depth <= MAX_COMPARE_DEPTH
      modifies this
      ensures findings == Appended(old(findings), role, CombinatorPart(scope, older, newer, name, pointer, depth))
      decreases MAX_COMPARE_DEPTH + 1 - depth, 1
    {
      hide SlotChanges, Appended, Graded, CombinatorPart;
      var o, n, at := CombinatorOf(older, name), CombinatorOf(newer, name), pointer + [Whole(name)];
      CombinatorPartCases(scope, older, newer, name, pointer, depth);
      NothingAppended(findings, role);
      OneAppended(findings, role, at, CombinatorAdded, Informational);
      OneAppended(findings, role, at, CombinatorRemoved, Informational);
      OneAppended(findings, role, at, ShapeChanged, AlwaysBreaking);
      OneAppended(findings, role, at, BranchCountChanged, AlwaysBreaking);
      if o.NoCombinator? && n.NoCombinator? {
      } else if o.NoCombinator? && n.Branches? {
        if name.AllOf? && n.branches == [] {
          Emit(role, at, CombinatorAdded, Info, Keyword);
        } else {
          EmitKeyword(role, at, CombinatorAdded, true, Keyword);
        }
      } else if o.Branches? && n.NoCombinator? {
        if name.AllOf? && o.branches == [] {
          Emit(role, at, CombinatorRemoved, Info, Keyword);
        } else {
          EmitKeyword(role, at, CombinatorRemoved, false, Keyword);
        }
      } else if !o.Branches? || !n.Branches? {
        Emit(role, at, ShapeChanged, Breaking, Keyword);
      } else if |o.branches| != |n.branches| {
        Emit(role, at, BranchCountChanged, Breaking, Keyword);
      } else {
        CompareSlots(role, scope, older, newer, BranchSlots(name, |o.branches|), pointer, depth);
      }
    }

    /**
     `compare_node` appends exactly the graded changes, in order, and terminates whatever the
     refs do.
     */
    method CompareNode(role: Role, scope: Scope, oldRaw: Schema, newRaw: Schema, pointer: Pointer, depth: nat)
      requires depth <= MAX_COMPARE_DEPTH + 1
      modifies this
      ensures findings == Appended(old(findings), role, Changes(scope, oldRaw, newRaw, pointer, depth))
      decreases MAX_COMPARE_DEPTH + 1 - depth, 3
    {
      var resolved := ResolveNodePair(role, scope, oldRaw, newRaw, pointer, depth);
      if resolved.None? {
        return;
      }
      CompareObjects(role, resolved.value.2, resolved.value.0, resolved.value.1, pointer, depth);
    }

    /** The descent into a subschema both sides have; nothing otherwise. */
    method CompareShared(role: Role, scope: Scope, o: Schema, n: Schema, slot: Slot, pointer: Pointer, depth: nat)
      requires o.ObjectSchema? && n.ObjectSchema? && depth <= MAX_COMPARE_DEPTH
      modifies this
      ensures findings == Appended(old(findings), role, SlotChanges(scope, o, n, SharedSlot(o, n, slot), pointer, depth))
      decreases MAX_COMPARE_DEPTH + 1 - depth, 0
    {
      SharedSlotChanges(scope, o, n, slot, pointer, depth);
      hide SlotChanges, Changes;
      if Has(o, slot) && Has(n, slot) {
        CompareNode(role, scope, At(o, slot), At(n, slot), pointer + [slot], depth + 1);
      }
    }

    /** `_compare_additional_properties`. */
    method CompareAdditionalProperties(role: Role, scope: Scope, o: Schema, n: Schema, pointer: Pointer, depth: nat)
      requires o.ObjectSchema? && n.ObjectSchema? && depth <= MAX_COMPARE_DEPTH
      modifies this
      ensures findings == Appended(old(findings), role, ExtrasPart(scope, o, n, pointer, depth))
      decreases MAX_COMPARE_DEPTH + 1 - depth, 1
    {
      hide SlotChanges, Changes;
      ghost var start := findings;
      CompareRank(role, pointer, o.additional, n.additional);
      CompareShared(role, scope, o, n, Extras, pointer, depth);
      AppendedTwice(start, role, RankChanges(o.additional, n.additional, pointer),
                    SlotChanges(scope, o, n, SharedSlot(o, n, Extras), pointer, depth));
    }

    /** `_compare_properties`. */
    method CompareProperties(role: Role, scope: Scope, o: Schema, n: Schema, pointer: Pointer, depth: nat)
      requires o.ObjectSchema? && n.ObjectSchema? && depth <= MAX_COMPARE_DEPTH
      modifies this
      ensures findings == Appended(old(findings), role, SlotChanges(scope, o, n, PropertySlots(o, n), pointer, depth))
      decreases MAX_COMPARE_DEPTH + 1 - depth, 1
    {
      hide SlotChanges;
      var names := SortTexts(o.properties.Keys + n.properties.Keys);
      CompareSlots(role, scope, o, n, AsProperties(names), pointer, depth);
    }

    /** `_compare_pattern_properties`. */
    method ComparePatternProperties(role: Role, scope: Scope, o: Schema, n: Schema, pointer: Pointer, depth: nat)
      requires o.ObjectSchema? && n.ObjectSchema? && depth <= MAX_COMPARE_DEPTH
      modifies this
      ensures findings == Appended(old(findings), role, SlotChanges(scope, o, n, PatternSlots(o, n), pointer, depth))
      decreases MAX_COMPARE_DEPTH + 1 - depth, 1
    {
      hide SlotChanges;
      var names := SortTexts(o.patternProperties.Keys + n.patternProperties.Keys);
      CompareSlots(role, scope, o, n, AsPatterns(names), pointer, depth);
    }

    /** `_compare_items`. */
    method CompareItems(role: Role, scope: Scope, o: Schema, n: Schema, pointer: Pointer, depth: nat)
      requires o.ObjectSchema? && n.ObjectSchema? && depth <= MAX_COMPARE_DEPTH
      modifies this
      ensures findings == Appended(old(findings), role, ItemsPart(scope, o, n, pointer, depth))
      decreases MAX_COMPARE_DEPTH + 1 - depth, 1
    {
      hide SlotChanges, Changes;
      ghost var start := findings;
      CompareItemShapes(role, pointer, o.items, n.items);
      CompareShared(role, scope, o, n, Element, pointer, depth);
      AppendedTwice(start, role, ItemsChanges(o.items, n.items, pointer),
                    SlotChanges(scope, o, n, SharedSlot(o, n, Element), pointer, depth));
    }

    /** Every keyword comparison of one node, in the order findings are reported. */
    method CompareObjects(role: Role, scope: Scope, o: Schema, n: Schema, pointer: Pointer, depth: nat)
      requires o.ObjectSchema? && n.ObjectSchema? && depth <= MAX_COMPARE_DEPTH
      modifies this
      ensures findings == Appended(old(findings), role, FirstParts(scope, o, n, PARTS, pointer, depth))
      decreases MAX_COMPARE_DEPTH + 1 - depth, 2
    {
      hide SlotChanges, CombinatorPart, ExtrasPart, ItemsPart, TypeChanges, EnumChanges, PatternChanges, MaxChanges,
        MinChanges, RequiredChanges, Appended, FirstParts, Changes, PropertySlots, PatternSlots;
      ghost var start := findings;
      NoPartsYet(start, role, scope, o, n, pointer, depth);
      CompareType(role, pointer, o.types, n.types);
      NextPart(start, role, scope, o, n, 0, pointer, depth);
      CompareEnum(role, pointer, o.enum, n.enum);
      NextPart(start, role, scope, o, n, 1, pointer, depth);
      CompareAdditionalProperties(role, scope, o, n, pointer, depth);
      NextPart(start, role, scope, o, n, 2, pointer, depth);
      ComparePattern(role, pointer, o.pattern, n.pattern);
      NextPart(start, role, scope, o, n, 3, pointer, depth);
      CompareMaxBounds(role, pointer, o.max, n.max);
      NextPart(start, role, scope, o, n, 4, pointer, depth);
      CompareMinBounds(role, pointer, o.min, n.min);
      NextPart(start, role, scope, o, n, 5, pointer, depth);
      CompareRequired(role, pointer, o.required, n.required);
      NextPart(start, role, scope, o, n, 6, pointer, depth);
      CompareProperties(role, scope, o, n, pointer, depth);
      NextPart(start, role, scope, o, n, 7, pointer, depth);
      ComparePatternProperties(role, scope, o, n, pointer, depth);
      NextPart(start, role, scope, o, n, 8, pointer, depth);
      CompareItems(role, scope, o, n, pointer, depth);
      NextPart(start, role, scope, o, n, 9, pointer, depth);
      CompareCombinator(role, scope, o, n, OneOf, pointer, depth);
      NextPart(start, role, scope, o, n, 10, pointer, depth);
      CompareCombinator(role, scope, o, n, AnyOf, pointer, depth);
      NextPart(start, role, scope, o, n, 11, pointer, depth);
      CompareCombinator(role, scope, o, n, AllOf, pointer, depth);
      NextPart(start, role, scope, o, n, 12, pointer, depth);
    }
  }
}
